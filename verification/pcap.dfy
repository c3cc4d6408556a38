/** Capture files: the sender's file and record headers, and the receiver that reads either byte order. */
module PcapFiles {
  import opened Bits
  import opened Sequences
  import opened ByteStreams

  /** The byte order of the machine a program runs on. */
  datatype Order = Little | Big

  const MAGIC: u32 := 0xA1B2C3D4
  const MAGIC_SWAPPED: u32 := 0xD4C3B2A1

  const FILE_HEADER: nat := 24
  const RECORD_HEADER: nat := 16

  /** `static_cast<uint32_t>(n)` */
  function Truncated(n: nat): u32 { n % 0x1_0000_0000 }

  /** A 32-bit word in memory. */
  function WordBytes(v: u32, o: Order): (s: seq<byte>)
    ensures |s| == 4
  {
    var b0, b1, b2, b3 := v % 256, v / 256 % 256, v / 256 / 256 % 256, v / 256 / 256 / 256;
    if o == Little then [b0, b1, b2, b3] else [b3, b2, b1, b0]
  }

  function HalfBytes(v: nat, o: Order): (s: seq<byte>)
    requires v < 0x1_0000
    ensures |s| == 2
  {
    if o == Little then [v % 256, v / 256] else [v / 256, v % 256]
  }

  /** The word with these octets, lowest first. */
  function FromOctets(b0: byte, b1: byte, b2: byte, b3: byte): u32 {
    b0 as int + 256 * b1 as int + 0x1_0000 * b2 as int + 0x100_0000 * b3 as int
  }

  /** The word at an offset in memory. */
  function WordAt(s: seq<byte>, off: nat, o: Order): u32
    requires off + 4 <= |s|
  {
    if o == Little then FromOctets(s[off], s[off + 1], s[off + 2], s[off + 3])
    else FromOctets(s[off + 3], s[off + 2], s[off + 1], s[off])
  }

  /** Each octet masked out, shifted to its mirror place, and the four OR-ed together. */
  function Swap32(v: u32): nat {
    Or(Or(Or(And(v, 0xFF00_0000) / 0x100_0000, And(v, 0xFF_0000) / 256),
          And(v, 0xFF00) * 256),
       And(v, 0xFF) * 0x100_0000)
  }

  /** Magic, version 2.4, zone, accuracy, snapshot length, link type Ethernet. */
  function FileHeader(o: Order): (s: seq<byte>)
    ensures |s| == FILE_HEADER
  {
    WordBytes(MAGIC, o) + HalfBytes(2, o) + HalfBytes(4, o)
    + WordBytes(0, o) + WordBytes(0, o) + WordBytes(65535, o) + WordBytes(1, o)
  }

  /** The sixteen bytes before a packet. */
  type RecordHead = h: seq<byte> | |h| == RECORD_HEADER witness seq(RECORD_HEADER, _ => 0)

  function RecordHeader(size: nat, sec: u32, usec: u32, o: Order): RecordHead {
    WordBytes(sec, o) + WordBytes(usec, o) + WordBytes(Truncated(size), o) + WordBytes(Truncated(size), o)
  }

  function Record(p: Packet, sec: u32, usec: u32, o: Order): seq<byte> {
    RecordHeader(|p|, sec, usec, o) + p
  }

  class PcapSender {
    var file: Stream?
    const host: Order

    constructor (host: Order)
      ensures file == null && this.host == host
    {
      this.host, file := host, null;
    }

    /** Fails on any error, an interruption included, and on a write that moves nothing. */
    method WriteAll(bs: seq<byte>) returns (ok: bool)
      requires file != null && file.Valid()
      modifies file`data, file`events
      ensures file.Valid()
      ensures ok ==> file.data == old(file.data) + bs
      ensures !ok ==> old(file.data) <= file.data < old(file.data) + bs
      ensures old(file.Smooth()) ==> ok && file.Smooth()
    {
      var done := 0;
      while done < |bs|
        invariant done <= |bs| && file.Valid()
        invariant file.data == old(file.data) + bs[..done]
        invariant old(file.Smooth()) ==> file.Smooth()
      {
        var n, interrupted := file.Write(bs[done..]);
        if n <= 0 { return false; }
        assert bs[..done] + bs[done..][..n] == bs[..done + n];
        done := done + n;
      }
      assert bs[..done] == bs;
      return true;
    }

    /** Takes the file just created (null when that failed) and writes the file header. */
    method Open(created: Stream?) returns (status: Status)
      requires created != null ==> created.Valid() && created.data == []
      modifies this, if created == null then {} else {created}
      ensures status == Success || status == OpenFailed
      ensures status == Success ==> created != null && file == created && file.Valid() && file.data == FileHeader(host)
      ensures status != Success ==> file == null
      ensures status != Success && created != null ==> created.Valid() && created.data < FileHeader(host)
      ensures created != null && old(created.Smooth()) ==> status == Success && created.Smooth()
    {
      file := created;
      if file == null { return OpenFailed; }
      var ok := WriteAll(FileHeader(host));
      if !ok {
        file := null;
        return OpenFailed;
      }
      return Success;
    }

    /** Appends the packet as one record; sec and usec are the clock's. */
    method Send(packet: Packet, sec: u32, usec: u32) returns (status: Status)
      requires file != null ==> file.Valid()
      modifies if file == null then {} else {file}
      ensures file == null ==> status == NotOpen
      ensures file != null ==>
                && file.Valid() && (status == Success || status == SendFailed)
                && (status == Success ==> file.data == old(file.data) + Record(packet, sec, usec, host))
                && (status != Success ==>
                      old(file.data) <= file.data < old(file.data) + Record(packet, sec, usec, host))
                && (old(file.Smooth()) ==> status == Success && file.Smooth())
    {
      if file == null { return NotOpen; }
      var ok := WriteAll(RecordHeader(|packet|, sec, usec, host));
      if ok { ok := WriteAll(packet); }
      return if ok then Success else SendFailed;
    }

    method Close()
      modifies this
      ensures file == null
    {
      file := null;
    }
  }

  /** What a receive call does with the bytes not read yet. */
  datatype Reception = Reception(status: Status, packet: Packet, rest: seq<byte>)

  /** The length a receiver takes from the length word of a record header. */
  function InclLen(word: u32, swap: bool): nat { if swap then Swap32(word) else word }

  function Body(s: seq<byte>, n: nat): Reception {
    if |s| < n then Reception(ReceiveFailed, [], []) else Reception(Success, s[..n], s[n..])
  }

  /** How a receiver of this order and swap flag reads the length in a record header. */
  function Announced(o: Order, swap: bool): RecordHead -> nat {
    (h: RecordHead) => InclLen(WordAt(h, 8, o), swap)
  }

  function Receiving(s: seq<byte>, length: RecordHead -> nat): (r: Reception)
    ensures |r.rest| <= |s| && (r.status == Success ==> |r.rest| < |s|)
  {
    if |s| < RECORD_HEADER then Reception(EndOfFile, [], [])
    else Body(s[RECORD_HEADER..], length(s[..RECORD_HEADER]))
  }

  class PcapReceiver {
    var file: Stream?
    var swap: bool
    const host: Order

    constructor (host: Order)
      ensures file == null && !swap && this.host == host
    {
      this.host, file, swap := host, null, false;
    }

    /** Reads exactly len bytes; an interruption is retried, anything else short of len is a failure. */
    method ReadAll(len: nat) returns (ok: bool, buf: seq<byte>)
      requires file != null && file.Valid()
      modifies file`pos, file`events
      ensures file.Valid() && file.pos >= old(file.pos)
      ensures ok ==> old(file.pos) + len <= |file.data| && file.pos == old(file.pos) + len
      ensures ok ==> buf == file.data[old(file.pos)..file.pos]
      ensures old(file.Sound()) ==> file.Sound()
      ensures old(file.Sound()) && !ok ==> old(file.pos) + len > |file.data| && file.pos == |file.data|
    {
      buf := [];
      while |buf| < len
        invariant |buf| <= len && file.Valid() && file.pos == old(file.pos) + |buf|
        invariant buf == file.data[old(file.pos)..file.pos]
        invariant old(file.Sound()) ==> file.Sound()
        decreases |file.events|, len - |buf|
      {
        var n, interrupted, bs := file.Read(len - |buf|);
        if n == 0 { return false, buf; }
        if n < 0 {
          if interrupted { continue; }
          return false, buf;
        }
        buf := buf + bs;
      }
      return true, buf;
    }

    /** Takes the opened file (null when that failed) and checks its magic number. The swap flag is set for the
        other byte order and otherwise left as it was. */
    method Open(capture: Stream?) returns (status: Status)
      requires capture != null ==> capture.Valid() && capture.pos == 0
      modifies this, if capture == null then {} else {capture}
      ensures status == Success || status == OpenFailed
      ensures status == Success ==>
                && capture != null && file == capture && file.Valid() && file.data == old(capture.data)
                && |file.data| >= FILE_HEADER && file.pos == FILE_HEADER
                && (WordAt(file.data, 0, host) == MAGIC || WordAt(file.data, 0, host) == MAGIC_SWAPPED)
                && swap == (old(swap) || WordAt(file.data, 0, host) == MAGIC_SWAPPED)
      ensures status != Success ==> file == null && swap == old(swap)
      ensures capture != null && old(capture.Sound()) ==>
                capture.Sound()
                && (status == Success <==>
                      && |old(capture.data)| >= FILE_HEADER
                      && WordAt(old(capture.data), 0, host) in {MAGIC, MAGIC_SWAPPED})
    {
      file := capture;
      if file == null { return OpenFailed; }
      var ok, header := ReadAll(FILE_HEADER);
      if !ok {
        file := null;
        return OpenFailed;
      }
      var magic := WordAt(header, 0, host);
      if magic == MAGIC_SWAPPED {
        swap := true;
      } else if magic != MAGIC {
        file := null;
        return OpenFailed;
      }
      return Success;
    }

    /** One record. Without read errors the outcome depends only on the bytes. */
    method Receive() returns (status: Status, packet: Packet)
      requires file != null ==> file.Valid()
      modifies if file == null then {} else {file}
      ensures file == null ==> status == NotOpen
      ensures file != null ==>
                && file.Valid() && file.data == old(file.data)
                && (status == Success || status == EndOfFile || status == ReceiveFailed)
                && (status == Success || old(file.Sound()) ==>
                      Reception(status, packet, file.Rest()) == Receiving(old(file.Rest()), Announced(host, swap)))
                && (old(file.Sound()) ==> file.Sound())
    {
      packet := [];
      if file == null { return NotOpen, packet; }
      ghost var rest := file.Rest();
      var ok, header := ReadAll(RECORD_HEADER);
      if !ok { return EndOfFile, packet; }
      assert header == rest[..RECORD_HEADER] && file.Rest() == rest[RECORD_HEADER..];
      var inclLen := InclLen(WordAt(header, 8, host), swap);
      status, packet := ReadBody(inclLen);
    }

    /** The packet itself; an empty one is not read for. */
    method ReadBody(inclLen: nat) returns (status: Status, packet: Packet)
      requires file != null && file.Valid()
      modifies file
      ensures file.Valid() && file.data == old(file.data)
      ensures status == Success || (status == ReceiveFailed && packet == [])
      ensures status == Success || old(file.Sound()) ==>
                Reception(status, packet, file.Rest()) == Body(old(file.Rest()), inclLen)
      ensures old(file.Sound()) ==> file.Sound()
    {
      if inclLen == 0 { return Success, []; }
      var ok, body := ReadAll(inclLen);
      if !ok { return ReceiveFailed, []; }
      return Success, body;
    }

    method Close()
      modifies this
      ensures file == null && swap == old(swap)
    {
      file := null;
    }
  }
}
