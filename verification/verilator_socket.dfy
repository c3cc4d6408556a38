/** The socket transport: packets framed into ten-byte beats on the way out and reassembled on the way in. */
module VerilatorSockets {
  import opened Bits
  import opened Sequences
  import opened AxiStream
  import opened ByteStreams

  const BEAT_SIZE: nat := 10

  /** The low n octets of w, lowest first. */
  function LittleEndian(w: nat, n: nat): (s: seq<byte>)
    ensures |s| == n
  {
    if n == 0 then [] else [w % 256] + LittleEndian(w / 256, n - 1)
  }

  /** The packed structure of a beat: tdata, tkeep, tlast. */
  function BeatBytes(b: Beat): (s: seq<byte>)
    ensures |s| == BEAT_SIZE
  {
    LittleEndian(b.tdata, 8) + [b.tkeep, if b.tlast then 1 else 0]
  }

  function BeatOf(s: seq<byte>): Beat
    requires |s| == BEAT_SIZE
  {
    BeatFits(s, 0, 8);
    Beat(Word(s, 0, 8), s[8], s[9] != 0)
  }

  function BeatsBytes(bs: seq<Beat>): seq<byte> {
    if bs == [] then [] else BeatBytes(bs[0]) + BeatsBytes(bs[1..])
  }

  /** What a receive call does with the bytes not read yet: the status, the packet and what is left. */
  datatype Reception = Reception(status: Status, packet: Packet, rest: seq<byte>)

  function Receiving(s: seq<byte>, packet: Packet): (r: Reception)
    ensures r.status == Success || (r.status == EndOfFile && r.rest == [])
    ensures |r.rest| <= |s| && (r.status == Success ==> |r.rest| < |s|)
    decreases |s|
  {
    if |s| < BEAT_SIZE then Reception(EndOfFile, packet, [])
    else
      var b := BeatOf(s[..BEAT_SIZE]);
      var p := packet + Payload(b);
      if b.tlast then Reception(Success, p, s[BEAT_SIZE..]) else Receiving(s[BEAT_SIZE..], p)
  }

  class VerilatorSender {
    var socket: Stream?

    constructor ()
      ensures socket == null
    {
      socket := null;
    }

    /** Retries after EINTR; continues after a partial write. */
    method WriteAll(bs: seq<byte>) returns (status: Status)
      requires socket != null && socket.Valid()
      modifies socket`data, socket`events
      ensures socket.Valid()
      ensures status == Success ==> socket.data == old(socket.data) + bs
      ensures status != Success ==> status == SendFailed && old(socket.data) <= socket.data < old(socket.data) + bs
      ensures old(socket.Sound()) ==> status == Success && socket.Sound()
    {
      var done := 0;
      while done < |bs|
        invariant done <= |bs| && socket.Valid()
        invariant socket.data == old(socket.data) + bs[..done]
        invariant old(socket.Sound()) ==> socket.Sound()
        decreases |socket.events|, |bs| - done
      {
        var n, interrupted := socket.Write(bs[done..]);
        if n < 0 {
          if interrupted { continue; }
          return SendFailed;
        }
        assert bs[..done] + bs[done..][..n] == bs[..done + n];
        done := done + n;
      }
      assert bs[..done] == bs;
      return Success;
    }

    /** Packs and writes the beat at offset. */
    method SendBeat(packet: Packet, offset: nat) returns (status: Status, next: nat, ghost bytes: seq<byte>)
      requires socket != null && socket.Valid() && offset < |packet|
      modifies socket`data, socket`events
      ensures socket.Valid() && offset < next <= |packet|
      ensures BeatsBytes(Beats(packet, offset)) == bytes + BeatsBytes(Beats(packet, next))
      ensures status == Success ==> socket.data == old(socket.data) + bytes
      ensures status != Success ==> status == SendFailed && old(socket.data) <= socket.data < old(socket.data) + bytes
      ensures old(socket.Sound()) ==> status == Success && socket.Sound()
    {
      var remaining := |packet| - offset;
      var chunkSize := if remaining >= TDATA_BYTES then TDATA_BYTES else remaining;
      var beat := PackBeat(packet, offset);
      FirstBeat(packet, offset);
      bytes := BeatBytes(beat);
      status := WriteAll(BeatBytes(beat));
      next := offset + chunkSize;
    }

    /** Writes the packet's beats; an empty packet writes nothing. */
    method Send(packet: Packet) returns (status: Status)
      requires socket != null ==> socket.Valid()
      modifies if socket == null then {} else {socket}
      ensures socket == null ==> status == NotOpen
      ensures socket != null ==>
                && socket.Valid() && socket.pos == old(socket.pos)
                && (status == Success ==> socket.data == old(socket.data) + BeatsBytes(Beats(packet, 0)))
                && (status != Success ==>
                      && status == SendFailed
                      && old(socket.data) <= socket.data < old(socket.data) + BeatsBytes(Beats(packet, 0)))
                && (old(socket.Sound()) ==> status == Success && socket.Sound())
    {
      if socket == null { return NotOpen; }
      var offset := 0;
      ghost var sent: seq<byte> := [];
      while offset < |packet|
        invariant offset <= |packet| && socket.Valid() && socket.pos == old(socket.pos)
        invariant socket.data == old(socket.data) + sent
        invariant BeatsBytes(Beats(packet, 0)) == sent + BeatsBytes(Beats(packet, offset))
        invariant old(socket.Sound()) ==> socket.Sound()
      {
        ghost var bytes;
        var next;
        status, next, bytes := SendBeat(packet, offset);
        ghost var rest := BeatsBytes(Beats(packet, next));
        Assoc(sent, bytes, rest);
        if status != Success {
          CutShort(old(socket.data), sent, bytes, rest, socket.data);
          return;
        }
        Assoc(old(socket.data), sent, bytes);
        sent := sent + bytes;
        offset := next;
      }
      return Success;
    }
  }

  lemma {:induction false} FirstBeat(p: Packet, off: nat)
    requires off < |p|
    ensures BeatsBytes(Beats(p, off)) == BeatBytes(BeatAt(p, off)) + BeatsBytes(Beats(p, off + AxiStream.Chunk(p, off)))
  {
    assert Beats(p, off)[1..] == Beats(p, off + AxiStream.Chunk(p, off));
  }

  lemma {:induction false} CutShort(before: seq<byte>, sent: seq<byte>, bytes: seq<byte>, rest: seq<byte>,
                                    data: seq<byte>)
    requires before + sent <= data < before + sent + bytes
    ensures before <= data < before + (sent + bytes + rest)
  {
  }

  class VerilatorReceiver {
    var socket: Stream?

    constructor ()
      ensures socket == null
    {
      socket := null;
    }

    /** Reads exactly len bytes: retries after EINTR, continues after a partial read, stops at the end. */
    method ReadAll(len: nat) returns (status: Status, buf: seq<byte>)
      requires socket != null && socket.Valid()
      modifies socket`pos, socket`events
      ensures socket.Valid() && socket.pos >= old(socket.pos)
      ensures status == Success ==>
                old(socket.pos) + len <= |socket.data| && socket.pos == old(socket.pos) + len
                && buf == socket.data[old(socket.pos)..socket.pos]
      ensures status == EndOfFile ==> old(socket.pos) + len > |socket.data| && socket.pos == |socket.data|
      ensures status != Success && status != EndOfFile ==> status == ReceiveFailed
      ensures old(socket.Sound()) ==> status != ReceiveFailed && socket.Sound()
    {
      buf := [];
      while |buf| < len
        invariant |buf| <= len && socket.Valid() && socket.pos == old(socket.pos) + |buf|
        invariant buf == socket.data[old(socket.pos)..socket.pos]
        invariant old(socket.Sound()) ==> socket.Sound()
        decreases |socket.events|, len - |buf|
      {
        var n, interrupted, bs := socket.Read(len - |buf|);
        if n == 0 { return EndOfFile, buf; }
        if n < 0 {
          if interrupted { continue; }
          return ReceiveFailed, buf;
        }
        buf := buf + bs;
      }
      return Success, buf;
    }

    /** Reads beats up to a last one. Interruptions and partial reads do not show in the outcome. */
    method Receive() returns (status: Status, packet: Packet)
      requires socket != null ==> socket.Valid()
      modifies if socket == null then {} else {socket}
      ensures socket == null ==> status == NotOpen
      ensures socket != null ==>
                && socket.Valid() && socket.data == old(socket.data)
                && (status != ReceiveFailed ==>
                      Reception(status, packet, socket.Rest()) == Receiving(old(socket.Rest()), []))
                && (old(socket.Sound()) ==> status != ReceiveFailed && socket.Sound())
    {
      packet := [];
      if socket == null { return NotOpen, packet; }
      var last := false;
      while !last
        invariant socket.Valid() && socket.data == old(socket.data)
        invariant Receiving(old(socket.Rest()), []) ==
                  if last then Reception(Success, packet, socket.Rest()) else Receiving(socket.Rest(), packet)
        invariant old(socket.Sound()) ==> socket.Sound()
        decreases !last, |socket.data| - socket.pos
      {
        ghost var rest := socket.Rest();
        var err, buf := ReadAll(BEAT_SIZE);
        if err != Success { return err, packet; }
        assert buf == rest[..BEAT_SIZE] && socket.Rest() == rest[BEAT_SIZE..];
        var beat := BeatOf(buf);
        packet := UnpackBeat(packet, beat);
        last := beat.tlast;
      }
      return Success, packet;
    }
  }
}
