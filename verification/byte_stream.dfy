/** File descriptors as byte streams whose reads and writes move as much as the system likes, or are interrupted. */
module ByteStreams {
  import opened Bits

  /** The outcome of one system call: interrupted (EINTR), at most k bytes moved, or any other error. When the list
      of outcomes has run out, calls move everything they are asked to. */
  datatype Event = Interrupted | Chunk(k: nat) | Failed

  /** What senders and receivers report. */
  datatype Status = Success | NotOpen | OpenFailed | SendFailed | ReceiveFailed | EndOfFile

  class Stream {
    /** All the bytes written to this stream. */
    var data: seq<byte>
    /** How many of them have been read. */
    var pos: nat
    var events: seq<Event>

    constructor (data: seq<byte>, events: seq<Event>)
      ensures Valid() && this.data == data && pos == 0 && this.events == events
    {
      this.data, pos, this.events := data, 0, events;
    }

    ghost predicate Valid()
      reads this
    {
      pos <= |data|
    }

    /** The bytes not read yet. */
    ghost function Rest(): seq<byte>
      requires Valid()
      reads this
    {
      data[pos..]
    }

    /** No call will report an error other than an interruption. */
    ghost predicate Sound()
      reads this
    {
      Failed !in events
    }

    /** No call will be interrupted, fail or move nothing. */
    ghost predicate Smooth()
      reads this
    {
      forall e | e in events :: e.Chunk? && e.k > 0
    }

    /** write(2): n < 0 is an error, EINTR when interrupted is set. */
    method Write(bs: seq<byte>) returns (n: int, interrupted: bool)
      requires Valid() && bs != []
      modifies this`data, this`events
      ensures Valid() && n <= |bs|
      ensures data == old(data) + if n >= 0 then bs[..n] else []
      ensures old(events) == [] ==> n == |bs| && events == []
      ensures old(events) != [] ==> events == old(events)[1..]
      ensures n < 0 && !interrupted ==> old(events) != [] && old(events)[0] == Failed
      ensures n <= 0 ==> !old(Smooth())
    {
      if events == [] {
        n, interrupted := |bs|, false;
      } else {
        var e := events[0];
        assert e in old(events);
        events := events[1..];
        match e
        case Interrupted => n, interrupted := -1, true;
        case Failed => n, interrupted := -1, false;
        case Chunk(k) => n, interrupted := Min(k, |bs|), false;
      }
      if n >= 0 { data := data + bs[..n]; }
    }

    /** read(2) of up to `len` bytes once the writer is done: 0 at the end of the stream only. */
    method Read(len: nat) returns (n: int, interrupted: bool, bs: seq<byte>)
      requires Valid() && len > 0
      modifies this`pos, this`events
      ensures Valid() && n <= len
      ensures n >= 0 ==> pos == old(pos) + n && bs == data[old(pos)..pos]
      ensures n < 0 ==> pos == old(pos) && bs == []
      ensures n == 0 ==> pos == |data|
      ensures old(events) == [] ==> n == Min(len, |data| - old(pos)) && events == []
      ensures old(events) != [] ==> events == old(events)[1..]
      ensures n < 0 && !interrupted ==> old(events) != [] && old(events)[0] == Failed
    {
      var most := Min(len, |data| - pos);
      bs := [];
      if events == [] {
        n, interrupted := most, false;
      } else {
        var e := events[0];
        events := events[1..];
        match e
        case Interrupted => n, interrupted := -1, true;
        case Failed => n, interrupted := -1, false;
        case Chunk(k) => n, interrupted := Min(Max(k, 1), most), false;
      }
      if n >= 0 {
        bs := data[pos..pos + n];
        pos := pos + n;
      }
    }
  }
}
