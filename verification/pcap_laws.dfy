/** Capture files end to end: which captures replay exactly, in which byte order, and what a cut file yields. */
module PcapLaws {
  import opened Bits
  import opened Sequences
  import opened ByteStreams
  import opened PcapFiles

  datatype Capture = Capture(packet: Packet, sec: u32, usec: u32)

  /** What repeated receives return: the packets, then the status of the call that returned none. */
  datatype Replay = Replay(packets: seq<Packet>, status: Status)

  function Replayed(s: seq<byte>, length: RecordHead -> nat): (r: Replay)
    ensures r.status == EndOfFile || r.status == ReceiveFailed
    decreases |s|
  {
    var r := Receiving(s, length);
    if r.status == Success then
      var rest := Replayed(r.rest, length);
      Replay([r.packet] + rest.packets, rest.status)
    else Replay([], r.status)
  }

  /** The header a sender of order o writes for a capture. */
  function Header(o: Order): Capture -> RecordHead {
    (c: Capture) => RecordHeader(|c.packet|, c.sec, c.usec, o)
  }

  /** A list of captures as records with the given headers. */
  function Records(cs: seq<Capture>, header: Capture -> RecordHead): seq<byte> {
    if cs == [] then [] else header(cs[0]) + cs[0].packet + Records(cs[1..], header)
  }

  function Packets(cs: seq<Capture>): (ps: seq<Packet>)
    ensures |ps| == |cs|
  {
    if cs == [] then [] else [cs[0].packet] + Packets(cs[1..])
  }

  /** The receiver reads a capture's length as it is. */
  predicate LengthKept(c: Capture, header: Capture -> RecordHead, length: RecordHead -> nat) {
    length(header(c)) == |c.packet|
  }

  predicate AllKept(cs: seq<Capture>, header: Capture -> RecordHead, length: RecordHead -> nat) {
    forall c | c in cs :: LengthKept(c, header, length)
  }

  /** Receiving at the start of a record. */
  lemma {:induction false} ReceiveRecord(c: Capture, tail: seq<byte>, h: RecordHead, length: RecordHead -> nat)
    ensures Receiving(h + c.packet + tail, length) == Body(c.packet + tail, length(h))
  {
    var s := h + c.packet + tail;
    assert s[..RECORD_HEADER] == h && s[RECORD_HEADER..] == c.packet + tail;
  }

  /** A record whose length is kept is received whole. */
  lemma {:induction false} ReceiveKept(c: Capture, tail: seq<byte>, h: RecordHead, length: RecordHead -> nat)
    requires length(h) == |c.packet|
    ensures Receiving(h + c.packet + tail, length) == Reception(Success, c.packet, tail)
  {
    ReceiveRecord(c, tail, h, length);
    assert (c.packet + tail)[..|c.packet|] == c.packet && (c.packet + tail)[|c.packet|..] == tail;
  }

  /** The exact condition for a file to replay as the packets sent and then the end, whatever the header formats. */
  lemma {:induction false} ReplaysIffLengthsKept(cs: seq<Capture>, header: Capture -> RecordHead,
                                                 length: RecordHead -> nat)
    ensures Replayed(Records(cs, header), length) == Replay(Packets(cs), EndOfFile)
       <==> forall c | c in cs :: LengthKept(c, header, length)
  {
    if cs != [] {
      var c, tail := cs[0], Records(cs[1..], header);
      assert cs == [c] + cs[1..];
      if LengthKept(c, header, length) {
        ReceiveKept(c, tail, header(c), length);
        ReplaysIffLengthsKept(cs[1..], header, length);
        assert Packets(cs)[1..] == Packets(cs[1..]);
      } else {
        ReceiveRecord(c, tail, header(c), length);
        assert c in cs && Packets(cs)[0] == c.packet;
      }
    }
  }

  /** No packet comes out larger than the lengths a header can announce. */
  lemma {:induction false} ReplayedBelow(s: seq<byte>, length: RecordHead -> nat, limit: nat)
    requires forall h: RecordHead :: length(h) < limit
    ensures forall p | p in Replayed(s, length).packets :: |p| < limit
    decreases |s|
  {
    var r := Receiving(s, length);
    if r.status == Success { ReplayedBelow(r.rest, length, limit); }
  }

  lemma {:induction false} NonEmptyIn(ps: seq<Packet>, p: Packet)
    ensures p in NonEmpty(ps) <==> p in ps && p != []
  {
    if ps != [] {
      var n := |ps| - 1;
      NonEmptyIn(ps[..n], p);
      assert ps == ps[..n] + [ps[n]];
    }
  }

  /** What a loop that passes over empty packets makes of it. */
  function Shown(r: Replay): Replay { Replay(NonEmpty(r.packets), r.status) }

  lemma {:induction false} ShownStep(p: Packet, r: Replay)
    ensures Shown(Replay([p] + r.packets, r.status))
         == if p == [] then Shown(r) else Replay([p] + NonEmpty(r.packets), r.status)
  {
    NonEmptyHead([p] + r.packets);
    assert ([p] + r.packets)[1..] == r.packets;
    assert [] + NonEmpty(r.packets) == NonEmpty(r.packets);
  }

  lemma {:induction false} ShownHead(p: Packet, r: Replay)
    requires p != []
    ensures var ps := Shown(Replay([p] + r.packets, r.status)).packets;
            ps != [] && ps[0] == p
  {
    ShownStep(p, r);
  }

  /** A record announced as a packet of another size, not 0, shows at once. */
  lemma {:induction false} WrongSize(p: Packet, ps: seq<Packet>, s: seq<byte>, length: RecordHead -> nat)
    requires p != [] && |s| >= RECORD_HEADER && length(s[..RECORD_HEADER]) != |p| && length(s[..RECORD_HEADER]) > 0
    ensures Shown(Replayed(s, length)) != Shown(Replay([p] + ps, EndOfFile))
  {
    var r := Receiving(s, length);
    ShownHead(p, Replay(ps, EndOfFile));
    if r.status == Success { ShownHead(r.packet, Replayed(r.rest, length)); }
  }

  /** A packet past every length a header can announce never arrives. */
  lemma {:induction false} NeverArrives(p: Packet, ps: seq<Packet>, s: seq<byte>, length: RecordHead -> nat,
                                        limit: nat)
    requires forall h: RecordHead :: length(h) < limit
    requires p != [] && |p| >= limit
    ensures Shown(Replayed(s, length)) != Shown(Replay([p] + ps, EndOfFile))
  {
    ReplayedBelow(s, length, limit);
    NonEmptyIn(Replayed(s, length).packets, p);
    NonEmptyIn([p] + ps, p);
    assert ([p] + ps)[0] == p;
  }

  /** The same condition when empty packets are passed over: a header announces less than the limit, and nothing only
      for a packet that is empty or past the limit. */
  lemma {:induction false} ShownIffLengthsKept(cs: seq<Capture>, header: Capture -> RecordHead,
                                               length: RecordHead -> nat, limit: nat)
    requires forall h: RecordHead :: length(h) < limit
    requires forall c: Capture :: c.packet == [] ==> length(header(c)) == 0
    requires forall c: Capture :: length(header(c)) == 0 ==> c.packet == [] || |c.packet| >= limit
    ensures Shown(Replayed(Records(cs, header), length)) == Shown(Replay(Packets(cs), EndOfFile))
       <==> forall c | c in cs :: LengthKept(c, header, length)
  {
    if cs != [] {
      var c, rest := cs[0], Records(cs[1..], header);
      assert cs == [c] + cs[1..];
      if LengthKept(c, header, length) {
        ReplayStep(c, rest, header(c), length);
        ShownIffLengthsKept(cs[1..], header, length, limit);
        ShownSame(c.packet, Replayed(rest, length), Replay(Packets(cs[1..]), EndOfFile));
      } else {
        assert c in cs;
        LostRecord(c, cs[1..], header, length, limit);
      }
    }
  }

  lemma {:induction false} ShownSame(p: Packet, r: Replay, q: Replay)
    ensures Shown(Replay([p] + r.packets, r.status)) == Shown(Replay([p] + q.packets, q.status))
       <==> Shown(r) == Shown(q)
  {
    ShownStep(p, r);
    ShownStep(p, q);
    assert ([p] + NonEmpty(r.packets))[1..] == NonEmpty(r.packets);
    assert ([p] + NonEmpty(q.packets))[1..] == NonEmpty(q.packets);
  }

  lemma {:induction false} LostRecord(c: Capture, cs: seq<Capture>, header: Capture -> RecordHead,
                                      length: RecordHead -> nat, limit: nat)
    requires forall h: RecordHead :: length(h) < limit
    requires length(header(c)) != |c.packet| && (c.packet == [] ==> length(header(c)) == 0)
    requires length(header(c)) == 0 ==> |c.packet| >= limit
    ensures Shown(Replayed(header(c) + c.packet + Records(cs, header), length))
         != Shown(Replay([c.packet] + Packets(cs), EndOfFile))
  {
    var s := header(c) + c.packet + Records(cs, header);
    assert s[..RECORD_HEADER] == header(c);
    if length(header(c)) > 0 {
      WrongSize(c.packet, Packets(cs), s, length);
    } else {
      NeverArrives(c.packet, Packets(cs), s, length, limit);
    }
  }

  lemma {:induction false} ReplayStep(c: Capture, tail: seq<byte>, h: RecordHead, length: RecordHead -> nat)
    requires length(h) == |c.packet|
    ensures var rest := Replayed(tail, length);
            Replayed(h + c.packet + tail, length) == Replay([c.packet] + rest.packets, rest.status)
  {
    ReceiveKept(c, tail, h, length);
  }

  /** Whole records come out as their packets, whatever follows them. */
  lemma {:induction false} WholeRecords(cs: seq<Capture>, tail: seq<byte>, header: Capture -> RecordHead,
                                        length: RecordHead -> nat)
    requires forall c | c in cs :: LengthKept(c, header, length)
    ensures var rest := Replayed(tail, length);
            Replayed(Records(cs, header) + tail, length) == Replay(Packets(cs) + rest.packets, rest.status)
  {
    if cs == [] {
      assert [] + tail == tail;
    } else {
      var c, rest := cs[0], Records(cs[1..], header);
      assert LengthKept(c, header, length);
      WholeRecords(cs[1..], tail, header, length);
      ReplayStep(c, rest + tail, header(c), length);
      Assoc(header(c) + c.packet, rest, tail);
      Assoc([c.packet], Packets(cs[1..]), Replayed(tail, length).packets);
    }
  }

  lemma {:induction false} RecordsSplit(cs: seq<Capture>, k: nat, header: Capture -> RecordHead)
    requires k <= |cs|
    ensures Records(cs, header) == Records(cs[..k], header) + Records(cs[k..], header)
    ensures Packets(cs[..k]) == Packets(cs)[..k]
    decreases k
  {
    if k > 0 {
      RecordsSplit(cs[1..], k - 1, header);
      assert cs[..k][1..] == cs[1..][..k - 1] && cs[k..] == cs[1..][k - 1..];
    } else {
      assert cs[0..] == cs && cs[..0] == [];
    }
  }

  lemma {:induction false} CutRecord(c: Capture, cut: nat, h: RecordHead, length: RecordHead -> nat)
    requires length(h) == |c.packet| && cut < RECORD_HEADER + |c.packet|
    ensures Receiving((h + c.packet)[..cut], length)
         == Reception(if cut < RECORD_HEADER then EndOfFile else ReceiveFailed, [], [])
  {
    if cut >= RECORD_HEADER { assert (h + c.packet)[..cut][..RECORD_HEADER] == h; }
  }

  /** A file cut within record k replays the k packets before it, then the end when the cut leaves less than a
      header, and a receive error when it falls in the packet. */
  lemma {:induction false} CutReplays(cs: seq<Capture>, k: nat, cut: nat, header: Capture -> RecordHead,
                                      length: RecordHead -> nat)
    requires AllKept(cs, header, length)
    requires k < |cs| && cut < RECORD_HEADER + |cs[k].packet|
    ensures |Records(cs[..k], header)| + cut <= |Records(cs, header)|
    ensures Replayed(Records(cs, header)[..|Records(cs[..k], header)| + cut], length)
         == Replay(Packets(cs)[..k], if cut < RECORD_HEADER then EndOfFile else ReceiveFailed)
  {
    var c, front := cs[k], Records(cs[..k], header);
    RecordsSplit(cs, k, header);
    assert cs[k..][0] == c;
    assert Records(cs, header)[..|front| + cut] == front + (header(c) + c.packet)[..cut];
    WholeRecords(cs[..k], (header(c) + c.packet)[..cut], header, length);
    assert LengthKept(c, header, length);
    CutRecord(c, cut, header(c), length);
    assert Packets(cs)[..k] + [] == Packets(cs)[..k];
  }

  /** The length a receiver takes a record of n octets to have. */
  function LengthRead(n: nat, sender: Order, receiver: Order, swap: bool): nat {
    InclLen(WordAt(WordBytes(Truncated(n), sender), 0, receiver), swap)
  }

  /** Masking with n ones keeps the low n bits. */
  lemma {:induction false} AndOnes(v: nat, n: nat)
    ensures And(v, Pow2(n) - 1) == Low(v, n)
  {
    if n > 0 {
      assert (Pow2(n) - 1) / 2 == Pow2(n - 1) - 1;
      AndOnes(v / 2, n - 1);
    }
  }

  /** m << n */
  function Doubled(m: nat, n: nat): nat {
    if n == 0 then m else 2 * Doubled(m, n - 1)
  }

  /** Masking above the low n bits. */
  lemma {:induction false} AndDoubled(v: nat, m: nat, n: nat)
    ensures And(v, Doubled(m, n)) == Doubled(And(Halved(v, n), m), n)
  {
    if n > 0 {
      AndEven(v, Doubled(m, n - 1));
      AndDoubled(v / 2, m, n - 1);
    }
  }

  lemma {:induction false} AndEven(v: nat, m: nat)
    ensures And(v, 2 * m) == 2 * And(v / 2, m)
  {
  }

  lemma {:induction false} DoubledOctet(h: nat)
    ensures Doubled(h, 8) == 256 * h
  {
    assert Doubled(h, 1) == 2 * Doubled(h, 0) == 2 * h;
    assert Doubled(h, 3) == 2 * Doubled(h, 2) == 8 * h;
    assert Doubled(h, 5) == 2 * Doubled(h, 4) == 32 * h;
    assert Doubled(h, 7) == 2 * Doubled(h, 6) == 128 * h;
  }

  lemma {:induction false} HalvedDoubled(h: nat, l: nat, n: nat)
    requires l < Pow2(n)
    ensures Halved(Doubled(h, n) + l, n) == h
  {
    if n > 0 {
      HalvedDoubled(h, l / 2, n - 1);
      assert (Doubled(h, n) + l) / 2 == Doubled(h, n - 1) + l / 2;
    }
  }

  lemma {:induction false} LowOctet(v: nat)
    ensures Low(v, 8) == v % 256
  {
    Pow2Eight();
    LowIsMod(v, 8);
  }

  /** Masking the lowest octet. */
  lemma {:induction false} MaskLow(h: nat, l: byte)
    ensures And(256 * h + l, 0xFF) == l
  {
    var v := 256 * h + l;
    assert v % 256 == l;
    LowOctet(v);
    Pow2Eight();
    AndOnes(v, 8);
  }

  /** Masking higher octets clears the lowest. */
  lemma {:induction false} MaskHigh(h: nat, l: byte, m: nat)
    ensures And(256 * h + l, 256 * m) == 256 * And(h, m)
  {
    Pow2Eight();
    DoubledOctet(h);
    DoubledOctet(m);
    AndDoubled(256 * h + l, m, 8);
    HalvedDoubled(h, l, 8);
    DoubledOctet(And(h, m));
  }

  /** Masking two octets up. */
  lemma {:induction false} MaskTwo(v: nat, u: nat, h: nat, b0: byte, b1: byte, m: nat, m1: nat, m2: nat)
    requires v == 256 * u + b0 && u == 256 * h + b1 && m1 == 256 * m && m2 == 256 * m1
    ensures And(v, m2) == 256 * (256 * And(h, m))
  {
    MaskHigh(u, b0, m1);
    MaskHigh(h, b1, m);
  }

  lemma {:induction false} MaskOne(v: nat, u: nat, h: nat, b0: byte, b1: byte)
    requires v == 256 * u + b0 && u == 256 * h + b1
    ensures And(v, 0xFF) == b0 && And(v, 0xFF00) == 256 * b1
  {
    MaskLow(u, b0);
    MaskHigh(u, b0, 0xFF);
    MaskLow(h, b1);
  }

  lemma {:induction false} MaskTop(h: nat, b2: byte, b3: byte)
    requires h == 256 * b3 + b2
    ensures And(h, 0xFF) == b2 && And(h, 0xFF00) == 256 * b3
  {
    MaskOne(h, b3, 0, b2, b3);
  }

  /** Masking one octet of a word. */
  lemma {:induction false} Masks(b0: byte, b1: byte, b2: byte, b3: byte)
    ensures var v := FromOctets(b0, b1, b2, b3);
            && And(v, 0xFF) == b0 && And(v, 0xFF00) == 256 * b1
            && And(v, 0xFF_0000) == 0x1_0000 * b2 && And(v, 0xFF00_0000) == 0x100_0000 * b3
  {
    var h: nat := 256 * b3 + b2;
    var u: nat := 256 * h + b1;
    var v: nat := FromOctets(b0, b1, b2, b3);
    MaskOne(v, u, h, b0, b1);
    MaskTwo(v, u, h, b0, b1, 0xFF, 0xFF00, 0xFF_0000);
    MaskTwo(v, u, h, b0, b1, 0xFF00, 0xFF_0000, 0xFF00_0000);
    MaskTop(h, b2, b3);
  }

  lemma {:induction false} OrOctets(b0: byte, b1: byte, b2: byte, b3: byte)
    ensures Or(Or(Or(b3, b2 * 256), b1 * 0x1_0000), b0 * 0x100_0000) == FromOctets(b3, b2, b1, b0)
  {
    Pow2Eight();
    Pow2Add(8, 8);
    Pow2Add(16, 8);
    OrDisjoint(b3, b2, 8);
    OrDisjoint(b3 + b2 * 256, b1, 16);
    OrDisjoint(b3 + b2 * 256 + b1 * 0x1_0000, b0, 24);
  }

  /** swap32 reverses the octets of a word. */
  lemma {:induction false} SwapReverses(b0: byte, b1: byte, b2: byte, b3: byte)
    ensures Swap32(FromOctets(b0, b1, b2, b3)) == FromOctets(b3, b2, b1, b0)
  {
    Masks(b0, b1, b2, b3);
    OrOctets(b0, b1, b2, b3);
  }

  /** A word is made of its octets. */
  lemma {:induction false} OctetsOf(v: u32) returns (b0: byte, b1: byte, b2: byte, b3: byte)
    ensures WordBytes(v, Little) == [b0, b1, b2, b3] && WordBytes(v, Big) == [b3, b2, b1, b0]
    ensures v == FromOctets(b0, b1, b2, b3)
  {
    b0, b1, b2, b3 := v % 256, v / 256 % 256, v / 256 / 256 % 256, v / 256 / 256 / 256;
  }

  /** A word read in the order it was written in is itself; read in the other order its octets are reversed. */
  lemma {:induction false} WordRead(v: u32, sender: Order, receiver: Order)
    ensures WordAt(WordBytes(v, sender), 0, receiver) == if sender == receiver then v else Swap32(v)
  {
    var b0, b1, b2, b3 := OctetsOf(v);
    ReadOctets([b0, b1, b2, b3], [b3, b2, b1, b0], sender, receiver);
    if sender != receiver {
      assert Swap32(v) == FromOctets(b3, b2, b1, b0) by { SwapReverses(b0, b1, b2, b3); }
    }
  }

  lemma {:induction false} ReadOctets(up: seq<byte>, down: seq<byte>, sender: Order, receiver: Order)
    requires |up| == |down| == 4 && up[0] == down[3] && up[1] == down[2] && up[2] == down[1] && up[3] == down[0]
    ensures WordAt(if sender == Little then up else down, 0, receiver)
         == if sender == receiver then FromOctets(up[0], up[1], up[2], up[3])
            else FromOctets(up[3], up[2], up[1], up[0])
  {
  }

  lemma {:induction false} SwapTwice(v: u32)
    ensures Swap32(v) < 0x1_0000_0000 && Swap32(Swap32(v)) == v
  {
    var b0, b1, b2, b3 := OctetsOf(v);
    SwapReverses(b0, b1, b2, b3);
    SwapReverses(b3, b2, b1, b0);
  }

  /** With the swap flag set exactly for a foreign file, lengths are read as written: modulo 2^32. With the flag
      wrong, they are read with their octets reversed. */
  lemma {:induction false} LengthIsRead(n: nat, sender: Order, receiver: Order, swap: bool)
    ensures LengthRead(n, sender, receiver, swap)
         == if swap == (sender != receiver) then Truncated(n) else Swap32(Truncated(n))
  {
    WordRead(Truncated(n), sender, receiver);
    SwapTwice(Truncated(n));
  }

  /** The length word sits at offset 8 of the header. */
  lemma {:induction false} HeaderLength(c: Capture, sender: Order, receiver: Order, swap: bool)
    ensures Announced(receiver, swap)(Header(sender)(c)) == LengthRead(|c.packet|, sender, receiver, swap)
  {
    var w := WordBytes(Truncated(|c.packet|), sender);
    HeaderWord(WordBytes(c.sec, sender), WordBytes(c.usec, sender), w, receiver);
  }

  lemma {:induction false} HeaderWord(a: seq<byte>, b: seq<byte>, w: seq<byte>, receiver: Order)
    requires |a| == |b| == |w| == 4
    ensures WordAt(a + b + w + w, 8, receiver) == WordAt(w, 0, receiver)
  {
  }

  /* ---------------- the bytes in the file ---------------- */

  /** The 24 octets a capture file starts with, in the order of the machine: magic number, version 2.4, time zone and
      accuracy 0, snapshot length 65535, link type 1. */
  lemma {:induction false} FileHeaderOctets(o: Order)
    ensures var h, little := FileHeader(o), o == Little;
            && |h| == 24
            && h[..4] == (if little then [0xD4, 0xC3, 0xB2, 0xA1] else [0xA1, 0xB2, 0xC3, 0xD4])
            && h[4..8] == (if little then [2, 0, 4, 0] else [0, 2, 0, 4])
            && h[8..12] == [0, 0, 0, 0] && h[12..16] == [0, 0, 0, 0]
            && h[16..20] == (if little then [0xFF, 0xFF, 0, 0] else [0, 0, 0xFF, 0xFF])
            && h[20..] == if little then [1, 0, 0, 0] else [0, 0, 0, 1]
  {
    assert WordBytes(0, o) == [0, 0, 0, 0];
    assert HalfBytes(2, o) + HalfBytes(4, o) == if o == Little then [2, 0, 4, 0] else [0, 2, 0, 4];
    HeaderPieces(WordBytes(MAGIC, o), HalfBytes(2, o), HalfBytes(4, o), WordBytes(0, o), WordBytes(65535, o),
                 WordBytes(1, o));
  }

  lemma {:induction false} HeaderPieces(a: seq<byte>, b: seq<byte>, c: seq<byte>, z: seq<byte>, d: seq<byte>,
                                        e: seq<byte>)
    requires |a| == |z| == |d| == |e| == 4 && |b| == |c| == 2
    ensures var h := a + b + c + z + z + d + e;
            && h[..4] == a && h[4..8] == b + c && h[8..12] == z && h[12..16] == z && h[16..20] == d && h[20..] == e
  {
  }

  /** Octet j of a word: of significance 256^j on a little-endian machine, 256^(3 - j) on the other. */
  lemma {:induction false} WordOctets(v: u32, o: Order)
    ensures var s := WordBytes(v, o);
            && s[if o == Little then 0 else 3] == v % 256
            && s[if o == Little then 1 else 2] == v / 0x100 % 256
            && s[if o == Little then 2 else 1] == v / 0x1_0000 % 256
            && s[if o == Little then 3 else 0] == v / 0x100_0000
  {
  }

  /** The sixteen octets before a packet: seconds, microseconds, and twice the size modulo 2^32. */
  lemma {:induction false} RecordHeaderOctets(size: nat, sec: u32, usec: u32, o: Order)
    ensures var h := RecordHeader(size, sec, usec, o);
            && |h| == 16 && h[..4] == WordBytes(sec, o) && h[4..8] == WordBytes(usec, o)
            && h[8..12] == WordBytes(size % 0x1_0000_0000, o) && h[12..] == h[8..12]
  {
    var w := WordBytes(size % 0x1_0000_0000, o);
    assert RecordHeader(size, sec, usec, o) == WordBytes(sec, o) + WordBytes(usec, o) + w + w;
  }

  /** The header recorded for a capture. */
  lemma {:induction false} CaptureHeader(c: Capture, o: Order)
    ensures var h := Header(o)(c);
            && h[..4] == WordBytes(c.sec, o) && h[4..8] == WordBytes(c.usec, o)
            && h[8..12] == WordBytes(|c.packet| % 0x1_0000_0000, o) && h[12..] == h[8..12]
  {
    RecordHeaderOctets(|c.packet|, c.sec, c.usec, o);
  }

  /** A receiver opens exactly the files whose first four octets are the magic number in one order or the other, and
      takes the file for foreign when that is not its own. */
  lemma {:induction false} MagicOctets(data: seq<byte>, o: Order)
    requires |data| >= 4
    ensures WordAt(data, 0, o) == MAGIC
       <==> data[..4] == if o == Little then [0xD4, 0xC3, 0xB2, 0xA1] else [0xA1, 0xB2, 0xC3, 0xD4]
    ensures WordAt(data, 0, o) == MAGIC_SWAPPED
       <==> data[..4] == if o == Little then [0xA1, 0xB2, 0xC3, 0xD4] else [0xD4, 0xC3, 0xB2, 0xA1]
  {
    var a, b, c, d := data[0], data[1], data[2], data[3];
    assert data[..4] == [a, b, c, d];
    OctetsUnique(a, b, c, d, 0xD4, 0xC3, 0xB2, 0xA1);
    OctetsUnique(d, c, b, a, 0xD4, 0xC3, 0xB2, 0xA1);
    OctetsUnique(a, b, c, d, 0xA1, 0xB2, 0xC3, 0xD4);
    OctetsUnique(d, c, b, a, 0xA1, 0xB2, 0xC3, 0xD4);
    assert FromOctets(0xD4, 0xC3, 0xB2, 0xA1) == MAGIC && FromOctets(0xA1, 0xB2, 0xC3, 0xD4) == MAGIC_SWAPPED;
  }

  lemma {:induction false} OctetsBack(a: byte, b: byte, c: byte, d: byte)
    ensures var v := FromOctets(a, b, c, d);
            v % 256 == a && v / 256 % 256 == b && v / 256 / 256 % 256 == c && v / 256 / 256 / 256 == d
  {
    var x := c as int + 256 * d as int;
    var y := b as int + 256 * x;
    assert FromOctets(a, b, c, d) == a as int + 256 * y && y / 256 == x && x / 256 == d;
  }

  /** A word has one set of octets. */
  lemma {:induction false} OctetsUnique(a: byte, b: byte, c: byte, d: byte, p: byte, q: byte, r: byte, s: byte)
    ensures FromOctets(a, b, c, d) == FromOctets(p, q, r, s) <==> [a, b, c, d] == [p, q, r, s]
  {
    OctetsBack(a, b, c, d);
    OctetsBack(p, q, r, s);
    assert [a, b, c, d] == [p, q, r, s] <==> a == p && b == q && c == r && d == s;
  }

  /** The length a receiver takes from a record header: octets 8 to 11, lowest first on a little-endian machine reading
      a file of its own order or a big-endian one reading a foreign file, highest first otherwise. */
  lemma {:induction false} AnnouncedOctets(h: RecordHead, o: Order, swap: bool)
    ensures Announced(o, swap)(h)
         == if (o == Little) != swap
            then h[8] as int + 0x100 * h[9] as int + 0x1_0000 * h[10] as int + 0x100_0000 * h[11] as int
            else h[11] as int + 0x100 * h[10] as int + 0x1_0000 * h[9] as int + 0x100_0000 * h[8] as int
  {
    SwapReverses(h[8], h[9], h[10], h[11]);
    SwapReverses(h[11], h[10], h[9], h[8]);
  }

  predicate Below4G(c: Capture) { |c.packet| < 0x1_0000_0000 }

  predicate AllBelow4G(cs: seq<Capture>) { forall c | c in cs :: Below4G(c) }

  lemma {:induction false} TruncatedFits(n: nat)
    ensures Truncated(n) == n <==> n < 0x1_0000_0000
  {
  }

  /** With the right flag, exactly the lengths below 2^32 are kept. */
  lemma {:induction false} KeptIffBelow(c: Capture, sender: Order, receiver: Order)
    ensures LengthKept(c, Header(sender), Announced(receiver, sender != receiver)) <==> Below4G(c)
  {
    HeaderLength(c, sender, receiver, sender != receiver);
    LengthIsRead(|c.packet|, sender, receiver, sender != receiver);
    TruncatedFits(|c.packet|);
  }

  lemma {:induction false} AnnouncedBelow(receiver: Order, swap: bool, h: RecordHead)
    ensures Announced(receiver, swap)(h) < 0x1_0000_0000
  {
    SwapTwice(WordAt(h, 8, receiver));
  }

  lemma {:induction false} SwapZero(v: u32)
    ensures Swap32(v) == 0 <==> v == 0
  {
    var b0, b1, b2, b3 := OctetsOf(v);
    SwapReverses(b0, b1, b2, b3);
  }

  /** The length 0 is announced for sizes that are a multiple of 2^32. */
  lemma {:induction false} NothingAnnounced(c: Capture, sender: Order, receiver: Order, swap: bool)
    ensures Announced(receiver, swap)(Header(sender)(c)) == 0 <==> Truncated(|c.packet|) == 0
  {
    var n := |c.packet|;
    assert Announced(receiver, swap)(Header(sender)(c))
        == (if swap == (sender != receiver) then Truncated(n) else Swap32(Truncated(n))) by {
      HeaderLength(c, sender, receiver, swap);
      LengthIsRead(n, sender, receiver, swap);
    }
    SwapZero(Truncated(n));
  }

  /** What passing over empty packets leaves is right exactly when all lengths are kept. */
  lemma {:induction false} ShownIffKept(cs: seq<Capture>, sender: Order, receiver: Order, swap: bool)
    ensures Shown(Replayed(Records(cs, Header(sender)), Announced(receiver, swap)))
              == Replay(NonEmpty(Packets(cs)), EndOfFile)
       <==> forall c | c in cs :: LengthKept(c, Header(sender), Announced(receiver, swap))
  {
    forall h: RecordHead ensures Announced(receiver, swap)(h) < 0x1_0000_0000 { AnnouncedBelow(receiver, swap, h); }
    forall c: Capture
      ensures c.packet == [] ==> Announced(receiver, swap)(Header(sender)(c)) == 0
      ensures Announced(receiver, swap)(Header(sender)(c)) == 0 ==> c.packet == [] || |c.packet| >= 0x1_0000_0000
    {
      NothingAnnounced(c, sender, receiver, swap);
      TruncatedFits(|c.packet|);
    }
    ShownIffLengthsKept(cs, Header(sender), Announced(receiver, swap), 0x1_0000_0000);
  }

  /** Round trip, in the receiver's own byte order or the other: exactly for packets under 2^32 octets, and the same for
      a loop that passes over empty packets. */
  lemma {:induction false} PcapRoundTrip(cs: seq<Capture>, sender: Order, receiver: Order)
    ensures var r := Replayed(Records(cs, Header(sender)), Announced(receiver, sender != receiver));
            && (r == Replay(Packets(cs), EndOfFile) <==> forall c | c in cs :: Below4G(c))
            && (Shown(r) == Replay(NonEmpty(Packets(cs)), EndOfFile) <==> forall c | c in cs :: Below4G(c))
  {
    ReplaysIffLengthsKept(cs, Header(sender), Announced(receiver, sender != receiver));
    ShownIffKept(cs, sender, receiver, sender != receiver);
    forall c | c in cs
      ensures LengthKept(c, Header(sender), Announced(receiver, sender != receiver)) <==> Below4G(c)
    {
      KeptIffBelow(c, sender, receiver);
    }
  }

  lemma {:induction false} BelowKept(cs: seq<Capture>, sender: Order, receiver: Order)
    requires AllBelow4G(cs)
    ensures AllKept(cs, Header(sender), Announced(receiver, sender != receiver))
  {
    forall c | c in cs ensures LengthKept(c, Header(sender), Announced(receiver, sender != receiver)) {
      assert Below4G(c);
      KeptIffBelow(c, sender, receiver);
    }
  }

  /** A cut file: the packets recorded whole, then the end or a receive error according to where the cut falls. */
  lemma {:induction false} PcapCut(cs: seq<Capture>, k: nat, cut: nat, sender: Order, receiver: Order)
    requires AllBelow4G(cs)
    requires k < |cs| && cut < RECORD_HEADER + |cs[k].packet|
    ensures var at := |Records(cs[..k], Header(sender))| + cut;
            && at <= |Records(cs, Header(sender))|
            && Replayed(Records(cs, Header(sender))[..at], Announced(receiver, sender != receiver))
                 == Replay(Packets(cs)[..k], if cut < RECORD_HEADER then EndOfFile else ReceiveFailed)
  {
    var header, length := Header(sender), Announced(receiver, sender != receiver);
    BelowKept(cs, sender, receiver);
    CutReplays(cs, k, cut, header, length);
  }

  lemma {:induction false} FirstWord(w: seq<byte>, rest: seq<byte>, o: Order)
    requires |w| == 4
    ensures WordAt(w + rest, 0, o) == WordAt(w, 0, o)
  {
  }

  lemma {:induction false} MagicRead(sender: Order, receiver: Order)
    ensures WordAt(WordBytes(MAGIC, sender), 0, receiver) == if sender == receiver then MAGIC else MAGIC_SWAPPED
  {
    assert WordBytes(MAGIC, Little) == [0xD4, 0xC3, 0xB2, 0xA1];
    assert WordBytes(MAGIC, Big) == [0xA1, 0xB2, 0xC3, 0xD4];
  }

  /** The magic number tells the two byte orders apart. */
  lemma {:induction false} MagicTells(sender: Order, receiver: Order)
    ensures WordAt(FileHeader(sender), 0, receiver) == if sender == receiver then MAGIC else MAGIC_SWAPPED
  {
    MagicRead(sender, receiver);
    FirstWord(WordBytes(MAGIC, sender), FileHeader(sender)[4..], receiver);
    assert FileHeader(sender) == WordBytes(MAGIC, sender) + FileHeader(sender)[4..];
  }

  /** The swap flag of one receiver after opening files from senders of these orders, one after the other. */
  function SwapAfter(senders: seq<Order>, receiver: Order): bool {
    if senders == [] then false
    else SwapAfter(senders[..|senders| - 1], receiver)
         || WordAt(FileHeader(senders[|senders| - 1]), 0, receiver) == MAGIC_SWAPPED
  }

  /** The flag stays set: it is right for the file open last exactly when that file is foreign or all were native. */
  lemma {:induction false} SwapSticks(senders: seq<Order>, receiver: Order)
    ensures SwapAfter(senders, receiver) <==> exists i | 0 <= i < |senders| :: senders[i] != receiver
  {
    if senders != [] {
      var n := |senders| - 1;
      SwapSticks(senders[..n], receiver);
      MagicTells(senders[n], receiver);
    }
  }

  lemma {:induction false} ShortReversed(n: byte, o: Order)
    ensures LengthRead(n, o, o, true) == 0x100_0000 * n
  {
    LengthIsRead(n, o, o, true);
    TruncatedFits(n);
    SwapReverses(n, 0, 0, 0);
  }

  /** Reopening after a foreign file breaks a native one: a packet of 1 to 255 octets is announced 2^24 times as long.
  */
  lemma {:induction false} ReopenFails(receiver: Order, foreign: Order, c: Capture)
    requires foreign != receiver && 0 < |c.packet| < 256
    ensures SwapAfter([foreign, receiver], receiver)
    ensures Replayed(Records([c], Header(receiver)), Announced(receiver, true)) == Replay([], ReceiveFailed)
  {
    assert [foreign, receiver][0] != receiver;
    SwapSticks([foreign, receiver], receiver);
    ShortReversed(|c.packet|, receiver);
    HeaderLength(c, receiver, receiver, true);
    ReceiveTooLong(c, Header(receiver), Announced(receiver, true));
  }

  lemma {:induction false} ReceiveTooLong(c: Capture, header: Capture -> RecordHead, length: RecordHead -> nat)
    requires length(header(c)) > |c.packet|
    ensures Replayed(Records([c], header), length) == Replay([], ReceiveFailed)
  {
    assert [c][1..] == [];
    ReceiveRecord(c, [], header(c), length);
  }

  /** The length reads the same with its octets reversed. */
  predicate Symmetric(c: Capture) { Swap32(Truncated(|c.packet|)) == |c.packet| }

  lemma {:induction false} KeptIfSymmetric(c: Capture, sender: Order, receiver: Order)
    ensures LengthKept(c, Header(sender), Announced(receiver, sender == receiver)) <==> Symmetric(c)
  {
    HeaderLength(c, sender, receiver, sender == receiver);
    LengthIsRead(|c.packet|, sender, receiver, sender == receiver);
  }

  /** The flag is right for the file opened last: it is foreign, or all were native. */
  predicate FlagRight(senders: seq<Order>, receiver: Order)
    requires senders != []
  {
    senders[|senders| - 1] != receiver || forall i | 0 <= i < |senders| :: senders[i] == receiver
  }

  /** When a receiver that has opened several files replays the last one exactly, and when a loop that passes over empty
      packets does. */
  lemma {:induction false} ReopenedReplays(senders: seq<Order>, receiver: Order, cs: seq<Capture>)
    requires senders != []
    ensures var r := Replayed(Records(cs, Header(senders[|senders| - 1])),
                              Announced(receiver, SwapAfter(senders, receiver)));
            && (r == Replay(Packets(cs), EndOfFile) <==> Shown(r) == Replay(NonEmpty(Packets(cs)), EndOfFile))
            && (r == Replay(Packets(cs), EndOfFile)
                <==> if FlagRight(senders, receiver) then forall c | c in cs :: Below4G(c)
                     else forall c | c in cs :: Symmetric(c))
  {
    var sender := senders[|senders| - 1];
    SwapSticks(senders, receiver);
    ReplaysIffLengthsKept(cs, Header(sender), Announced(receiver, SwapAfter(senders, receiver)));
    ShownIffKept(cs, sender, receiver, SwapAfter(senders, receiver));
    forall c | c in cs
      ensures LengthKept(c, Header(sender), Announced(receiver, sender != receiver)) <==> Below4G(c)
      ensures LengthKept(c, Header(sender), Announced(receiver, sender == receiver)) <==> Symmetric(c)
    {
      KeptIffBelow(c, sender, receiver);
      KeptIfSymmetric(c, sender, receiver);
    }
  }
}
