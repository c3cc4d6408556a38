/** AXI-Stream beats: framing a packet into beats and putting it together again. */
module AxiStream {
  import opened Bits
  import opened Sequences

  /** One transfer: up to eight octets in tdata, first octet lowest; bit i of tkeep marks octet i valid. */
  datatype Beat = Beat(tdata: u64, tkeep: byte, tlast: bool)

  const TDATA_BYTES: nat := 8

  /** n octets of a packet as a little-endian number. */
  function Word(p: Packet, off: nat, n: nat): nat
    requires off + n <= |p|
    decreases n
  {
    if n == 0 then 0 else p[off] + 256 * Word(p, off + 1, n - 1)
  }

  /** `static_cast<uint8_t>(w >> (8 * i))` */
  function OctetOf(w: nat, i: nat): byte {
    if i == 0 then w % 256 else OctetOf(w / 256, i - 1)
  }

  lemma {:induction false} Pow2Octet(n: nat)
    ensures Pow2(8 * (n + 1)) == 256 * Pow2(8 * n)
  {
    Pow2Add(8, 8 * n);
    Pow2Eight();
  }

  lemma {:induction false} WordBound(p: Packet, off: nat, n: nat)
    requires off + n <= |p|
    ensures Word(p, off, n) < Pow2(8 * n)
    decreases n
  {
    if n > 0 {
      WordBound(p, off + 1, n - 1);
      Pow2Octet(n - 1);
    }
  }

  /** `octet << (8 * i)` */
  function Placed(octet: byte, i: nat): nat { octet * Pow2(8 * i) }

  lemma {:induction false} Scaled(o: nat, p: nat, q: nat)
    requires q == 256 * p
    ensures o * q == 256 * (o * p)
  {
  }

  lemma {:induction false} PlacedHigher(octet: byte, i: nat)
    ensures Placed(octet, i + 1) == 256 * Placed(octet, i)
  {
    Pow2Octet(i);
    Scaled(octet, Pow2(8 * i), Pow2(8 * (i + 1)));
  }

  /** The next octet goes in above the ones already there. */
  lemma {:induction false} WordGrows(p: Packet, off: nat, n: nat)
    requires off + n < |p|
    ensures Word(p, off, n + 1) == Word(p, off, n) + Placed(p[off + n], n)
    decreases n
  {
    if n == 0 {
      assert Word(p, off + 1, 0) == 0 && Placed(p[off], 0) == p[off];
    } else {
      WordGrows(p, off + 1, n - 1);
      PlacedHigher(p[off + n], n - 1);
    }
  }

  lemma {:induction false} OctetOfWord(p: Packet, off: nat, n: nat, i: nat)
    requires off + n <= |p| && i < n
    ensures OctetOf(Word(p, off, n), i) == p[off + i]
    decreases n
  {
    if i > 0 { OctetOfWord(p, off + 1, n - 1, i - 1); }
  }

  function Chunk(p: Packet, off: nat): nat
    requires off < |p|
  {
    Min(|p| - off, TDATA_BYTES)
  }

  /** One octet more in tdata. */
  lemma {:induction false} WordOr(p: Packet, off: nat, i: nat)
    requires off + i < |p|
    ensures Or(Word(p, off, i), Placed(p[off + i], i)) == Word(p, off, i + 1)
  {
    WordBound(p, off, i);
    OrDisjoint(Word(p, off, i), p[off + i], 8 * i);
    WordGrows(p, off, i);
  }

  /** The fields of a beat stay inside their ports. */
  lemma {:induction false} BeatFits(p: Packet, off: nat, c: nat)
    requires off + c <= |p| && c <= TDATA_BYTES
    ensures Word(p, off, c) < 0x1_0000_0000_0000_0000
    ensures Pow2(c) <= 256
  {
    WordBound(p, off, c);
    Pow2Mono(8 * c, 64);
    Pow2Word();
    Pow2Mono(c, 8);
    Pow2Eight();
  }

  /** The beat carrying the packet's octets from off on. */
  function BeatAt(p: Packet, off: nat): Beat
    requires off < |p|
  {
    var c := Chunk(p, off);
    BeatFits(p, off, c);
    Beat(Word(p, off, c), Pow2(c) - 1, off + c >= |p|)
  }

  /** The octet of a little-endian word. */
  lemma {:induction false} OctetOfIs(w: nat, i: nat)
    ensures OctetOf(w, i) == w / Pow2(8 * i) % 256
  {
    if i > 0 {
      OctetOfIs(w / 256, i - 1);
      Pow2Octet(i - 1);
      DivOctet(w, Pow2(8 * (i - 1)));
    }
  }

  lemma {:induction false} DivOctet(w: nat, p: nat)
    requires p > 0
    ensures w / (256 * p) == w / 256 / p
  {
    var q, r := w / 256 / p, w / 256 % p;
    assert w == q * (256 * p) + (256 * r + w % 256) by {
      assert w / 256 == q * p + r;
      assert q * (256 * p) == 256 * (q * p);
    }
    DivModUnique(w, 256 * p, q, 256 * r + w % 256);
  }

  lemma {:induction false} WordHigh(p: Packet, off: nat, n: nat, i: nat)
    requires off + n <= |p| && n <= i
    ensures OctetOf(Word(p, off, n), i) == 0
    decreases n
  {
    if n > 0 { WordHigh(p, off + 1, n - 1, i - 1); } else { ZeroOctet(i); }
  }

  lemma {:induction false} ZeroOctet(i: nat)
    ensures OctetOf(0, i) == 0
  {
    if i > 0 { ZeroOctet(i - 1); }
  }

  /** What a beat carries, octet by octet: octet i of TDATA is the packet's next octet but i, 0 past its end; bit i of
      TKEEP says whether there is one; TLAST whether none is left. */
  lemma {:induction false} BeatOctets(p: Packet, off: nat, i: nat)
    requires off < |p| && i < 8
    ensures var b := BeatAt(p, off);
            && b.tdata / Pow2(8 * i) % 256 == (if off + i < |p| then p[off + i] else 0)
            && b.tkeep / Pow2(i) % 2 == (if off + i < |p| then 1 else 0)
            && (b.tlast <==> off + 8 >= |p|)
  {
    var c := Chunk(p, off);
    OctetOfIs(Word(p, off, c), i);
    if i < c { OctetOfWord(p, off, c, i); } else { WordHigh(p, off, c, i); }
    BitOnes(c, i);
    BitIs(Pow2(c) - 1, i);
  }

  /** Frames one beat: the octets are OR-ed into tdata one by one. */
  method PackBeat(p: Packet, off: nat) returns (beat: Beat)
    requires off < |p|
    ensures beat == BeatAt(p, off)
  {
    var remaining := |p| - off;
    var chunk := if remaining >= TDATA_BYTES then TDATA_BYTES else remaining;
    var last := off + chunk >= |p|;
    var tdata: nat := 0;
    for i := 0 to chunk
      invariant tdata == Word(p, off, i)
    {
      WordOr(p, off, i);
      tdata := Or(tdata, Placed(p[off + i], i));
    }
    BeatFits(p, off, chunk);
    beat := Beat(tdata, Pow2(chunk) - 1, last);
  }

  /** The valid octets among the first k of a beat. */
  function Kept(b: Beat, k: nat): seq<byte> {
    if k == 0 then []
    else if Bit(b.tkeep, k - 1) == 1 then Kept(b, k - 1) + [OctetOf(b.tdata, k - 1)]
    else Kept(b, k - 1)
  }

  function Payload(b: Beat): seq<byte> { Kept(b, TDATA_BYTES) }

  /** The octet at place j of TDATA, and TKEEP marks it. */
  predicate Marked(octet: byte, b: Beat, j: nat) {
    b.tkeep / Pow2(j) % 2 == 1 && octet == b.tdata / Pow2(8 * j) % 256
  }

  predicate KeptFrom(octets: seq<byte>, b: Beat, k: nat, at: seq<nat>) {
    && |at| == |octets| && Increasing(at, k)
    && forall i {:trigger Marked(octets[i], b, at[i])} | 0 <= i < |at| :: Marked(octets[i], b, at[i])
  }

  lemma {:induction false} KeptMore(octets: seq<byte>, b: Beat, k: nat, at: seq<nat>, octet: byte)
    requires KeptFrom(octets, b, k, at) && Marked(octet, b, k)
    ensures KeptFrom(octets + [octet], b, k + 1, at + [k])
  {
    forall i | 0 <= i <= |at| ensures Marked((octets + [octet])[i], b, (at + [k])[i]) {
      if i < |at| { assert Marked(octets[i], b, at[i]); }
    }
  }

  lemma {:induction false} MarkedIs(b: Beat, k: nat)
    ensures Bit(b.tkeep, k) == 1 <==> b.tkeep / Pow2(k) % 2 == 1
    ensures Bit(b.tkeep, k) == 1 ==> Marked(OctetOf(b.tdata, k), b, k)
  {
    BitIs(b.tkeep, k);
    OctetOfIs(b.tdata, k);
  }

  lemma {:induction false} KeptOctets(b: Beat, k: nat) returns (at: seq<nat>)
    ensures KeptFrom(Kept(b, k), b, k, at)
    ensures forall j | 0 <= j < k && b.tkeep / Pow2(j) % 2 == 1 :: j in at
  {
    if k == 0 {
      at := [];
    } else {
      var at0 := KeptOctets(b, k - 1);
      at := at0;
      MarkedIs(b, k - 1);
      if Bit(b.tkeep, k - 1) == 1 {
        at := at0 + [k - 1];
        KeptMore(Kept(b, k - 1), b, k - 1, at0, OctetOf(b.tdata, k - 1));
      }
    }
  }

  /** Unpacking any beat gives exactly the octets of TDATA whose bit in TKEEP is set, lowest first. */
  lemma {:induction false} PayloadOctets(b: Beat) returns (at: seq<nat>)
    ensures KeptFrom(Payload(b), b, 8, at)
    ensures forall j | 0 <= j < 8 && b.tkeep / Pow2(j) % 2 == 1 :: j in at
  {
    at := KeptOctets(b, 8);
  }

  /** Appends a beat's valid octets to a packet. */
  method UnpackBeat(packet0: Packet, beat: Beat) returns (packet: Packet)
    ensures packet == packet0 + Payload(beat)
  {
    packet := packet0;
    for i := 0 to TDATA_BYTES
      invariant packet == packet0 + Kept(beat, i)
    {
      if Bit(beat.tkeep, i) == 1 {
        packet := packet + [OctetOf(beat.tdata, i)];
      }
    }
  }

  lemma {:induction false} BitOnes(c: nat, i: nat)
    ensures Bit(Pow2(c) - 1, i) == if i < c then 1 else 0
  {
    if c == 0 {
      BitZero(i);
    } else if i > 0 {
      assert (Pow2(c) - 1) / 2 == Pow2(c - 1) - 1;
      BitOnes(c - 1, i - 1);
    }
  }

  lemma {:induction false} KeptOfWord(b: Beat, p: Packet, off: nat, c: nat, k: nat)
    requires off + c <= |p| && b.tdata == Word(p, off, c) && b.tkeep == Pow2(c) - 1
    ensures Kept(b, k) == p[off..off + Min(k, c)]
  {
    if k > 0 {
      KeptOfWord(b, p, off, c, k - 1);
      BitOnes(c, k - 1);
      if k <= c {
        OctetOfWord(p, off, c, k - 1);
        assert p[off..off + k] == p[off..off + (k - 1)] + [p[off + (k - 1)]];
      }
    }
  }

  /** A beat yields exactly the octets it was made of. */
  lemma {:induction false} PayloadOfBeat(p: Packet, off: nat)
    requires off < |p|
    ensures Payload(BeatAt(p, off)) == p[off..off + Chunk(p, off)]
  {
    KeptOfWord(BeatAt(p, off), p, off, Chunk(p, off), TDATA_BYTES);
  }

  /** The beats of a packet from off on. */
  function Beats(p: Packet, off: nat): seq<Beat>
    decreases |p| - off
  {
    if off >= |p| then [] else [BeatAt(p, off)] + Beats(p, off + Chunk(p, off))
  }

  /** The beats of several packets in order. */
  function AllBeats(ps: seq<Packet>): seq<Beat> {
    if ps == [] then [] else AllBeats(ps[..|ps| - 1]) + Beats(ps[|ps| - 1], 0)
  }

  lemma {:induction false} AllBeatsPrefix(ps: seq<Packet>, k: nat)
    requires k <= |ps|
    ensures AllBeats(ps[..k]) <= AllBeats(ps)
  {
    if k < |ps| {
      AllBeatsPrefix(ps[..|ps| - 1], k);
      assert ps[..|ps| - 1][..k] == ps[..k];
    } else {
      assert ps[..k] == ps;
    }
  }

  lemma {:induction false} AllBeatsPush(ps: seq<Packet>, p: Packet)
    ensures AllBeats(ps + [p]) == AllBeats(ps) + Beats(p, 0)
  {
    assert (ps + [p])[..|ps|] == ps;
  }

  lemma {:induction false} ConcatPush(ps: seq<Packet>, qs: seq<Packet>, q: Packet)
    requires AllBeats(ps + qs) == AllBeats(ps) + AllBeats(qs)
    ensures AllBeats(ps + (qs + [q])) == AllBeats(ps) + AllBeats(qs + [q])
  {
    AllBeatsPush(ps + qs, q);
    AllBeatsPush(qs, q);
    Assoc(ps, qs, [q]);
    Assoc(AllBeats(ps), AllBeats(qs), Beats(q, 0));
  }

  lemma {:induction false} AllBeatsConcat(ps: seq<Packet>, qs: seq<Packet>)
    ensures AllBeats(ps + qs) == AllBeats(ps) + AllBeats(qs)
  {
    if qs == [] {
      assert ps + qs == ps;
    } else {
      var n := |qs| - 1;
      AllBeatsConcat(ps, qs[..n]);
      ConcatPush(ps, qs[..n], qs[n]);
      assert qs == qs[..n] + [qs[n]];
    }
  }

  lemma {:induction false} AllBeatsHead(ps: seq<Packet>)
    requires ps != []
    ensures AllBeats(ps) == Beats(ps[0], 0) + AllBeats(ps[1..])
  {
    AllBeatsPush([], ps[0]);
    AllBeatsConcat([ps[0]], ps[1..]);
    assert [ps[0]] + ps[1..] == ps && [] + [ps[0]] == [ps[0]];
    assert [] + Beats(ps[0], 0) == Beats(ps[0], 0);
  }

  /** A receiver's state: the packets completed, and the octets of the one under way. */
  datatype Assembly = Assembly(done: seq<Packet>, partial: Packet)

  function Feed(a: Assembly, b: Beat): Assembly {
    var packet := a.partial + Payload(b);
    if b.tlast then Assembly(a.done + [packet], []) else Assembly(a.done, packet)
  }

  function FeedAll(a: Assembly, bs: seq<Beat>): Assembly {
    if bs == [] then a else Feed(FeedAll(a, bs[..|bs| - 1]), bs[|bs| - 1])
  }

  const NOTHING: Assembly := Assembly([], [])

  lemma {:induction false} FeedOne(a: Assembly, bs: seq<Beat>, b: Beat)
    ensures FeedAll(a, bs + [b]) == Feed(FeedAll(a, bs), b)
  {
    assert (bs + [b])[..|bs|] == bs;
  }

  lemma {:induction false} FeedConcat(a: Assembly, xs: seq<Beat>, ys: seq<Beat>)
    ensures FeedAll(a, xs + ys) == FeedAll(FeedAll(a, xs), ys)
  {
    if ys == [] {
      assert xs + ys == xs;
    } else {
      var n := |ys| - 1;
      FeedConcat(a, xs, ys[..n]);
      assert (xs + ys)[..|xs| + n] == xs + ys[..n];
    }
  }

  /** Feeding only ever adds completed packets. */
  lemma {:induction false} FeedMonotone(a: Assembly, bs: seq<Beat>)
    ensures a.done <= FeedAll(a, bs).done
  {
    if bs != [] { FeedMonotone(a, bs[..|bs| - 1]); }
  }

  /** More beats never lose a packet already complete. */
  lemma {:induction false} FeedBetween(xs: seq<Beat>, zs: seq<Beat>)
    requires xs <= zs
    ensures FeedAll(NOTHING, xs).done <= FeedAll(NOTHING, zs).done
  {
    var ys := zs[|xs|..];
    assert zs == xs + ys;
    FeedConcat(NOTHING, xs, ys);
    FeedMonotone(FeedAll(NOTHING, xs), ys);
  }

  /** One beat of a packet whose first off octets are in. */
  lemma {:induction false} FeedBeat(a: Assembly, p: Packet, off: nat)
    requires off < |p| && a.partial == p[..off]
    ensures var c := Chunk(p, off);
            Feed(a, BeatAt(p, off)) ==
            if off + c == |p| then Assembly(a.done + [p], []) else Assembly(a.done, p[..off + c])
  {
    PayloadOfBeat(p, off);
    assert p[..off] + p[off..off + Chunk(p, off)] == p[..off + Chunk(p, off)];
    assert p[..|p|] == p;
  }

  /** A packet's beats put the packet together, whatever came before. */
  lemma {:induction false} FeedPacket(a: Assembly, p: Packet, off: nat)
    requires off < |p| && a.partial == p[..off]
    ensures FeedAll(a, Beats(p, off)) == Assembly(a.done + [p], [])
    decreases |p| - off
  {
    var c := Chunk(p, off);
    var b := BeatAt(p, off);
    FeedBeat(a, p, off);
    FeedConcat(a, [b], Beats(p, off + c));
    FeedOne(a, [], b);
    assert [] + [b] == [b];
    if off + c < |p| {
      FeedPacket(Feed(a, b), p, off + c);
    } else {
      assert Beats(p, off + c) == [];
    }
  }

  /** Framing and reassembly are inverse: the beats of a list of packets yield its non-empty packets in order. */
  lemma {:induction false} FeedPackets(ps: seq<Packet>)
    ensures FeedAll(NOTHING, AllBeats(ps)) == Assembly(NonEmpty(ps), [])
  {
    if ps != [] {
      var front, p := ps[..|ps| - 1], ps[|ps| - 1];
      FeedPackets(front);
      FeedConcat(NOTHING, AllBeats(front), Beats(p, 0));
      if p != [] { FeedPacket(FeedAll(NOTHING, AllBeats(front)), p, 0); }
    }
  }

  /** A packet takes ceil(n/8) beats; TLAST marks only the last, and every other is full (TKEEP 0xFF). */
  lemma {:induction false} BeatsShape(p: Packet, off: nat, i: nat)
    requires off <= |p| && i < |Beats(p, off)|
    ensures |Beats(p, off)| == (|p| - off + 7) / 8
    ensures Beats(p, off)[i].tlast <==> i == |Beats(p, off)| - 1
    ensures i < |Beats(p, off)| - 1 ==> Beats(p, off)[i].tkeep == 0xFF
    decreases |p| - off
  {
    var c := Chunk(p, off);
    Pow2Eight();
    if off + c < |p| {
      BeatsShape(p, off + c, if i > 0 then i - 1 else 0);
    }
  }
}
