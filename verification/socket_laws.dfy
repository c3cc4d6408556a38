/** The socket transport end to end: the non-empty packets, in order, then the end; a cut stream gives a prefix. */
module SocketLaws {
  import opened Bits
  import opened Sequences
  import opened AxiStream
  import ByteStreams
  import opened VerilatorSockets

  /** The complete beats in a byte stream. */
  function WireBeats(s: seq<byte>): seq<Beat> {
    if |s| < BEAT_SIZE then [] else [BeatOf(s[..BEAT_SIZE])] + WireBeats(s[BEAT_SIZE..])
  }

  /** The packets that calling receive until it reports the end returns. */
  function ReceivedAll(s: seq<byte>): seq<Packet>
    decreases |s|
  {
    var r := Receiving(s, []);
    if r.status == ByteStreams.Success then [r.packet] + ReceivedAll(r.rest) else []
  }

  lemma {:induction false} WordLittleEndian(s: seq<byte>, off: nat, w: nat, n: nat)
    requires off + n <= |s| && s[off..off + n] == LittleEndian(w, n) && w < Pow2(8 * n)
    ensures Word(s, off, n) == w
    decreases n
  {
    if n > 0 {
      Pow2Octet(n - 1);
      assert s[off + 1..off + n] == s[off..off + n][1..];
      WordLittleEndian(s, off + 1, w / 256, n - 1);
      assert s[off] == s[off..off + n][0];
    }
  }

  /* ---------------- the bytes on the wire ---------------- */

  lemma {:induction false} LittleEndianAt(w: nat, n: nat, j: nat)
    requires j < n
    ensures LittleEndian(w, n)[j] == OctetOf(w, j)
  {
    if j > 0 { LittleEndianAt(w / 256, n - 1, j - 1); }
  }

  /** The packed structure: eight octets of TDATA, lowest first, then TKEEP, then TLAST as 0 or 1. */
  lemma {:induction false} BeatLayout(b: Beat, j: nat)
    requires j < 10
    ensures |BeatBytes(b)| == 10
    ensures BeatBytes(b)[j] == if j < 8 then b.tdata / Pow2(8 * j) % 256
                               else if j == 8 then b.tkeep else if b.tlast then 1 else 0
  {
    if j < 8 {
      LittleEndianAt(b.tdata, 8, j);
      OctetOfIs(b.tdata, j);
    }
  }

  lemma {:induction false} BeatsAt(p: Packet, off: nat, k: nat)
    requires k < |Beats(p, off)|
    ensures off + 8 * k < |p| && Beats(p, off)[k] == BeatAt(p, off + 8 * k)
    decreases k
  {
    if k > 0 { BeatsAt(p, off + AxiStream.Chunk(p, off), k - 1); }
  }

  lemma {:induction false} BeatsBytesAt(bs: seq<Beat>, k: nat, j: nat)
    requires k < |bs| && j < 10
    ensures |BeatsBytes(bs)| == 10 * |bs| && BeatsBytes(bs)[10 * k + j] == BeatBytes(bs[k])[j]
    decreases k
  {
    BeatsSize(bs);
    if k > 0 {
      BeatsBytesAt(bs[1..], k - 1, j);
      assert BeatsBytes(bs)[10 * k + j] == BeatsBytes(bs[1..])[10 * (k - 1) + j];
    }
  }

  /** Every octet a send writes, from the packet alone: ten for each beat of eight octets, of which the first eight are
      the packet's next octets, zeros past its end. */
  lemma {:induction false} SentOctets(p: Packet, b: nat, j: nat)
    requires 8 * b < |p| && j < 10
    ensures |BeatsBytes(Beats(p, 0))| == 10 * ((|p| + 7) / 8) && 10 * b + j < |BeatsBytes(Beats(p, 0))|
    ensures var octet := BeatsBytes(Beats(p, 0))[10 * b + j];
            && (j < 8 ==> octet == if 8 * b + j < |p| then p[8 * b + j] else 0)
            && (j == 8 ==> forall i | 0 <= i < 8 :: octet / Pow2(i) % 2 == if 8 * b + i < |p| then 1 else 0)
            && (j == 9 ==> octet == if 8 * (b + 1) >= |p| then 1 else 0)
  {
    BeatsShape(p, 0, 0);
    BeatsAt(p, 0, b);
    BeatsBytesAt(Beats(p, 0), b, j);
    BeatLayout(BeatAt(p, 8 * b), j);
    forall i | 0 <= i < 8 ensures BeatAt(p, 8 * b).tkeep / Pow2(i) % 2 == if 8 * b + i < |p| then 1 else 0 {
      BeatOctets(p, 8 * b, i);
    }
    BeatOctets(p, 8 * b, if j < 8 then j else 0);
  }

  lemma {:induction false} WordOctet(s: seq<byte>, off: nat, n: nat, i: nat)
    requires off + n <= |s| && i < n
    ensures Word(s, off, n) / Pow2(8 * i) % 256 == s[off + i]
  {
    OctetOfWord(s, off, n, i);
    OctetOfIs(Word(s, off, n), i);
  }

  /** What a receiver makes of ten octets. */
  lemma {:induction false} BeatReadLayout(s: seq<byte>, i: nat)
    requires |s| == 10 && i < 8
    ensures var b := BeatOf(s); b.tdata / Pow2(8 * i) % 256 == s[i] && b.tkeep == s[8] && (b.tlast <==> s[9] != 0)
  {
    WordOctet(s, 0, 8, i);
  }

  /** The octets marked in the first n beats. */
  function PayloadTo(s: seq<byte>, n: nat): Packet
    requires 10 * n <= |s|
  {
    if n == 0 then [] else Payload(BeatOf(s[..10])) + PayloadTo(s[10..], n - 1)
  }

  /** The beat at place k is the last of its packet: its tenth octet is not 0. */
  predicate EndsPacket(s: seq<byte>, k: nat) { 10 * (k + 1) <= |s| && s[10 * k + 9] != 0 }

  lemma {:induction false} EndsBehind(s: seq<byte>, k: nat)
    requires |s| >= 10
    ensures EndsPacket(s[10..], k) == EndsPacket(s, k + 1)
  {
  }

  /** A receive call takes the beats up to and including the first that ends a packet, and returns what they carry. */
  lemma {:induction false} ReceiveTakes(s: seq<byte>, n: nat, packet: Packet)
    requires EndsPacket(s, n) && forall k: nat | k < n :: !EndsPacket(s, k)
    ensures Receiving(s, packet) == Reception(ByteStreams.Success, packet + PayloadTo(s, n + 1), s[10 * (n + 1)..])
    decreases n
  {
    assert s[..10][9] == s[9];
    if n > 0 {
      assert !EndsPacket(s, 0);
      forall k: nat | k < n - 1 ensures !EndsPacket(s[10..], k) { EndsBehind(s, k); }
      EndsBehind(s, n - 1);
      ReceiveTakes(s[10..], n - 1, packet + Payload(BeatOf(s[..10])));
      Assoc(packet, Payload(BeatOf(s[..10])), PayloadTo(s[10..], n));
      assert s[10..][10 * n..] == s[10 * (n + 1)..];
    } else {
      assert PayloadTo(s[10..], 0) == [];
    }
  }

  /** Without such a beat it reports the end. */
  lemma {:induction false} ReceiveEnds(s: seq<byte>, packet: Packet)
    requires forall k: nat :: !EndsPacket(s, k)
    ensures Receiving(s, packet).status == ByteStreams.EndOfFile
    decreases |s|
  {
    if |s| >= 10 {
      assert !EndsPacket(s, 0);
      forall k: nat ensures !EndsPacket(s[10..], k) { EndsBehind(s, k); }
      ReceiveEnds(s[10..], packet + Payload(BeatOf(s[..10])));
    }
  }

  /** A beat survives its ten-byte form. */
  lemma {:induction false} BeatRoundTrip(b: Beat)
    ensures BeatOf(BeatBytes(b)) == b
  {
    var s := BeatBytes(b);
    Pow2Word();
    assert s[0..8] == LittleEndian(b.tdata, 8);
    WordLittleEndian(s, 0, b.tdata, 8);
  }

  lemma {:induction false} BeatsSize(bs: seq<Beat>)
    ensures |BeatsBytes(bs)| == BEAT_SIZE * |bs|
  {
    if bs != [] { BeatsSize(bs[1..]); }
  }

  /** Cutting a stream of beats leaves the beats that are complete. */
  lemma {:induction false} CutBeats(bs: seq<Beat>, cut: nat)
    requires cut <= |BeatsBytes(bs)|
    ensures cut / BEAT_SIZE <= |bs| && WireBeats(BeatsBytes(bs)[..cut]) == bs[..cut / BEAT_SIZE]
  {
    BeatsSize(bs);
    if cut >= BEAT_SIZE {
      var s, rest := BeatsBytes(bs), BeatsBytes(bs[1..]);
      CutBeats(bs[1..], cut - BEAT_SIZE);
      BeatRoundTrip(bs[0]);
      assert s == BeatBytes(bs[0]) + rest;
      assert s[..cut][..BEAT_SIZE] == BeatBytes(bs[0]);
      assert s[..cut][BEAT_SIZE..] == rest[..cut - BEAT_SIZE];
      assert bs[..cut / BEAT_SIZE] == [bs[0]] + bs[1..][..(cut - BEAT_SIZE) / BEAT_SIZE];
    }
  }

  lemma {:induction false} WholeBeats(bs: seq<Beat>)
    ensures WireBeats(BeatsBytes(bs)) == bs
  {
    var s := BeatsBytes(bs);
    CutBeats(bs, |s|);
    BeatsSize(bs);
    assert s[..|s|] == s && bs[..|bs|] == bs;
  }

  /** One receive call feeds on the beats up to and including the first last one. */
  lemma {:induction false} ReceiveFeeds(s: seq<byte>, done: seq<Packet>, packet: Packet)
    ensures var r := Receiving(s, packet);
            var a := FeedAll(Assembly(done, packet), WireBeats(s));
            if r.status == ByteStreams.Success then a == FeedAll(Assembly(done + [r.packet], []), WireBeats(r.rest))
            else a == Assembly(done, r.packet)
    decreases |s|
  {
    if |s| >= BEAT_SIZE {
      var b := BeatOf(s[..BEAT_SIZE]);
      var a := Assembly(done, packet);
      FeedConcat(a, [b], WireBeats(s[BEAT_SIZE..]));
      FeedOne(a, [], b);
      assert [] + [b] == [b];
      if !b.tlast { ReceiveFeeds(s[BEAT_SIZE..], done, packet + Payload(b)); }
    }
  }

  /** Calling receive until the end is reassembling the complete beats. */
  lemma {:induction false} ReceivedIsFed(s: seq<byte>, done: seq<Packet>)
    ensures FeedAll(Assembly(done, []), WireBeats(s)).done == done + ReceivedAll(s)
    decreases |s|
  {
    var r := Receiving(s, []);
    ReceiveFeeds(s, done, []);
    if r.status == ByteStreams.Success {
      ReceivedIsFed(r.rest, done + [r.packet]);
      assert done + [r.packet] + ReceivedAll(r.rest) == done + ReceivedAll(s);
    }
  }

  function Stream(ps: seq<Packet>): seq<byte> { BeatsBytes(AllBeats(ps)) }

  /** Round trip: repeated receives return exactly the non-empty packets sent, in order. */
  lemma {:induction false} SocketRoundTrip(ps: seq<Packet>)
    ensures ReceivedAll(Stream(ps)) == NonEmpty(ps)
  {
    WholeBeats(AllBeats(ps));
    ReceivedIsFed(Stream(ps), []);
    FeedPackets(ps);
    assert [] + ReceivedAll(Stream(ps)) == ReceivedAll(Stream(ps));
  }

  /** A stream cut anywhere gives a prefix of the non-empty packets, among them at least the k packets whose bytes
      all lie before the cut; then the end. */
  lemma {:induction false} SocketCut(ps: seq<Packet>, k: nat, cut: nat)
    requires k <= |ps| && |Stream(ps[..k])| <= cut <= |Stream(ps)|
    ensures NonEmpty(ps[..k]) <= ReceivedAll(Stream(ps)[..cut]) <= NonEmpty(ps)
  {
    var got := ReceivedAll(Stream(ps)[..cut]);
    ReceivedIsFed(Stream(ps)[..cut], []);
    assert [] + got == got;
    CutBeats(AllBeats(ps), cut);
    CutBetween(ps, k, cut);
    FeedBetween(AllBeats(ps[..k]), AllBeats(ps)[..cut / BEAT_SIZE]);
    FeedBetween(AllBeats(ps)[..cut / BEAT_SIZE], AllBeats(ps));
    FeedPackets(ps[..k]);
    FeedPackets(ps);
  }

  lemma {:induction false} StreamFront(ps: seq<Packet>, k: nat)
    requires k <= |ps|
    ensures |Stream(ps[..k])| <= |Stream(ps)|
  {
    AllBeatsPrefix(ps, k);
    BeatsSize(AllBeats(ps[..k]));
    BeatsSize(AllBeats(ps));
  }

  /** Beats before a packet's last one complete nothing. */
  lemma {:induction false} NothingDone(a: Assembly, bs: seq<Beat>)
    requires forall i | 0 <= i < |bs| :: !bs[i].tlast
    ensures FeedAll(a, bs).done == a.done
  {
    if bs != [] { NothingDone(a, bs[..|bs| - 1]); }
  }

  /** A stream that stops within the packet behind ps holds that packet's first beats, but not the last. */
  lemma {:induction false} UnfinishedBeats(ps: seq<Packet>, p: Packet, data: seq<byte>) returns (m: nat)
    requires Stream(ps) <= data < Stream(ps + [p])
    ensures m < |Beats(p, 0)| && WireBeats(data) == AllBeats(ps) + Beats(p, 0)[..m]
  {
    var front, bs := AllBeats(ps), Beats(p, 0);
    AllBeatsPush(ps, p);
    BeatsSize(front);
    BeatsSize(front + bs);
    m := |data| / BEAT_SIZE - |front|;
    CutBeats(front + bs, |data|);
    assert data == Stream(ps + [p])[..|data|];
    assert (front + bs)[..|front| + m] == front + bs[..m];
  }

  /** The first beats of a packet, without the last, complete nothing. */
  lemma {:induction false} UnfinishedFed(a: Assembly, p: Packet, m: nat)
    requires m < |Beats(p, 0)|
    ensures FeedAll(a, Beats(p, 0)[..m]).done == a.done
  {
    forall i | 0 <= i < m ensures !Beats(p, 0)[..m][i].tlast { BeatsShape(p, 0, i); }
    NothingDone(a, Beats(p, 0)[..m]);
  }

  /** Such a stream yields exactly the packets of ps. */
  lemma {:induction false} UnfinishedPacket(ps: seq<Packet>, p: Packet, data: seq<byte>)
    requires Stream(ps) <= data < Stream(ps + [p])
    ensures ReceivedAll(data) == NonEmpty(ps)
  {
    var m := UnfinishedBeats(ps, p, data);
    FeedConcat(NOTHING, AllBeats(ps), Beats(p, 0)[..m]);
    UnfinishedFed(FeedAll(NOTHING, AllBeats(ps)), p, m);
    FeedPackets(ps);
    ReceivedIsFed(data, []);
    assert [] + ReceivedAll(data) == ReceivedAll(data);
  }

  lemma {:induction false} CutBetween(ps: seq<Packet>, k: nat, cut: nat)
    requires k <= |ps| && |Stream(ps[..k])| <= cut <= |Stream(ps)|
    ensures cut / BEAT_SIZE <= |AllBeats(ps)|
    ensures AllBeats(ps[..k]) <= AllBeats(ps)[..cut / BEAT_SIZE]
  {
    BeatsSize(AllBeats(ps[..k]));
    BeatsSize(AllBeats(ps));
    AllBeatsPrefix(ps, k);
  }

  lemma {:induction false} BeatsBytesConcat(bs: seq<Beat>, cs: seq<Beat>)
    ensures BeatsBytes(bs + cs) == BeatsBytes(bs) + BeatsBytes(cs)
    decreases bs
  {
    if bs == [] {
      assert bs + cs == cs;
    } else {
      BeatsBytesConcat(bs[1..], cs);
      assert (bs + cs)[1..] == bs[1..] + cs;
      Assoc(BeatBytes(bs[0]), BeatsBytes(bs[1..]), BeatsBytes(cs));
    }
  }

  /** What one more send adds to the stream. */
  lemma {:induction false} StreamStep(ps: seq<Packet>, p: Packet)
    ensures Stream(ps + [p]) == Stream(ps) + BeatsBytes(Beats(p, 0))
  {
    assert (ps + [p])[..|ps|] == ps;
    BeatsBytesConcat(AllBeats(ps), Beats(p, 0));
  }

  lemma {:induction false} NoEmptyLeft(ps: seq<Packet>, i: nat)
    requires i < |NonEmpty(ps)|
    ensures NonEmpty(ps)[i] != []
  {
    if i < |NonEmpty(ps[..|ps| - 1])| { NoEmptyLeft(ps[..|ps| - 1], i); }
  }
}
