/** Runs of frames: generated on one stack, decoded on another that is bound alike. */
module FrameRuns {
  import opened Bits
  import opened Sequences
  import opened Layout
  import opened PacketBuilding
  import opened StackCodec
  import opened EncodePassLaws
  import opened StackLaws
  import opened Stacks
  import opened Sessions

  /** Where the random engine stands before frame k. */
  function FramePos(st: StackState, db: VarDb, pos: nat, k: nat): nat {
    if k == 0 then pos else LoadPos(st, |st|, db, FramePos(st, db, pos, k - 1))
  }

  /** The frame a fresh stack generates from each position. */
  function FrameFrom(st: StackState, db: VarDb, draws: Draws): nat -> Packet {
    (p: nat) => Generated(st, db, draws, p).bytes
  }

  /** What f gives for the n positions of a run. */
  function Collected<T>(f: nat -> T, st: StackState, db: VarDb, pos: nat, n: nat): (ps: seq<T>)
    ensures |ps| == n
  {
    if n == 0 then [] else Collected(f, st, db, pos, n - 1) + [f(FramePos(st, db, pos, n - 1))]
  }

  lemma {:induction false} CollectedAt<T>(f: nat -> T, st: StackState, db: VarDb, pos: nat, n: nat, k: nat)
    requires k < n
    ensures Collected(f, st, db, pos, n)[k] == f(FramePos(st, db, pos, k))
  {
    if k < n - 1 { CollectedAt(f, st, db, pos, n - 1, k); }
  }

  /** The frames of a run. */
  function Frames(st: StackState, db: VarDb, draws: Draws, pos: nat, n: nat): (ps: seq<Packet>)
    ensures |ps| == n
  {
    Collected(FrameFrom(st, db, draws), st, db, pos, n)
  }

  function Report(e: StackState): StackedPacket { StackedPacket(Frame(e).bytes, WireLayers(e, |e|)) }

  /** What must be reported for it: every layer as generated, each value modulo 2^min(width, 64). */
  function ReportFrom(st: StackState, db: VarDb, draws: Draws): nat -> StackedPacket {
    (p: nat) => Report(AfterGenerate(st, db, draws, p))
  }

  function Reports(st: StackState, db: VarDb, draws: Draws, pos: nat, n: nat): (rs: seq<StackedPacket>)
    ensures |rs| == n
  {
    Collected(ReportFrom(st, db, draws), st, db, pos, n)
  }

  function DecodedAll(st: StackState, db: VarDb, packets: seq<Packet>, n: nat): (rs: seq<StackedPacket>)
    requires n <= |packets|
    ensures |rs| == n
  {
    if n == 0 then [] else DecodedAll(st, db, packets, n - 1) + [DecodedFrame(st, db, packets[n - 1])]
  }

  /* ---------------- the laws ---------------- */

  lemma {:induction false} OffsetSame(a: StackState, b: StackState, db: VarDb, k: nat)
    requires SameBinding(a, b) && k <= |a|
    ensures OffsetTo(a, k, db) == OffsetTo(b, k, db)
  {
    if k > 0 { OffsetSame(a, b, db, k - 1); }
  }

  lemma {:induction false} LayerSame(a: StackState, b: StackState, db: VarDb, bytes: seq<byte>, i: nat)
    requires SameBinding(a, b) && i < |a|
    ensures a[i].serviceName == b[i].serviceName && DecodedLayer(a, i, db, bytes) == DecodedLayer(b, i, db, bytes)
  {
    OffsetSame(a, b, db, i);
    assert LayerSlots(a[i], db) == LayerSlots(b[i], db);
  }

  lemma {:induction false} DecodedSameTo(a: StackState, b: StackState, db: VarDb, bytes: seq<byte>)
    requires SameBinding(a, b)
    ensures DecodedLayers(a, |a|, db, bytes) == DecodedLayers(b, |b|, db, bytes)
  {
    forall i | 0 <= i < |a|
      ensures DecodedLayers(a, |a|, db, bytes)[i] == DecodedLayers(b, |b|, db, bytes)[i]
    {
      DecodedLayersAt(a, |a|, db, bytes, i);
      DecodedLayersAt(b, |b|, db, bytes, i);
      LayerSame(a, b, db, bytes, i);
    }
  }

  /** What a frame decodes to depends on the binding only. */
  lemma {:induction false} DecodedSame(a: StackState, b: StackState, db: VarDb, bytes: seq<byte>)
    requires SameBinding(a, b)
    ensures DecodedFrame(a, db, bytes) == DecodedFrame(b, db, bytes)
  {
    DecodedSameTo(a, b, db, bytes);
  }

  /** Every frame of a run has the size of the layouts. */
  lemma {:induction false} FrameOctets(st: StackState, db: VarDb, draws: Draws, pos: nat)
    requires Clean(st) && Codable(st, db)
    ensures |Generated(st, db, draws, pos).bytes| == OffsetTo(st, |st|, db)
  {
    var e := AfterGenerate(st, db, draws, pos);
    forall i | 0 <= i < |st| ensures LaidOut(e[i].fields, LayerSlots(st[i], db)) {
      GeneratedLaidOut(st, db, draws, pos, i);
    }
    FrameOffsets(e, st, db, |st|);
  }

  lemma {:induction false} FramesSize(st: StackState, db: VarDb, draws: Draws, pos: nat, n: nat, k: nat)
    requires Clean(st) && Codable(st, db) && k < n
    ensures |Frames(st, db, draws, pos, n)[k]| == OffsetTo(st, |st|, db)
  {
    CollectedAt(FrameFrom(st, db, draws), st, db, pos, n, k);
    FrameOctets(st, db, draws, FramePos(st, db, pos, k));
  }

  /** Frames of a layout that takes room are not empty, the others all are. */
  lemma {:induction false} FramesNonEmpty(st: StackState, db: VarDb, draws: Draws, pos: nat, n: nat)
    requires Clean(st) && Codable(st, db)
    ensures NonEmpty(Frames(st, db, draws, pos, n))
         == if OffsetTo(st, |st|, db) > 0 then Frames(st, db, draws, pos, n) else []
  {
    var ps := Frames(st, db, draws, pos, n);
    forall k | 0 <= k < |ps| ensures |ps[k]| == OffsetTo(st, |st|, db) {
      FramesSize(st, db, draws, pos, n, k);
    }
    NonEmptyUniform(ps, OffsetTo(st, |st|, db));
  }

  /** One frame, decoded on any stack bound alike. */
  lemma {:induction false} FrameReport(st: StackState, other: StackState, db: VarDb, draws: Draws, p: nat)
    requires Clean(st) && Codable(st, db) && SameBinding(other, st)
    ensures DecodedFrame(other, db, FrameFrom(st, db, draws)(p)) == ReportFrom(st, db, draws)(p)
  {
    StackRoundTrip(st, other, db, draws, p);
  }

  /** Decoding the frames of a run, on any stack bound alike, reports every layer as generated. */
  lemma {:induction false} RunRoundTrip(st: StackState, other: StackState, db: VarDb, draws: Draws, pos: nat, n: nat)
    requires Clean(st) && Codable(st, db) && SameBinding(other, st)
    ensures DecodedAll(other, db, Frames(st, db, draws, pos, n), n) == Reports(st, db, draws, pos, n)
  {
    forall k | 0 <= k < n
      ensures DecodedAll(other, db, Frames(st, db, draws, pos, n), n)[k] == Reports(st, db, draws, pos, n)[k]
    {
      DecodedAllAt(other, db, Frames(st, db, draws, pos, n), n, k);
      CollectedAt(FrameFrom(st, db, draws), st, db, pos, n, k);
      CollectedAt(ReportFrom(st, db, draws), st, db, pos, n, k);
      FrameReport(st, other, db, draws, FramePos(st, db, pos, k));
    }
  }

  lemma {:induction false} DecodedAllAt(st: StackState, db: VarDb, packets: seq<Packet>, n: nat, k: nat)
    requires k < n <= |packets|
    ensures DecodedAll(st, db, packets, n)[k] == DecodedFrame(st, db, packets[k])
  {
    if k < n - 1 { DecodedAllAt(st, db, packets, n - 1, k); }
  }

  /** The right reports come from the frames themselves and from nothing else. */
  lemma {:induction false} ReportsTell(st: StackState, other: StackState, db: VarDb, draws: Draws, pos: nat, n: nat,
                                       taken: seq<Packet>)
    requires Clean(st) && Codable(st, db) && SameBinding(other, st)
    ensures DecodedAll(other, db, taken, |taken|) == Reports(st, db, draws, pos, n)
       <==> taken == Frames(st, db, draws, pos, n)
  {
    if taken == Frames(st, db, draws, pos, n) {
      RunRoundTrip(st, other, db, draws, pos, n);
    } else if DecodedAll(other, db, taken, |taken|) == Reports(st, db, draws, pos, n) {
      forall k | 0 <= k < n ensures taken[k] == Frames(st, db, draws, pos, n)[k] {
        DecodedAllAt(other, db, taken, |taken|, k);
        CollectedAt(ReportFrom(st, db, draws), st, db, pos, n, k);
        CollectedAt(FrameFrom(st, db, draws), st, db, pos, n, k);
      }
    }
  }

  /** What a receiver reports of a run when it passes over empty frames: a layout of no octets shows nothing. */
  function Seen(st: StackState, db: VarDb, draws: Draws, pos: nat, n: nat): seq<StackedPacket> {
    if OffsetTo(st, |st|, db) > 0 then Reports(st, db, draws, pos, n) else []
  }

  /** The right reports come from the non-empty frames and from nothing else. */
  lemma {:induction false} SeenTell(st: StackState, other: StackState, db: VarDb, draws: Draws, pos: nat, n: nat,
                                    taken: seq<Packet>)
    requires Clean(st) && Codable(st, db) && SameBinding(other, st)
    ensures DecodedAll(other, db, taken, |taken|) == Seen(st, db, draws, pos, n)
       <==> taken == NonEmpty(Frames(st, db, draws, pos, n))
  {
    FramesNonEmpty(st, db, draws, pos, n);
    ReportsTell(st, other, db, draws, pos, n, taken);
  }

  lemma {:induction false} DecodedFront(st: StackState, db: VarDb, taken: seq<Packet>, all: seq<Packet>)
    requires taken <= all
    ensures DecodedAll(st, db, taken, |taken|) <= DecodedAll(st, db, all, |all|)
  {
    forall k | 0 <= k < |taken|
      ensures DecodedAll(st, db, taken, |taken|)[k] == DecodedAll(st, db, all, |all|)[k]
    {
      DecodedAllAt(st, db, taken, |taken|, k);
      DecodedAllAt(st, db, all, |all|, k);
    }
  }

  /** Part of the frames give part of the reports. */
  lemma {:induction false} SeenFront(st: StackState, other: StackState, db: VarDb, draws: Draws, pos: nat, n: nat,
                                     taken: seq<Packet>)
    requires Clean(st) && Codable(st, db) && SameBinding(other, st)
    requires taken <= NonEmpty(Frames(st, db, draws, pos, n))
    ensures DecodedAll(other, db, taken, |taken|) <= Seen(st, db, draws, pos, n)
  {
    var all := NonEmpty(Frames(st, db, draws, pos, n));
    SeenTell(st, other, db, draws, pos, n, all);
    DecodedFront(other, db, taken, all);
  }

  /** The first frames of a run are a run. */
  lemma {:induction false} CollectedFront<T>(f: nat -> T, st: StackState, db: VarDb, pos: nat, n: nat, m: nat)
    requires m <= n
    ensures Collected(f, st, db, pos, n)[..m] == Collected(f, st, db, pos, m)
  {
    forall k | 0 <= k < m ensures Collected(f, st, db, pos, n)[k] == Collected(f, st, db, pos, m)[k] {
      CollectedAt(f, st, db, pos, n, k);
      CollectedAt(f, st, db, pos, m, k);
    }
  }

  /** What comes of the first m frames of a run decides what is reported of them. */
  lemma {:induction false} SeenOfFirst(st: StackState, other: StackState, db: VarDb, draws: Draws, pos: nat, n: nat,
                                       m: nat, taken: seq<Packet>)
    requires Clean(st) && Codable(st, db) && SameBinding(other, st) && m <= n
    ensures var first := NonEmpty(Frames(st, db, draws, pos, n)[..m]);
            && (DecodedAll(other, db, taken, |taken|) == Seen(st, db, draws, pos, m) <==> taken == first)
            && (taken <= first ==> DecodedAll(other, db, taken, |taken|) <= Seen(st, db, draws, pos, m))
  {
    CollectedFront(FrameFrom(st, db, draws), st, db, pos, n, m);
    SeenTell(st, other, db, draws, pos, m, taken);
    if taken <= NonEmpty(Frames(st, db, draws, pos, m)) { SeenFront(st, other, db, draws, pos, m, taken); }
  }

  lemma {:induction false} FramesBelow(st: StackState, db: VarDb, draws: Draws, pos: nat, n: nat, limit: nat)
    requires Clean(st) && Codable(st, db)
    ensures AllShorter(Frames(st, db, draws, pos, n), limit) <==> n == 0 || OffsetTo(st, |st|, db) < limit
  {
    var ps := Frames(st, db, draws, pos, n);
    forall p | p in ps ensures |p| == OffsetTo(st, |st|, db) {
      var k :| 0 <= k < n && ps[k] == p;
      FramesSize(st, db, draws, pos, n, k);
    }
    if n > 0 { assert ps[0] in ps; }
  }

  /* ---------------- the objects ---------------- */

  /** f is what a fresh stack generates. */
  ghost predicate Produces(f: nat -> Packet, st: StackState, db: VarDb, draws: Draws) {
    forall p: nat {:trigger Generated(st, db, draws, p)} :: f(p) == Generated(st, db, draws, p).bytes
  }

  /** Generates one more frame: the one a fresh stack would give. */
  method GenerateNext(session: Session, stack: Stack, ghost f: nat -> Packet, ghost st: StackState,
                      ghost cur: StackState)
    returns (packet: Packet, ghost next: StackState)
    requires stack.Valid() && stack.Shows(session.interfaceFor, cur)
    requires Clean(st) && Clean(cur) && SameBinding(cur, st)
    requires Produces(f, st, session.db, session.mBuilder.draws)
    modifies ContextSet(stack.mLayers)`mFields, ModuleSet(stack.mLayers), session.mBuilder`pos
    ensures stack.Valid() && stack.Shows(session.interfaceFor, next) && Clean(next) && SameBinding(next, st)
    ensures packet == f(old(session.mBuilder.pos))
    ensures session.mBuilder.pos == LoadPos(st, |st|, session.db, old(session.mBuilder.pos))
  {
    next := NextState(cur, st, session.db, session.mBuilder.draws, session.mBuilder.pos);
    var frame := session.GenerateStack(stack, cur);
    packet := frame.bytes;
  }

  /** Generates n frames on one stack. */
  method GenerateRun(session: Session, stack: Stack, n: nat, ghost f: nat -> Packet, ghost st: StackState)
    returns (packets: seq<Packet>)
    requires stack.Valid() && stack.Shows(session.interfaceFor, st) && Clean(st)
    requires Produces(f, st, session.db, session.mBuilder.draws)
    modifies ContextSet(stack.mLayers)`mFields, ModuleSet(stack.mLayers), session.mBuilder`pos
    ensures packets == Collected(f, st, session.db, old(session.mBuilder.pos), n)
  {
    packets := [];
    ghost var cur, start := st, session.mBuilder.pos;
    for k := 0 to n
      invariant stack.Valid() && stack.Shows(session.interfaceFor, cur)
      invariant Clean(cur) && SameBinding(cur, st)
      invariant session.mBuilder.pos == FramePos(st, session.db, start, k)
      invariant packets == Collected(f, st, session.db, start, k)
    {
      var packet;
      packet, cur := GenerateNext(session, stack, f, st, cur);
      packets := packets + [packet];
    }
  }

  /** Generates n frames on one stack beside another, which stays as it is. */
  method GenerateBeside(session: Session, stack: Stack, n: nat, ghost st: StackState, ghost beside: Stack,
                        ghost f: Resolver, ghost other: StackState)
    returns (packets: seq<Packet>)
    requires stack.Valid() && stack.Shows(session.interfaceFor, st) && Clean(st)
    requires beside.Valid() && beside.Shows(f, other) && Separate(stack, beside)
    modifies ContextSet(stack.mLayers)`mFields, ModuleSet(stack.mLayers), session.mBuilder`pos
    ensures beside.Valid() && beside.Shows(f, other)
    ensures packets == Frames(st, session.db, session.mBuilder.draws, old(session.mBuilder.pos), n)
  {
    packets := GenerateRun(session, stack, n, FrameFrom(st, session.db, session.mBuilder.draws), st);
  }

  /** The state after one more frame, and the frame a fresh stack would give. */
  lemma {:induction false} NextState(cur: StackState, st: StackState, db: VarDb, draws: Draws, pos: nat)
    returns (next: StackState)
    requires Clean(st) && Clean(cur) && SameBinding(cur, st)
    ensures next == AfterGenerate(cur, db, draws, pos) && Clean(next) && SameBinding(next, st)
    ensures Generated(cur, db, draws, pos) == Generated(st, db, draws, pos)
    ensures LoadPos(cur, |cur|, db, pos) == LoadPos(st, |st|, db, pos)
  {
    next := AfterGenerate(cur, db, draws, pos);
    GeneratedBinding(cur, db, draws, pos);
    GeneratedClean(cur, db, draws, pos);
    BindingTransitive(next, cur, st);
    FreshFrame(cur, st, db, draws, pos);
    LoadPosSame(cur, st, |st|, db, pos);
  }

  /** Decodes the packets on one stack. */
  method DecodeFrames(session: Session, stack: Stack, packets: seq<Packet>, ghost st: StackState)
    returns (reports: seq<StackedPacket>)
    requires stack.Valid() && stack.Shows(session.interfaceFor, st) && Clean(st)
    modifies ContextSet(stack.mLayers)`mFields, ModuleSet(stack.mLayers)
    ensures reports == DecodedAll(st, session.db, packets, |packets|)
  {
    reports := [];
    ghost var cur := st;
    for k := 0 to |packets|
      invariant stack.Valid() && stack.Shows(session.interfaceFor, cur)
      invariant Clean(cur) && SameBinding(cur, st)
      invariant reports == DecodedAll(st, session.db, packets, k)
    {
      var report, diverged := session.DecodeStack(stack, packets[k], cur);
      DecodedSame(cur, st, session.db, packets[k]);
      ghost var next := AfterDecode(cur, session.db, packets[k]);
      DecodeKeeps(cur, session.db, packets[k]);
      BindingTransitive(next, cur, st);
      cur := next;
      reports := reports + [report];
    }
  }

  /** The two stacks share no context and no module. */
  ghost predicate Separate(a: Stack, b: Stack)
    reads a, b
  {
    ContextSet(a.mLayers) !! ContextSet(b.mLayers) && ModuleSet(a.mLayers) !! ModuleSet(b.mLayers)
  }
}
