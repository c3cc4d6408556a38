/** Runs of the bridge with any traffic, any backpressure and any in-order device: nothing lost, repeated or
    reordered; signals held until accepted; every packet out in bounded time. */
module BridgeLaws {
  import opened Sequences
  import opened AxiStream
  import opened AxisBridges

  /** The bridge and a device that hands beats on in order, with the history of what crossed each boundary:
      packets accepted from the network side, beats transferred into the device, beats the receiver sampled. */
  datatype System = System(tx: TxState, rx: RxState, wire: seq<Beat>,
                           accepted: seq<Packet>, sent: seq<Beat>, sampled: seq<Beat>)

  const START: System := System(TX_START, RX_START, [], [], [], [])

  /** A push, the return of the blocked read, or a clock edge: the device chooses whether it is ready and whether
      it drives its oldest beat, which may be the one it accepts at this very edge. */
  datatype Action = Offer(p: Packet) | Wake | Edge(tready: bool, emit: bool)

  function Transferred(s: System, tready: bool): seq<Beat> {
    if s.tx.tvalid && tready then [s.tx.port] else []
  }

  function AtEdge(s: System, tready: bool, emit: bool): System {
    var moved := Transferred(s, tready);
    var queue := s.wire + moved;
    var out := if emit && queue != [] then queue[..1] else [];
    System(TxEdge(s.tx, tready),
           RxEdge(s.rx, out != [], if out != [] then out[0] else Beat(0, 0, false)),
           queue[|out|..], s.accepted, s.sent + moved, s.sampled + out)
  }

  function Step(s: System, a: Action): System {
    match a
    case Offer(p) => s.(tx := Pushed(s.tx, p), accepted := if HasRoom(s.tx) then s.accepted + [p] else s.accepted)
    case Wake => s.(tx := TxWake(s.tx))
    case Edge(tready, emit) => AtEdge(s, tready, emit)
  }

  function Run(s: System, acts: seq<Action>): System {
    if acts == [] then s else Step(Run(s, acts[..|acts| - 1]), acts[|acts| - 1])
  }

  /** What the receiver has put together, counting a complete packet not yet handed over. */
  function Received(s: RxState): Assembly {
    match s.at
    case Sampled => if s.last then Assembly(s.delivered + [s.packet], []) else Assembly(s.delivered, s.packet)
    case BetweenBeats => Assembly(s.delivered, s.packet)
    case RxReset => Assembly(s.delivered, [])
    case BetweenPackets => Assembly(s.delivered, [])
  }

  /** The packet being transmitted. */
  function InFlight(s: TxState): seq<Packet> { if s.at == AtBeat then [s.packet] else [] }

  /** The octets of it that have been accepted. */
  function SentPart(s: TxState): Packet
    requires s.at == AtBeat ==> s.offset <= |s.packet|
  {
    if s.at == AtBeat then s.packet[..s.offset] else []
  }

  /** The ports of a thread on a beat show that beat; everywhere else TVALID is low. */
  predicate Driven(s: TxState) {
    && s.tvalid == (s.at == AtBeat)
    && (s.at == AtBeat ==> s.offset < |s.packet| && s.port == BeatAt(s.packet, s.offset))
  }

  /** What the transmit side still holds, in order. */
  function Pending(s: TxState): seq<Packet> { InFlight(s) + NonEmpty(s.fifo) }

  predicate TxCounts(s: TxState, accepted: seq<Packet>, a: Assembly) {
    && Driven(s)
    && |s.fifo| <= FIFO_DEPTH
    && a.partial == SentPart(s)
    && NonEmpty(accepted) == a.done + Pending(s)
  }

  predicate RxCounts(s: System) {
    && s.sent == s.sampled + s.wire
    && Received(s.rx) == FeedAll(NOTHING, s.sampled)
  }

  predicate Conserved(s: System) {
    TxCounts(s.tx, s.accepted, FeedAll(NOTHING, s.sent)) && RxCounts(s)
  }

  /** An accepted push goes behind everything else. */
  lemma {:induction false} PushKeeps(s: TxState, accepted: seq<Packet>, a: Assembly, p: Packet)
    requires TxCounts(s, accepted, a) && HasRoom(s)
    ensures TxCounts(Pushed(s, p), accepted + [p], a)
  {
    NonEmptyPush(accepted, p);
    NonEmptyPush(s.fifo, p);
    Assoc(a.done, Pending(s), if p == [] then [] else [p]);
    Assoc(InFlight(s), NonEmpty(s.fifo), if p == [] then [] else [p]);
  }

  /** Taking the next packet off the FIFO moves it to the ports, or drops it when it is empty. */
  lemma {:induction false} FetchKeeps(s: TxState, accepted: seq<Packet>, a: Assembly)
    requires TxCounts(s, accepted, a) && s.at != AtBeat
    ensures TxCounts(Fetch(s), accepted, a)
  {
    if s.fifo != [] {
      NonEmptyHead(s.fifo);
      assert Pending(Fetch(s)) == Pending(s);
    }
  }

  /** An accepted beat moves its octets from the packet in flight to the beats sent. */
  lemma {:induction false} AcceptKeeps(s: TxState, accepted: seq<Packet>, a: Assembly)
    requires TxCounts(s, accepted, a) && s.at == AtBeat
    ensures TxCounts(TxEdge(s, true), accepted, Feed(a, s.port))
  {
    FeedBeat(a, s.packet, s.offset);
    assert a.done + ([s.packet] + NonEmpty(s.fifo)) == a.done + [s.packet] + ([] + NonEmpty(s.fifo));
  }

  lemma {:induction false} EdgeKeepsTx(s: TxState, accepted: seq<Packet>, sent: seq<Beat>, tready: bool)
    requires TxCounts(s, accepted, FeedAll(NOTHING, sent))
    ensures TxCounts(TxEdge(s, tready), accepted,
                     FeedAll(NOTHING, sent + if s.tvalid && tready then [s.port] else []))
  {
    if s.at == AtBeat && tready {
      FeedOne(NOTHING, sent, s.port);
      AcceptKeeps(s, accepted, FeedAll(NOTHING, sent));
    } else {
      assert sent + [] == sent;
      if s.at == AtReset || s.at == AtIdle { FetchKeeps(s, accepted, FeedAll(NOTHING, sent)); }
    }
  }

  /** What the receive thread does to what it has put together. */
  lemma {:induction false} RxFeeds(s: RxState, beat: Beat)
    ensures Received(RxEdge(s, true, beat)) == Feed(Received(s), beat)
    ensures Received(RxEdge(s, false, beat)) == Received(s)
  {
  }

  lemma {:induction false} EdgeKeepsRx(s: System, tready: bool, emit: bool)
    requires RxCounts(s)
    ensures RxCounts(AtEdge(s, tready, emit))
  {
    var moved := Transferred(s, tready);
    var queue := s.wire + moved;
    var n := if emit && queue != [] then 1 else 0;
    Assoc(s.sampled, s.wire, moved);
    HandOn(s.sampled, queue, n);
    if n == 1 {
      RxFeeds(s.rx, queue[0]);
      FeedOne(NOTHING, s.sampled, queue[0]);
      assert queue[..1] == [queue[0]];
    } else {
      RxFeeds(s.rx, Beat(0, 0, false));
      assert s.sampled + [] == s.sampled;
    }
  }

  lemma {:induction false} StepKeeps(s: System, a: Action)
    requires Conserved(s)
    ensures Conserved(Step(s, a))
  {
    match a
    case Offer(p) =>
      if HasRoom(s.tx) { PushKeeps(s.tx, s.accepted, FeedAll(NOTHING, s.sent), p); }
    case Wake =>
      if s.tx.at == Blocked { FetchKeeps(s.tx, s.accepted, FeedAll(NOTHING, s.sent)); }
    case Edge(tready, emit) =>
      EdgeKeepsTx(s.tx, s.accepted, s.sent, tready);
      EdgeKeepsRx(s, tready, emit);
  }

  /** Conservation: whatever the interleaving of pushes and edges and whatever TREADY does, the accepted packets
      are, in order, those reassembled from the transferred beats, the one in flight and the FIFO's. */
  lemma {:induction false} Conservation(acts: seq<Action>)
    ensures var s := Run(START, acts); Conserved(s) && |s.tx.fifo| <= 4
  {
    if acts != [] {
      var n := |acts| - 1;
      Conservation(acts[..n]);
      StepKeeps(Run(START, acts[..n]), acts[n]);
    }
  }

  /** End to end: what on_rx has been given is always a prefix of the accepted non-empty packets. */
  lemma {:induction false} DeliveredInOrder(acts: seq<Action>)
    ensures var s := Run(START, acts); s.rx.delivered <= NonEmpty(s.accepted)
  {
    var s := Run(START, acts);
    Conservation(acts);
    FeedConcat(NOTHING, s.sampled, s.wire);
    FeedMonotone(FeedAll(NOTHING, s.sampled), s.wire);
    assert s.rx.delivered <= Received(s.rx).done <= FeedAll(NOTHING, s.sent).done;
  }

  /** What on_rx has been given at a clock edge: exactly the packets completed by beats sampled at earlier edges. */
  lemma {:induction false} DeliveredAtEdge(acts: seq<Action>, tready: bool, emit: bool)
    ensures var s := Run(START, acts);
            AtEdge(s, tready, emit).rx.delivered == FeedAll(NOTHING, s.sampled).done
  {
    var s := Run(START, acts);
    Conservation(acts);
    var queue := s.wire + Transferred(s, tready);
    var out := if emit && queue != [] then queue[..1] else [];
    EdgeDelivers(s.rx, out != [], if out != [] then out[0] else Beat(0, 0, false));
  }

  /** An edge hands over the packet the receive thread has completed. */
  lemma {:induction false} EdgeDelivers(s: RxState, tvalid: bool, beat: Beat)
    ensures RxEdge(s, tvalid, beat).delivered == Received(s).done
  {
  }

  /** The blocked read takes the first packet as soon as there is one: it goes to the ports, or when it is empty the
      idle cycle begins; afterwards no packet waits beside a blocked thread. */
  lemma {:induction false} WakeTakes(s: TxState)
    ensures var t := TxWake(s);
            && !(t.at == Blocked && t.fifo != [])
            && (s.at == Blocked && s.fifo != [] ==>
                  t.fifo == s.fifo[1..] && t.packet == s.fifo[0] && t.offset == 0
                  && t.at == if s.fifo[0] == [] then AtIdle else AtBeat)
            && (s.at != Blocked || s.fifo == [] ==> t == s)
  {
  }

  predicate Quiet(s: TxState) { s.tvalid == (s.at == AtBeat) && (!s.tvalid ==> !s.port.tlast) }

  lemma {:induction false} QuietSteps(s: TxState, tready: bool)
    requires Quiet(s)
    ensures Quiet(TxEdge(s, tready)) && Quiet(TxWake(s))
  {
  }

  /** TVALID is high exactly while the thread is on a beat, and TLAST is low whenever TVALID is. */
  lemma {:induction false} PortsIdle(acts: seq<Action>)
    ensures var s := Run(START, acts).tx; Quiet(s)
  {
    if acts != [] {
      var n := |acts| - 1;
      PortsIdle(acts[..n]);
      var s, a := Run(START, acts[..n]), acts[n];
      QuietSteps(s.tx, a.Edge? && a.tready);
    }
  }

  /** The ports wired straight across: always ready, every beat through at the edge that offers it. */
  predicate Direct(acts: seq<Action>) {
    forall i | 0 <= i < |acts| :: acts[i].Edge? ==> acts[i] == Edge(true, true)
  }

  /** At every edge one side transfers a beat exactly when the other samples it. */
  lemma {:induction false} DirectTransfer(acts: seq<Action>)
    requires Direct(acts)
    ensures var s := Run(START, acts); s.wire == [] && s.sampled == s.sent
  {
    if acts != [] {
      var n := |acts| - 1;
      DirectTransfer(acts[..n]);
      assert acts[n].Edge? ==> acts[n] == Edge(true, true);
    }
  }

  /** Wired straight across, at most the packet the last beat has just completed is still to be handed over. */
  lemma {:induction false} DirectDelivers(acts: seq<Action>)
    requires Direct(acts)
    ensures var s := Run(START, acts);
            NonEmpty(s.accepted) == Received(s.rx).done + InFlight(s.tx) + NonEmpty(s.tx.fifo)
    ensures var s := Run(START, acts);
            Received(s.rx).done == s.rx.delivered || Received(s.rx).done == s.rx.delivered + [s.rx.packet]
  {
    Conservation(acts);
    DirectTransfer(acts);
  }

  predicate Accepts(a: Action) { a.Edge? && a.tready }

  /** t offers the very beat s offers, and nothing has been transferred in between. */
  predicate SameOffer(s: System, t: System) {
    && t.tx.at == AtBeat && t.tx.tvalid && t.tx.port == s.tx.port
    && t.tx.packet == s.tx.packet && t.tx.offset == s.tx.offset && t.sent == s.sent
  }

  lemma {:induction false} OfferStep(s: System, t: System, a: Action)
    requires SameOffer(s, t) && !Accepts(a)
    ensures SameOffer(s, Step(t, a))
  {
    assert t.sent + [] == t.sent;
  }

  /** Section 2.2 of ARM IHI 0051: once TVALID is high it and the payload hold until an edge samples TREADY. */
  lemma {:induction false} SignalsHold(s: System, acts: seq<Action>)
    requires Driven(s.tx) && s.tx.tvalid
    requires forall i | 0 <= i < |acts| :: !Accepts(acts[i])
    ensures SameOffer(s, Run(s, acts))
  {
    if acts != [] {
      var n := |acts| - 1;
      SignalsHold(s, acts[..n]);
      OfferStep(s, Run(s, acts[..n]), acts[n]);
    }
  }

  /** The TREADY values of the clock edges in a run. */
  function Edges(acts: seq<Action>): seq<bool> {
    if acts == [] then []
    else
      var front := Edges(acts[..|acts| - 1]);
      var a := acts[|acts| - 1];
      if a.Edge? then front + [a.tready] else front
  }

  function Count(es: seq<bool>): nat {
    if es == [] then 0 else Count(es[..|es| - 1]) + if es[|es| - 1] then 1 else 0
  }

  /** One more beat of the packet is out. */
  lemma {:induction false} BeatsStep(p: Packet, off: nat, at: nat, i: nat)
    requires off <= at < |p| && i < |Beats(p, off)|
    requires Beats(p, at) == Beats(p, off)[i..]
    ensures Beats(p, off)[i] == BeatAt(p, at)
    ensures Beats(p, at + Chunk(p, at)) == Beats(p, off)[i + 1..]
    ensures at + Chunk(p, at) == |p| <==> i + 1 == |Beats(p, off)|
  {
    assert Beats(p, off)[i..][0] == Beats(p, off)[i];
    assert Beats(p, off)[i..][1..] == Beats(p, off)[i + 1..];
    assert Beats(p, at)[1..] == Beats(p, at + Chunk(p, at));
  }

  /** t is s with c more beats of the packet out and the rest of it still to come. */
  predicate PartlyOut(s: System, t: System, c: nat) {
    var bs := Beats(s.tx.packet, s.tx.offset);
    && c < |bs| && Driven(t.tx) && t.tx.at == AtBeat
    && t.tx.packet == s.tx.packet && s.tx.offset <= t.tx.offset
    && Beats(t.tx.packet, t.tx.offset) == bs[c..]
    && t.sent == s.sent + bs[..c]
  }

  /** The thread moves on to the beat behind, or to the idle cycle. */
  lemma {:induction false} NextOffer(s: TxState)
    requires Driven(s) && s.at == AtBeat
    ensures var t := TxEdge(s, true);
            var o := s.offset + Chunk(s.packet, s.offset);
            Driven(t) && t.packet == s.packet && t.offset == o && t.at == if o < |s.packet| then AtBeat else AtIdle
  {
  }

  /** An accepted beat is the next one of the packet. */
  lemma {:induction false} OneOut(s: System, r: System, c: nat, emit: bool)
    requires PartlyOut(s, r, c)
    ensures var bs := Beats(s.tx.packet, s.tx.offset);
            var t := AtEdge(r, true, emit);
            && t.sent == s.sent + bs[..c + 1]
            && if c + 1 < |bs| then PartlyOut(s, t, c + 1) else t.tx.at == AtIdle && !t.tx.tvalid
  {
    var bs := Beats(s.tx.packet, s.tx.offset);
    BeatsStep(s.tx.packet, s.tx.offset, r.tx.offset, c);
    NextOffer(r.tx);
    Longer(s.sent, bs, c);
  }

  /** Nothing else moves the packet on. */
  lemma {:induction false} NoneOut(s: System, r: System, c: nat, a: Action)
    requires PartlyOut(s, r, c) && !Accepts(a)
    ensures PartlyOut(s, Step(r, a), c)
  {
    assert r.sent + [] == r.sent;
  }

  /** One action while the packet is not yet out whole. */
  lemma {:induction false} DrainOne(s: System, r: System, c: nat, a: Action)
    requires PartlyOut(s, r, c) && c + (if Accepts(a) then 1 else 0) < |Beats(s.tx.packet, s.tx.offset)|
    ensures PartlyOut(s, Step(r, a), c + if Accepts(a) then 1 else 0)
  {
    if Accepts(a) { OneOut(s, r, c, a.emit); } else { NoneOut(s, r, c, a); }
  }

  /** While a packet is out, the beats sent are its first ones, one for each edge that saw TREADY. */
  lemma {:induction false} Draining(s: System, acts: seq<Action>)
    requires Driven(s.tx) && s.tx.at == AtBeat
    requires Count(Edges(acts)) < |Beats(s.tx.packet, s.tx.offset)|
    ensures PartlyOut(s, Run(s, acts), Count(Edges(acts)))
  {
    if acts == [] {
      var bs := Beats(s.tx.packet, s.tx.offset);
      assert bs[0..] == bs && s.sent + bs[..0] == s.sent;
    } else {
      var n := |acts| - 1;
      EdgesGrow(acts);
      Draining(s, acts[..n]);
      DrainOne(s, Run(s, acts[..n]), Count(Edges(acts[..n])), acts[n]);
    }
  }

  lemma {:induction false} EdgesGrow(acts: seq<Action>)
    requires acts != []
    ensures var n := |acts| - 1;
            Count(Edges(acts)) == Count(Edges(acts[..n])) + if Accepts(acts[n]) then 1 else 0
    ensures Edges(acts[..|acts| - 1]) <= Edges(acts)
  {
    var n := |acts| - 1;
    if acts[n].Edge? {
      assert Edges(acts)[..|Edges(acts)| - 1] == Edges(acts[..n]);
    }
  }

  /** The packet on the ports has gone out whole, and the idle cycle has begun. */
  predicate AllOut(s: System, t: System) {
    t.tx.at == AtIdle && !t.tx.tvalid && t.sent == s.sent + Beats(s.tx.packet, s.tx.offset)
  }

  /** The transfer that completes the packet. */
  lemma {:induction false} LastBeat(s: System, acts: seq<Action>)
    requires Driven(s.tx) && s.tx.at == AtBeat && acts != [] && Accepts(acts[|acts| - 1])
    requires Count(Edges(acts)) == |Beats(s.tx.packet, s.tx.offset)|
    ensures AllOut(s, Run(s, acts))
  {
    var n := |acts| - 1;
    var bs := Beats(s.tx.packet, s.tx.offset);
    EdgesGrow(acts);
    Draining(s, acts[..n]);
    OneOut(s, Run(s, acts[..n]), |bs| - 1, acts[n].emit);
    assert bs[..|bs|] == bs;
  }

  /** TREADY is high at least once in every k consecutive edges. */
  predicate ReadyWithin(es: seq<bool>, k: nat) {
    forall i: nat | i + k <= |es| :: true in Span(es, i, k)
  }

  function Span(es: seq<bool>, i: nat, k: nat): seq<bool>
    requires i + k <= |es|
  {
    es[i..i + k]
  }

  /** The first TREADY from edge i on. */
  lemma {:induction false} NextReady(es: seq<bool>, i: nat, k: nat) returns (j: nat)
    requires i + k <= |es| && true in es[i..i + k]
    ensures i <= j < i + k && es[j] && Count(es[..j + 1]) == Count(es[..i]) + 1
    decreases k
  {
    assert es[..i + 1][..i] == es[..i];
    if es[i] {
      j := i;
    } else {
      assert es[i + 1..i + k] == es[i..i + k][1..];
      j := NextReady(es, i + 1, k - 1);
    }
  }

  /** The n-th TREADY comes within k * n edges. */
  lemma {:induction false} NthReady(es: seq<bool>, k: nat, n: nat) returns (q: nat)
    requires ReadyWithin(es, k) && k * n <= |es|
    ensures q <= k * n && Count(es[..q]) == n
    ensures n > 0 ==> q > 0 && es[q - 1]
  {
    if n == 0 {
      q := 0;
    } else {
      assert k * n == k * (n - 1) + k;
      var q0 := NthReady(es, k, n - 1);
      assert true in Span(es, q0, k);
      var j := NextReady(es, q0, k);
      q := j + 1;
    }
  }

  /** Edge q of a run, as an action of it. */
  lemma {:induction false} EdgeAction(acts: seq<Action>, q: nat) returns (m: nat)
    requires 0 < q <= |Edges(acts)|
    ensures 0 < m <= |acts| && acts[m - 1].Edge? && acts[m - 1].tready == Edges(acts)[q - 1]
    ensures Edges(acts[..m]) == Edges(acts)[..q]
  {
    var n := |acts| - 1;
    EdgesGrow(acts);
    if q <= |Edges(acts[..n])| {
      m := EdgeAction(acts[..n], q);
      assert acts[..n][..m] == acts[..m];
      assert Edges(acts[..n])[..q] == Edges(acts)[..q];
    } else {
      m := |acts|;
      assert acts[..m] == acts && Edges(acts)[..q] == Edges(acts);
    }
  }

  lemma {:induction false} EdgesPrefix(acts: seq<Action>, m: nat)
    requires m <= |acts|
    ensures Edges(acts[..m]) <= Edges(acts)
  {
    if m < |acts| {
      var n := |acts| - 1;
      EdgesGrow(acts);
      EdgesPrefix(acts[..n], m);
      assert acts[..n][..m] == acts[..m];
    } else {
      assert acts[..m] == acts;
    }
  }

  /** Between edges an idle thread stays idle and nothing is sent. */
  lemma {:induction false} StaysIdle(s: System, t: System, acts: seq<Action>, m: nat)
    requires m <= |acts| && AllOut(s, Run(t, acts[..m]))
    requires |Edges(acts[..m])| == |Edges(acts)|
    ensures AllOut(s, Run(t, acts))
  {
    if m < |acts| {
      var n := |acts| - 1;
      assert acts[..n][..m] == acts[..m];
      EdgesPrefix(acts[..n], m);
      EdgesPrefix(acts, n);
      assert !acts[n].Edge?;
      StaysIdle(s, t, acts[..n], m);
    } else {
      assert acts[..m] == acts;
    }
  }

  /** The m-th action is the edge that ends the idle cycle after s's packet. */
  predicate FreeAgain(s: System, acts: seq<Action>, m: nat)
    requires 0 < m <= |acts|
  {
    var t := Run(s, acts[..m - 1]);
    AllOut(s, t) && acts[m - 1].Edge? && Run(s, acts[..m]).tx == Fetch(t.tx)
  }

  /** That edge is among the first k * ceil(n/8) + 1. */
  predicate FreeWithin(s: System, acts: seq<Action>, k: nat, m: nat)
    requires 0 < m <= |acts|
  {
    FreeAgain(s, acts, m) && |Edges(acts[..m])| <= k * ((|s.tx.packet| + 7) / 8) + 1
  }

  /** No edge lies strictly between edge q and edge q + 1. */
  lemma {:induction false} NextEdge(acts: seq<Action>, m: nat, m1: nat, q: nat)
    requires m <= |acts| && 0 < m1 <= |acts| && q < |Edges(acts)|
    requires Edges(acts[..m]) == Edges(acts)[..q]
    requires Edges(acts[..m1]) == Edges(acts)[..q + 1] && acts[m1 - 1].Edge?
    ensures m < m1 && |Edges(acts[..m1 - 1])| == q
  {
    assert acts[..m1][..m1 - 1] == acts[..m1 - 1];
    if m1 <= m {
      assert acts[..m][..m1] == acts[..m1];
      EdgesPrefix(acts[..m], m1);
    }
  }

  lemma {:induction false} IdleUntil(s: System, acts: seq<Action>, m0: nat, m: nat)
    requires m0 <= m <= |acts| && AllOut(s, Run(s, acts[..m0]))
    requires |Edges(acts[..m0])| == |Edges(acts[..m])|
    ensures AllOut(s, Run(s, acts[..m]))
  {
    assert acts[..m][..m0] == acts[..m0];
    StaysIdle(s, s, acts[..m], m0);
  }

  lemma {:induction false} IdleEnds(s: System, acts: seq<Action>, m: nat)
    requires 0 < m <= |acts| && acts[m - 1].Edge? && AllOut(s, Run(s, acts[..m - 1]))
    ensures FreeAgain(s, acts, m)
  {
    assert acts[..m][..m - 1] == acts[..m - 1];
  }

  /** If edge q is the one that takes the last beat, edge q + 1 ends the idle cycle. */
  lemma {:induction false} FreeAtEdge(s: System, acts: seq<Action>, q: nat) returns (m: nat)
    requires Driven(s.tx) && s.tx.at == AtBeat
    requires 0 < q < |Edges(acts)| && Edges(acts)[q - 1]
    requires Count(Edges(acts)[..q]) == |Beats(s.tx.packet, s.tx.offset)|
    ensures 0 < m <= |acts| && FreeAgain(s, acts, m) && |Edges(acts[..m])| == q + 1
  {
    var m0 := EdgeAction(acts, q);
    m := EdgeAction(acts, q + 1);
    LastBeat(s, acts[..m0]);
    NextEdge(acts, m0, m, q);
    IdleUntil(s, acts, m0, m - 1);
    IdleEnds(s, acts, m);
  }

  /** Bounded progress: if TREADY is high at least once in every k edges, a packet of n octets has gone out after
      exactly ceil(n/8) transfers, and the thread is back at the FIFO within k * ceil(n/8) + 1 edges. */
  lemma {:induction false} BoundedProgress(s: System, acts: seq<Action>, k: nat)
    requires Driven(s.tx) && s.tx.at == AtBeat && s.tx.offset == 0
    requires ReadyWithin(Edges(acts), k)
    requires |Edges(acts)| >= k * ((|s.tx.packet| + 7) / 8) + 1
    ensures |Beats(s.tx.packet, 0)| == (|s.tx.packet| + 7) / 8
    ensures exists m: nat | 0 < m <= |acts| :: FreeWithin(s, acts, k, m)
  {
    BeatsShape(s.tx.packet, 0, 0);
    var q := NthReady(Edges(acts), k, |Beats(s.tx.packet, 0)|);
    var m := FreeAtEdge(s, acts, q);
    assert FreeWithin(s, acts, k, m);
  }
}
