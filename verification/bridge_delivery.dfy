/** Everything accepted is delivered: a bound on the clock edges until on_rx has been given every packet of a bridge. */
module BridgeDelivery {
  import opened Sequences
  import opened AxiStream
  import opened AxisBridges
  import opened BridgeLaws

  /* ---------------- beats are conserved ---------------- */

  /** The beats of the packet on the ports that are still to go. */
  function Offered(s: TxState): seq<Beat> { if s.at == AtBeat then Beats(s.packet, s.offset) else [] }

  /** The beats still to go of everything the transmit side holds. */
  function ToGo(s: TxState): seq<Beat> { Offered(s) + AllBeats(s.fifo) }

  /** The beats sent and those still to go are the accepted packets', and the FIFO holds the last of these packets. */
  predicate Accounted(s: TxState, accepted: seq<Packet>, sent: seq<Beat>) {
    && Driven(s)
    && sent + ToGo(s) == AllBeats(accepted)
    && |s.fifo| <= |accepted| && s.fifo == accepted[|accepted| - |s.fifo|..]
  }

  lemma {:induction false} PushAccounted(s: TxState, accepted: seq<Packet>, sent: seq<Beat>, p: Packet)
    requires Accounted(s, accepted, sent) && HasRoom(s)
    ensures Accounted(Pushed(s, p), accepted + [p], sent)
  {
    AllBeatsPush(accepted, p);
    AllBeatsPush(s.fifo, p);
    OneQueued(sent, Offered(s), AllBeats(s.fifo), Beats(p, 0));
  }

  lemma {:induction false} OneQueued<T>(sent: seq<T>, offered: seq<T>, queued: seq<T>, more: seq<T>)
    ensures sent + (offered + (queued + more)) == sent + (offered + queued) + more
  {
    assert offered + (queued + more) == (offered + queued) + more;
  }

  /** The FIFO's first packet goes to the ports. */
  lemma {:induction false} FetchOffers(s: TxState)
    requires Driven(s) && s.at != AtBeat && s.fifo != []
    ensures var t := Fetch(s); Driven(t) && t.fifo == s.fifo[1..] && Offered(t) == Beats(s.fifo[0], 0)
  {
  }

  lemma {:induction false} FetchAccounted(s: TxState, accepted: seq<Packet>, sent: seq<Beat>)
    requires Accounted(s, accepted, sent) && s.at != AtBeat
    ensures Accounted(Fetch(s), accepted, sent)
    ensures s.fifo != [] ==> Fetch(s).fifo == s.fifo[1..]
  {
    if s.fifo != [] {
      FetchOffers(s);
      AllBeatsHead(s.fifo);
      assert ToGo(Fetch(s)) == AllBeats(s.fifo) == ToGo(s);
    }
  }

  /** The beat on the ports is the first of those still to go. */
  lemma {:induction false} OfferedNext(s: TxState)
    requires Driven(s) && s.at == AtBeat
    ensures var t := TxEdge(s, true); Driven(t) && t.fifo == s.fifo && Offered(s) == [s.port] + Offered(t)
  {
    NextOffer(s);
    var o := s.offset + Chunk(s.packet, s.offset);
    assert o >= |s.packet| ==> Beats(s.packet, o) == [];
  }

  lemma {:induction false} AcceptAccounted(s: TxState, accepted: seq<Packet>, sent: seq<Beat>)
    requires Accounted(s, accepted, sent) && s.at == AtBeat
    ensures Accounted(TxEdge(s, true), accepted, sent + [s.port]) && TxEdge(s, true).fifo == s.fifo
  {
    OfferedNext(s);
    OneSent(sent, s.port, Offered(TxEdge(s, true)), AllBeats(s.fifo));
  }

  lemma {:induction false} OneSent<T>(sent: seq<T>, b: T, offered: seq<T>, queued: seq<T>)
    ensures sent + ([b] + offered + queued) == sent + [b] + (offered + queued)
  {
    assert [b] + offered + queued == [b] + (offered + queued);
  }

  lemma {:induction false} EdgeAccounted(s: TxState, accepted: seq<Packet>, sent: seq<Beat>, tready: bool)
    requires Accounted(s, accepted, sent)
    ensures Accounted(TxEdge(s, tready), accepted, sent + if s.tvalid && tready then [s.port] else [])
  {
    if s.at == AtBeat && tready {
      AcceptAccounted(s, accepted, sent);
    } else {
      assert sent + [] == sent;
      if s.at == AtReset || s.at == AtIdle { FetchAccounted(s, accepted, sent); }
    }
  }

  lemma {:induction false} StepAccounted(s: System, a: Action)
    requires Accounted(s.tx, s.accepted, s.sent)
    ensures var t := Step(s, a); Accounted(t.tx, t.accepted, t.sent)
  {
    match a
    case Offer(p) =>
      if HasRoom(s.tx) { PushAccounted(s.tx, s.accepted, s.sent, p); }
    case Wake =>
      if s.tx.at == Blocked { FetchAccounted(s.tx, s.accepted, s.sent); }
    case Edge(tready, emit) =>
      EdgeAccounted(s.tx, s.accepted, s.sent, tready);
  }

  /* ---------------- the transmit side empties ---------------- */

  /** No clock edge finds the thread still blocked although a packet is there: the FIFO wakes it before. */
  predicate Prompt(s: System, acts: seq<Action>) {
    forall i | 0 <= i < |acts| && acts[i].Edge? :: AwakeAt(Run(s, acts[..i]))
  }

  predicate AwakeAt(s: System) { s.tx.at == Blocked ==> s.tx.fifo == [] }

  /** Whether the device drives a beat, edge by edge. */
  function Emits(acts: seq<Action>): (es: seq<bool>)
    ensures |es| == |Edges(acts)|
  {
    if acts == [] then []
    else
      var front := Emits(acts[..|acts| - 1]);
      var a := acts[|acts| - 1];
      if a.Edge? then front + [a.emit] else front
  }

  /** Of every k edges one sees TREADY, at one of every j the device drives a beat if it holds one, and no edge finds
      the transmit thread asleep beside a packet. */
  predicate Paced(s: System, acts: seq<Action>, k: nat, j: nat) {
    ReadyWithin(Edges(acts), k) && ReadyWithin(Emits(acts), j) && Prompt(s, acts)
  }

  /** Of the goal's packets: the beats not sent, and the packets not fetched. */
  function BeatsLeft(goal: seq<Packet>, s: System): nat {
    if |s.sent| < |AllBeats(goal)| then |AllBeats(goal)| - |s.sent| else 0
  }

  function Queued(goal: seq<Packet>, s: System): nat {
    var fetched := |s.accepted| - |s.tx.fifo|;
    if fetched < |goal| then |goal| - fetched else 0
  }

  /** While beats are left and none is on the ports, a packet of the goal is in the FIFO. */
  lemma {:induction false} StillQueued(goal: seq<Packet>, s: System)
    requires Accounted(s.tx, s.accepted, s.sent) && goal <= s.accepted
    requires BeatsLeft(goal, s) > 0 && s.tx.at != AtBeat
    ensures Queued(goal, s) > 0 && s.tx.fifo != []
  {
    var f := |s.accepted| - |s.tx.fifo|;
    assert s.accepted == s.accepted[..f] + s.tx.fifo;
    AllBeatsConcat(s.accepted[..f], s.tx.fifo);
    if f >= |goal| {
      assert s.accepted[..f][..|goal|] == goal;
      AllBeatsPrefix(s.accepted[..f], |goal|);
    }
  }

  /** The edges still needed at most, when every k-th is ready. */
  function Budget(goal: seq<Packet>, s: System, k: nat): nat { Times(BeatsLeft(goal, s), k) + Queued(goal, s) }

  /** n * k, as the edges of n beats add up. */
  function Times(n: nat, k: nat): (r: nat)
    ensures n > 0 ==> r >= k
  {
    if n == 0 then 0 else Times(n - 1, k) + k
  }

  lemma {:induction false} TimesIs(n: nat, k: nat)
    ensures Times(n, k) == k * n
  {
    if n > 0 { TimesIs(n - 1, k); }
  }

  lemma {:induction false} TimesMonotone(m: nat, n: nat, k: nat)
    requires m <= n
    ensures Times(m, k) <= Times(n, k)
  {
    if m < n { TimesMonotone(m, n - 1, k); }
  }

  /** w unready edges have been spent on the beat on the ports. */
  predicate Waiting(s: System, w: nat) { s.tx.at != AtBeat ==> w == 0 }

  /** An edge that takes a beat. */
  lemma {:induction false} ReadyPays(goal: seq<Packet>, s: System, emit: bool, k: nat)
    requires Accounted(s.tx, s.accepted, s.sent) && BeatsLeft(goal, s) > 0 && s.tx.at == AtBeat
    ensures Budget(goal, AtEdge(s, true, emit), k) + k == Budget(goal, s, k)
  {
    var t := AtEdge(s, true, emit);
    AcceptAccounted(s.tx, s.accepted, s.sent);
    assert t.sent == s.sent + [s.tx.port];
    assert BeatsLeft(goal, s) == BeatsLeft(goal, t) + 1;
  }

  /** An edge, or a wake-up, that takes a packet from the FIFO. */
  lemma {:induction false} FetchPays(goal: seq<Packet>, s: System, t: System, k: nat)
    requires Accounted(s.tx, s.accepted, s.sent) && goal <= s.accepted && BeatsLeft(goal, s) > 0
    requires s.tx.at != AtBeat && t.tx == Fetch(s.tx) && t.accepted == s.accepted && t.sent == s.sent
    ensures Budget(goal, t, k) + 1 == Budget(goal, s, k)
  {
    FetchQueued(goal, s, t);
  }

  lemma {:induction false} FetchQueued(goal: seq<Packet>, s: System, t: System)
    requires Accounted(s.tx, s.accepted, s.sent) && goal <= s.accepted && BeatsLeft(goal, s) > 0
    requires s.tx.at != AtBeat && t.tx == Fetch(s.tx) && t.accepted == s.accepted && t.sent == s.sent
    ensures Queued(goal, t) + 1 == Queued(goal, s) && BeatsLeft(goal, t) == BeatsLeft(goal, s)
  {
    StillQueued(goal, s);
    FetchAccounted(s.tx, s.accepted, s.sent);
  }

  /** Nothing changes for the goal. */
  lemma {:induction false} Unpaid(goal: seq<Packet>, s: System, t: System, k: nat)
    requires t.sent == s.sent && |t.accepted| - |t.tx.fifo| == |s.accepted| - |s.tx.fifo|
    ensures Budget(goal, t, k) == Budget(goal, s, k)
  {
  }

  /** One action: what an edge costs is made up for by a beat, a packet or a wait. */
  lemma {:induction false} StepPays(goal: seq<Packet>, s: System, a: Action, k: nat, w: nat) returns (v: nat)
    requires Accounted(s.tx, s.accepted, s.sent) && goal <= s.accepted && BeatsLeft(goal, s) > 0
    requires Waiting(s, w) && w < k && (a.Edge? ==> AwakeAt(s))
    ensures Waiting(Step(s, a), v) && v <= if !a.Edge? then w else if a.tready then 0 else w + 1
    ensures Budget(goal, Step(s, a), k) + w + (if a.Edge? then 1 else 0) <= Budget(goal, s, k) + v
  {
    v := w;
    match a
    case Offer(p) => Unpaid(goal, s, Step(s, a), k);
    case Wake =>
      if s.tx.at == Blocked && s.tx.fifo != [] { FetchPays(goal, s, Step(s, a), k); }
    case Edge(tready, emit) =>
      if s.tx.at != AtBeat {
        StillQueued(goal, s);
        FetchPays(goal, s, Step(s, a), k);
      } else if tready {
        ReadyPays(goal, s, emit, k);
        v := 0;
      } else {
        Unpaid(goal, s, Step(s, a), k);
        v := w + 1;
      }
  }

  /** The unready edges at the end. */
  function Trailing(es: seq<bool>): (n: nat)
    ensures n <= |es|
  {
    if es == [] || es[|es| - 1] then 0 else Trailing(es[..|es| - 1]) + 1
  }

  lemma {:induction false} TrailingUnready(es: seq<bool>, i: nat)
    requires |es| - Trailing(es) <= i < |es|
    ensures !es[i]
  {
    if i < |es| - 1 { TrailingUnready(es[..|es| - 1], i); }
  }

  lemma {:induction false} TrailingBelow(es: seq<bool>, k: nat)
    requires ReadyWithin(es, k)
    ensures Trailing(es) < k
  {
    if Trailing(es) >= k {
      var i := |es| - k;
      assert true in Span(es, i, k);
      var j :| 0 <= j < k && Span(es, i, k)[j];
      TrailingUnready(es, i + j);
    }
  }

  lemma {:induction false} ReadyFront(es: seq<bool>, front: seq<bool>, k: nat)
    requires ReadyWithin(es, k) && front <= es
    ensures ReadyWithin(front, k)
  {
    forall i: nat | i + k <= |front| ensures true in Span(front, i, k) {
      assert true in Span(es, i, k);
      assert Span(front, i, k) == Span(es, i, k);
    }
  }

  /** Nothing is taken back. */
  lemma {:induction false} Grows(s: System, a: Action)
    ensures var t := Step(s, a);
            s.accepted <= t.accepted && s.sent <= t.sent && s.sampled <= t.sampled && s.rx.delivered <= t.rx.delivered
  {
  }

  lemma {:induction false} RunAccounted(s: System, acts: seq<Action>)
    requires Conserved(s) && Accounted(s.tx, s.accepted, s.sent)
    ensures var t := Run(s, acts); Conserved(t) && Accounted(t.tx, t.accepted, t.sent) && s.accepted <= t.accepted
  {
    if acts != [] {
      var n := |acts| - 1;
      var r := Run(s, acts[..n]);
      RunAccounted(s, acts[..n]);
      StepKeeps(r, acts[n]);
      StepAccounted(r, acts[n]);
      Grows(r, acts[n]);
    }
  }

  /** One edge more in a list of edges. */
  function Then(w: nat, flag: bool): nat { if flag then 0 else w + 1 }

  /** What the last action adds to a run. */
  lemma {:induction false} OneMore(s: System, acts: seq<Action>, k: nat, j: nat)
    requires acts != [] && Paced(s, acts, k, j)
    ensures var n := |acts| - 1;
            var a := acts[n];
            && Paced(s, acts[..n], k, j) && (a.Edge? ==> AwakeAt(Run(s, acts[..n])))
            && |Edges(acts)| == |Edges(acts[..n])| + (if a.Edge? then 1 else 0)
    ensures var n := |acts| - 1;
            var (w, x) := (Trailing(Edges(acts[..n])), Trailing(Emits(acts[..n])));
            && w < k && x < j
            && Trailing(Edges(acts)) == (if acts[n].Edge? then Then(w, acts[n].tready) else w)
            && Trailing(Emits(acts)) == (if acts[n].Edge? then Then(x, acts[n].emit) else x)
  {
    var n := |acts| - 1;
    EdgesGrow(acts);
    ReadyFront(Edges(acts), Edges(acts[..n]), k);
    ReadyFront(Emits(acts), Emits(acts[..n]), j);
    TrailingBelow(Edges(acts[..n]), k);
    TrailingBelow(Emits(acts[..n]), j);
    assert forall i | 0 <= i < n :: acts[..n][..i] == acts[..i];
    if acts[n].Edge? {
      assert Edges(acts)[..|Edges(acts)| - 1] == Edges(acts[..n]);
      assert Emits(acts)[..|Emits(acts)| - 1] == Emits(acts[..n]);
    }
  }

  /** Every edge of a run is paid for out of the budget while beats of the goal are left. */
  lemma {:induction false} RunPays(s: System, acts: seq<Action>, k: nat, j: nat) returns (w: nat)
    requires Conserved(s) && Accounted(s.tx, s.accepted, s.sent) && Paced(s, acts, k, j)
    ensures var t := Run(s, acts);
            BeatsLeft(s.accepted, t) > 0 ==>
              && Waiting(t, w) && w <= Trailing(Edges(acts))
              && |Edges(acts)| + Budget(s.accepted, t, k) <= Budget(s.accepted, s, k) + w
  {
    w := 0;
    if acts != [] {
      var n := |acts| - 1;
      var r := Run(s, acts[..n]);
      OneMore(s, acts, k, j);
      w := RunPays(s, acts[..n], k, j);
      RunAccounted(s, acts[..n]);
      Grows(r, acts[n]);
      if BeatsLeft(s.accepted, r) > 0 {
        w := StepPays(s.accepted, r, acts[n], k, w);
      }
    }
  }

  /** So the budget is not yet spent. */
  lemma {:induction false} InTime(s: System, acts: seq<Action>, k: nat, j: nat)
    requires Conserved(s) && Accounted(s.tx, s.accepted, s.sent) && Paced(s, acts, k, j)
    requires BeatsLeft(s.accepted, Run(s, acts)) > 0
    ensures |Edges(acts)| < Budget(s.accepted, s, k)
  {
    var w := RunPays(s, acts, k, j);
    TrailingBelow(Edges(acts), k);
  }

  /* ---------------- the device and the receive side empty ---------------- */

  function Unsampled(goal: seq<Packet>, s: System): nat {
    if |s.sampled| < |AllBeats(goal)| then |AllBeats(goal)| - |s.sampled| else 0
  }

  /** The edges still needed at most to sample them, when the device drives a beat at every j-th. */
  function DeviceBudget(goal: seq<Packet>, s: System, j: nat): nat { Times(Unsampled(goal, s), j) }

  lemma {:induction false} DeviceBudgetShrinks(goal: seq<Packet>, s: System, t: System, j: nat)
    requires s.sampled <= t.sampled
    ensures DeviceBudget(goal, t, j) <= DeviceBudget(goal, s, j)
  {
    TimesMonotone(Unsampled(goal, t), Unsampled(goal, s), j);
  }

  /** Once all beats of the goal are sent, an edge at which the device drives a beat samples one more of them. */
  lemma {:induction false} StepSamples(goal: seq<Packet>, s: System, a: Action)
    requires s.sent == s.sampled + s.wire && BeatsLeft(goal, s) == 0 && Unsampled(goal, s) > 0
    ensures Unsampled(goal, Step(s, a)) == Unsampled(goal, s) - if a.Edge? && a.emit then 1 else 0
  {
  }

  /** One action: what an edge costs is made up for by a beat sampled or a wait. */
  lemma {:induction false} SamplePays(goal: seq<Packet>, s: System, a: Action, j: nat, x: nat) returns (y: nat)
    requires s.sent == s.sampled + s.wire && BeatsLeft(goal, s) == 0 && Unsampled(goal, s) > 0 && x < j
    ensures y <= if !a.Edge? then x else if a.emit then 0 else x + 1
    ensures DeviceBudget(goal, Step(s, a), j) + x + (if a.Edge? then 1 else 0) <= DeviceBudget(goal, s, j) + y
  {
    StepSamples(goal, s, a);
    y := if !a.Edge? then x else if a.emit then 0 else x + 1;
  }

  /** Every edge of a run is paid for while beats of the goal are unsampled; x edges without a beat come last. */
  predicate Unfinished(s: System, acts: seq<Action>, k: nat, j: nat, x: nat) {
    && x <= Trailing(Emits(acts))
    && |Edges(acts)| + DeviceBudget(s.accepted, Run(s, acts), j)
         <= Budget(s.accepted, s, k) + DeviceBudget(s.accepted, s, j) + x
  }

  lemma {:induction false} RunSamples(s: System, acts: seq<Action>, k: nat, j: nat) returns (x: nat)
    requires Conserved(s) && Accounted(s.tx, s.accepted, s.sent) && Paced(s, acts, k, j)
    ensures s.sampled <= Run(s, acts).sampled
    ensures BeatsLeft(s.accepted, Run(s, acts)) == 0 && Unsampled(s.accepted, Run(s, acts)) > 0 ==>
              Unfinished(s, acts, k, j, x)
  {
    x := 0;
    if acts != [] {
      var n := |acts| - 1;
      var r := Run(s, acts[..n]);
      OneMore(s, acts, k, j);
      x := RunSamples(s, acts[..n], k, j);
      RunAccounted(s, acts[..n]);
      Grows(r, acts[n]);
      if BeatsLeft(s.accepted, r) > 0 {
        InTime(s, acts[..n], k, j);
        DeviceBudgetShrinks(s.accepted, s, Run(s, acts), j);
        x := 0;
      } else if Unsampled(s.accepted, r) > 0 {
        x := SamplePays(s.accepted, r, acts[n], j, x);
      }
    }
  }

  /** So both budgets are not yet spent while a beat is on the way. */
  lemma {:induction false} DeviceInTime(s: System, acts: seq<Action>, k: nat, j: nat)
    requires Conserved(s) && Accounted(s.tx, s.accepted, s.sent) && Paced(s, acts, k, j)
    requires BeatsLeft(s.accepted, Run(s, acts)) > 0 || Unsampled(s.accepted, Run(s, acts)) > 0
    ensures |Edges(acts)| < Budget(s.accepted, s, k) + DeviceBudget(s.accepted, s, j)
  {
    if BeatsLeft(s.accepted, Run(s, acts)) > 0 {
      InTime(s, acts, k, j);
    } else {
      var x := RunSamples(s, acts, k, j);
      TrailingBelow(Emits(acts), j);
    }
  }

  /* ---------------- everything is delivered ---------------- */

  lemma {:induction false} SentFront(goal: seq<Packet>, s: System)
    requires Accounted(s.tx, s.accepted, s.sent) && goal <= s.accepted && BeatsLeft(goal, s) == 0
    ensures AllBeats(goal) <= s.sent
  {
    AllBeatsPrefix(s.accepted, |goal|);
    assert s.accepted[..|goal|] == goal;
    assert s.sent <= AllBeats(s.accepted);
  }

  /** With the goal's beats sampled, the receive thread has completed its packets. */
  lemma {:induction false} Completed(goal: seq<Packet>, s: System)
    requires Conserved(s) && Accounted(s.tx, s.accepted, s.sent) && goal <= s.accepted
    requires BeatsLeft(goal, s) == 0 && Unsampled(goal, s) == 0
    ensures NonEmpty(goal) <= Received(s.rx).done
  {
    SentFront(goal, s);
    assert AllBeats(goal) <= s.sampled;
    FeedBetween(AllBeats(goal), s.sampled);
    FeedPackets(goal);
  }

  /** The edges after which everything held now has been delivered: k for each beat to go, one for each packet in the
      FIFO, j for each beat not sampled, and one to hand over the last packet. */
  function Bound(s: System, k: nat, j: nat): int {
    k * |ToGo(s.tx)| + |s.tx.fifo| + j * (|ToGo(s.tx)| + |s.wire|) + 1
  }

  lemma {:induction false} FirstBudget(s: System, k: nat, j: nat)
    requires Conserved(s) && Accounted(s.tx, s.accepted, s.sent)
    ensures Bound(s, k, j) == Budget(s.accepted, s, k) + DeviceBudget(s.accepted, s, j) + 1
  {
    assert BeatsLeft(s.accepted, s) == |ToGo(s.tx)|;
    assert Unsampled(s.accepted, s) == |ToGo(s.tx)| + |s.wire|;
    TimesIs(|ToGo(s.tx)|, k);
    TimesIs(|ToGo(s.tx)| + |s.wire|, j);
  }

  /** What has not been delivered after a run is still within the bound. */
  lemma {:induction false} RunDelivers(s: System, acts: seq<Action>, k: nat, j: nat)
    requires Conserved(s) && Accounted(s.tx, s.accepted, s.sent) && Paced(s, acts, k, j)
    ensures NonEmpty(s.accepted) <= Run(s, acts).rx.delivered
         || |Edges(acts)| <= Budget(s.accepted, s, k) + DeviceBudget(s.accepted, s, j)
  {
    if acts != [] {
      var n := |acts| - 1;
      var r := Run(s, acts[..n]);
      OneMore(s, acts, k, j);
      RunDelivers(s, acts[..n], k, j);
      RunAccounted(s, acts[..n]);
      Grows(r, acts[n]);
      if BeatsLeft(s.accepted, r) > 0 || Unsampled(s.accepted, r) > 0 {
        DeviceInTime(s, acts[..n], k, j);
      } else {
        Completed(s.accepted, r);
        if acts[n].Edge? { Delivers(r, acts[n]); }
      }
    }
  }

  lemma {:induction false} Delivers(s: System, a: Action)
    requires a.Edge?
    ensures Step(s, a).rx.delivered == Received(s.rx).done
  {
    var queue := s.wire + Transferred(s, a.tready);
    var out := if a.emit && queue != [] then queue[..1] else [];
    EdgeDelivers(s.rx, out != [], if out != [] then out[0] else Beat(0, 0, false));
  }

  /** Enough clock edges at this pace. */
  predicate Ample(s: System, acts: seq<Action>, k: nat, j: nat) {
    Paced(s, acts, k, j) && |Edges(acts)| >= Bound(s, k, j)
  }

  /** Everything is delivered: from any reachable state, with TREADY at one of every k edges and a device that hands
      on a beat at one of every j, all packets accepted so far have gone to on_rx after so many edges, whatever is
      pushed meanwhile. */
  lemma {:induction false} AllDelivered(before: seq<Action>, acts: seq<Action>, k: nat, j: nat)
    requires Ample(Run(START, before), acts, k, j)
    ensures NonEmpty(Run(START, before).accepted) <= Run(Run(START, before), acts).rx.delivered
  {
    var s := Run(START, before);
    RunAccounted(START, before);
    FirstBudget(s, k, j);
    RunDelivers(s, acts, k, j);
  }

  lemma {:induction false} RunPush(s: System, acts: seq<Action>, a: Action)
    ensures Run(s, acts + [a]) == Step(Run(s, acts), a)
  {
    assert (acts + [a])[..|acts|] == acts;
  }

  lemma {:induction false} ConcatPush(s: System, front: seq<Action>, acts: seq<Action>, a: Action)
    requires Run(Run(s, front), acts) == Run(s, front + acts)
    ensures Run(Run(s, front), acts + [a]) == Run(s, front + (acts + [a]))
  {
    RunPush(Run(s, front), acts, a);
    RunPush(s, front + acts, a);
    Assoc(front, acts, [a]);
  }

  lemma {:induction false} RunConcat(s: System, front: seq<Action>, acts: seq<Action>)
    ensures Run(Run(s, front), acts) == Run(s, front + acts)
  {
    if acts == [] {
      assert front + acts == front;
    } else {
      var n := |acts| - 1;
      RunConcat(s, front, acts[..n]);
      ConcatPush(s, front, acts[..n], acts[n]);
      assert acts == acts[..n] + [acts[n]];
    }
  }

  /** When nothing more is pushed, on_rx has then been given exactly the accepted non-empty packets. */
  lemma {:induction false} ExactlyDelivered(before: seq<Action>, acts: seq<Action>, k: nat, j: nat)
    requires Ample(Run(START, before), acts, k, j)
    requires forall i | 0 <= i < |acts| :: !acts[i].Offer?
    ensures Run(START, before + acts).rx.delivered == NonEmpty(Run(START, before).accepted)
  {
    AllDelivered(before, acts, k, j);
    RunConcat(START, before, acts);
    NothingPushed(Run(START, before), acts);
    DeliveredInOrder(before + acts);
  }

  lemma {:induction false} NothingPushed(s: System, acts: seq<Action>)
    requires forall i | 0 <= i < |acts| :: !acts[i].Offer?
    ensures Run(s, acts).accepted == s.accepted
  {
    if acts != [] { NothingPushed(s, acts[..|acts| - 1]); }
  }
}
