/** The bridge object driven through a run: clock edges resume both threads on the signals as they were before. */
module BridgeRuns {
  import opened Sequences
  import opened AxiStream
  import opened AxisBridges
  import opened BridgeLaws

  /** Runs a fresh bridge against a device that hands beats on in order. Whatever the run, on_rx has been given a
      prefix of the non-empty packets that were accepted. */
  method Simulate(acts: seq<Action>) returns (accepted: seq<Packet>, delivered: seq<Packet>)
    ensures accepted == Run(START, acts).accepted && delivered == Run(START, acts).rx.delivered
    ensures delivered <= NonEmpty(accepted)
  {
    var bridge := new AxisBridge();
    var wire: seq<Beat> := [];
    accepted := [];
    ghost var s := START;
    for i := 0 to |acts|
      invariant bridge.Valid() && fresh(bridge)
      invariant s == Run(START, acts[..i])
      invariant bridge.Tx() == s.tx && bridge.Rx() == s.rx && wire == s.wire && accepted == s.accepted
    {
      assert acts[..i + 1][..i] == acts[..i];
      match acts[i] {
        case Offer(p) =>
          var ok := bridge.PushTxPacket(p);
          if ok { accepted := accepted + [p]; }
        case Wake =>
          bridge.WakeTx();
        case Edge(tready, emit) =>
          var queue := wire + if bridge.mTvalid && tready then [bridge.mPort] else [];
          var out := if emit && queue != [] then queue[..1] else [];
          bridge.ResumeTx(tready);
          bridge.ResumeRx(out != [], if out != [] then out[0] else Beat(0, 0, false));
          wire := queue[|out|..];
      }
      s := Step(s, acts[i]);
    }
    assert acts[..|acts|] == acts;
    delivered := bridge.delivered;
    DeliveredInOrder(acts);
  }
}
