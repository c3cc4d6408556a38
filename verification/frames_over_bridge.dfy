/** A stack's frames across the clocked bridge: pushed in, carried by the device, decoded by a second stack. */
module FramesOverBridge {
  import opened Sequences
  import opened Layout
  import opened PacketBuilding
  import opened StackCodec
  import opened EncodePassLaws
  import opened StackLaws
  import opened Stacks
  import opened Sessions
  import opened FrameRuns
  import A = AxisBridges
  import G = BridgeLaws
  import D = BridgeDelivery
  import R = BridgeRuns
  import E = EndToEnd

  /** What happens to the bridge while frames are pushed: the next frame is offered, or something else happens. */
  datatype Move = Next | Other(a: G.Action)

  /** Each frame is offered once, in order. */
  function Offering(moves: seq<Move>, frames: seq<Packet>): seq<G.Action> {
    if moves == [] then []
    else if moves[0].Other? then [moves[0].a] + Offering(moves[1..], frames)
    else if frames == [] then Offering(moves[1..], [])
    else [G.Offer(frames[0])] + Offering(moves[1..], frames[1..])
  }

  lemma {:induction false} OneAction(s: G.System, a: G.Action, acts: seq<G.Action>)
    ensures G.Run(s, [a] + acts) == G.Run(G.Step(s, a), acts)
  {
    D.RunPush(s, [], a);
    assert [] + [a] == [a];
    D.RunConcat(s, [a], acts);
  }

  lemma {:induction false} OneOffer(s: G.System, moves: seq<Move>, frames: seq<Packet>) returns (t: G.System)
    requires moves != [] && frames != [] && moves[0].Next? && A.HasRoom(s.tx)
    ensures G.Run(s, Offering(moves, frames)) == G.Run(t, Offering(moves[1..], frames[1..]))
    ensures t.accepted == s.accepted + [frames[0]] && |t.tx.fifo| == |s.tx.fifo| + 1
  {
    t := G.Step(s, G.Offer(frames[0]));
    OneAction(s, G.Offer(frames[0]), Offering(moves[1..], frames[1..]));
  }

  predicate AllNext(moves: seq<Move>) { forall i | 0 <= i < |moves| :: moves[i].Next? }

  /** Up to four frames fit in at once. */
  lemma {:induction false} BurstAccepted(s: G.System, moves: seq<Move>, frames: seq<Packet>)
    requires |moves| == |frames| && AllNext(moves)
    requires |s.tx.fifo| + |frames| <= 4
    ensures G.Run(s, Offering(moves, frames)).accepted == s.accepted + frames
    decreases |moves|
  {
    if moves == [] {
      assert s.accepted + frames == s.accepted;
    } else {
      var t := OneOffer(s, moves, frames);
      BurstAccepted(t, moves[1..], frames[1..]);
      assert frames == [frames[0]] + frames[1..];
      Assoc(s.accepted, [frames[0]], frames[1..]);
    }
  }

  /** What comes out behind a bridge that accepted all these packets: a front of them, and all after enough edges. */
  predicate Bridged(packets: seq<Packet>, pushing: seq<Move>, after: seq<G.Action>, k: nat, j: nat,
                    delivered: seq<Packet>)
  {
    var s := G.Run(G.START, Offering(pushing, packets));
    s.accepted == packets ==>
      && delivered <= NonEmpty(packets)
      && (D.Ample(s, after, k, j) ==> delivered == NonEmpty(packets))
  }

  method BridgeTrip(packets: seq<Packet>, pushing: seq<Move>, after: seq<G.Action>, ghost k: nat, ghost j: nat)
    returns (delivered: seq<Packet>)
    requires forall i | 0 <= i < |after| :: !after[i].Offer?
    ensures Bridged(packets, pushing, after, k, j, delivered)
  {
    var before := Offering(pushing, packets);
    var accepted;
    accepted, delivered := R.Simulate(before + after);
    D.RunConcat(G.START, before, after);
    D.NothingPushed(G.Run(G.START, before), after);
    if D.Ample(G.Run(G.START, before), after, k, j) { D.ExactlyDelivered(before, after, k, j); }
  }

  /** Reports of a run that went across the bridge: if every push was accepted, a front of those frames, and all of them
      after enough edges. */
  ghost predicate BridgeReported(st: StackState, db: VarDb, draws: Draws, pos: nat, n: nat, pushing: seq<Move>,
                                 after: seq<G.Action>, k: nat, j: nat, reports: seq<StackedPacket>)
  {
    var frames := Frames(st, db, draws, pos, n);
    var s := G.Run(G.START, Offering(pushing, frames));
    s.accepted == frames ==>
      && reports <= Seen(st, db, draws, pos, n)
      && (D.Ample(s, after, k, j) ==> reports == Seen(st, db, draws, pos, n))
  }

  lemma {:induction false} BridgedReported(st: StackState, db: VarDb, draws: Draws, pos: nat, n: nat,
                                           pushing: seq<Move>, after: seq<G.Action>, k: nat, j: nat,
                                           delivered: seq<Packet>, reports: seq<StackedPacket>)
    requires var frames, seen := Frames(st, db, draws, pos, n), Seen(st, db, draws, pos, n);
             && Bridged(frames, pushing, after, k, j, delivered)
             && (reports == seen <==> delivered == NonEmpty(frames[..n]))
             && (delivered <= NonEmpty(frames[..n]) ==> reports <= seen)
    ensures BridgeReported(st, db, draws, pos, n, pushing, after, k, j, reports)
  {
    var frames := Frames(st, db, draws, pos, n);
    assert frames[..n] == frames;
  }

  /** n frames of one stack pushed into the bridge, carried through its device and decoded by a second stack: if every
      push is accepted, nothing but these frames is reported, in order, and all of them once the bridge has been given
      its bound of clock edges. */
  method AcrossBridge(tx: Session, txStack: Stack, rx: Session, rxStack: Stack, n: nat, pushing: seq<Move>,
                      after: seq<G.Action>, ghost k: nat, ghost j: nat, ghost st: StackState, ghost other: StackState)
    returns (reports: seq<StackedPacket>)
    requires txStack.Valid() && txStack.Shows(tx.interfaceFor, st) && Clean(st) && Codable(st, tx.db)
    requires rxStack.Valid() && rxStack.Shows(rx.interfaceFor, other) && Clean(other)
    requires rx.db == tx.db && SameBinding(other, st) && Separate(txStack, rxStack)
    requires forall i | 0 <= i < |after| :: !after[i].Offer?
    modifies ContextSet(txStack.mLayers)`mFields, ModuleSet(txStack.mLayers), tx.mBuilder`pos
    modifies ContextSet(rxStack.mLayers)`mFields, ModuleSet(rxStack.mLayers)
    ensures BridgeReported(st, tx.db, tx.mBuilder.draws, old(tx.mBuilder.pos), n, pushing, after, k, j, reports)
  {
    ghost var pos := tx.mBuilder.pos;
    var packets := GenerateBeside(tx, txStack, n, st, rxStack, rx.interfaceFor, other);
    var delivered := BridgeTrip(packets, pushing, after, k, j);
    reports := E.Reporting(rx, rxStack, delivered, other, st, tx.mBuilder.draws, pos, n, n);
    BridgedReported(st, tx.db, tx.mBuilder.draws, pos, n, pushing, after, k, j, delivered, reports);
  }
}
