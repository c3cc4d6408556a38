/** A session driven over one stack: round trip and independence of history on the heap. */
module SessionRuns {
  import opened Layout
  import PacketBuilding
  import opened Bits
  import opened StackCodec
  import opened EncodePassLaws
  import opened StackLaws
  import opened Stacks
  import opened Sessions

  /** Decodes a frame on the stack that generated it. */
  method DecodeOwn(session: Session, stack: Stack, sent: StackedPacket, ghost e: StackState)
    returns (received: StackedPacket)
    requires stack.Valid() && stack.Shows(session.interfaceFor, e)
    modifies ContextSet(stack.mLayers)`mFields, ModuleSet(stack.mLayers)
    ensures stack.Valid() && received == DecodedFrame(e, session.db, sent.bytes)
  {
    var diverged;
    received, diverged := session.DecodeStack(stack, sent.bytes, e);
  }

  /** Generates a frame on a wired stack and decodes it on the same stack: the same layers with the same bytes, each
      value modulo 2^min(width, 64). */
  method GenerateThenDecode(session: Session, stack: Stack, ghost st: StackState)
    returns (sent: StackedPacket, received: StackedPacket)
    requires stack.Valid() && stack.Shows(session.interfaceFor, st)
    requires Clean(st) && Codable(st, session.db)
    modifies ContextSet(stack.mLayers)`mFields, ModuleSet(stack.mLayers), session.mBuilder`pos
    ensures stack.Valid()
    ensures var e := AfterGenerate(st, session.db, session.mBuilder.draws, old(session.mBuilder.pos));
            sent == Frame(e) && received == StackedPacket(sent.bytes, WireLayers(e, |e|))
  {
    ghost var e := AfterGenerate(st, session.db, session.mBuilder.draws, session.mBuilder.pos);
    sent := session.GenerateStack(stack, st);
    received := DecodeOwn(session, stack, sent, e);
    SameStackRoundTrip(st, session.db, session.mBuilder.draws, old(session.mBuilder.pos));
  }

  /** The stack that generated a frame decodes it. */
  lemma {:induction false} SameStackRoundTrip(st: StackState, db: VarDb, draws: PacketBuilding.Draws, pos: nat)
    requires Clean(st) && Codable(st, db)
    ensures var e := AfterGenerate(st, db, draws, pos);
            DecodedFrame(e, db, Frame(e).bytes) == StackedPacket(Frame(e).bytes, WireLayers(e, |e|))
  {
    GeneratedBinding(st, db, draws, pos);
    StackRoundTrip(st, AfterGenerate(st, db, draws, pos), db, draws, pos);
  }

  /** Where the random engine stands after these operations: a generated frame draws every layer's fields, a decoded
      one draws nothing. */
  function PosAfter(st: StackState, db: VarDb, ops: seq<Option<seq<byte>>>, pos: nat): nat {
    if ops == [] then pos
    else
      var p := PosAfter(st, db, ops[..|ops| - 1], pos);
      if ops[|ops| - 1].Some? then p else LoadPos(st, |st|, db, p)
  }

  /** One operation on the stack: decode a frame, or generate one and drop it. */
  method Perform(session: Session, stack: Stack, op: Option<seq<byte>>, ghost st: StackState)
    returns (ghost next: StackState)
    requires stack.Valid() && stack.Shows(session.interfaceFor, st) && Clean(st)
    modifies ContextSet(stack.mLayers)`mFields, ModuleSet(stack.mLayers), session.mBuilder`pos
    ensures stack.Valid() && stack.Shows(session.interfaceFor, next)
    ensures Clean(next) && SameBinding(next, st)
    ensures session.mBuilder.pos
         == if op.Some? then old(session.mBuilder.pos) else LoadPos(st, |st|, session.db, old(session.mBuilder.pos))
  {
    ghost var pos := session.mBuilder.pos;
    if op.Some? {
      var _, _ := session.DecodeStack(stack, op.value, st);
      next := AfterDecode(st, session.db, op.value);
      StepKeeps(st, session.db, DecodeOp(op.value));
    } else {
      var _ := session.GenerateStack(stack, st);
      next := AfterGenerate(st, session.db, session.mBuilder.draws, pos);
      StepKeeps(st, session.db, GenerateOp(session.mBuilder.draws, pos));
    }
  }

  /** After any mix of decodes and generates, the next frame is the one a fresh stack would give for the draws that
      follow those used up. */
  method FrameAfter(session: Session, stack: Stack, ops: seq<Option<seq<byte>>>, ghost st: StackState)
    returns (frame: StackedPacket)
    requires stack.Valid() && stack.Shows(session.interfaceFor, st) && Clean(st)
    modifies ContextSet(stack.mLayers)`mFields, ModuleSet(stack.mLayers), session.mBuilder`pos
    ensures stack.Valid()
    ensures var pos := PosAfter(st, session.db, ops, old(session.mBuilder.pos));
            && frame == Generated(st, session.db, session.mBuilder.draws, pos)
            && session.mBuilder.pos == LoadPos(st, |st|, session.db, pos)
  {
    ghost var cur := st;
    for i := 0 to |ops|
      invariant stack.Valid() && stack.Shows(session.interfaceFor, cur)
      invariant Clean(cur) && SameBinding(cur, st)
      invariant session.mBuilder.pos == PosAfter(st, session.db, ops[..i], old(session.mBuilder.pos))
    {
      assert ops[..i + 1][..i] == ops[..i];
      LoadPosSame(cur, st, |st|, session.db, session.mBuilder.pos);
      ghost var next := Perform(session, stack, ops[i], cur);
      BindingTransitive(next, cur, st);
      cur := next;
    }
    assert ops[..|ops|] == ops;
    ghost var pos := session.mBuilder.pos;
    LoadPosSame(cur, st, |st|, session.db, pos);
    frame := session.GenerateStack(stack, cur);
    FreshFrame(cur, st, session.db, session.mBuilder.draws, pos);
  }
}
