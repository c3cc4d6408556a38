/** Constraints on the wire, and how values travel along a chain of interfaces. */
module Chains {
  import opened Bits
  import opened FieldCodec
  import opened Layout
  import opened PacketBuilding
  import opened PacketDecoding
  import opened StackCodec
  import opened StackLaws
  import opened ListCodec

  /* ---------------- constraints reach the wire ---------------- */

  /** The values a var constrains itself to can be carried by its width. A mask needs no condition. */
  predicate FitsWidth(v: Var) {
    if v.expected != [] then forall x | x in v.expected :: x < Pow2(v.size)
    else v.range.Some? ==> Hi(v.range.value) < Pow2(v.size)
  }

  lemma {:induction false} PickFits(v: Var, r: nat)
    requires 0 < v.size <= 64 && FitsWidth(v)
    ensures Pick(v, r) < Pow2(v.size)
  {
    if v.expected != [] {
      assert Pick(v, r) in v.expected;
    } else if v.range.None? && v.size == 64 {
      Pow2Word();
    }
  }

  /** If a var's constraint fits its width, the value decoded from any frame holding a freely built packet
      satisfies the constraint its value was picked by. */
  lemma {:induction false} ConstraintReachesWire(slots: seq<Slot>, draws: Draws, pos: nat, i: nat, before: seq<byte>,
                                                 after: seq<byte>)
    requires i < |slots| && 0 < slots[i].v.size <= 64 && FitsWidth(slots[i].v)
    ensures var frame := before + Built(slots, map[], draws, pos).bytes + after;
            Satisfies(slots[i].v, Decoded(slots, frame, |before|).fields[i].value)
  {
    var b := Built(slots, map[], draws, pos);
    var v := slots[i].v;
    PacketRoundTrip(slots, b, before, after);
    NamedAt(slots, AllOnWire(Widths(slots), Vals(b.fields)), i);
    ValsAt(b.fields, i);
    WidthsAt(slots, i);
    FilledFresh(slots, draws, pos, i);
    PickFits(v, draws(pos + i));
    LowFits(b.fields[i].value, v.size);
    PickedIffSatisfies(v, b.fields[i].value);
  }

  /* ---------------- generateChain ---------------- */

  /** The overrides a stage hands on after k of its fields: by name, the last of a name winning. */
  function CollectedTo(fields: seq<FieldValue>, k: nat): map<string, u64>
    requires k <= |fields|
  {
    if k == 0 then map[] else CollectedTo(fields, k - 1)[fields[k - 1].name := fields[k - 1].value]
  }

  datatype ChainState = ChainState(packets: seq<BuiltPacket>, overrides: map<string, u64>, pos: nat)

  /** The chain after its first k stages. */
  function ChainTo(ss: seq<seq<Slot>>, k: nat, draws: Draws, pos: nat): (c: ChainState)
    requires k <= |ss|
    ensures |c.packets| == k
  {
    if k == 0 then ChainState([], map[], pos)
    else
      var c := ChainTo(ss, k - 1, draws, pos);
      var b := Built(ss[k - 1], c.overrides, draws, c.pos);
      ChainState(c.packets + [b], CollectedTo(b.fields, |b.fields|), Filled(ss[k - 1], c.overrides, draws, c.pos).1)
  }

  /** The packet of stage k. */
  function Stage(ss: seq<seq<Slot>>, k: nat, draws: Draws, pos: nat): BuiltPacket
    requires k < |ss|
  {
    var c := ChainTo(ss, k, draws, pos);
    Built(ss[k], c.overrides, draws, c.pos)
  }

  /** What generateChain returns. */
  function Round(stages: seq<ProtocolInterface>, db: VarDb, draws: Draws, pos: nat): (round: seq<Layer>)
    ensures |round| == |stages|
  {
    Labelled(stages, ChainTo(Layouts(stages, |stages|, db), |stages|, draws, pos).packets)
  }

  lemma {:induction false} ChainPush(ss: seq<seq<Slot>>, k: nat, draws: Draws, pos: nat)
    requires k < |ss|
    ensures ChainTo(ss, k + 1, draws, pos).packets == ChainTo(ss, k, draws, pos).packets + [Stage(ss, k, draws, pos)]
  {
  }

  lemma {:induction false} ChainPacket(ss: seq<seq<Slot>>, n: nat, draws: Draws, pos: nat, k: nat)
    requires k < n <= |ss|
    ensures ChainTo(ss, n, draws, pos).packets[k] == Stage(ss, k, draws, pos)
  {
    ChainPush(ss, n - 1, draws, pos);
    if k < n - 1 { ChainPacket(ss, n - 1, draws, pos, k); }
  }

  /** Layer k of the round is stage k's packet under the stage's name. */
  lemma {:induction false} RoundAt(stages: seq<ProtocolInterface>, db: VarDb, draws: Draws, pos: nat, k: nat)
    requires k < |stages|
    ensures Round(stages, db, draws, pos)[k]
         == Layer(stages[k].name, Stage(Layouts(stages, |stages|, db), k, draws, pos))
  {
    var ss := Layouts(stages, |stages|, db);
    ChainPacket(ss, |stages|, draws, pos, k);
    LabelledAt(stages, ChainTo(ss, |stages|, draws, pos).packets, k);
  }

  /** The draws of a round: each stage starts where the one before stopped, and uses one for every field it does not
      take over. */
  lemma {:induction false} StageDraws(ss: seq<seq<Slot>>, k: nat, draws: Draws, pos: nat)
    requires k < |ss|
    ensures ChainTo(ss, 0, draws, pos).pos == pos && ChainTo(ss, 0, draws, pos).overrides == map[]
    ensures var c := ChainTo(ss, k, draws, pos);
            ChainTo(ss, k + 1, draws, pos).pos == c.pos + DrawnBefore(ss[k], c.overrides, |ss[k]|)
  {
    var c := ChainTo(ss, k, draws, pos);
    FilledPos(ss[k], c.overrides, draws, c.pos);
  }

  lemma {:induction false} FreshPick(slots: seq<Slot>, ov: map<string, u64>, draws: Draws, pos: nat, j: nat)
    requires j < |slots| && (slots[j].v.expected != [] || slots[j].name !in ov)
    ensures |Built(slots, ov, draws, pos).fields| == |slots|
    ensures Built(slots, ov, draws, pos).fields[j].value
         == Pick(slots[j].v, draws(pos + DrawnBefore(slots, ov, j)))
  {
    FieldBuilt(slots, ov, draws, pos, j);
  }

  /** The fields a stage does not take over are picked from these draws in order. */
  lemma {:induction false} StagePicks(ss: seq<seq<Slot>>, k: nat, draws: Draws, pos: nat, j: nat, c: ChainState)
    requires k < |ss| && j < |ss[k]| && c == ChainTo(ss, k, draws, pos)
    requires ss[k][j].v.expected != [] || ss[k][j].name !in c.overrides
    ensures |Stage(ss, k, draws, pos).fields| == |ss[k]|
    ensures Stage(ss, k, draws, pos).fields[j].value
         == Pick(ss[k][j].v, draws(c.pos + DrawnBefore(ss[k], c.overrides, j)))
  {
    FreshPick(ss[k], c.overrides, draws, c.pos, j);
  }

  /** Field i of a stage is the last of its name. With distinct short names every field is. */
  predicate LastOfName(fields: seq<FieldValue>, i: nat)
    requires i < |fields|
  {
    forall j | i < j < |fields| :: fields[j].name != fields[i].name
  }

  lemma {:induction false} CollectedLast(fields: seq<FieldValue>, k: nat, i: nat)
    requires i < k <= |fields| && LastOfName(fields, i)
    ensures fields[i].name in CollectedTo(fields, k) && CollectedTo(fields, k)[fields[i].name] == fields[i].value
  {
    if i < k - 1 {
      CollectedLast(fields, k - 1, i);
      assert fields[k - 1].name != fields[i].name;
    }
  }

  lemma {:induction false} CollectedNames(fields: seq<FieldValue>, k: nat, name: string)
    requires k <= |fields|
    ensures name in CollectedTo(fields, k) <==> exists i | 0 <= i < k :: fields[i].name == name
  {
    if k > 0 { CollectedNames(fields, k - 1, name); }
  }

  /** Field j of a built packet: masked override, or a pick from some later draw. */
  lemma {:induction false} FilledAt(slots: seq<Slot>, ov: map<string, u64>, draws: Draws, pos: nat, j: nat)
    returns (p: nat)
    requires j < |slots|
    ensures Filled(slots, ov, draws, pos).0[j] ==
            FieldValue(slots[j].name,
                       if Overridden(slots[j], ov) then Masked(slots[j].v, ov[slots[j].name])
                       else Pick(slots[j].v, draws(p)))
  {
    var n := |slots| - 1;
    if j == n {
      p := Filled(slots[..n], ov, draws, pos).1;
    } else {
      p := FilledAt(slots[..n], ov, draws, pos, j);
    }
  }

  /** The overrides stage k is built with: nothing for the first, the previous stage's fields after that. */
  lemma {:induction false} StageOverrides(ss: seq<seq<Slot>>, k: nat, draws: Draws, pos: nat)
    requires k < |ss|
    ensures ChainTo(ss, k, draws, pos).overrides ==
            if k == 0 then map[]
            else CollectedTo(Stage(ss, k - 1, draws, pos).fields, |Stage(ss, k - 1, draws, pos).fields|)
  {
  }

  /** Slot i is the last of this name. With distinct short names the only one is. */
  predicate LastNamed(slots: seq<Slot>, i: nat, name: string) {
    i < |slots| && slots[i].name == name && forall x | i < x < |slots| :: slots[x].name != name
  }

  predicate LacksName(slots: seq<Slot>, name: string) {
    forall i | 0 <= i < |slots| :: slots[i].name != name
  }

  /** One link: an unconstrained field whose name the previous stage carries holds that value, masked. */
  lemma {:induction false} LinkCarries(ss: seq<seq<Slot>>, k: nat, draws: Draws, pos: nat, i: nat, j: nat)
    requires 0 < k < |ss| && i < |ss[k - 1]| && j < |ss[k]|
    requires LastNamed(ss[k - 1], i, ss[k][j].name) && ss[k][j].v.expected == []
    ensures Stage(ss, k, draws, pos).fields[j].value ==
            Masked(ss[k][j].v, Stage(ss, k - 1, draws, pos).fields[i].value)
  {
    var c := ChainTo(ss, k - 1, draws, pos);
    var fields := Stage(ss, k - 1, draws, pos).fields;
    BuiltNames(ss[k - 1], c.overrides, draws, c.pos);
    assert Names(ss[k - 1], fields);
    assert LastOfName(fields, i);
    CollectedLast(fields, |fields|, i);
    StageOverrides(ss, k, draws, pos);
    var _ := FilledAt(ss[k], ChainTo(ss, k, draws, pos).overrides, draws, ChainTo(ss, k, draws, pos).pos, j);
  }

  /** The name sits at index at[s] of stage s, after the first stage on a var without expected values. */
  predicate PresentAt(ss: seq<seq<Slot>>, at: seq<nat>, s: nat, name: string)
    requires s < |ss| && s < |at|
  {
    LastNamed(ss[s], at[s], name) && (s > 0 ==> ss[s][at[s]].v.expected == [])
  }

  predicate PresentThrough(ss: seq<seq<Slot>>, at: seq<nat>, k: nat, name: string) {
    && k < |ss| && k < |at|
    && forall s {:trigger PresentAt(ss, at, s, name)} | 0 <= s <= k :: PresentAt(ss, at, s, name)
  }

  /** Bit b lies in every non-zero mask the name meets at stages 1 to k. */
  predicate PassesMasks(ss: seq<seq<Slot>>, at: seq<nat>, k: nat, name: string, b: nat)
    requires PresentThrough(ss, at, k, name)
  {
    assert PresentAt(ss, at, k, name);
    k == 0 || (PassesMasks(ss, at, k - 1, name, b) &&
               (ss[k][at[k]].v.HasMask() ==> Bit(ss[k][at[k]].v.mask, b) == 1))
  }

  /** The value the name has at stage k. */
  function Carried(ss: seq<seq<Slot>>, at: seq<nat>, k: nat, name: string, draws: Draws, pos: nat): u64
    requires PresentThrough(ss, at, k, name)
  {
    assert PresentAt(ss, at, k, name);
    Stage(ss, k, draws, pos).fields[at[k]].value
  }

  lemma {:induction false} CarriedStep(ss: seq<seq<Slot>>, at: seq<nat>, k: nat, name: string, draws: Draws, pos: nat)
    requires k > 0 && PresentThrough(ss, at, k, name)
    ensures PresentAt(ss, at, k, name) && PresentThrough(ss, at, k - 1, name)
    ensures Carried(ss, at, k, name, draws, pos)
            == Masked(ss[k][at[k]].v, Carried(ss, at, k - 1, name, draws, pos))
  {
    assert PresentAt(ss, at, k, name) && PresentAt(ss, at, k - 1, name);
    LinkCarries(ss, k, draws, pos, at[k - 1], at[k]);
  }

  lemma {:induction false} MaskedBit(v: Var, x: u64, b: nat)
    ensures Bit(Masked(v, x), b) == 1 <==> Bit(x, b) == 1 && (v.HasMask() ==> Bit(v.mask, b) == 1)
  {
    BitAnd(x, v.mask, b);
  }

  lemma {:induction false} StagePropagation(ss: seq<seq<Slot>>, at: seq<nat>, k: nat, name: string, draws: Draws,
                                            pos: nat, b: nat)
    requires PresentThrough(ss, at, k, name)
    ensures PresentThrough(ss, at, 0, name)
    ensures Bit(Carried(ss, at, k, name, draws, pos), b) == 1 <==>
            Bit(Carried(ss, at, 0, name, draws, pos), b) == 1 && PassesMasks(ss, at, k, name, b)
  {
    if k > 0 {
      CarriedStep(ss, at, k, name, draws, pos);
      StagePropagation(ss, at, k - 1, name, draws, pos, b);
      MaskedBit(ss[k][at[k]].v, Carried(ss, at, k - 1, name, draws, pos), b);
    }
  }

  /** The value a field of the round has. */
  function InRound(round: seq<Layer>, k: nat, i: nat): Option<u64> {
    if k < |round| && i < |round[k].packet.fields| then Some(round[k].packet.fields[i].value) else None
  }

  lemma {:induction false} CarriedInRound(stages: seq<ProtocolInterface>, db: VarDb, at: seq<nat>, k: nat,
                                          name: string, draws: Draws, pos: nat)
    requires k < |stages| && PresentThrough(Layouts(stages, |stages|, db), at, k, name)
    ensures InRound(Round(stages, db, draws, pos), k, at[k])
         == Some(Carried(Layouts(stages, |stages|, db), at, k, name, draws, pos))
  {
    var ss := Layouts(stages, |stages|, db);
    RoundAt(stages, db, draws, pos, k);
    assert PresentAt(ss, at, k, name);
  }

  /** A chain carries a value: in every round, at stage k a bit of the field is set exactly if it was set at stage 0 and
      lies in every non-zero mask on the way. */
  lemma {:induction false} ChainPropagation(stages: seq<ProtocolInterface>, db: VarDb, at: seq<nat>, k: nat,
                                            name: string, draws: Draws, pos: nat, b: nat)
    requires k < |stages| && PresentThrough(Layouts(stages, |stages|, db), at, k, name)
    ensures var round := Round(stages, db, draws, pos);
            var first, here := InRound(round, 0, at[0]), InRound(round, k, at[k]);
            && first.Some? && here.Some?
            && (Bit(here.value, b) == 1 <==>
                Bit(first.value, b) == 1 && PassesMasks(Layouts(stages, |stages|, db), at, k, name, b))
  {
    StagePropagation(Layouts(stages, |stages|, db), at, k, name, draws, pos, b);
    CarriedInRound(stages, db, at, k, name, draws, pos);
    CarriedInRound(stages, db, at, 0, name, draws, pos);
  }

  /** The name meets no mask at stage s. */
  predicate UnmaskedAt(ss: seq<seq<Slot>>, at: seq<nat>, s: nat, name: string)
    requires s < |ss| && s < |at|
  {
    PresentAt(ss, at, s, name) && !ss[s][at[s]].v.HasMask()
  }

  predicate UnmaskedThrough(ss: seq<seq<Slot>>, at: seq<nat>, k: nat, name: string) {
    && k < |ss| && k < |at|
    && forall s {:trigger UnmaskedAt(ss, at, s, name)} | 0 <= s <= k :: UnmaskedAt(ss, at, s, name)
  }

  lemma {:induction false} UnmaskedPresent(ss: seq<seq<Slot>>, at: seq<nat>, k: nat, name: string)
    requires UnmaskedThrough(ss, at, k, name)
    ensures PresentThrough(ss, at, k, name) && UnmaskedAt(ss, at, k, name)
    ensures k > 0 ==> UnmaskedThrough(ss, at, k - 1, name)
  {
    assert UnmaskedAt(ss, at, k, name);
    forall s | 0 <= s <= k ensures PresentAt(ss, at, s, name) {
      assert UnmaskedAt(ss, at, s, name);
    }
  }

  lemma {:induction false} StageConstant(ss: seq<seq<Slot>>, at: seq<nat>, k: nat, name: string, draws: Draws,
                                         pos: nat)
    requires UnmaskedThrough(ss, at, k, name)
    ensures PresentThrough(ss, at, k, name) && PresentThrough(ss, at, 0, name)
    ensures Carried(ss, at, k, name, draws, pos) == Carried(ss, at, 0, name, draws, pos)
  {
    UnmaskedPresent(ss, at, k, name);
    if k > 0 {
      CarriedStep(ss, at, k, name, draws, pos);
      StageConstant(ss, at, k - 1, name, draws, pos);
    }
  }

  /** Without masks the value is constant along the chain. */
  lemma {:induction false} ChainConstant(stages: seq<ProtocolInterface>, db: VarDb, at: seq<nat>, k: nat,
                                         name: string, draws: Draws, pos: nat)
    requires k < |stages| && UnmaskedThrough(Layouts(stages, |stages|, db), at, k, name)
    ensures var round := Round(stages, db, draws, pos);
            InRound(round, k, at[k]).Some? && InRound(round, k, at[k]) == InRound(round, 0, at[0])
  {
    StageConstant(Layouts(stages, |stages|, db), at, k, name, draws, pos);
    CarriedInRound(stages, db, at, k, name, draws, pos);
    CarriedInRound(stages, db, at, 0, name, draws, pos);
  }

  lemma {:induction false} StageExpected(ss: seq<seq<Slot>>, k: nat, draws: Draws, pos: nat, j: nat)
    requires k < |ss| && j < |ss[k]| && ss[k][j].v.expected != []
    ensures Stage(ss, k, draws, pos).fields[j].value in ss[k][j].v.expected
  {
    var c := ChainTo(ss, k, draws, pos);
    var _ := FilledAt(ss[k], c.overrides, draws, c.pos, j);
  }

  /** A field with expected values stays in its set at every stage of every round. */
  lemma {:induction false} ChainExpected(stages: seq<ProtocolInterface>, db: VarDb, k: nat, draws: Draws, pos: nat,
                                         j: nat)
    requires k < |stages| && j < |Slots(stages[k].varRefs, db)|
    requires Slots(stages[k].varRefs, db)[j].v.expected != []
    ensures var x := InRound(Round(stages, db, draws, pos), k, j);
            x.Some? && x.value in Slots(stages[k].varRefs, db)[j].v.expected
  {
    LayoutAt(stages, |stages|, db, k);
    StageExpected(Layouts(stages, |stages|, db), k, draws, pos, j);
    RoundAt(stages, db, draws, pos, k);
  }

  lemma {:induction false} StageBreaks(ss: seq<seq<Slot>>, k: nat, draws: Draws, pos: nat, j: nat) returns (p: nat)
    requires 0 < k < |ss| && j < |ss[k]|
    requires LacksName(ss[k - 1], ss[k][j].name)
    ensures Stage(ss, k, draws, pos).fields[j].value == Pick(ss[k][j].v, draws(p))
  {
    var prev, c := ChainTo(ss, k - 1, draws, pos), ChainTo(ss, k, draws, pos);
    var fields := Stage(ss, k - 1, draws, pos).fields;
    BuiltNames(ss[k - 1], prev.overrides, draws, prev.pos);
    assert Names(ss[k - 1], fields);
    CollectedNames(fields, |fields|, ss[k][j].name);
    StageOverrides(ss, k, draws, pos);
    p := FilledAt(ss[k], c.overrides, draws, c.pos, j);
  }

  /** A name the previous stage does not have carries nothing over: the field is a free pick, within its constraint. */
  lemma {:induction false} ChainBreaks(stages: seq<ProtocolInterface>, db: VarDb, k: nat, draws: Draws, pos: nat,
                                       j: nat)
    requires 0 < k < |stages| && j < |Slots(stages[k].varRefs, db)|
    requires LacksName(Slots(stages[k - 1].varRefs, db), Slots(stages[k].varRefs, db)[j].name)
    ensures var x := InRound(Round(stages, db, draws, pos), k, j);
            var v := Slots(stages[k].varRefs, db)[j].v;
            x.Some? && Satisfies(v, x.value) && exists p: nat :: x.value == Pick(v, draws(p))
  {
    LayoutAt(stages, |stages|, db, k - 1);
    LayoutAt(stages, |stages|, db, k);
    RoundAt(stages, db, draws, pos, k);
    var p := StageBreaks(Layouts(stages, |stages|, db), k, draws, pos, j);
    var v := Slots(stages[k].varRefs, db)[j].v;
    PickedIffSatisfies(v, Pick(v, draws(p)));
  }

  /** An override outranks a range: a field with a range and an override meets its range only if the masked override
      happens to. */
  lemma {:induction false} OverrideOutranksRange(slots: seq<Slot>, ov: map<string, u64>, draws: Draws, pos: nat,
                                                 j: nat)
    requires j < |slots| && slots[j].name in ov
    requires slots[j].v.expected == [] && slots[j].v.range.Some?
    ensures Satisfies(slots[j].v, Filled(slots, ov, draws, pos).0[j].value) <==>
            Lo(slots[j].v.range.value) <= Masked(slots[j].v, ov[slots[j].name]) <= Hi(slots[j].v.range.value)
  {
    var _ := FilledAt(slots, ov, draws, pos, j);
  }
}
