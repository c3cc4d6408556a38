/** When exactly every frame of a bound stack round trips: the width condition lifted to whole stacks. */
module StackAgreement {
  import opened Bits
  import opened Packing
  import opened FieldCodec
  import opened Layout
  import opened PacketBuilding
  import opened LayerContexts
  import opened LogicModules
  import opened StackCodec
  import opened EncodePassLaws
  import opened StackLaws
  import opened WidthAgreement

  /** The reported fields of a layer arrive: same names in order, each value modulo 2^min(declared width, 64). */
  predicate Arrives(sent: seq<FieldValue>, got: seq<FieldValue>, ws: seq<Width>) {
    && |sent| == |got| == |ws|
    && forall k | 0 <= k < |sent| :: got[k] == FieldValue(sent[k].name, OnWire(sent[k].value, ws[k]))
  }

  predicate LayerArrives(st: StackState, db: VarDb, draws: Draws, pos: nat, i: nat)
    requires i < |st|
  {
    var sent, got := Generated(st, db, draws, pos), DecodedFrame(st, db, Generated(st, db, draws, pos).bytes);
    && got.layers[i].name == sent.layers[i].name
    && got.layers[i].packet.bytes == sent.layers[i].packet.bytes
    && Arrives(sent.layers[i].packet.fields, got.layers[i].packet.fields, Widths(LayerSlots(st[i], db)))
  }

  /** The frame generated from these draws is decoded as the layers it was generated from. */
  predicate FrameArrives(st: StackState, db: VarDb, draws: Draws, pos: nat) {
    forall i {:trigger LayerArrives(st, db, draws, pos, i)} | 0 <= i < |st| :: LayerArrives(st, db, draws, pos, i)
  }

  ghost predicate AllFramesArrive(st: StackState, db: VarDb) {
    forall draws: Draws, pos: nat :: FrameArrives(st, db, draws, pos)
  }

  /* ---------------- agreement is enough, whatever the modules ---------------- */

  lemma {:induction false} WireArrives(fs: seq<Field>, slots: seq<Slot>)
    requires LaidOut(fs, slots)
    ensures Arrives(FieldPairs(fs, |fs|), WireFields(fs, |fs|), Widths(slots))
  {
    forall k | 0 <= k < |fs|
      ensures WireFields(fs, |fs|)[k].name == FieldPairs(fs, |fs|)[k].name
      ensures WireFields(fs, |fs|)[k].value == OnWire(FieldPairs(fs, |fs|)[k].value, Widths(slots)[k])
    {
      WireFieldsAt(fs, |fs|, k);
      FieldWidthsAt(fs, |fs|, k);
      WidthsAt(slots, k);
    }
  }

  lemma {:induction false} CodableArrives(st: StackState, db: VarDb, draws: Draws, pos: nat)
    requires Clean(st) && Codable(st, db)
    ensures FrameArrives(st, db, draws, pos)
  {
    var e := AfterGenerate(st, db, draws, pos);
    StackRoundTrip(st, st, db, draws, pos);
    GeneratedBinding(st, db, draws, pos);
    forall i | 0 <= i < |st| ensures LayerArrives(st, db, draws, pos, i) {
      GeneratedLaidOut(st, db, draws, pos, i);
      FrameLayersAt(e, |e|, i);
      WireArrives(e[i].fields, LayerSlots(st[i], db));
      assert DecodedFrame(st, db, Generated(st, db, draws, pos).bytes).layers[i] == WireLayers(e, |e|)[i];
    }
  }

  /* ---------------- draws that put one 1 among zeros ---------------- */

  /** A caller can check this: the field may be 0 and may be 1. */
  predicate AdmitsBits(v: Var) { Satisfies(v, 0) && Satisfies(v, 1) }

  predicate SlotsAdmitBits(slots: seq<Slot>) {
    forall j {:trigger AdmitsBits(slots[j].v)} | 0 <= j < |slots| :: AdmitsBits(slots[j].v)
  }

  predicate LayersAdmitBits(st: StackState, db: VarDb) {
    forall i {:trigger SlotsAdmitBits(LayerSlots(st[i], db))} | 0 <= i < |st| :: SlotsAdmitBits(LayerSlots(st[i], db))
  }

  predicate PlainAt(st: StackState, i: nat)
    requires i < |st|
  {
    st[i].logic.PassthroughState?
  }

  predicate PlainModules(st: StackState) {
    forall i {:trigger PlainAt(st, i)} | 0 <= i < |st| :: PlainAt(st, i)
  }

  /** The layouts of the first k layers in one list: the field drawn at each position. */
  function Drawn(st: StackState, k: nat, db: VarDb): (slots: seq<Slot>)
    requires k <= |st|
    ensures |slots| == LoadPos(st, k, db, 0)
  {
    if k == 0 then [] else Drawn(st, k - 1, db) + LayerSlots(st[k - 1], db)
  }

  lemma {:induction false} DrawnAt(st: StackState, k: nat, db: VarDb, i: nat, j: nat)
    requires i < k <= |st| && j < |LayerSlots(st[i], db)|
    ensures LoadPos(st, i, db, 0) + j < LoadPos(st, k, db, 0)
    ensures Drawn(st, k, db)[LoadPos(st, i, db, 0) + j] == LayerSlots(st[i], db)[j]
  {
    if i < k - 1 { DrawnAt(st, k - 1, db, i, j); }
  }

  /** A raw draw for which the pick is x. */
  ghost function DrawFor(v: Var, x: u64): (r: nat)
    requires Satisfies(v, x)
    ensures Pick(v, r) == x
  {
    PickedIffSatisfies(v, x);
    var r: nat :| Pick(v, r) == x;
    r
  }

  ghost function RawDraw(slots: seq<Slot>, target: nat, q: nat): nat {
    if q < |slots| && AdmitsBits(slots[q].v)
    then DrawFor(slots[q].v, if q == target then 1 else 0) else 0
  }

  /** Draws that make field `target` of the list 1 and every other field 0. */
  ghost function UnitDraws(slots: seq<Slot>, target: nat): Draws {
    (q: nat) => RawDraw(slots, target, q)
  }

  lemma {:induction false} UnitPick(slots: seq<Slot>, target: nat, q: nat)
    requires q < |slots| && AdmitsBits(slots[q].v)
    ensures Pick(slots[q].v, UnitDraws(slots, target)(q)) == if q == target then 1 else 0
  {
  }

  /** The values layer i draws from them. */
  lemma {:induction false} UnitDrawn(st: StackState, db: VarDb, target: nat, i: nat, j: nat, p: nat)
    requires LayersAdmitBits(st, db) && i < |st| && j < |LayerSlots(st[i], db)| && p == LoadPos(st, i, db, 0)
    ensures Built(LayerSlots(st[i], db), map[], UnitDraws(Drawn(st, |st|, db), target), p).fields[j].value
         == if p + j == target then 1 else 0
  {
    var slots, all := LayerSlots(st[i], db), Drawn(st, |st|, db);
    DrawnAt(st, |st|, db, i, j);
    assert SlotsAdmitBits(slots) && AdmitsBits(slots[j].v);
    UnitFilled(slots, all, target, p, j);
  }

  lemma {:induction false} UnitFilled(slots: seq<Slot>, all: seq<Slot>, target: nat, p: nat, j: nat)
    requires j < |slots| && p + j < |all| && all[p + j] == slots[j] && AdmitsBits(slots[j].v)
    ensures Filled(slots, map[], UnitDraws(all, target), p).0[j].value == if p + j == target then 1 else 0
  {
    FilledFresh(slots, UnitDraws(all, target), p, j);
    UnitPick(all, target, p + j);
  }

  /** Positions tell layers apart. */
  lemma {:induction false} LoadPosMonotone(st: StackState, db: VarDb, i: nat, k: nat)
    requires i <= k <= |st|
    ensures LoadPos(st, i, db, 0) <= LoadPos(st, k, db, 0)
  {
    if i < k { LoadPosMonotone(st, db, i, k - 1); }
  }

  lemma {:induction false} OtherLayer(st: StackState, db: VarDb, i: nat, j: nat, i1: nat, j1: nat)
    requires i < |st| && i1 < |st| && i != i1 && j < |LayerSlots(st[i], db)| && j1 < |LayerSlots(st[i1], db)|
    ensures LoadPos(st, i, db, 0) + j != LoadPos(st, i1, db, 0) + j1
  {
    if i < i1 { LoadPosMonotone(st, db, i + 1, i1); } else { LoadPosMonotone(st, db, i1 + 1, i); }
  }

  /* ---------------- what such a frame looks like ---------------- */

  predicate AllZero(fs: seq<Field>) { forall k | 0 <= k < |fs| :: fs[k].value == 0 }

  /** Every layer above layer i holds zeros only. */
  predicate ZeroAbove(e: StackState, i: nat) {
    forall k {:trigger AllZero(e[k].fields)} | i < k < |e| :: AllZero(e[k].fields)
  }

  predicate UnitAt(fvs: seq<FieldValue>, j: nat, x: nat)
    requires x < |fvs|
  {
    fvs[x].value == if x == j then 1 else 0
  }

  /** A 1 at index j, zeros elsewhere. */
  predicate UnitValues(fvs: seq<FieldValue>, j: nat) {
    j < |fvs| && forall x {:trigger UnitAt(fvs, j, x)} | 0 <= x < |fvs| :: UnitAt(fvs, j, x)
  }

  lemma {:induction false} ZeroBytes(fs: seq<Field>, x: nat)
    requires AllZero(fs)
    ensures BitAt(LayerBytesOf(fs), x) == 0
  {
    BitAtToBytes(PackedBits(FieldWidths(fs, |fs|), FieldVals(fs, |fs|)), x);
    StreamIsPacked(fs, |fs|);
    if x < BitsTo(fs, |fs|) { OnlyBit(fs, |fs|, |fs|, x); }
  }

  /** One layer more on top of a stream. */
  lemma {:induction false} ZerosOnTop(below: seq<byte>, fs: seq<Field>, y: nat, b: bit)
    requires AllZero(fs) && BitAt(below, y) == b && (y >= 8 * |below| ==> b == 0)
    ensures BitAt(below + LayerBytesOf(fs), y) == b
  {
    BitAtConcat(below, LayerBytesOf(fs), y);
    if y >= 8 * |below| { ZeroBytes(fs, y - 8 * |below|); }
  }

  lemma {:induction false} ZeroLayerOnTop(e: StackState, n: nat, y: nat)
    requires 0 < n <= |e| && AllZero(e[n - 1].fields)
    ensures BitAt(FrameTo(e, n), y) == BitAt(FrameTo(e, n - 1), y)
  {
    ZerosOnTop(FrameTo(e, n - 1), e[n - 1].fields, y, BitAt(FrameTo(e, n - 1), y));
  }

  lemma {:induction false} BitBehind(below: seq<byte>, bytes: seq<byte>, x: nat)
    ensures BitAt(below + bytes, 8 * |below| + x) == BitAt(bytes, x)
  {
    BitAtConcat(below, bytes, 8 * |below| + x);
  }

  /** Layers of zeros on top change no bit. */
  lemma {:induction false} ZerosAbove(e: StackState, i: nat, m: nat, n: nat, y: nat)
    requires i < m <= n <= |e| && ZeroAbove(e, i)
    ensures BitAt(FrameTo(e, n), y) == BitAt(FrameTo(e, m), y)
    decreases n
  {
    if m < n {
      assert AllZero(e[n - 1].fields);
      ZeroLayerOnTop(e, n, y);
      ZerosAbove(e, i, m, n - 1, y);
    }
  }

  /** Behind layer i nothing but zeros follows, so its window reads its own bytes and then zeros. */
  lemma {:induction false} FrameBit(e: StackState, i: nat, n: nat, x: nat, y: nat)
    requires i < n <= |e| && ZeroAbove(e, i) && y == 8 * |FrameTo(e, i)| + x
    ensures BitAt(FrameTo(e, n), y) == BitAt(LayerBytesOf(e[i].fields), x)
  {
    ZerosAbove(e, i, i + 1, n, y);
    BitBehind(FrameTo(e, i), LayerBytesOf(e[i].fields), x);
  }

  /** Plain modules leave the loaded fields alone. */
  lemma {:induction false} PlainGenerated(st: StackState, db: VarDb, draws: Draws, pos: nat, i: nat)
    requires PlainModules(st) && i < |st|
    ensures AfterGenerate(st, db, draws, pos)[i].fields == Loaded(st, db, draws, pos)[i].fields
  {
    assert PlainAt(st, i);
    LoadedBinding(st, db, draws, pos);
    GeneratedFields(st, db, draws, pos, i);
  }

  lemma {:induction false} PopulatedZero(refs: seq<string>, db: VarDb, fvs: seq<FieldValue>, k: nat)
    requires k <= |fvs| && forall i | 0 <= i < |fvs| :: fvs[i].value == 0
    ensures AllZero(PopulatedTo(refs, db, fvs, k))
  {
    if k > 0 { PopulatedZero(refs, db, fvs, k - 1); }
  }

  /** The draws that put a 1 into field j of layer i. */
  ghost function FaultDraws(st: StackState, db: VarDb, i: nat, j: nat): Draws
    requires i < |st|
  {
    UnitDraws(Drawn(st, |st|, db), LoadPos(st, i, db, 0) + j)
  }

  /** A layer without the target draws zeros only. */
  lemma {:induction false} ZeroLayer(st: StackState, db: VarDb, i: nat, j: nat, k: nat)
    requires Clean(st) && PlainModules(st) && LayersAdmitBits(st, db)
    requires i < |st| && j < |LayerSlots(st[i], db)| && k < |st| && k != i
    ensures AllZero(AfterGenerate(st, db, UnitDraws(Drawn(st, |st|, db), LoadPos(st, i, db, 0) + j), 0)[k].fields)
  {
    var target := LoadPos(st, i, db, 0) + j;
    var draws := UnitDraws(Drawn(st, |st|, db), target);
    PlainGenerated(st, db, draws, 0, k);
    LoadedToAt(st, |st|, db, draws, 0, k);
    if st[k].iface.Some? {
      var fvs := Built(LayerSlots(st[k], db), map[], draws, LoadPos(st, k, db, 0)).fields;
      forall x | 0 <= x < |fvs| ensures fvs[x].value == 0 {
        UnitDrawn(st, db, target, k, x, LoadPos(st, k, db, 0));
        OtherLayer(st, db, i, j, k, x);
      }
      PopulatedZero(st[k].iface.value.varRefs, db, fvs, |fvs|);
    }
  }

  /** The fields of a plain layer are loaded from the values drawn for it. */
  lemma {:induction false} PlainLayer(st: StackState, db: VarDb, draws: Draws, i: nat)
    requires PlainModules(st) && i < |st| && st[i].iface.Some?
    ensures var fvs := Built(LayerSlots(st[i], db), map[], draws, LoadPos(st, i, db, 0)).fields;
            && Names(LayerSlots(st[i], db), fvs)
            && AfterGenerate(st, db, draws, 0)[i].fields
                 == PopulatedTo(st[i].iface.value.varRefs, db, fvs, |fvs|)
  {
    PlainGenerated(st, db, draws, 0, i);
    LoadedToAt(st, |st|, db, draws, 0, i);
    BuiltNames(LayerSlots(st[i], db), map[], draws, LoadPos(st, i, db, 0));
  }

  lemma {:induction false} UnitValuesDrawn(st: StackState, db: VarDb, draws: Draws, i: nat, j: nat, p: nat,
                                           target: nat)
    requires LayersAdmitBits(st, db) && i < |st| && j < |LayerSlots(st[i], db)|
    requires p == LoadPos(st, i, db, 0) && target == p + j && draws == UnitDraws(Drawn(st, |st|, db), target)
    ensures UnitValues(Built(LayerSlots(st[i], db), map[], draws, p).fields, j)
  {
    var fvs := Built(LayerSlots(st[i], db), map[], draws, p).fields;
    forall x | 0 <= x < |fvs| ensures UnitAt(fvs, j, x) {
      UnitDrawn(st, db, target, i, x, p);
    }
  }

  lemma {:induction false} FaultValuesDrawn(st: StackState, db: VarDb, i: nat, j: nat)
    requires LayersAdmitBits(st, db) && i < |st| && j < |LayerSlots(st[i], db)|
    ensures UnitValues(Built(LayerSlots(st[i], db), map[], FaultDraws(st, db, i, j), LoadPos(st, i, db, 0)).fields, j)
  {
    var p := LoadPos(st, i, db, 0);
    UnitValuesDrawn(st, db, FaultDraws(st, db, i, j), i, j, p, p + j);
  }

  /** The values layer i draws: a 1 at field j. */
  lemma {:induction false} UnitLayer(st: StackState, db: VarDb, i: nat, j: nat) returns (fvs: seq<FieldValue>)
    requires PlainModules(st) && LayersAdmitBits(st, db)
    requires i < |st| && st[i].iface.Some? && j < |LayerSlots(st[i], db)|
    ensures Names(LayerSlots(st[i], db), fvs) && UnitValues(fvs, j)
    ensures AfterGenerate(st, db, FaultDraws(st, db, i, j), 0)[i].fields
         == PopulatedTo(st[i].iface.value.varRefs, db, fvs, |fvs|)
  {
    var draws, p := FaultDraws(st, db, i, j), LoadPos(st, i, db, 0);
    PlainLayer(st, db, draws, i);
    fvs := Built(LayerSlots(st[i], db), map[], draws, p).fields;
    FaultValuesDrawn(st, db, i, j);
  }

  /** A context that took every value holds them all. */
  lemma {:induction false} NoneDropped(refs: seq<string>, db: VarDb, fvs: seq<FieldValue>, k: nat, x: nat)
    requires x < k <= |fvs| && |PopulatedTo(refs, db, fvs, k)| >= k
    ensures |PopulatedTo(refs, db, fvs, k)| == k && PopulatedTo(refs, db, fvs, k)[x].value == fvs[x].value
  {
    PopulatedAtMost(refs, db, fvs, k - 1);
    if x < k - 1 { NoneDropped(refs, db, fvs, k - 1, x); }
  }

  lemma {:induction false} PopulatedAtMost(refs: seq<string>, db: VarDb, fvs: seq<FieldValue>, k: nat)
    requires k <= |fvs|
    ensures |PopulatedTo(refs, db, fvs, k)| <= k
  {
    if k > 0 { PopulatedAtMost(refs, db, fvs, k - 1); }
  }

  /* ---------------- a disagreeing width spoils some frame ---------------- */

  predicate LayerAgrees(st: StackState, db: VarDb, k: nat)
    requires k < |st|
  {
    st[k].iface.Some? ==> WidthsAgree(st[k].iface.value.varRefs, db)
  }

  predicate AgreeBelow(st: StackState, db: VarDb, i: nat) {
    i <= |st| && forall k {:trigger LayerAgrees(st, db, k)} | 0 <= k < i :: LayerAgrees(st, db, k)
  }

  /** Layer i is the first whose widths disagree, and slot j its first such slot. */
  predicate FirstFault(st: StackState, db: VarDb, i: nat, j: nat) {
    i < |st| && st[i].iface.Some? && AgreeBelow(st, db, i) && SlotFault(st[i].iface.value.varRefs, db, j)
  }

  lemma {:induction false} FindFault(st: StackState, db: VarDb, k: nat) returns (i: nat, j: nat)
    requires !Codable(st, db) && AgreeBelow(st, db, k)
    ensures FirstFault(st, db, i, j)
    decreases |st| - k
  {
    if k == |st| {
      forall x | 0 <= x < |st| && st[x].iface.Some? ensures WidthsAgree(st[x].iface.value.varRefs, db) {
        assert LayerAgrees(st, db, x);
      }
      assert false;
    } else if LayerAgrees(st, db, k) {
      i, j := FindFault(st, db, k + 1);
    } else {
      i := k;
      j := FirstDisagreement(st[k].iface.value.varRefs, db, 0);
    }
  }

  /** e is st generated with a 1 in field j of layer i, drawn as fvs, and zeros in every layer above. */
  predicate UnitFrame(e: StackState, st: StackState, db: VarDb, i: nat, j: nat, fvs: seq<FieldValue>)
    requires i < |st| && st[i].iface.Some?
  {
    && |e| == |st| && |FrameTo(e, i)| == OffsetTo(st, i, db) && ZeroAbove(e, i)
    && Names(LayerSlots(st[i], db), fvs) && UnitValues(fvs, j)
    && e[i].fields == PopulatedTo(st[i].iface.value.varRefs, db, fvs, |fvs|)
  }

  /** What the context of the faulty layer holds. */
  lemma {:induction false} FaultyLoaded(refs: seq<string>, db: VarDb, fvs: seq<FieldValue>, j: nat)
    requires Names(Slots(refs, db), fvs) && UnitValues(fvs, j) && SlotFault(refs, db, j)
    ensures var fs := PopulatedTo(refs, db, fvs, |fvs|);
            var ws := Widths(Slots(refs, db));
            && ws[j] > 0 && j <= |fs| && BitsTo(fs, j) == Sum(ws[..j])
            && forall y | 0 <= y < |fs| :: fs[y].value == 0 || (y == j && fs[y].value == 1 && fs[y].bits != ws[j])
  {
    forall y | 0 <= y < |fvs| ensures fvs[y].value == if y == j then 1 else 0 {
      assert UnitAt(fvs, j, y);
    }
    LoadedUnit(refs, db, fvs, j);
    WidthsAt(Slots(refs, db), j);
    SlotTakesRoom(refs, db, j);
  }

  /** The bit of layer i the decoder takes as the lowest of field j is 0. */
  lemma {:induction false} FaultyBit(refs: seq<string>, db: VarDb, fvs: seq<FieldValue>, j: nat) returns (x: nat)
    requires Names(Slots(refs, db), fvs) && UnitValues(fvs, j) && SlotFault(refs, db, j)
    ensures var ws := Widths(Slots(refs, db)); ws[j] > 0 && x + 1 == Sum(ws[..j]) + ws[j]
    ensures BitAt(LayerBytesOf(PopulatedTo(refs, db, fvs, |fvs|)), x) == 0
  {
    var ws := Widths(Slots(refs, db));
    FaultyLoaded(refs, db, fvs, j);
    x := Sum(ws[..j]) + ws[j] - 1;
    BitMissed(PopulatedTo(refs, db, fvs, |fvs|), j, Sum(ws[..j]), ws[j]);
  }

  lemma {:induction false} LowestBit(ws: seq<Width>, buf: seq<byte>, off: nat, j: nat, x: nat)
    requires j < |ws| && x + 1 == Sum(ws[..j]) + ws[j] && ws[j] > 0
    ensures Values(ws, buf, off)[j] % 2 == BitAt(buf, off + x)
  {
    ValuesAt(ws, buf, off, j);
    BitExtracted(buf, off + Sum(ws[..j]), ws[j], 0);
    assert off + Sum(ws[..j]) + ws[j] - 1 - 0 == off + x;
  }

  lemma {:induction false} DecodedValue(st: StackState, db: VarDb, i: nat, j: nat, frame: seq<byte>)
    requires i < |st| && st[i].iface.Some? && j < |LayerSlots(st[i], db)|
    ensures var got := DecodedLayer(st, i, db, frame).fields;
            |got| == |LayerSlots(st[i], db)|
            && got[j].value == Values(Widths(LayerSlots(st[i], db)), frame, 8 * OffsetTo(st, i, db))[j]
  {
    NamedAt(LayerSlots(st[i], db), Values(Widths(LayerSlots(st[i], db)), frame, 8 * OffsetTo(st, i, db)), j);
  }

  lemma {:induction false} ReadEvenAt(e: StackState, i: nat, off: nat, ws: seq<Width>, j: nat, x: nat)
    requires i < |e| && ZeroAbove(e, i) && off == 8 * |FrameTo(e, i)|
    requires j < |ws| && x + 1 == Sum(ws[..j]) + ws[j] && ws[j] > 0
    requires BitAt(LayerBytesOf(e[i].fields), x) == 0
    ensures Values(ws, FrameTo(e, |e|), off)[j] % 2 == 0
  {
    FrameBit(e, i, |e|, x, off + x);
    LowestBit(ws, FrameTo(e, |e|), off, j, x);
  }

  /** So field j, drawn as 1, is read back even. */
  lemma {:induction false} FaultyValue(e: StackState, st: StackState, db: VarDb, i: nat, j: nat, fvs: seq<FieldValue>)
    requires i < |st| && st[i].iface.Some? && SlotFault(st[i].iface.value.varRefs, db, j)
    requires UnitFrame(e, st, db, i, j, fvs)
    ensures var got := DecodedLayer(st, i, db, FrameTo(e, |e|)).fields;
            |got| == |LayerSlots(st[i], db)| && got[j].value % 2 == 0
  {
    var x := FaultyBit(st[i].iface.value.varRefs, db, fvs, j);
    ReadEvenAt(e, i, 8 * OffsetTo(st, i, db), Widths(LayerSlots(st[i], db)), j, x);
    DecodedValue(st, db, i, j, FrameTo(e, |e|));
  }

  /** The layer does not arrive: either a field was dropped, or the 1 is lost. */
  lemma {:induction false} FaultSpoils(e: StackState, st: StackState, db: VarDb, i: nat, j: nat, fvs: seq<FieldValue>)
    requires i < |st| && st[i].iface.Some? && SlotFault(st[i].iface.value.varRefs, db, j)
    requires UnitFrame(e, st, db, i, j, fvs)
    ensures var fs := e[i].fields;
            !Arrives(FieldPairs(fs, |fs|), DecodedLayer(st, i, db, FrameTo(e, |e|)).fields,
                     Widths(LayerSlots(st[i], db)))
  {
    var fs, slots := e[i].fields, LayerSlots(st[i], db);
    FaultyValue(e, st, db, i, j, fvs);
    if |fs| == |slots| {
      assert UnitAt(fvs, j, j);
      NoneDropped(st[i].iface.value.varRefs, db, fvs, |fvs|, j);
      FieldWidthsAt(fs, |fs|, j);
      WidthsAt(slots, j);
      SlotTakesRoom(st[i].iface.value.varRefs, db, j);
      OddOnWire(Widths(slots)[j]);
    }
  }

  /** Below the first fault every layer lies where the decoder looks for it. */
  lemma {:induction false} LayersBelow(st: StackState, db: VarDb, draws: Draws, i: nat)
    requires Clean(st) && PlainModules(st) && AgreeBelow(st, db, i)
    ensures |FrameTo(AfterGenerate(st, db, draws, 0), i)| == OffsetTo(st, i, db)
  {
    var e := AfterGenerate(st, db, draws, 0);
    forall k | 0 <= k < i ensures LaidOut(e[k].fields, LayerSlots(st[k], db)) {
      assert LayerAgrees(st, db, k);
      PlainGenerated(st, db, draws, 0, k);
      LoadedLaidOut(st, db, draws, 0, k);
    }
    FrameOffsets(e, st, db, i);
  }

  lemma {:induction false} ZerosDrawn(st: StackState, db: VarDb, i: nat, j: nat)
    requires Clean(st) && PlainModules(st) && LayersAdmitBits(st, db) && i < |st| && j < |LayerSlots(st[i], db)|
    ensures ZeroAbove(AfterGenerate(st, db, FaultDraws(st, db, i, j), 0), i)
  {
    forall k | i < k < |st| ensures AllZero(AfterGenerate(st, db, FaultDraws(st, db, i, j), 0)[k].fields) {
      ZeroLayer(st, db, i, j, k);
    }
  }

  /** They give such a frame. */
  lemma {:induction false} UnitFrameDrawn(st: StackState, db: VarDb, i: nat, j: nat) returns (fvs: seq<FieldValue>)
    requires Clean(st) && PlainModules(st) && LayersAdmitBits(st, db) && FirstFault(st, db, i, j)
    ensures UnitFrame(AfterGenerate(st, db, FaultDraws(st, db, i, j), 0), st, db, i, j, fvs)
  {
    ZerosDrawn(st, db, i, j);
    LayersBelow(st, db, FaultDraws(st, db, i, j), i);
    fvs := UnitLayer(st, db, i, j);
  }

  lemma {:induction false} UnitFrameFails(st: StackState, db: VarDb, draws: Draws, e: StackState, i: nat, j: nat,
                                          fvs: seq<FieldValue>)
    requires i < |st| && st[i].iface.Some? && SlotFault(st[i].iface.value.varRefs, db, j)
    requires UnitFrame(e, st, db, i, j, fvs) && e == AfterGenerate(st, db, draws, 0)
    ensures !LayerArrives(st, db, draws, 0, i)
  {
    FaultSpoils(e, st, db, i, j, fvs);
    FrameLayersAt(e, |e|, i);
    DecodedLayersAt(st, |st|, db, FrameTo(e, |e|), i);
  }

  lemma {:induction false} FaultyDraws(st: StackState, db: VarDb, i: nat, j: nat)
    requires Clean(st) && PlainModules(st) && LayersAdmitBits(st, db) && FirstFault(st, db, i, j)
    ensures !LayerArrives(st, db, FaultDraws(st, db, i, j), 0, i)
  {
    var draws := FaultDraws(st, db, i, j);
    var fvs := UnitFrameDrawn(st, db, i, j);
    UnitFrameFails(st, db, draws, AfterGenerate(st, db, draws, 0), i, j, fvs);
  }

  /** The exact condition for stacks with plain modules whose fields may all be 0 and may all be 1: every frame,
      whatever the draws, is decoded as generated if and only if every short name leads back to its field's own
      width. */
  lemma {:induction false} AllFramesArriveIffCodable(st: StackState, db: VarDb)
    requires Clean(st) && PlainModules(st) && LayersAdmitBits(st, db)
    ensures AllFramesArrive(st, db) <==> Codable(st, db)
  {
    if Codable(st, db) {
      forall draws: Draws, pos: nat ensures FrameArrives(st, db, draws, pos) {
        CodableArrives(st, db, draws, pos);
      }
    } else {
      var i, j := FindFault(st, db, 0);
      FaultyDraws(st, db, i, j);
      assert !FrameArrives(st, db, FaultDraws(st, db, i, j), 0);
    }
  }

  /* ---------------- a stack whose frames do not all arrive ---------------- */

  const NARROW: Var := Var(8, [], None, 0)
  const WIDE: Var := Var(16, [], None, 0)

  /** Two references with one short name and different widths. */
  const SHARED_NAME: seq<string> := ["A::x", "B::x"]

  const SHARED_DB: VarDb := map["A::x" := NARROW, "B::x" := WIDE]

  const SHARED_STACK: StackState :=
    [LayerState("s", Some(ProtocolInterface("i", SHARED_NAME)), PassthroughState, [])]

  lemma {:induction false} SharedSlots()
    ensures Slots(SHARED_NAME, SHARED_DB) == [Slot("x", NARROW), Slot("x", WIDE)]
    ensures WidthOf(SHARED_NAME, SHARED_DB, "x") == 8
  {
    assert RFindScope("A::x", 3) == 1 && RFindScope("B::x", 3) == 1;
    assert ShortName("A::x") == "x" && ShortName("B::x") == "x";
    assert SlotsTo(SHARED_NAME, 1, SHARED_DB) == [Slot("x", NARROW)];
    assert FirstRef(SHARED_NAME, "x", 0) == 0;
  }

  /** Layouts that disagree and yet admit all bits exist: this stack sends frames that do not arrive. */
  lemma {:induction false} SharedNameFails()
    ensures Clean(SHARED_STACK) && PlainModules(SHARED_STACK) && LayersAdmitBits(SHARED_STACK, SHARED_DB)
    ensures !Codable(SHARED_STACK, SHARED_DB) && !AllFramesArrive(SHARED_STACK, SHARED_DB)
  {
    SharedSlots();
    assert !WidthFound(SHARED_NAME, SHARED_DB, 1);
    assert SHARED_STACK[0].iface.Some?;
    Pow2Eight();
    assert forall v | v in {NARROW, WIDE} :: AdmitsBits(v);
    assert SlotsAdmitBits(LayerSlots(SHARED_STACK[0], SHARED_DB));
    AllFramesArriveIffCodable(SHARED_STACK, SHARED_DB);
  }
}
