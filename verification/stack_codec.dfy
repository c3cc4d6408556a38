/** The logic-driven stack codec as steps on the stack's state: load, encode pass, pack; slice, reload, decode pass. */
module StackCodec {
  import opened Bits
  import opened FieldCodec
  import opened Layout
  import opened PacketBuilding
  import opened PacketDecoding
  import opened LayerContexts
  import opened LogicModules

  /** One layer of a bound stack. The interface is the one interfaceForLayer resolves, if any. */
  datatype LayerState = LayerState(serviceName: string, iface: Option<ProtocolInterface>, logic: LogicState,
                                   fields: seq<Field>)

  type StackState = seq<LayerState>

  datatype Layer = Layer(name: string, packet: BuiltPacket)

  datatype StackedPacket = StackedPacket(bytes: seq<byte>, layers: seq<Layer>)

  /* ---------------- populateContext ---------------- */

  /** Index of the first reference at or after i with this short name; |refs| when there is none. */
  function FirstRef(refs: seq<string>, name: string, i: nat): (k: nat)
    requires i <= |refs|
    ensures i <= k <= |refs|
    ensures k < |refs| ==> ShortName(refs[k]) == name
    decreases |refs| - i
  {
    if i == |refs| || ShortName(refs[i]) == name then i else FirstRef(refs, name, i + 1)
  }

  /** The width populateContext finds for a short name: that of the first match, 0 if it does not resolve. */
  function WidthOf(refs: seq<string>, db: VarDb, name: string): Width {
    var k := FirstRef(refs, name, 0);
    if k < |refs| && refs[k] in db then db[refs[k]].size else 0
  }

  /** The fields a context holds after loading the first k of the given values. */
  function PopulatedTo(refs: seq<string>, db: VarDb, fvs: seq<FieldValue>, k: nat): seq<Field>
    requires k <= |fvs|
  {
    if k == 0 then []
    else
      var bits := WidthOf(refs, db, fvs[k - 1].name);
      var init := PopulatedTo(refs, db, fvs, k - 1);
      if bits != 0 then init + [Field(fvs[k - 1].name, fvs[k - 1].value, bits)] else init
  }

  function Populated(iface: ProtocolInterface, db: VarDb, fvs: seq<FieldValue>): seq<Field> {
    PopulatedTo(iface.varRefs, db, fvs, |fvs|)
  }

  /* ---------------- generateStack ---------------- */

  function LayerSlots(l: LayerState, db: VarDb): seq<Slot> {
    if l.iface.Some? then Slots(l.iface.value.varRefs, db) else []
  }

  /** Position of the random engine once the first k layers have drawn their fields. */
  function LoadPos(st: StackState, k: nat, db: VarDb, pos: nat): nat
    requires k <= |st|
  {
    if k == 0 then pos else LoadPos(st, k - 1, db, pos) + |LayerSlots(st[k - 1], db)|
  }

  /** A layer after its fields were drawn and its context loaded. Without an interface it is left as it was. */
  function LayerLoaded(l: LayerState, db: VarDb, draws: Draws, pos: nat): LayerState {
    if l.iface.None? then l
    else l.(fields := Populated(l.iface.value, db, Built(LayerSlots(l, db), map[], draws, pos).fields))
  }

  /** The stack while step 1 runs: the first k layers loaded. */
  function LoadedTo(st: StackState, k: nat, db: VarDb, draws: Draws, pos: nat): (r: StackState)
    requires k <= |st|
    ensures |r| == |st|
  {
    if k == 0 then st
    else
      var s := LoadedTo(st, k - 1, db, draws, pos);
      s[k - 1 := LayerLoaded(s[k - 1], db, draws, LoadPos(st, k - 1, db, pos))]
  }

  /** The stack after step 1. */
  function Loaded(st: StackState, db: VarDb, draws: Draws, pos: nat): (r: StackState)
    ensures |r| == |st|
  {
    LoadedTo(st, |st|, db, draws, pos)
  }

  /** Each layer is loaded once, from the draws that follow those of the layers below it. */
  lemma {:induction false} LoadedToAt(st: StackState, k: nat, db: VarDb, draws: Draws, pos: nat, i: nat)
    requires k <= |st| && i < |st|
    ensures LoadedTo(st, k, db, draws, pos)[i] ==
            if i < k then LayerLoaded(st[i], db, draws, LoadPos(st, i, db, pos)) else st[i]
  {
    if k > 0 { LoadedToAt(st, k - 1, db, draws, pos, i); }
  }

  function FieldLists(st: StackState): (fss: seq<seq<Field>>)
    ensures |fss| == |st|
  {
    seq(|st|, i requires 0 <= i < |st| => st[i].fields)
  }

  /** Packed size of everything stacked above layer i. */
  function Above(st: StackState, i: nat): nat
    requires i < |st|
  {
    SizeFrom(FieldLists(st), i + 1)
  }

  function Upper(st: StackState, i: nat): Option<string>
    requires i < |st|
  {
    if i + 1 < |st| then Some(st[i + 1].serviceName) else None
  }

  /** What layer i's onEncode makes of its fields, reading the layers above. */
  function HookFields(st: StackState, i: nat): seq<Field>
    requires i < |st|
  {
    st[i].logic.EncodedFields(st[i].fields, Upper(st, i), Above(st, i))
  }

  function EncodeAt(st: StackState, i: nat): (r: StackState)
    requires i < |st|
    ensures |r| == |st|
  {
    st[i := st[i].(fields := HookFields(st, i), logic := st[i].logic.AfterEncode())]
  }

  /** Runs onEncode on the layers in the given order, each on the state the previous ones left. */
  function EncodePass(st: StackState, order: seq<nat>, k: nat): (r: StackState)
    requires k <= |order| && forall j | 0 <= j < |order| :: order[j] < |st|
    ensures |r| == |st|
  {
    if k == 0 then st else EncodeAt(EncodePass(st, order, k - 1), order[k - 1])
  }

  function BottomUp(n: nat): (order: seq<nat>)
    ensures |order| == n && forall i | 0 <= i < n :: order[i] == i
  {
    seq(n, (i: nat) requires i < n => i)
  }

  function FieldWidths(fs: seq<Field>, k: nat): (ws: seq<Width>)
    requires k <= |fs|
    ensures |ws| == k
  {
    if k == 0 then [] else FieldWidths(fs, k - 1) + [fs[k - 1].bits]
  }

  function FieldVals(fs: seq<Field>, k: nat): (vs: seq<u64>)
    requires k <= |fs|
    ensures |vs| == k
  {
    if k == 0 then [] else FieldVals(fs, k - 1) + [fs[k - 1].value]
  }

  function FieldPairs(fs: seq<Field>, k: nat): (ps: seq<FieldValue>)
    requires k <= |fs|
    ensures |ps| == k
  {
    if k == 0 then [] else FieldPairs(fs, k - 1) + [FieldValue(fs[k - 1].name, fs[k - 1].value)]
  }

  function LayerBytesOf(fs: seq<Field>): seq<byte> {
    Packed(FieldWidths(fs, |fs|), FieldVals(fs, |fs|))
  }

  function LayerPacket(fs: seq<Field>): BuiltPacket {
    BuiltPacket(LayerBytesOf(fs), FieldPairs(fs, |fs|))
  }

  /** The bytes of the first k layers, bottom-up. */
  function FrameTo(st: StackState, k: nat): seq<byte>
    requires k <= |st|
  {
    if k == 0 then [] else FrameTo(st, k - 1) + LayerBytesOf(st[k - 1].fields)
  }

  function FrameLayers(st: StackState, k: nat): (ls: seq<Layer>)
    requires k <= |st|
    ensures |ls| == k
  {
    if k == 0 then []
    else FrameLayers(st, k - 1) + [Layer(st[k - 1].serviceName, LayerPacket(st[k - 1].fields))]
  }

  function Frame(st: StackState): StackedPacket {
    StackedPacket(FrameTo(st, |st|), FrameLayers(st, |st|))
  }

  /** The stack after generateStack. */
  function AfterGenerate(st: StackState, db: VarDb, draws: Draws, pos: nat): (r: StackState)
    ensures |r| == |st|
  {
    EncodePass(Loaded(st, db, draws, pos), BottomUp(|st|), |st|)
  }

  /** The frame generateStack returns. */
  function Generated(st: StackState, db: VarDb, draws: Draws, pos: nat): StackedPacket {
    Frame(AfterGenerate(st, db, draws, pos))
  }

  /* ---------------- decodeStack ---------------- */

  /** Octet offset at which layer k starts. */
  function OffsetTo(st: StackState, k: nat, db: VarDb): nat
    requires k <= |st|
  {
    if k == 0 then 0 else OffsetTo(st, k - 1, db) + LayoutOctets(LayerSlots(st[k - 1], db))
  }

  /** What the decoder reports for a layer that starts at octet offset at. Without an interface it takes nothing. */
  function LayerDecode(l: LayerState, db: VarDb, bytes: seq<byte>, at: nat): BuiltPacket {
    if l.iface.None? then BuiltPacket([], []) else Decoded(LayerSlots(l, db), bytes, at)
  }

  /** The layer after its context was reloaded from the frame and its onDecode ran. */
  function LayerAfterDecode(l: LayerState, db: VarDb, bytes: seq<byte>, at: nat): LayerState {
    if l.iface.None? then l
    else
      var fs := Populated(l.iface.value, db, LayerDecode(l, db, bytes, at).fields);
      l.(fields := fs, logic := l.logic.AfterDecode(fs))
  }

  function DecodedLayer(st: StackState, i: nat, db: VarDb, bytes: seq<byte>): BuiltPacket
    requires i < |st|
  {
    LayerDecode(st[i], db, bytes, OffsetTo(st, i, db))
  }

  /** The stack while decodeStack runs: the first k layers decoded. */
  function DecodedTo(st: StackState, k: nat, db: VarDb, bytes: seq<byte>): (r: StackState)
    requires k <= |st|
    ensures |r| == |st|
  {
    if k == 0 then st
    else
      var s := DecodedTo(st, k - 1, db, bytes);
      s[k - 1 := LayerAfterDecode(s[k - 1], db, bytes, OffsetTo(st, k - 1, db))]
  }

  /** The stack after decodeStack. */
  function AfterDecode(st: StackState, db: VarDb, bytes: seq<byte>): (r: StackState)
    ensures |r| == |st|
  {
    DecodedTo(st, |st|, db, bytes)
  }

  lemma {:induction false} DecodedToAt(st: StackState, k: nat, db: VarDb, bytes: seq<byte>, i: nat)
    requires k <= |st| && i < |st|
    ensures DecodedTo(st, k, db, bytes)[i] ==
            if i < k then LayerAfterDecode(st[i], db, bytes, OffsetTo(st, i, db)) else st[i]
  {
    if k > 0 { DecodedToAt(st, k - 1, db, bytes, i); }
  }

  function DecodedLayers(st: StackState, k: nat, db: VarDb, bytes: seq<byte>): (ls: seq<Layer>)
    requires k <= |st|
    ensures |ls| == k
  {
    if k == 0 then []
    else DecodedLayers(st, k - 1, db, bytes) + [Layer(st[k - 1].serviceName, DecodedLayer(st, k - 1, db, bytes))]
  }

  lemma {:induction false} FrameLayersAt(st: StackState, k: nat, i: nat)
    requires i < k <= |st|
    ensures FrameLayers(st, k)[i] == Layer(st[i].serviceName, LayerPacket(st[i].fields))
  {
    if i < k - 1 { FrameLayersAt(st, k - 1, i); }
  }

  lemma {:induction false} DecodedLayersAt(st: StackState, k: nat, db: VarDb, bytes: seq<byte>, i: nat)
    requires i < k <= |st|
    ensures DecodedLayers(st, k, db, bytes)[i] == Layer(st[i].serviceName, DecodedLayer(st, i, db, bytes))
  {
    if i < k - 1 { DecodedLayersAt(st, k - 1, db, bytes, i); }
  }

  /** What decodeStack returns. */
  function DecodedFrame(st: StackState, db: VarDb, bytes: seq<byte>): StackedPacket {
    StackedPacket(bytes, DecodedLayers(st, |st|, db, bytes))
  }
}
