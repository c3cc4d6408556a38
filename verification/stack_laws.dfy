/** Laws of whole stacks: round trip, slicing, independence of history. */
module StackLaws {
  import opened Bits
  import opened Sequences
  import opened FieldCodec
  import opened Layout
  import opened PacketBuilding
  import opened PacketDecoding
  import opened LayerContexts
  import opened StackCodec
  import opened EncodePassLaws

  /* ---------------- what populateContext loads ---------------- */

  /** For every field of the layout, the first reference with its short name has its width. */
  predicate WidthsAgree(refs: seq<string>, db: VarDb) {
    FoundBelow(refs, db, |Slots(refs, db)|)
  }

  predicate WidthFound(refs: seq<string>, db: VarDb, i: nat)
    requires i < |Slots(refs, db)|
  {
    WidthOf(refs, db, Slots(refs, db)[i].name) == Slots(refs, db)[i].v.size
  }

  /** It does so for the first k fields. */
  predicate FoundBelow(refs: seq<string>, db: VarDb, k: nat) {
    k <= |Slots(refs, db)| && forall i {:trigger WidthFound(refs, db, i)} | 0 <= i < k :: WidthFound(refs, db, i)
  }

  predicate DistinctShortNames(refs: seq<string>) {
    forall i, j | 0 <= i < j < |refs| :: ShortName(refs[i]) != ShortName(refs[j])
  }

  lemma {:induction false} FirstRefIsFirst(refs: seq<string>, name: string, i: nat, k: nat)
    requires i <= k < |refs| && ShortName(refs[k]) == name
    ensures FirstRef(refs, name, i) <= k
    decreases k - i
  {
    if ShortName(refs[i]) != name { FirstRefIsFirst(refs, name, i + 1, k); }
  }

  /** Every slot stems from a reference that takes room. */
  lemma {:induction false} SlotRef(refs: seq<string>, k: nat, db: VarDb, i: nat) returns (j: nat)
    requires k <= |refs| && i < |SlotsTo(refs, k, db)|
    ensures j < k && TakesRoom(refs[j], db)
    ensures SlotsTo(refs, k, db)[i] == Slot(ShortName(refs[j]), db[refs[j]])
  {
    if TakesRoom(refs[k - 1], db) && i == |SlotsTo(refs, k - 1, db)| {
      j := k - 1;
    } else {
      j := SlotRef(refs, k - 1, db, i);
    }
  }

  /** The width found for a short name is that of the first reference with it, 0 when that does not resolve. */
  lemma {:induction false} WidthOfIs(refs: seq<string>, db: VarDb, name: string, k: nat)
    requires k < |refs| && ShortName(refs[k]) == name && forall j | 0 <= j < k :: ShortName(refs[j]) != name
    ensures WidthOf(refs, db, name) == if refs[k] in db then db[refs[k]].size else 0
  {
    FirstRefIsFirst(refs, name, 0, k);
  }

  lemma {:induction false} WidthOfNone(refs: seq<string>, db: VarDb, name: string)
    requires forall j | 0 <= j < |refs| :: ShortName(refs[j]) != name
    ensures WidthOf(refs, db, name) == 0
  {
  }

  /** The context's field holds this value under the width found for its name. */
  predicate LoadedFrom(f: Field, fvs: seq<FieldValue>, refs: seq<string>, db: VarDb, i: nat) {
    && i < |fvs| && f.name == fvs[i].name && f.value == fvs[i].value
    && f.bits == WidthOf(refs, db, f.name) && f.bits > 0
  }

  /** The context's fields hold these of the first k values, in order. */
  predicate FromValues(fs: seq<Field>, fvs: seq<FieldValue>, refs: seq<string>, k: nat, db: VarDb, at: seq<nat>) {
    && |at| == |fs| && Increasing(at, k)
    && forall i {:trigger LoadedFrom(fs[i], fvs, refs, db, at[i])} | 0 <= i < |at| ::
         LoadedFrom(fs[i], fvs, refs, db, at[i])
  }

  lemma {:induction false} FromValuesMore(fs: seq<Field>, fvs: seq<FieldValue>, refs: seq<string>, k: nat, db: VarDb,
                                          at: seq<nat>, f: Field)
    requires FromValues(fs, fvs, refs, k, db, at) && LoadedFrom(f, fvs, refs, db, k)
    ensures FromValues(fs + [f], fvs, refs, k + 1, db, at + [k])
  {
    forall i | 0 <= i <= |at| ensures LoadedFrom((fs + [f])[i], fvs, refs, db, (at + [k])[i]) {
      if i < |at| { assert LoadedFrom(fs[i], fvs, refs, db, at[i]); }
    }
  }

  /** What a context holds after loading: the values whose names lead to a width that is not 0, in order, each with that
      width. */
  lemma {:induction false} LoadedFields(refs: seq<string>, db: VarDb, fvs: seq<FieldValue>, k: nat)
    returns (at: seq<nat>)
    requires k <= |fvs|
    ensures FromValues(PopulatedTo(refs, db, fvs, k), fvs, refs, k, db, at)
    ensures forall i | 0 <= i < k && WidthOf(refs, db, fvs[i].name) > 0 :: i in at
  {
    if k == 0 {
      at := [];
    } else {
      var at0 := LoadedFields(refs, db, fvs, k - 1);
      at := at0;
      var bits := WidthOf(refs, db, fvs[k - 1].name);
      if bits > 0 {
        at := at0 + [k - 1];
        FromValuesMore(PopulatedTo(refs, db, fvs, k - 1), fvs, refs, k - 1, db, at0,
                       Field(fvs[k - 1].name, fvs[k - 1].value, bits));
      }
    }
  }

  lemma {:induction false} DistinctNamesAgree(refs: seq<string>, db: VarDb)
    requires DistinctShortNames(refs)
    ensures WidthsAgree(refs, db)
  {
    var slots := Slots(refs, db);
    forall i | 0 <= i < |slots| ensures WidthFound(refs, db, i) {
      var j := SlotRef(refs, |refs|, db, i);
      FirstRefIsFirst(refs, slots[i].name, 0, j);
    }
  }

  /** The names of fvs are those of the layout, in order. */
  predicate Names(slots: seq<Slot>, fvs: seq<FieldValue>) {
    |slots| == |fvs| && forall i | 0 <= i < |slots| :: fvs[i].name == slots[i].name
  }

  lemma {:induction false} WidthsAt(slots: seq<Slot>, i: nat)
    requires i < |slots|
    ensures Widths(slots)[i] == slots[i].v.size
  {
    if i < |slots| - 1 { WidthsAt(slots[..|slots| - 1], i); }
  }

  lemma {:induction false} ValsAt(fvs: seq<FieldValue>, i: nat)
    requires i < |fvs|
    ensures Vals(fvs)[i] == fvs[i].value
  {
    if i < |fvs| - 1 { ValsAt(fvs[..|fvs| - 1], i); }
  }

  lemma {:induction false} NamedAt(slots: seq<Slot>, vs: seq<u64>, i: nat)
    requires |slots| == |vs| && i < |vs|
    ensures Named(slots, vs)[i] == FieldValue(slots[i].name, vs[i])
  {
    if i < |slots| - 1 { NamedAt(slots[..|slots| - 1], vs[..|vs| - 1], i); }
  }

  lemma {:induction false} BuiltNames(slots: seq<Slot>, ov: map<string, u64>, draws: Draws, pos: nat)
    ensures Names(slots, Filled(slots, ov, draws, pos).0)
  {
    if slots != [] {
      BuiltNames(slots[..|slots| - 1], ov, draws, pos);
    }
  }

  /** The layout's fields holding the given values. */
  function LayoutFields(slots: seq<Slot>, fvs: seq<FieldValue>, k: nat): (fs: seq<Field>)
    requires k <= |slots| == |fvs|
    ensures |fs| == k
  {
    if k == 0 then []
    else LayoutFields(slots, fvs, k - 1) + [Field(fvs[k - 1].name, fvs[k - 1].value, slots[k - 1].v.size)]
  }

  lemma {:induction false} LayoutFieldAt(slots: seq<Slot>, fvs: seq<FieldValue>, k: nat, i: nat)
    requires i < k <= |slots| == |fvs|
    ensures LayoutFields(slots, fvs, k)[i] == Field(fvs[i].name, fvs[i].value, slots[i].v.size)
  {
    if i < k - 1 { LayoutFieldAt(slots, fvs, k - 1, i); }
  }

  lemma {:induction false} SlotTakesRoom(refs: seq<string>, db: VarDb, i: nat)
    requires i < |Slots(refs, db)|
    ensures Slots(refs, db)[i].v.size > 0
  {
    var _ := SlotRef(refs, |refs|, db, i);
  }

  /** Loading values named after the layout gives exactly the layout's fields. */
  lemma {:induction false} PopulatedLayout(refs: seq<string>, db: VarDb, fvs: seq<FieldValue>, k: nat)
    requires WidthsAgree(refs, db) && Names(Slots(refs, db), fvs) && k <= |fvs|
    ensures PopulatedTo(refs, db, fvs, k) == LayoutFields(Slots(refs, db), fvs, k)
  {
    if k > 0 {
      var slots := Slots(refs, db);
      PopulatedLayout(refs, db, fvs, k - 1);
      SlotTakesRoom(refs, db, k - 1);
      assert WidthFound(refs, db, k - 1);
    }
  }

  lemma {:induction false} PopulatedLaidOut(refs: seq<string>, db: VarDb, fvs: seq<FieldValue>)
    requires WidthsAgree(refs, db) && Names(Slots(refs, db), fvs)
    ensures LaidOut(PopulatedTo(refs, db, fvs, |fvs|), Slots(refs, db))
  {
    PopulatedLayout(refs, db, fvs, |fvs|);
    var slots := Slots(refs, db);
    forall i | 0 <= i < |fvs|
      ensures LayoutFields(slots, fvs, |fvs|)[i] == Field(slots[i].name, fvs[i].value, slots[i].v.size)
    {
      LayoutFieldAt(slots, fvs, |fvs|, i);
    }
  }

  lemma {:induction false} FieldWidthsAt(fs: seq<Field>, k: nat, i: nat)
    requires i < k <= |fs|
    ensures FieldWidths(fs, k)[i] == fs[i].bits && FieldVals(fs, k)[i] == fs[i].value
    ensures FieldPairs(fs, k)[i] == FieldValue(fs[i].name, fs[i].value)
  {
    if i < k - 1 { FieldWidthsAt(fs, k - 1, i); }
  }

  /** A context laid out as the interface declares. */
  predicate LaidOut(fs: seq<Field>, slots: seq<Slot>) {
    |fs| == |slots| && forall i | 0 <= i < |fs| :: fs[i].name == slots[i].name && fs[i].bits == slots[i].v.size
  }

  lemma {:induction false} LaidOutWidths(fs: seq<Field>, slots: seq<Slot>)
    requires LaidOut(fs, slots)
    ensures FieldWidths(fs, |fs|) == Widths(slots)
  {
    forall i | 0 <= i < |fs| ensures FieldWidths(fs, |fs|)[i] == Widths(slots)[i] {
      FieldWidthsAt(fs, |fs|, i);
      WidthsAt(slots, i);
    }
  }

  /* ---------------- stacks ---------------- */

  /** Contexts of layers without an interface hold no fields. */
  predicate Clean(st: StackState) {
    forall i | 0 <= i < |st| && st[i].iface.None? :: st[i].fields == []
  }

  /** Every interface of the stack loads its contexts with the declared widths. */
  predicate Codable(st: StackState, db: VarDb) {
    forall i | 0 <= i < |st| && st[i].iface.Some? :: WidthsAgree(st[i].iface.value.varRefs, db)
  }

  lemma {:induction false} GeneratedBinding(st: StackState, db: VarDb, draws: Draws, pos: nat)
    ensures SameBinding(AfterGenerate(st, db, draws, pos), st)
  {
    PassShapes(Loaded(st, db, draws, pos), BottomUp(|st|), |st|);
    LoadedBinding(st, db, draws, pos);
  }

  lemma {:induction false} GeneratedClean(st: StackState, db: VarDb, draws: Draws, pos: nat)
    requires Clean(st)
    ensures Clean(AfterGenerate(st, db, draws, pos))
  {
    var e := AfterGenerate(st, db, draws, pos);
    GeneratedBinding(st, db, draws, pos);
    forall i | 0 <= i < |e| && e[i].iface.None? ensures e[i].fields == [] {
      GeneratedFields(st, db, draws, pos, i);
      LoadedToAt(st, |st|, db, draws, pos, i);
      assert SameShape(e[i].fields, Loaded(st, db, draws, pos)[i].fields);
    }
  }

  lemma {:induction false} LoadedLaidOut(st: StackState, db: VarDb, draws: Draws, pos: nat, i: nat)
    requires Clean(st) && i < |st| && (st[i].iface.Some? ==> WidthsAgree(st[i].iface.value.varRefs, db))
    ensures LaidOut(Loaded(st, db, draws, pos)[i].fields, LayerSlots(st[i], db))
  {
    LoadedToAt(st, |st|, db, draws, pos, i);
    if st[i].iface.Some? {
      var slots := LayerSlots(st[i], db);
      var fvs := Built(slots, map[], draws, LoadPos(st, i, db, pos)).fields;
      BuiltNames(slots, map[], draws, LoadPos(st, i, db, pos));
      PopulatedLaidOut(st[i].iface.value.varRefs, db, fvs);
    }
  }

  /** In a generated stack every context is laid out as its interface declares; without one it is empty. */
  lemma {:induction false} GeneratedLaidOut(st: StackState, db: VarDb, draws: Draws, pos: nat, i: nat)
    requires Clean(st) && Codable(st, db) && i < |st|
    ensures LaidOut(AfterGenerate(st, db, draws, pos)[i].fields, LayerSlots(st[i], db))
  {
    GeneratedFields(st, db, draws, pos, i);
    LoadedLaidOut(st, db, draws, pos, i);
    assert SameShape(AfterGenerate(st, db, draws, pos)[i].fields, Loaded(st, db, draws, pos)[i].fields);
  }

  /** The frame of laid-out contexts puts every layer where the decoder looks for it. */
  lemma {:induction false} FrameOffsets(e: StackState, st: StackState, db: VarDb, k: nat)
    requires |e| == |st| && k <= |st|
    requires forall i | 0 <= i < k :: LaidOut(e[i].fields, LayerSlots(st[i], db))
    ensures |FrameTo(e, k)| == OffsetTo(st, k, db)
  {
    if k > 0 {
      FrameOffsets(e, st, db, k - 1);
      LaidOutWidths(e[k - 1].fields, LayerSlots(st[k - 1], db));
    }
  }

  lemma {:induction false} FrameSplit(e: StackState, k: nat) returns (rest: seq<byte>)
    requires k <= |e|
    ensures FrameTo(e, |e|) == FrameTo(e, k) + rest
    decreases |e| - k
  {
    if k == |e| {
      rest := [];
    } else {
      rest := FrameSplit(e, k + 1);
      assert FrameTo(e, k + 1) + rest == FrameTo(e, k) + (LayerBytesOf(e[k].fields) + rest);
      rest := LayerBytesOf(e[k].fields) + rest;
    }
  }

  /** The encoded fields as the wire carries them: each value modulo 2^min(width, 64). */
  function WireFields(fs: seq<Field>, k: nat): (ps: seq<FieldValue>)
    requires k <= |fs|
    ensures |ps| == k
  {
    if k == 0 then []
    else WireFields(fs, k - 1) + [FieldValue(fs[k - 1].name, OnWire(fs[k - 1].value, fs[k - 1].bits))]
  }

  lemma {:induction false} WireFieldsAt(fs: seq<Field>, k: nat, i: nat)
    requires i < k <= |fs|
    ensures WireFields(fs, k)[i] == FieldValue(fs[i].name, OnWire(fs[i].value, fs[i].bits))
  {
    if i < k - 1 { WireFieldsAt(fs, k - 1, i); }
  }

  /** Decoding a layer's bytes wherever they lie in a frame gives its wire fields and the bytes themselves. */
  lemma {:induction false} LayerRoundTrip(fs: seq<Field>, slots: seq<Slot>, before: seq<byte>, after: seq<byte>)
    requires LaidOut(fs, slots)
    ensures Decoded(slots, before + LayerBytesOf(fs) + after, |before|)
            == BuiltPacket(LayerBytesOf(fs), WireFields(fs, |fs|))
  {
    var ws, vs := FieldWidths(fs, |fs|), FieldVals(fs, |fs|);
    LaidOutWidths(fs, slots);
    var frame := before + LayerBytesOf(fs) + after;
    RoundTrip(ws, vs, before, after);
    var named := Named(slots, Values(ws, frame, 8 * |before|));
    forall i | 0 <= i < |fs| ensures named[i] == WireFields(fs, |fs|)[i] {
      NamedAt(slots, Values(ws, frame, 8 * |before|), i);
      FieldWidthsAt(fs, |fs|, i);
      WireFieldsAt(fs, |fs|, i);
    }
    assert Slice(frame, |before|, |LayerBytesOf(fs)|) == LayerBytesOf(fs);
  }

  /** What decodeStack must report for a frame generated as e: the layer names and byte slices generateStack
      reported, and its fields as the wire carries them. */
  function WireLayers(e: StackState, k: nat): (ls: seq<Layer>)
    requires k <= |e|
    ensures |ls| == k
    ensures forall i | 0 <= i < k ::
              ls[i] == Layer(e[i].serviceName,
                             BuiltPacket(LayerBytesOf(e[i].fields), WireFields(e[i].fields, |e[i].fields|)))
  {
    if k == 0 then []
    else
      var fs := e[k - 1].fields;
      WireLayers(e, k - 1) + [Layer(e[k - 1].serviceName, BuiltPacket(LayerBytesOf(fs), WireFields(fs, |fs|)))]
  }

  /** Layer i's bytes within the frame. */
  lemma {:induction false} FrameAround(e: StackState, i: nat) returns (rest: seq<byte>)
    requires i < |e|
    ensures FrameTo(e, |e|) == FrameTo(e, i) + LayerBytesOf(e[i].fields) + rest
  {
    rest := FrameSplit(e, i + 1);
  }

  lemma {:induction false} DecodesLayer(e: StackState, st: StackState, db: VarDb, i: nat)
    requires SameBinding(e, st) && i < |e|
    requires forall j | 0 <= j < |e| :: LaidOut(e[j].fields, LayerSlots(st[j], db))
    ensures var fs := e[i].fields;
            DecodedLayer(st, i, db, FrameTo(e, |e|)) == BuiltPacket(LayerBytesOf(fs), WireFields(fs, |fs|))
  {
    if st[i].iface.None? {
      assert e[i].fields == [];
    } else {
      var rest := FrameAround(e, i);
      FrameOffsets(e, st, db, i);
      LayerRoundTrip(e[i].fields, LayerSlots(st[i], db), FrameTo(e, i), rest);
    }
  }

  lemma {:induction false} DecodesAll(e: StackState, st: StackState, db: VarDb)
    requires SameBinding(e, st)
    requires forall i | 0 <= i < |e| :: LaidOut(e[i].fields, LayerSlots(st[i], db))
    ensures DecodedLayers(st, |st|, db, FrameTo(e, |e|)) == WireLayers(e, |e|)
  {
    forall i | 0 <= i < |e| ensures DecodedLayers(st, |st|, db, FrameTo(e, |e|))[i] == WireLayers(e, |e|)[i] {
      DecodesLayer(e, st, db, i);
      DecodedLayersAt(st, |st|, db, FrameTo(e, |e|), i);
    }
  }

  /** Stack codec round trip, for any bound stack, draws and module states: decoding a generated frame, on the
      same stack or on any other state of it, reports the generated layers with each value modulo 2^min(width, 64). */
  lemma {:induction false} StackRoundTrip(st: StackState, other: StackState, db: VarDb, draws: Draws, pos: nat)
    requires Clean(st) && Codable(st, db) && SameBinding(other, st)
    ensures var e := AfterGenerate(st, db, draws, pos);
            DecodedFrame(other, db, Generated(st, db, draws, pos).bytes)
            == StackedPacket(Generated(st, db, draws, pos).bytes, WireLayers(e, |e|))
  {
    var e := AfterGenerate(st, db, draws, pos);
    GeneratedBinding(st, db, draws, pos);
    forall i | 0 <= i < |e| ensures LaidOut(e[i].fields, LayerSlots(other[i], db)) {
      GeneratedLaidOut(st, db, draws, pos, i);
    }
    DecodesAll(e, other, db);
  }

  /** Layers without an interface take no bytes in either direction. */
  lemma {:induction false} NoInterfaceNoBytes(st: StackState, db: VarDb, draws: Draws, pos: nat, bytes: seq<byte>,
                                              i: nat)
    requires Clean(st) && i < |st| && st[i].iface.None?
    ensures Generated(st, db, draws, pos).layers[i].packet == BuiltPacket([], [])
    ensures DecodedFrame(st, db, bytes).layers[i].packet == BuiltPacket([], [])
    ensures OffsetTo(st, i + 1, db) == OffsetTo(st, i, db)
  {
    GeneratedBinding(st, db, draws, pos);
    GeneratedClean(st, db, draws, pos);
    FrameLayersAt(AfterGenerate(st, db, draws, pos), |st|, i);
    DecodedLayersAt(st, |st|, db, bytes, i);
  }

  /* ---------------- slicing ---------------- */

  /** The first n octets of a frame, or all of a shorter one. */
  function Covered(bytes: seq<byte>, n: nat): seq<byte> { bytes[..Min(|bytes|, n)] }

  function ConcatTo(slices: seq<seq<byte>>, k: nat): seq<byte>
    requires k <= |slices|
  {
    if k == 0 then [] else ConcatTo(slices, k - 1) + slices[k - 1]
  }

  lemma {:induction false} SliceExtends(bytes: seq<byte>, at: nat, to: nat)
    requires at <= to
    ensures Covered(bytes, at) + Slice(bytes, at, to - at) == Covered(bytes, to)
  {
  }

  /** Consecutive slices of any frame, short or long, add up to the part of the frame they cover. */
  lemma {:induction false} SlicesCover(bytes: seq<byte>, slices: seq<seq<byte>>, offs: seq<nat>, k: nat)
    requires |offs| == |slices| + 1 && offs[0] == 0 && k <= |slices|
    requires forall i | 0 <= i < |slices| ::
               offs[i] <= offs[i + 1] && slices[i] == Slice(bytes, offs[i], offs[i + 1] - offs[i])
    ensures ConcatTo(slices, k) == Covered(bytes, offs[k])
  {
    if k > 0 {
      SlicesCover(bytes, slices, offs, k - 1);
      SliceExtends(bytes, offs[k - 1], offs[k]);
    }
  }

  function SlicesOf(ls: seq<Layer>): (slices: seq<seq<byte>>)
    ensures |slices| == |ls|
  {
    seq(|ls|, i requires 0 <= i < |ls| => ls[i].packet.bytes)
  }

  function Offsets(st: StackState, db: VarDb): (offs: seq<nat>)
    ensures |offs| == |st| + 1
  {
    seq(|st| + 1, (i: nat) requires i <= |st| => OffsetTo(st, i, db))
  }

  lemma {:induction false} SliceAt(st: StackState, i: nat, db: VarDb, bytes: seq<byte>)
    requires i < |st|
    ensures OffsetTo(st, i, db) <= OffsetTo(st, i + 1, db)
    ensures DecodedLayer(st, i, db, bytes).bytes
            == Slice(bytes, OffsetTo(st, i, db), OffsetTo(st, i + 1, db) - OffsetTo(st, i, db))
  {
    if st[i].iface.None? { assert LayoutOctets([]) == 0; }
  }

  lemma {:induction false} OffsetsAt(st: StackState, db: VarDb, i: nat)
    requires i <= |st|
    ensures Offsets(st, db)[i] == OffsetTo(st, i, db)
  {
  }

  lemma {:induction false} LayerSlice(st: StackState, i: nat, db: VarDb, bytes: seq<byte>)
    requires i < |st|
    ensures Offsets(st, db)[i] <= Offsets(st, db)[i + 1]
    ensures SlicesOf(DecodedLayers(st, |st|, db, bytes))[i]
            == Slice(bytes, Offsets(st, db)[i], Offsets(st, db)[i + 1] - Offsets(st, db)[i])
  {
    OffsetsAt(st, db, i);
    OffsetsAt(st, db, i + 1);
    SliceAt(st, i, db, bytes);
    assert SlicesOf(DecodedLayers(st, |st|, db, bytes))[i] == DecodedLayer(st, i, db, bytes).bytes by {
      DecodedLayersAt(st, |st|, db, bytes, i);
    }
  }

  /** For any frame, short or long, the slices decodeStack reports are, put together, the part of the frame the
      layout covers. */
  lemma {:induction false} StackSlices(st: StackState, db: VarDb, bytes: seq<byte>)
    ensures ConcatTo(SlicesOf(DecodedFrame(st, db, bytes).layers), |st|) == Covered(bytes, Offsets(st, db)[|st|])
  {
    var slices, offs := SlicesOf(DecodedLayers(st, |st|, db, bytes)), Offsets(st, db);
    OffsetsAt(st, db, 0);
    forall i | 0 <= i < |slices|
      ensures offs[i] <= offs[i + 1] && slices[i] == Slice(bytes, offs[i], offs[i + 1] - offs[i])
    {
      LayerSlice(st, i, db, bytes);
    }
    SlicesCover(bytes, slices, offs, |st|);
  }

  /** Decoding a truncated frame gives the field values of the frame filled up with zero octets. */
  lemma {:induction false} TruncatedFrame(st: StackState, db: VarDb, bytes: seq<byte>, zeros: seq<byte>, i: nat)
    requires i < |st| && forall z | z in zeros :: z == 0
    ensures DecodedLayer(st, i, db, bytes).fields == DecodedLayer(st, i, db, bytes + zeros).fields
  {
    ZeroExtension(Widths(LayerSlots(st[i], db)), bytes, zeros, 8 * OffsetTo(st, i, db));
  }

  /* ---------------- history ---------------- */

  datatype Op = GenerateOp(draws: Draws, pos: nat) | DecodeOp(bytes: seq<byte>)

  function Step(st: StackState, db: VarDb, op: Op): (r: StackState)
    ensures |r| == |st|
  {
    match op
    case GenerateOp(draws, pos) => AfterGenerate(st, db, draws, pos)
    case DecodeOp(bytes) => AfterDecode(st, db, bytes)
  }

  /** The stack after the first k operations of a run. */
  function Run(st: StackState, db: VarDb, ops: seq<Op>, k: nat): (r: StackState)
    requires k <= |ops|
    ensures |r| == |st|
  {
    if k == 0 then st else Step(Run(st, db, ops, k - 1), db, ops[k - 1])
  }

  lemma {:induction false} DecodeKeeps(st: StackState, db: VarDb, bytes: seq<byte>)
    requires Clean(st)
    ensures Clean(AfterDecode(st, db, bytes)) && SameBinding(AfterDecode(st, db, bytes), st)
  {
    var r := AfterDecode(st, db, bytes);
    forall i | 0 <= i < |st|
      ensures r[i].serviceName == st[i].serviceName && r[i].iface == st[i].iface && SameKind(r[i].logic, st[i].logic)
      ensures r[i].iface.None? ==> r[i].fields == []
    {
      DecodedToAt(st, |st|, db, bytes, i);
    }
  }

  lemma {:induction false} StepKeeps(st: StackState, db: VarDb, op: Op)
    requires Clean(st)
    ensures Clean(Step(st, db, op)) && SameBinding(Step(st, db, op), st)
  {
    match op
    case GenerateOp(draws, pos) =>
      GeneratedBinding(st, db, draws, pos);
      GeneratedClean(st, db, draws, pos);
    case DecodeOp(bytes) =>
      DecodeKeeps(st, db, bytes);
  }

  /** No operation rebinds a layer or puts fields into a layer without an interface. */
  lemma {:induction false} RunKeeps(st: StackState, db: VarDb, ops: seq<Op>, k: nat)
    requires Clean(st) && k <= |ops|
    ensures Clean(Run(st, db, ops, k)) && SameBinding(Run(st, db, ops, k), st)
  {
    if k > 0 {
      RunKeeps(st, db, ops, k - 1);
      StepKeeps(Run(st, db, ops, k - 1), db, ops[k - 1]);
      BindingTransitive(Run(st, db, ops, k), Run(st, db, ops, k - 1), st);
    }
  }

  lemma {:induction false} LoadPosSame(a: StackState, b: StackState, k: nat, db: VarDb, pos: nat)
    requires SameBinding(a, b) && k <= |a|
    ensures LoadPos(a, k, db, pos) == LoadPos(b, k, db, pos)
  {
    if k > 0 { LoadPosSame(a, b, k - 1, db, pos); }
  }

  lemma {:induction false} LoadedSame(a: StackState, b: StackState, db: VarDb, draws: Draws, pos: nat, i: nat)
    requires SameBinding(a, b) && Clean(a) && Clean(b) && i < |a|
    ensures Loaded(a, db, draws, pos)[i].fields == Loaded(b, db, draws, pos)[i].fields
  {
    LoadPosSame(a, b, i, db, pos);
    LoadedToAt(a, |a|, db, draws, pos, i);
    LoadedToAt(b, |b|, db, draws, pos, i);
  }

  /** Stacks with equal fields and the same bindings have the same shapes. */
  lemma {:induction false} EqualFieldsShapes(a: StackState, b: StackState)
    requires SameBinding(a, b) && forall i | 0 <= i < |a| :: a[i].fields == b[i].fields
    ensures SameShapes(a, b)
  {
  }

  lemma {:induction false} BindingTransitive(a: StackState, b: StackState, c: StackState)
    requires SameBinding(a, b) && SameBinding(b, c)
    ensures SameBinding(a, c) && SameBinding(c, a)
  {
  }

  lemma {:induction false} GeneratedSame(a: StackState, b: StackState, db: VarDb, draws: Draws, pos: nat, i: nat)
    requires SameBinding(a, b) && Clean(a) && Clean(b) && i < |a|
    ensures AfterGenerate(a, db, draws, pos)[i].fields == AfterGenerate(b, db, draws, pos)[i].fields
  {
    var la, lb := Loaded(a, db, draws, pos), Loaded(b, db, draws, pos);
    forall j | 0 <= j < |a| ensures la[j].fields == lb[j].fields {
      LoadedSame(a, b, db, draws, pos, j);
    }
    LoadedBinding(a, db, draws, pos);
    LoadedBinding(b, db, draws, pos);
    BindingTransitive(la, a, b);
    BindingTransitive(lb, b, b);
    BindingTransitive(la, b, lb);
    EqualFieldsShapes(la, lb);
    GeneratedFields(a, db, draws, pos, i);
    GeneratedFields(b, db, draws, pos, i);
    HookSeesShapes(la, lb, i);
  }

  lemma {:induction false} FrameSame(a: StackState, b: StackState, k: nat)
    requires SameBinding(a, b) && k <= |a| && forall i | 0 <= i < |a| :: a[i].fields == b[i].fields
    ensures FrameTo(a, k) == FrameTo(b, k) && FrameLayers(a, k) == FrameLayers(b, k)
  {
    if k > 0 { FrameSame(a, b, k - 1); }
  }

  /** Stacks bound alike generate alike. */
  lemma {:induction false} FreshFrame(a: StackState, b: StackState, db: VarDb, draws: Draws, pos: nat)
    requires SameBinding(a, b) && Clean(a) && Clean(b)
    ensures Generated(a, db, draws, pos) == Generated(b, db, draws, pos)
  {
    var x, y := AfterGenerate(a, db, draws, pos), AfterGenerate(b, db, draws, pos);
    GeneratedBinding(a, db, draws, pos);
    GeneratedBinding(b, db, draws, pos);
    BindingTransitive(x, a, b);
    BindingTransitive(y, b, b);
    BindingTransitive(x, b, y);
    forall i | 0 <= i < |x| ensures x[i].fields == y[i].fields {
      GeneratedSame(a, b, db, draws, pos, i);
    }
    FrameSame(x, y, |x|);
  }

  /** History independence: after any run of generates and decodes, a stack gives the frame a fresh one gives
      for the same draws. */
  lemma {:induction false} HistoryIndependence(st: StackState, db: VarDb, ops: seq<Op>, draws: Draws, pos: nat)
    requires Clean(st)
    ensures Generated(Run(st, db, ops, |ops|), db, draws, pos) == Generated(st, db, draws, pos)
  {
    RunKeeps(st, db, ops, |ops|);
    FreshFrame(Run(st, db, ops, |ops|), st, db, draws, pos);
  }
}
