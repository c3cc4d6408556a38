/** Session: the encode and decode entry points over a parsed protocol directory. */
module Sessions {
  import opened Bits
  import opened Packing
  import opened FieldCodec
  import opened Layout
  import opened PacketBuilding
  import opened PacketDecoding
  import opened LayerContexts
  import opened LogicModules
  import opened StackCodec
  import opened Stacks
  import opened ListCodec
  import opened Chains

  /** The width of the first reference with this short name. */
  method FindWidth(refs: seq<string>, db: VarDb, name: string) returns (bits: Width)
    ensures bits == WidthOf(refs, db, name)
  {
    for r := 0 to |refs|
      invariant FirstRef(refs, name, 0) == FirstRef(refs, name, r)
    {
      if ShortName(refs[r]) == name {
        return if refs[r] in db then db[refs[r]].size else 0;
      }
    }
    return 0;
  }

  /** Packs one context's fields. */
  method PackContext(fields: seq<Field>) returns (lp: BuiltPacket)
    ensures lp == LayerPacket(fields)
  {
    var bytes: seq<byte>, pairs: seq<FieldValue>, bitOffset := [], [], 0;
    for k := 0 to |fields|
      invariant bytes == Packed(FieldWidths(fields, k), FieldVals(fields, k))
      invariant pairs == FieldPairs(fields, k)
      invariant bitOffset == Sum(FieldWidths(fields, k))
    {
      var f := fields[k];
      bytes, bitOffset := AppendBits(bytes, bitOffset, f.value, f.bits);
      PackFieldStep(fields, k, bytes);
      pairs := pairs + [FieldValue(f.name, f.value)];
    }
    lp := BuiltPacket(bytes, pairs);
  }

  lemma {:induction false} PackFieldStep(fs: seq<Field>, k: nat, buf: seq<byte>)
    requires k < |fs|
    requires OredIn(Packed(FieldWidths(fs, k), FieldVals(fs, k)), Sum(FieldWidths(fs, k)), fs[k].value, fs[k].bits,
                    buf)
    ensures buf == Packed(FieldWidths(fs, k + 1), FieldVals(fs, k + 1))
    ensures Sum(FieldWidths(fs, k + 1)) == Sum(FieldWidths(fs, k)) + fs[k].bits
  {
    var ws, vs := FieldWidths(fs, k), FieldVals(fs, k);
    AppendPacks(PackedBits(ws, vs), fs[k].value, fs[k].bits, buf);
    assert FieldWidths(fs, k + 1)[..k] == ws && FieldVals(fs, k + 1)[..k] == vs;
  }

  /** The overrides a stage hands to the next. */
  method CollectOverrides(fields: seq<FieldValue>) returns (overrides: map<string, u64>)
    ensures overrides == CollectedTo(fields, |fields|)
  {
    overrides := map[];
    for k := 0 to |fields|
      invariant overrides == CollectedTo(fields, k)
    {
      overrides := overrides[fields[k].name := fields[k].value];
    }
  }

  class Session {
    const db: VarDb
    const interfaceFor: Resolver
    const mBuilder: PacketBuilder

    constructor (db: VarDb, interfaceFor: Resolver, builder: PacketBuilder)
      ensures this.db == db && this.interfaceFor == interfaceFor && mBuilder == builder
    {
      this.db := db;
      this.interfaceFor := interfaceFor;
      mBuilder := builder;
    }

    /** generateStack over a list of interfaces: no logic runs. */
    method GenerateList(layers: seq<ProtocolInterface>) returns (result: StackedPacket)
      modifies mBuilder`pos
      ensures var (bs, p) := BuiltList(Layouts(layers, |layers|, db), mBuilder.draws, old(mBuilder.pos));
              result == StackedPacket(Join(bs), Labelled(layers, bs)) && mBuilder.pos == p
    {
      ghost var pos, bs: seq<BuiltPacket> := mBuilder.pos, [];
      result := StackedPacket([], []);
      for k := 0 to |layers|
        invariant |bs| == k && bs == BuiltList(Layouts(layers, k, db), mBuilder.draws, pos).0
        invariant mBuilder.pos == BuiltList(Layouts(layers, k, db), mBuilder.draws, pos).1
        invariant result == StackedPacket(Join(bs), Labelled(layers, bs))
      {
        ListStep(layers, k, db, mBuilder.draws, pos, bs, mBuilder.pos);
        var pkt := mBuilder.BuildWithFields(layers[k], db);
        bs := bs + [pkt];
        result := StackedPacket(result.bytes + pkt.bytes, result.layers + [Layer(layers[k].name, pkt)]);
      }
    }

    /** decodeStack over a list of interfaces. */
    method DecodeList(layers: seq<ProtocolInterface>, bytes: seq<byte>) returns (result: StackedPacket)
      ensures var bs := DecodedList(Layouts(layers, |layers|, db), |layers|, bytes);
              result == StackedPacket(bytes, Labelled(layers, bs))
    {
      var ls: seq<Layer>, offset := [], 0;
      ghost var ss := Layouts(layers, |layers|, db);
      ghost var bs: seq<BuiltPacket> := [];
      for k := 0 to |layers|
        invariant |bs| == k && bs == DecodedList(ss, k, bytes) && offset == Offset(ss, k)
        invariant ls == Labelled(layers, bs)
      {
        LayoutAt(layers, |layers|, db, k);
        var layer := Decode(layers[k], db, bytes, offset);
        var n := LayerBytes(layers[k], db);
        offset := offset + n;
        JoinStep(layers, bs, layer);
        bs := bs + [layer];
        ls := ls + [Layer(layers[k].name, layer)];
      }
      result := StackedPacket(bytes, ls);
    }

    /** generateChain: the first stage is built freely, each later one with its predecessor's fields as overrides. */
    method GenerateChain(stages: seq<ProtocolInterface>) returns (round: seq<Layer>)
      modifies mBuilder`pos
      ensures round == Round(stages, db, mBuilder.draws, old(mBuilder.pos))
      ensures mBuilder.pos == ChainTo(Layouts(stages, |stages|, db), |stages|, mBuilder.draws, old(mBuilder.pos)).pos
    {
      round := [];
      var overrides: map<string, u64> := map[];
      ghost var pos, bs: seq<BuiltPacket> := mBuilder.pos, [];
      ghost var ss := Layouts(stages, |stages|, db);
      for stage := 0 to |stages|
        invariant |bs| == stage
        invariant ChainState(bs, overrides, mBuilder.pos) == ChainTo(ss, stage, mBuilder.draws, pos)
        invariant round == Labelled(stages, bs)
      {
        LayoutAt(stages, |stages|, db, stage);
        var pkt;
        if stage == 0 {
          FreshPos(ss[0], mBuilder.draws, mBuilder.pos);
          pkt := mBuilder.BuildWithFields(stages[stage], db);
        } else {
          pkt := mBuilder.BuildWithOverrides(stages[stage], db, overrides);
        }
        overrides := CollectOverrides(pkt.fields);
        JoinStep(stages, bs, pkt);
        bs := bs + [pkt];
        round := round + [Layer(stages[stage].name, pkt)];
      }
    }

    method PopulateContext(ctx: LayerContext, iface: ProtocolInterface, fieldValues: seq<FieldValue>)
      modifies ctx`mFields
      ensures ctx.mFields == Populated(iface, db, fieldValues)
    {
      ctx.ClearFields();
      for k := 0 to |fieldValues|
        invariant ctx.mFields == PopulatedTo(iface.varRefs, db, fieldValues, k)
      {
        var bits := FindWidth(iface.varRefs, db, fieldValues[k].name);
        if bits != 0 {
          ctx.AddField(fieldValues[k].name, fieldValues[k].value, bits);
        }
      }
    }

    /** Draws the fields of layer i and loads its context. */
    method LoadLayer(layers: seq<StackLayer>, i: nat, ghost st: StackState)
      requires i < |layers| && Owned(layers) && AllShow(layers, interfaceFor, st)
      modifies layers[i].context`mFields, mBuilder`pos
      ensures AllShow(layers, interfaceFor, st[i := LayerLoaded(st[i], db, mBuilder.draws, old(mBuilder.pos))])
      ensures mBuilder.pos == old(mBuilder.pos) + |LayerSlots(st[i], db)|
    {
      assert ShowsAt(layers, interfaceFor, st, i);
      var iface := layers[i].Interface(interfaceFor);
      if iface.None? {
        assert st[i := st[i]] == st;
        return;
      }
      var built := mBuilder.BuildWithFields(iface.value, db);
      PopulateContext(layers[i].context, iface.value, built.fields);
      ghost var after := st[i := LayerLoaded(st[i], db, mBuilder.draws, old(mBuilder.pos))];
      forall j | 0 <= j < |layers| ensures ShowsAt(layers, interfaceFor, after, j) {
        assert old(ShowsAt(layers, interfaceFor, st, j));
        if j != i { OwnedApart(layers, i, j); }
      }
    }

    /** Loads layer i of a stack whose lower layers have been loaded. */
    method LoadNext(layers: seq<StackLayer>, i: nat, ghost st: StackState, ghost pos: nat)
      requires i < |layers| == |st| && Owned(layers) && mBuilder.pos == LoadPos(st, i, db, pos)
      requires AllShow(layers, interfaceFor, LoadedTo(st, i, db, mBuilder.draws, pos))
      modifies layers[i].context`mFields, mBuilder`pos
      ensures mBuilder.pos == LoadPos(st, i + 1, db, pos)
      ensures AllShow(layers, interfaceFor, LoadedTo(st, i + 1, db, mBuilder.draws, pos))
    {
      LoadedToAt(st, i, db, mBuilder.draws, pos, i);
      LoadLayer(layers, i, LoadedTo(st, i, db, mBuilder.draws, pos));
    }

    /** Step 1 of generateStack: draw every layer's fields and load its context. */
    method LoadContexts(layers: seq<StackLayer>, ghost st: StackState)
      requires Owned(layers) && AllShow(layers, interfaceFor, st)
      modifies ContextSet(layers)`mFields, mBuilder`pos
      ensures AllShow(layers, interfaceFor, Loaded(st, db, mBuilder.draws, old(mBuilder.pos)))
      ensures mBuilder.pos == LoadPos(st, |st|, db, old(mBuilder.pos))
    {
      ghost var pos := mBuilder.pos;
      for i := 0 to |layers|
        invariant mBuilder.pos == LoadPos(st, i, db, pos)
        invariant AllShow(layers, interfaceFor, LoadedTo(st, i, db, mBuilder.draws, pos))
      {
        LoadNext(layers, i, st, pos);
      }
    }

    /** Runs layer i's onEncode. */
    method EncodeLayer(layers: seq<StackLayer>, i: nat, ghost st: StackState)
      requires i < |layers| && Owned(layers) && Wired(layers) && AllShow(layers, interfaceFor, st)
      modifies layers[i].context`mFields, layers[i].logic`mEncodeCalls
      ensures AllShow(layers, interfaceFor, EncodeAt(st, i))
    {
      HookInputs(layers, interfaceFor, st, i);
      assert ShowsAt(layers, interfaceFor, st, i);
      layers[i].logic.OnEncode(layers[i].context, ContextsOf(layers), i);
      forall j | 0 <= j < |layers| ensures ShowsAt(layers, interfaceFor, EncodeAt(st, i), j) {
        assert old(ShowsAt(layers, interfaceFor, st, j));
        if j != i { OwnedApart(layers, i, j); }
      }
    }

    /** Step 2 of generateStack: run every layer's onEncode, bottom-up. */
    method RunEncode(layers: seq<StackLayer>, ghost st: StackState)
      requires Owned(layers) && Wired(layers) && AllShow(layers, interfaceFor, st)
      modifies ContextSet(layers)`mFields, ModuleSet(layers)`mEncodeCalls
      ensures AllShow(layers, interfaceFor, EncodePass(st, BottomUp(|st|), |st|))
    {
      ghost var order := BottomUp(|st|);
      ghost var cur := st;
      for i := 0 to |layers|
        invariant |cur| == |layers| && cur == EncodePass(st, order, i) && AllShow(layers, interfaceFor, cur)
      {
        EncodeLayer(layers, i, cur);
        cur := EncodeAt(cur, i);
      }
    }

    /** generateStack over a bound stack: load every context, run the hooks bottom-up, pack. */
    method GenerateStack(stack: Stack, ghost st: StackState) returns (result: StackedPacket)
      requires stack.Valid() && stack.Shows(interfaceFor, st)
      modifies ContextSet(stack.mLayers)`mFields, ModuleSet(stack.mLayers)`mEncodeCalls, mBuilder`pos
      ensures result == Generated(st, db, mBuilder.draws, old(mBuilder.pos))
      ensures stack.Shows(interfaceFor, AfterGenerate(st, db, mBuilder.draws, old(mBuilder.pos)))
      ensures mBuilder.pos == LoadPos(st, |st|, db, old(mBuilder.pos))
    {
      var layers := stack.mLayers;
      ghost var pos := mBuilder.pos;
      LoadContexts(layers, st);
      RunEncode(layers, Loaded(st, db, mBuilder.draws, pos));
      result := PackStack(layers, AfterGenerate(st, db, mBuilder.draws, pos));
    }

    /** Step 3 of generateStack: pack every context and concatenate, bottom-up. */
    method PackStack(layers: seq<StackLayer>, ghost st: StackState) returns (result: StackedPacket)
      requires AllShow(layers, interfaceFor, st)
      ensures result == Frame(st)
    {
      var bytes: seq<byte>, ls: seq<Layer> := [], [];
      for i := 0 to |layers|
        invariant bytes == FrameTo(st, i) && ls == FrameLayers(st, i)
      {
        assert ShowsAt(layers, interfaceFor, st, i);
        var lp := PackContext(layers[i].context.mFields);
        bytes := bytes + lp.bytes;
        ls := ls + [Layer(layers[i].serviceName, lp)];
      }
      result := StackedPacket(bytes, ls);
    }

    /** Decodes layer i at the given offset, reloads its context and runs its onDecode. */
    method DecodeLayer(layers: seq<StackLayer>, i: nat, bytes: seq<byte>, offset: nat, ghost st: StackState)
      returns (layer: BuiltPacket, next: nat)
      requires i < |layers| && Owned(layers) && AllShow(layers, interfaceFor, st)
      modifies layers[i].context`mFields, layers[i].logic
      ensures layer == LayerDecode(st[i], db, bytes, offset)
      ensures next == offset + LayoutOctets(LayerSlots(st[i], db))
      ensures AllShow(layers, interfaceFor, st[i := LayerAfterDecode(st[i], db, bytes, offset)])
    {
      assert ShowsAt(layers, interfaceFor, st, i);
      var iface := layers[i].Interface(interfaceFor);
      if iface.None? {
        assert st[i := st[i]] == st && LayoutOctets([]) == 0;
        return BuiltPacket([], []), offset;
      }
      layer := Decode(iface.value, db, bytes, offset);
      var n := LayerBytes(iface.value, db);
      next := offset + n;
      PopulateContext(layers[i].context, iface.value, layer.fields);
      layers[i].logic.OnDecode(layers[i].context);
      ghost var after := st[i := LayerAfterDecode(st[i], db, bytes, offset)];
      forall j | 0 <= j < |layers| ensures ShowsAt(layers, interfaceFor, after, j) {
        assert old(ShowsAt(layers, interfaceFor, st, j));
        if j != i { OwnedApart(layers, i, j); }
      }
    }

    /** Does layer i's module predict an upper service other than the layer actually above? Never, in a wired
        stack. */
    method DemuxDiverges(layers: seq<StackLayer>, i: nat) returns (diverges: bool)
      requires i < |layers| && Owned(layers) && Wired(layers)
      ensures !diverges
    {
      var predicted := layers[i].logic.NextLayer(layers[i].context);
      WiredUpper(layers, i);
      diverges := predicted != "" && i + 1 < |layers| && predicted != layers[i + 1].serviceName;
    }

    /** Layer i of a frame whose lower layers have been decoded. */
    method DecodeNext(layers: seq<StackLayer>, i: nat, bytes: seq<byte>, offset: nat, ghost st: StackState)
      returns (layer: Layer, next: nat, diverges: bool)
      requires i < |layers| == |st| && Owned(layers) && Wired(layers)
      requires AllShow(layers, interfaceFor, DecodedTo(st, i, db, bytes)) && offset == OffsetTo(st, i, db)
      modifies layers[i].context`mFields, layers[i].logic
      ensures AllShow(layers, interfaceFor, DecodedTo(st, i + 1, db, bytes)) && next == OffsetTo(st, i + 1, db)
      ensures [layer] == DecodedLayers(st, i + 1, db, bytes)[i..]
      ensures !diverges
    {
      ghost var cur := DecodedTo(st, i, db, bytes);
      DecodedToAt(st, i, db, bytes, i);
      DecodedLayersAt(st, i + 1, db, bytes, i);
      assert ShowsAt(layers, interfaceFor, cur, i);
      var packet;
      packet, next := DecodeLayer(layers, i, bytes, offset, cur);
      diverges := DemuxDiverges(layers, i);
      layer := Layer(layers[i].serviceName, packet);
    }

    /** decodeStack over a bound stack. `diverged` tells whether some layer's predicted upper service was not
        the next layer's: in a wired stack that never happens. */
    method DecodeStack(stack: Stack, bytes: seq<byte>, ghost st: StackState)
      returns (result: StackedPacket, diverged: bool)
      requires stack.Valid() && stack.Shows(interfaceFor, st)
      modifies ContextSet(stack.mLayers)`mFields, ModuleSet(stack.mLayers)
      ensures result == DecodedFrame(st, db, bytes)
      ensures stack.Shows(interfaceFor, AfterDecode(st, db, bytes))
      ensures !diverged
    {
      var layers := stack.mLayers;
      var ls: seq<Layer>, offset := [], 0;
      diverged := false;
      for i := 0 to |layers|
        invariant Wired(layers)
        invariant AllShow(layers, interfaceFor, DecodedTo(st, i, db, bytes))
        invariant offset == OffsetTo(st, i, db)
        invariant ls == DecodedLayers(st, i, db, bytes)
        invariant !diverged
      {
        var layer, diverges;
        layer, offset, diverges := DecodeNext(layers, i, bytes, offset, st);
        diverged := diverged || diverges;
        ls := ls + [layer];
      }
      result := StackedPacket(bytes, ls);
    }
  }

  /** In a wired stack the service above a layer is the next layer's. */
  lemma {:induction false} WiredUpper(layers: seq<StackLayer>, i: nat)
    requires Owned(layers) && Wired(layers) && i < |layers|
    ensures UpperService(layers[i].context)
            == if i + 1 < |layers| then Some(layers[i + 1].serviceName) else None
  {
    assert WiredAt(layers, i);
    if i + 1 < |layers| { assert CarriesName(layers, i + 1); }
  }

  /** A hook reads off the heap what the state says is above its layer. */
  lemma {:induction false} HookInputs(layers: seq<StackLayer>, f: Resolver, st: StackState, i: nat)
    requires Owned(layers) && Wired(layers) && i < |layers| && AllShow(layers, f, st)
    ensures UpperService(layers[i].context) == Upper(st, i) && FieldsOf(ContextsOf(layers)) == FieldLists(st)
    ensures UpperChain(ContextsOf(layers)) && ContextsOf(layers)[i] == layers[i].context
  {
    var all := ContextsOf(layers);
    WiredLinks(layers);
    ContextsToAt(layers, |layers|, i);
    WiredUpper(layers, i);
    assert i + 1 < |layers| ==> ShowsAt(layers, f, st, i + 1);
    forall j | 0 <= j < |layers| ensures FieldsOf(all)[j] == FieldLists(st)[j] {
      ContextsToAt(layers, |layers|, j);
      assert ShowsAt(layers, f, st, j);
    }
  }
}
