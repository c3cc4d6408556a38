/** The stack builder: from parsed layer entries to a bound stack whose adjacency is wired. */
module StackBuilders {
  import opened Layout
  import opened LayerContexts
  import opened LogicModules
  import opened StackCodec
  import opened StackLaws
  import opened Stacks

  /** One entry under `layers:`. The service is none when the entry is no map or has no such key. */
  datatype LayerEntry = LayerEntry(service: Option<string>, entityName: string, interfaceName: string,
                                   bypassLogic: bool)

  /** The logic name every known service declares, "" for none. */
  type Services = map<string, string>

  /** What the registered factories create. */
  type Registry = map<string, ModuleKind>

  datatype BuildStatus = StackSuccess | MissingKey | UnknownService | UnknownLogic

  predicate RunsPlain(e: LayerEntry, services: Services)
    requires e.service.Some? && e.service.value in services
  {
    e.bypassLogic || services[e.service.value] == ""
  }

  /** What binding one entry comes to. */
  function EntryStatus(e: LayerEntry, services: Services, registry: Registry): (status: BuildStatus)
    ensures status == MissingKey <==> e.service == None
    ensures status == UnknownService <==> e.service.Some? && e.service.value !in services
    ensures status == UnknownLogic <==>
              && e.service.Some? && e.service.value in services && !e.bypassLogic
              && services[e.service.value] != "" && services[e.service.value] !in registry
  {
    if e.service.None? then MissingKey
    else if e.service.value !in services then UnknownService
    else if RunsPlain(e, services) || services[e.service.value] in registry then StackSuccess
    else UnknownLogic
  }

  predicate Binds(e: LayerEntry, services: Services, registry: Registry) {
    EntryStatus(e, services, registry) == StackSuccess
  }

  predicate AllBind(entries: seq<LayerEntry>, services: Services, registry: Registry) {
    forall i {:trigger Binds(entries[i], services, registry)} | 0 <= i < |entries| ::
      Binds(entries[i], services, registry)
  }

  /** Entry i is the first that does not bind. */
  predicate FirstBad(entries: seq<LayerEntry>, services: Services, registry: Registry, i: nat) {
    i < |entries| && AllBind(entries[..i], services, registry) && !Binds(entries[i], services, registry)
  }

  function KindOf(e: LayerEntry, services: Services, registry: Registry): ModuleKind
    requires Binds(e, services, registry)
  {
    if RunsPlain(e, services) then Passthrough else registry[services[e.service.value]]
  }

  /** The layer is the entry's: its names, and the module its service declares unless bypassed or declaring none. */
  predicate BoundAs(l: StackLayer, e: LayerEntry, services: Services, registry: Registry) {
    && e.service == Some(l.serviceName) && l.entityName == e.entityName && l.interfaceName == e.interfaceName
    && l.serviceName in services
    && if e.bypassLogic || services[l.serviceName] == "" then l.logic.kind == Passthrough
       else services[l.serviceName] in registry && l.logic.kind == registry[services[l.serviceName]]
  }

  predicate AllBoundAs(layers: seq<StackLayer>, entries: seq<LayerEntry>, services: Services, registry: Registry) {
    && |layers| <= |entries|
    && forall i {:trigger BoundAs(layers[i], entries[i], services, registry)} | 0 <= i < |layers| ::
         BoundAs(layers[i], entries[i], services, registry)
  }

  lemma {:induction false} BoundMore(layers: seq<StackLayer>, l: StackLayer, entries: seq<LayerEntry>,
                                     services: Services, registry: Registry)
    requires AllBoundAs(layers, entries, services, registry) && |layers| < |entries|
    requires BoundAs(l, entries[|layers|], services, registry)
    ensures AllBoundAs(layers + [l], entries, services, registry)
  {
    forall i | 0 <= i <= |layers| ensures BoundAs((layers + [l])[i], entries[i], services, registry) {
      if i < |layers| { assert BoundAs(layers[i], entries[i], services, registry); }
    }
  }

  /** The state of a module just created. */
  function NewLogic(kind: ModuleKind): LogicState {
    match kind
    case Passthrough => PassthroughState
    case EthernetFrame => EthernetState(0, 0, 0)
    case AvtpControl => AvtpControlState(0)
    case AecpAem => AecpAemState(0)
  }

  function NewLayer(e: LayerEntry, services: Services, registry: Registry, f: Resolver): LayerState
    requires Binds(e, services, registry)
  {
    var name := e.service.value;
    LayerState(name, f(name, e.entityName, e.interfaceName), NewLogic(KindOf(e, services, registry)), [])
  }

  /** The bound stack that entries describe, before its first frame. */
  function NewStack(entries: seq<LayerEntry>, services: Services, registry: Registry, f: Resolver): (st: StackState)
    requires AllBind(entries, services, registry)
    ensures |st| == |entries| && Clean(st)
  {
    if entries == [] then []
    else
      var n := |entries| - 1;
      assert Binds(entries[n], services, registry);
      NewStack(entries[..n], services, registry, f) + [NewLayer(entries[n], services, registry, f)]
  }

  lemma {:induction false} NewStackMore(entries: seq<LayerEntry>, i: nat, services: Services, registry: Registry,
                                        f: Resolver)
    requires i < |entries| && AllBind(entries[..i], services, registry) && Binds(entries[i], services, registry)
    ensures AllBind(entries[..i + 1], services, registry)
    ensures NewStack(entries[..i + 1], services, registry, f)
         == NewStack(entries[..i], services, registry, f) + [NewLayer(entries[i], services, registry, f)]
  {
    assert entries[..i + 1] == entries[..i] + [entries[i]];
    assert entries[..i + 1][..i] == entries[..i];
  }

  lemma {:induction false} OwnedMore(layers: seq<StackLayer>, l: StackLayer)
    requires Owned(layers) && l.context !in ContextSet(layers) && l.logic !in ModuleSet(layers)
    requires l.context.mServiceName == l.serviceName
    ensures Owned(layers + [l])
  {
    var all := layers + [l];
    forall i, j | 0 <= i < j < |all| ensures Apart(all, i, j) {
      if j < |layers| {
        assert Apart(layers, i, j);
      } else {
        assert layers[i].context in ContextSet(layers) && layers[i].logic in ModuleSet(layers);
      }
    }
    forall i | 0 <= i < |all| ensures CarriesName(all, i) {
      if i < |layers| { assert CarriesName(layers, i); }
    }
  }

  lemma {:induction false} ShowsMore(layers: seq<StackLayer>, l: StackLayer, f: Resolver, st: StackState,
                                     s: LayerState)
    requires AllShow(layers, f, st) && l.Shows(f, s)
    ensures AllShow(layers + [l], f, st + [s])
  {
    forall i | 0 <= i < |layers| + 1 ensures ShowsAt(layers + [l], f, st + [s], i) {
      if i < |layers| { assert ShowsAt(layers, f, st, i); }
    }
  }

  /** Binds one entry to a layer of its own: a fresh context and a fresh module. */
  method BindLayer(e: LayerEntry, services: Services, registry: Registry, ghost f: Resolver)
    returns (layer: StackLayer)
    requires Binds(e, services, registry)
    ensures fresh(layer.context) && fresh(layer.logic) && layer.context.mServiceName == layer.serviceName
    ensures layer.Shows(f, NewLayer(e, services, registry, f)) && BoundAs(layer, e, services, registry)
  {
    var context := new LayerContext(e.service.value);
    var logic := new LogicModule(KindOf(e, services, registry));
    layer := StackLayer(e.service.value, e.entityName, e.interfaceName, logic, context);
  }

  lemma {:induction false} SetsMore(layers: seq<StackLayer>, l: StackLayer)
    ensures ContextSet(layers + [l]) == ContextSet(layers) + {l.context}
    ensures ModuleSet(layers + [l]) == ModuleSet(layers) + {l.logic}
  {
    var all := layers + [l];
    assert all[|layers|] == l;
    assert forall i | 0 <= i < |layers| :: all[i] == layers[i];
  }

  /** Binds one more entry. */
  method BindNext(bound: Stack, e: LayerEntry, services: Services, registry: Registry, ghost f: Resolver,
                  ghost st: StackState, ghost entries: seq<LayerEntry>)
    requires Binds(e, services, registry) && Owned(bound.mLayers) && bound.Shows(f, st)
    requires AllBoundAs(bound.mLayers, entries, services, registry)
    requires |st| < |entries| && entries[|st|] == e
    modifies bound
    ensures Owned(bound.mLayers) && bound.Shows(f, st + [NewLayer(e, services, registry, f)])
    ensures AllBoundAs(bound.mLayers, entries, services, registry)
    ensures fresh(ContextSet(bound.mLayers) - ContextSet(old(bound.mLayers)))
    ensures fresh(ModuleSet(bound.mLayers) - ModuleSet(old(bound.mLayers)))
  {
    var layer := BindLayer(e, services, registry, f);
    OwnedMore(bound.mLayers, layer);
    ShowsMore(bound.mLayers, layer, f, st, NewLayer(e, services, registry, f));
    SetsMore(bound.mLayers, layer);
    BoundMore(bound.mLayers, layer, entries, services, registry);
    bound.AddLayer(layer);
  }

  /** How binding the entries ends: with all bound, or with the first that does not bind. */
  predicate Outcome(entries: seq<LayerEntry>, services: Services, registry: Registry, status: BuildStatus) {
    if status == StackSuccess then AllBind(entries, services, registry)
    else exists i: nat | i < |entries| :: FirstBad(entries, services, registry, i)
                                         && status == EntryStatus(entries[i], services, registry)
  }

  /** Binds the entries to an empty stack, bottom-up. */
  method BindAll(bound: Stack, entries: seq<LayerEntry>, services: Services, registry: Registry, ghost f: Resolver)
    returns (status: BuildStatus)
    requires bound.mLayers == []
    modifies bound
    ensures Outcome(entries, services, registry, status)
    ensures fresh(ContextSet(bound.mLayers)) && fresh(ModuleSet(bound.mLayers)) && Owned(bound.mLayers)
    ensures AllBoundAs(bound.mLayers, entries, services, registry)
    ensures status == StackSuccess ==> bound.Shows(f, NewStack(entries, services, registry, f))
  {
    ghost var st: StackState := [];
    for i := 0 to |entries|
      invariant AllBind(entries[..i], services, registry) && st == NewStack(entries[..i], services, registry, f)
      invariant fresh(ContextSet(bound.mLayers)) && fresh(ModuleSet(bound.mLayers))
      invariant Owned(bound.mLayers) && bound.Shows(f, st) && AllBoundAs(bound.mLayers, entries, services, registry)
    {
      status := EntryStatus(entries[i], services, registry);
      if status != StackSuccess {
        assert FirstBad(entries, services, registry, i);
        return status;
      }
      BindNext(bound, entries[i], services, registry, f, st, entries);
      NewStackMore(entries, i, services, registry, f);
      st := st + [NewLayer(entries[i], services, registry, f)];
    }
    assert entries[..|entries|] == entries;
    return StackSuccess;
  }

  /** Binds all entries and wires the contexts; an entry that does not bind leaves no stack. */
  method Build(name: string, entries: seq<LayerEntry>, services: Services, registry: Registry, ghost f: Resolver)
    returns (status: BuildStatus, stack: Stack?)
    ensures Outcome(entries, services, registry, status) && (status == StackSuccess <==> stack != null)
    ensures status == StackSuccess <==> AllBind(entries, services, registry)
    ensures stack != null ==>
              && fresh(stack) && fresh(ContextSet(stack.mLayers)) && fresh(ModuleSet(stack.mLayers))
              && stack.mName == name && stack.Valid() && stack.Shows(f, NewStack(entries, services, registry, f))
              && |stack.mLayers| == |entries| && AllBoundAs(stack.mLayers, entries, services, registry)
  {
    var bound := new Stack(name);
    status := BindAll(bound, entries, services, registry, f);
    if status != StackSuccess { return status, null; }
    bound.WireAdjacency();
    return status, bound;
  }
}
