/** A bound stack on the heap: layers, their contexts and modules, and the adjacency between contexts. */
module Stacks {
  import opened Layout
  import opened LayerContexts
  import opened LogicModules
  import opened StackCodec

  /** interfaceForLayer: the interface a layer's service, entity and interface names resolve to, if any. */
  type Resolver = (string, string, string) -> Option<ProtocolInterface>

  datatype StackLayer = StackLayer(serviceName: string, entityName: string, interfaceName: string,
                                   logic: LogicModule, context: LayerContext)
  {
    function Interface(f: Resolver): Option<ProtocolInterface> { f(serviceName, entityName, interfaceName) }

    /** The layer on the heap is in this state. */
    ghost predicate Shows(f: Resolver, l: LayerState)
      reads context`mFields, logic
    {
      && l.serviceName == serviceName && l.iface == Interface(f)
      && l.logic == logic.State() && l.fields == context.mFields
    }
  }

  /** The contexts of the first k layers, bottom-up. */
  ghost function ContextsTo(layers: seq<StackLayer>, k: nat): (all: seq<LayerContext>)
    requires k <= |layers|
    ensures |all| == k
  {
    if k == 0 then [] else ContextsTo(layers, k - 1) + [layers[k - 1].context]
  }

  ghost function ContextsOf(layers: seq<StackLayer>): (all: seq<LayerContext>)
    ensures |all| == |layers|
  {
    ContextsTo(layers, |layers|)
  }

  lemma {:induction false} ContextsToAt(layers: seq<StackLayer>, k: nat, i: nat)
    requires i < k <= |layers|
    ensures ContextsTo(layers, k)[i] == layers[i].context
  {
    if i < k - 1 { ContextsToAt(layers, k - 1, i); }
  }

  ghost function ContextSet(layers: seq<StackLayer>): set<LayerContext> {
    set i | 0 <= i < |layers| :: layers[i].context
  }

  ghost function ModuleSet(layers: seq<StackLayer>): set<LogicModule> {
    set i | 0 <= i < |layers| :: layers[i].logic
  }

  ghost predicate Apart(layers: seq<StackLayer>, i: nat, j: nat)
    requires i < |layers| && j < |layers|
  {
    layers[i].context != layers[j].context && layers[i].logic != layers[j].logic
  }

  ghost predicate CarriesName(layers: seq<StackLayer>, i: nat)
    requires i < |layers|
  {
    layers[i].context.mServiceName == layers[i].serviceName
  }

  /** No two layers share a context or a module; each context carries its layer's service name. */
  ghost predicate Owned(layers: seq<StackLayer>) {
    && (forall i, j {:trigger Apart(layers, i, j)} | 0 <= i < j < |layers| :: Apart(layers, i, j))
    && forall i {:trigger CarriesName(layers, i)} | 0 <= i < |layers| :: CarriesName(layers, i)
  }

  ghost predicate ShowsAt(layers: seq<StackLayer>, f: Resolver, st: StackState, i: nat)
    requires i < |layers| == |st|
    reads layers[i].context`mFields, layers[i].logic
  {
    layers[i].Shows(f, st[i])
  }

  ghost predicate AllShow(layers: seq<StackLayer>, f: Resolver, st: StackState)
    reads ContextSet(layers)`mFields, ModuleSet(layers)
  {
    |st| == |layers| && forall i {:trigger ShowsAt(layers, f, st, i)} | 0 <= i < |layers| :: ShowsAt(layers, f, st, i)
  }

  lemma {:induction false} OwnedApart(layers: seq<StackLayer>, i: nat, j: nat)
    requires Owned(layers) && i < |layers| && j < |layers| && i != j
    ensures Apart(layers, i, j)
  {
    assert if i < j then Apart(layers, i, j) else Apart(layers, j, i);
  }

  /** The context of the layer at index j, null outside the stack. */
  ghost function Neighbour(layers: seq<StackLayer>, j: int): LayerContext? {
    if 0 <= j < |layers| then layers[j].context else null
  }

  ghost predicate WiredAt(layers: seq<StackLayer>, j: nat)
    requires j < |layers|
    reads layers[j].context`mUpper, layers[j].context`mLower
  {
    layers[j].context.mUpper == Neighbour(layers, j + 1) && layers[j].context.mLower == Neighbour(layers, j - 1)
  }

  /** Adjacency: each context points to its neighbours; the lowest has no lower, the highest no upper. */
  ghost predicate Wired(layers: seq<StackLayer>)
    reads ContextSet(layers)`mUpper, ContextSet(layers)`mLower
  {
    forall j {:trigger WiredAt(layers, j)} | 0 <= j < |layers| :: WiredAt(layers, j)
  }

  /** The contexts of a wired stack are linked both ways. */
  lemma {:induction false} WiredLinks(layers: seq<StackLayer>)
    requires Wired(layers)
    ensures UpperChain(ContextsOf(layers)) && LowerChain(ContextsOf(layers))
  {
    var all := ContextsOf(layers);
    forall i | 0 <= i < |all| ensures LinkedUp(all, i) && LinkedDown(all, i) {
      assert WiredAt(layers, i);
      ContextsToAt(layers, |layers|, i);
      if i + 1 < |all| { ContextsToAt(layers, |layers|, i + 1); }
      if i > 0 { ContextsToAt(layers, |layers|, i - 1); }
    }
  }

  class Stack {
    const mName: string
    var mLayers: seq<StackLayer>

    constructor (name: string)
      ensures mName == name && mLayers == []
    {
      mName := name;
      mLayers := [];
    }

    method AddLayer(layer: StackLayer)
      modifies this
      ensures mLayers == old(mLayers) + [layer]
    {
      mLayers := mLayers + [layer];
    }

    ghost predicate Valid()
      reads this, ContextSet(mLayers)`mUpper, ContextSet(mLayers)`mLower
    {
      Owned(mLayers) && Wired(mLayers)
    }

    /** The stack on the heap is in this state. */
    ghost predicate Shows(f: Resolver, st: StackState)
      reads this, ContextSet(mLayers)`mFields, ModuleSet(mLayers)
    {
      AllShow(mLayers, f, st)
    }

    method WireAdjacency()
      requires Owned(mLayers)
      modifies ContextSet(mLayers)`mUpper, ContextSet(mLayers)`mLower
      ensures Valid()
    {
      for i := 0 to |mLayers|
        invariant forall j {:trigger WiredAt(mLayers, j)} | 0 <= j < i :: WiredAt(mLayers, j)
      {
        label before:
        var lower: LayerContext? := if i > 0 then mLayers[i - 1].context else null;
        var upper: LayerContext? := if i + 1 < |mLayers| then mLayers[i + 1].context else null;
        mLayers[i].context.SetLower(lower);
        mLayers[i].context.SetUpper(upper);
        forall j | 0 <= j < i ensures WiredAt(mLayers, j) {
          assert old@before(WiredAt(mLayers, j));
          OwnedApart(mLayers, j, i);
        }
      }
    }
  }
}
