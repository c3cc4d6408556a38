/** LayerContext: the ordered, named fields of one layer and its place in the stack. */
module LayerContexts {
  import opened Bits
  import opened Layout

  datatype Field = Field(name: string, value: u64, bits: Width)

  /** Index of the first field of this name at or after i; |fs| when there is none. */
  function FindFrom(fs: seq<Field>, name: string, i: nat): (k: nat)
    requires i <= |fs|
    ensures i <= k <= |fs|
    ensures k < |fs| ==> fs[k].name == name
    decreases |fs| - i
  {
    if i == |fs| || fs[i].name == name then i else FindFrom(fs, name, i + 1)
  }

  function Find(fs: seq<Field>, name: string): nat { FindFrom(fs, name, 0) }

  predicate Has(fs: seq<Field>, name: string) { Find(fs, name) < |fs| }

  function ValueOf(fs: seq<Field>, name: string): Option<u64> {
    if Has(fs, name) then Some(fs[Find(fs, name)].value) else None
  }

  /** The fields after writing a value by name; writing an undeclared name changes nothing. */
  function WithValue(fs: seq<Field>, name: string, value: u64): (r: seq<Field>)
    ensures |r| == |fs|
  {
    if Has(fs, name) then fs[Find(fs, name) := fs[Find(fs, name)].(value := value)] else fs
  }

  /** Bits of the first k fields. */
  function BitsTo(fs: seq<Field>, k: nat): nat
    requires k <= |fs|
  {
    if k == 0 then 0 else BitsTo(fs, k - 1) + fs[k - 1].bits
  }

  function SizeOf(fs: seq<Field>): nat { Octets(BitsTo(fs, |fs|)) }

  /** Bits of the fields strictly after the first field of this name. */
  function BitsAfter(fs: seq<Field>, name: string): nat
    requires Has(fs, name)
  {
    BitsMonotonic(fs, Find(fs, name) + 1, |fs|);
    BitsTo(fs, |fs|) - BitsTo(fs, Find(fs, name) + 1)
  }

  lemma {:induction false} BitsMonotonic(fs: seq<Field>, j: nat, k: nat)
    requires j <= k <= |fs|
    ensures BitsTo(fs, j) <= BitsTo(fs, k)
  {
    if j < k { BitsMonotonic(fs, j, k - 1); }
  }

  /** Same names in the same order with the same widths: only values may differ. */
  predicate SameShape(a: seq<Field>, b: seq<Field>) {
    |a| == |b| && forall i | 0 <= i < |a| :: a[i].name == b[i].name && a[i].bits == b[i].bits
  }

  lemma {:induction false} ShapeBits(a: seq<Field>, b: seq<Field>, k: nat)
    requires SameShape(a, b) && k <= |a|
    ensures BitsTo(a, k) == BitsTo(b, k)
  {
    if k > 0 { ShapeBits(a, b, k - 1); }
  }

  lemma {:induction false} ShapeFind(a: seq<Field>, b: seq<Field>, name: string, i: nat)
    requires SameShape(a, b) && i <= |a|
    ensures FindFrom(a, name, i) == FindFrom(b, name, i)
    decreases |a| - i
  {
    if i < |a| && a[i].name != name { ShapeFind(a, b, name, i + 1); }
  }

  lemma {:induction false} FindFromIsFirst(fs: seq<Field>, name: string, i: nat, k: nat)
    requires i <= k < |fs| && fs[k].name == name
    ensures FindFrom(fs, name, i) <= k
    decreases k - i
  {
    if fs[i].name != name { FindFromIsFirst(fs, name, i + 1, k); }
  }

  /** Field k is the first of this name. */
  predicate FirstOfName(fs: seq<Field>, name: string, k: nat) {
    k < |fs| && fs[k].name == name && forall j | 0 <= j < k :: fs[j].name != name
  }

  /** Reading, writing and measuring by name are about the first field of that name. */
  lemma {:induction false} FirstField(fs: seq<Field>, name: string, k: nat, value: u64)
    requires FirstOfName(fs, name, k)
    ensures Has(fs, name) && Find(fs, name) == k && ValueOf(fs, name) == Some(fs[k].value)
    ensures WithValue(fs, name, value) == fs[k := Field(name, value, fs[k].bits)]
    ensures BitsAfter(fs, name) == BitsTo(fs[k + 1..], |fs| - k - 1)
  {
    FindFromIsFirst(fs, name, 0, k);
    BitsBehind(fs, k + 1, |fs|);
  }

  lemma {:induction false} BitsBehind(fs: seq<Field>, j: nat, k: nat)
    requires j <= k <= |fs|
    ensures BitsTo(fs[j..], k - j) == BitsTo(fs, k) - BitsTo(fs, j)
  {
    if j < k { BitsBehind(fs, j, k - 1); }
  }

  /** Without a field of the name there is nothing to read, and writing changes nothing. */
  lemma {:induction false} NoField(fs: seq<Field>, name: string, value: u64)
    requires forall j | 0 <= j < |fs| :: fs[j].name != name
    ensures !Has(fs, name) && ValueOf(fs, name) == None && WithValue(fs, name, value) == fs
  {
  }

  /** Summed packed size of the layers from index j up. */
  function SizeFrom(fss: seq<seq<Field>>, j: nat): nat
    requires j <= |fss|
    decreases |fss| - j
  {
    if j == |fss| then 0 else SizeOf(fss[j]) + SizeFrom(fss, j + 1)
  }

  class LayerContext {
    const mServiceName: string
    var mUpper: LayerContext?
    var mLower: LayerContext?
    var mFields: seq<Field>

    constructor (serviceName: string)
      ensures mServiceName == serviceName && mUpper == null && mLower == null && mFields == []
    {
      mServiceName := serviceName;
      mUpper, mLower, mFields := null, null, [];
    }

    method SetUpper(u: LayerContext?)
      modifies this`mUpper
      ensures mUpper == u
    {
      mUpper := u;
    }

    method SetLower(l: LayerContext?)
      modifies this`mLower
      ensures mLower == l
    {
      mLower := l;
    }

    method AddField(name: string, value: u64, bits: Width)
      modifies this`mFields
      ensures mFields == old(mFields) + [Field(name, value, bits)]
    {
      mFields := mFields + [Field(name, value, bits)];
    }

    method ClearFields()
      modifies this`mFields
      ensures mFields == []
    {
      mFields := [];
    }

    method GetValue(name: string) returns (out: Option<u64>)
      ensures out == ValueOf(mFields, name)
    {
      for i := 0 to |mFields|
        invariant FindFrom(mFields, name, 0) == FindFrom(mFields, name, i)
      {
        if mFields[i].name == name {
          return Some(mFields[i].value);
        }
      }
      return None;
    }

    method SetValue(name: string, value: u64) returns (ok: bool)
      modifies this`mFields
      ensures mFields == WithValue(old(mFields), name, value)
      ensures ok == Has(old(mFields), name)
    {
      for i := 0 to |mFields|
        invariant mFields == old(mFields)
        invariant FindFrom(mFields, name, 0) == FindFrom(mFields, name, i)
      {
        if mFields[i].name == name {
          mFields := mFields[i := mFields[i].(value := value)];
          return true;
        }
      }
      return false;
    }

    method ByteSize() returns (n: nat)
      ensures n == SizeOf(mFields)
    {
      var bits := 0;
      for i := 0 to |mFields|
        invariant bits == BitsTo(mFields, i)
      {
        bits := bits + mFields[i].bits;
      }
      n := (bits + 7) / 8;
    }

    method BytesAfter(name: string) returns (outBytes: Option<nat>)
      ensures outBytes == if Has(mFields, name) then Some(Octets(BitsAfter(mFields, name))) else None
    {
      var bits, seen := 0, false;
      for i := 0 to |mFields|
        invariant if seen then Find(mFields, name) < i else Find(mFields, name) == FindFrom(mFields, name, i)
        invariant bits >= 0
        invariant bits == if seen then BitsTo(mFields, i) - BitsTo(mFields, Find(mFields, name) + 1) else 0
      {
        if seen {
          bits := bits + mFields[i].bits;
        } else if mFields[i].name == name {
          seen := true;
        }
      }
      if !seen {
        return None;
      }
      var n: nat := (bits + 7) / 8;
      return Some(n);
    }

    /** Walks the upper chain. `all` are the contexts of the stack, bottom-up; this one is all[i]. */
    method BytesAbove(ghost all: seq<LayerContext>, ghost i: nat) returns (total: nat)
      requires i < |all| && this == all[i] && UpperChain(all)
      ensures total == SizeFrom(FieldsOf(all), i + 1)
    {
      total := 0;
      assert LinkedUp(all, i);
      var u := mUpper;
      ghost var j := i + 1;
      while u != null
        invariant i < j <= |all|
        invariant u == ContextAt(all, j)
        invariant total + SizeFrom(FieldsOf(all), j) == SizeFrom(FieldsOf(all), i + 1)
        decreases |all| - j
      {
        var size := u.ByteSize();
        total := total + size;
        assert LinkedUp(all, j);
        u := u.mUpper;
        j := j + 1;
      }
    }
  }

  /** The context at index j, null outside the stack. */
  ghost function ContextAt(all: seq<LayerContext>, j: int): LayerContext? {
    if 0 <= j < |all| then all[j] else null
  }

  ghost predicate LinkedUp(all: seq<LayerContext>, i: nat)
    requires i < |all|
    reads {all[i]}`mUpper
  {
    all[i].mUpper == ContextAt(all, i + 1)
  }

  ghost predicate LinkedDown(all: seq<LayerContext>, i: nat)
    requires i < |all|
    reads {all[i]}`mLower
  {
    all[i].mLower == ContextAt(all, i - 1)
  }

  /** Each context's upper pointer leads to the next one; the last one's is null. */
  ghost predicate UpperChain(all: seq<LayerContext>)
    reads set i | 0 <= i < |all| :: all[i]`mUpper
  {
    forall i {:trigger LinkedUp(all, i)} | 0 <= i < |all| :: LinkedUp(all, i)
  }

  /** Each context's lower pointer leads to the previous one; the first one's is null. */
  ghost predicate LowerChain(all: seq<LayerContext>)
    reads set i | 0 <= i < |all| :: all[i]`mLower
  {
    forall i {:trigger LinkedDown(all, i)} | 0 <= i < |all| :: LinkedDown(all, i)
  }

  ghost function FieldsOf(all: seq<LayerContext>): (fss: seq<seq<Field>>)
    reads set i | 0 <= i < |all| :: all[i]`mFields
    ensures |fss| == |all|
    ensures forall i | 0 <= i < |all| :: fss[i] == all[i].mFields
  {
    if all == [] then [] else FieldsOf(all[..|all| - 1]) + [all[|all| - 1].mFields]
  }

  /** The context reached from c by following k upper pointers. */
  ghost function Climb(all: seq<LayerContext>, c: LayerContext?, k: nat): LayerContext?
    reads set i | 0 <= i < |all| :: all[i]`mUpper
  {
    if k == 0 || c == null || c !in all then c else Climb(all, c.mUpper, k - 1)
  }

  /** From context i the upper chain visits exactly the contexts above, in order, and ends. */
  lemma {:induction false} ChainVisits(all: seq<LayerContext>, i: nat, k: nat)
    requires UpperChain(all)
    ensures Climb(all, ContextAt(all, i), k) == ContextAt(all, i + k)
    decreases k
  {
    if k > 0 && i < |all| {
      assert LinkedUp(all, i);
      ChainVisits(all, i + 1, k - 1);
    }
  }

  /** lower inverts upper. */
  lemma {:induction false} LowerInverts(all: seq<LayerContext>, i: nat)
    requires UpperChain(all) && LowerChain(all) && i + 1 < |all|
    ensures all[i].mUpper == all[i + 1] && all[i + 1].mLower == all[i]
  {
    assert LinkedUp(all, i) && LinkedDown(all, i + 1);
  }
}
