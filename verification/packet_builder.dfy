/** PacketBuilder: draws a value for every field of an interface and packs them. */
module PacketBuilding {
  import opened Bits
  import opened Packing
  import opened FieldCodec
  import opened Layout

  /** The raw outputs of the random engine, one per call of a distribution. */
  type Draws = nat -> nat

  /** The outcome of a uniform distribution on [lo, hi] for the raw draw r: every value has a draw. */
  function Uniform(lo: nat, hi: nat, r: nat): (d: nat)
    requires lo <= hi
    ensures lo <= d <= hi
    ensures r <= hi - lo ==> d == lo + r
  {
    if r <= hi - lo then lo + r else lo + r % (hi - lo + 1)
  }

  function MaxValue(size: nat): u64 {
    Pow2Word();
    Pow2Mono(Min(size, 64), 64);
    if size >= 64 then 0xFFFF_FFFF_FFFF_FFFF else Pow2(size) - 1
  }

  function Lo(r: Range): u64 { if r.min <= r.max then r.min else r.max }

  function Hi(r: Range): u64 { if r.min <= r.max then r.max else r.min }

  function Masked(v: Var, value: u64): u64 {
    if v.HasMask() then And(value, v.mask) else value
  }

  /** The value picked for a var from one raw draw. */
  function Pick(v: Var, r: nat): u64 {
    if v.expected != [] then v.expected[Uniform(0, |v.expected| - 1, r)]
    else if v.range.Some? then Uniform(Lo(v.range.value), Hi(v.range.value), r)
    else if v.size == 0 then 0
    else Masked(v, Uniform(0, MaxValue(v.size), r))
  }

  /** Raw draws one pick uses up. */
  function Used(v: Var): nat {
    if v.expected == [] && v.range.None? && v.size == 0 then 0 else 1
  }

  /** The constraint a var puts on its values: a set, else a range in either bound order, else width and mask. */
  predicate Satisfies(v: Var, x: u64) {
    if v.expected != [] then x in v.expected
    else if v.range.Some? then Lo(v.range.value) <= x <= Hi(v.range.value)
    else if v.size == 0 then x == 0
    else x <= MaxValue(v.size) && (v.HasMask() ==> And(x, v.mask) == x)
  }

  lemma {:induction false} AndIdempotent(a: nat, m: nat)
    ensures And(And(a, m), m) == And(a, m)
  {
    if a != 0 && m != 0 {
      AndIdempotent(a / 2, m / 2);
      assert And(a, m) / 2 == And(a / 2, m / 2);
      if And(a, m) != 0 { assert And(a, m) % 2 == 1 ==> m % 2 == 1; }
    }
  }

  /** A var's picks are exactly the values its constraint admits. */
  lemma {:induction false} PickedIffSatisfies(v: Var, x: u64)
    ensures (exists r: nat :: Pick(v, r) == x) <==> Satisfies(v, x)
  {
    forall r: nat ensures Satisfies(v, Pick(v, r)) {
      if v.HasMask() && v.expected == [] && v.range.None? && v.size != 0 {
        AndIdempotent(Uniform(0, MaxValue(v.size), r), v.mask);
      }
    }
    if Satisfies(v, x) {
      if v.expected != [] {
        var i :| 0 <= i < |v.expected| && v.expected[i] == x;
        assert Pick(v, i) == x;
      } else if v.range.Some? {
        assert Pick(v, x - Lo(v.range.value)) == x;
      } else {
        assert Pick(v, x) == x;
      }
    }
  }

  lemma {:induction false} MaxValueIs(size: nat)
    ensures MaxValue(size) == Pow2(if size < 64 then size else 64) - 1
  {
    Pow2Word();
  }

  /** The same in plain numbers. */
  lemma {:induction false} PickedValues(v: Var, x: u64)
    ensures (exists r: nat :: Pick(v, r) == x) <==>
            if v.expected != [] then x in v.expected
            else if v.range.Some?
            then v.range.value.min <= x <= v.range.value.max || v.range.value.max <= x <= v.range.value.min
            else if v.size == 0 then x == 0
            else x < Pow2(if v.size < 64 then v.size else 64) && (v.mask != 0 ==> And(x, v.mask) == x)
  {
    PickedIffSatisfies(v, x);
    MaxValueIs(v.size);
  }

  /** An override supplies the field: nothing but a non-empty expected list blocks it. */
  predicate Overridden(s: Slot, ov: map<string, u64>) {
    s.v.expected == [] && s.name in ov
  }

  /** The field built next for slot s, and the engine position after it. */
  function Next(s: Slot, ov: map<string, u64>, draws: Draws, p: nat): (FieldValue, nat) {
    if Overridden(s, ov) then (FieldValue(s.name, Masked(s.v, ov[s.name])), p)
    else (FieldValue(s.name, Pick(s.v, draws(p))), p + 1)
  }

  /** The fields built for a layout, and the position of the random engine afterwards. */
  function Filled(slots: seq<Slot>, ov: map<string, u64>, draws: Draws, pos: nat): (r: (seq<FieldValue>, nat))
    ensures |r.0| == |slots|
  {
    if slots == [] then ([], pos)
    else
      var s := slots[|slots| - 1];
      var (fields, p) := Filled(slots[..|slots| - 1], ov, draws, pos);
      var (f, p') := Next(s, ov, draws, p);
      (fields + [f], p')
  }

  function Built(slots: seq<Slot>, ov: map<string, u64>, draws: Draws, pos: nat): BuiltPacket {
    var fields := Filled(slots, ov, draws, pos).0;
    BuiltPacket(Packed(Widths(slots), Vals(fields)), fields)
  }

  /** One turn of a build loop: append the next field's value and bits. */
  lemma {:induction false} BuildStep(slots: seq<Slot>, s: Slot, ov: map<string, u64>, draws: Draws, pos: nat,
                                     f: FieldValue, buf: seq<byte>)
    requires f == Next(s, ov, draws, Filled(slots, ov, draws, pos).1).0
    requires OredIn(Built(slots, ov, draws, pos).bytes, Sum(Widths(slots)), f.value, s.v.size, buf)
    ensures Built(slots + [s], ov, draws, pos) == BuiltPacket(buf, Built(slots, ov, draws, pos).fields + [f])
    ensures Filled(slots + [s], ov, draws, pos).1 == Next(s, ov, draws, Filled(slots, ov, draws, pos).1).1
    ensures Sum(Widths(slots + [s])) == Sum(Widths(slots)) + s.v.size
  {
    var fields := Filled(slots, ov, draws, pos).0;
    var ws, vs := Widths(slots), Vals(fields);
    assert (slots + [s])[..|slots|] == slots;
    AppendPacks(PackedBits(ws, vs), f.value, s.v.size, buf);
    WidthsStep(slots, s);
    assert (fields + [f])[..|fields|] == fields;
    assert (ws + [s.v.size])[..|ws|] == ws && (vs + [f.value])[..|vs|] == vs;
  }

  /** Without overrides, field i is picked from the i-th draw. */
  lemma {:induction false} FilledFresh(slots: seq<Slot>, draws: Draws, pos: nat, i: nat)
    requires i < |slots|
    ensures Filled(slots, map[], draws, pos).1 == pos + |slots|
    ensures Filled(slots, map[], draws, pos).0[i].value == Pick(slots[i].v, draws(pos + i))
  {
    var n := |slots| - 1;
    if n > 0 { FilledFresh(slots[..n], draws, pos, if i < n then i else 0); }
  }

  /** How many of the first i fields are drawn rather than overridden. */
  function DrawnBefore(slots: seq<Slot>, ov: map<string, u64>, i: nat): nat
    requires i <= |slots|
  {
    if i == 0 then 0
    else
      var s := slots[i - 1];
      DrawnBefore(slots, ov, i - 1) + if s.v.expected == [] && s.name in ov then 0 else 1
  }

  lemma {:induction false} DrawnFront(slots: seq<Slot>, n: nat, ov: map<string, u64>, i: nat)
    requires i <= n <= |slots|
    ensures DrawnBefore(slots[..n], ov, i) == DrawnBefore(slots, ov, i)
  {
    if i > 0 { DrawnFront(slots, n, ov, i - 1); }
  }

  /** Every field that is not overridden uses up one draw. */
  lemma {:induction false} FilledPos(slots: seq<Slot>, ov: map<string, u64>, draws: Draws, pos: nat)
    ensures Filled(slots, ov, draws, pos).1 == pos + DrawnBefore(slots, ov, |slots|)
  {
    if slots != [] {
      var n := |slots| - 1;
      FilledPos(slots[..n], ov, draws, pos);
      DrawnFront(slots, n, ov, n);
    }
  }

  lemma {:induction false} FilledField(slots: seq<Slot>, ov: map<string, u64>, draws: Draws, pos: nat, i: nat)
    requires i < |slots|
    ensures Filled(slots, ov, draws, pos).0[i] == Next(slots[i], ov, draws, Filled(slots[..i], ov, draws, pos).1).0
  {
    var n := |slots| - 1;
    if i < n {
      FilledField(slots[..n], ov, draws, pos, i);
      assert slots[..n][..i] == slots[..i];
    }
  }

  /** What is built, field by field: the layout's names; an override, cut by a mask that is not 0, unless the field has
      expected values; else a pick from the next draw not yet used. */
  lemma {:induction false} FieldBuilt(slots: seq<Slot>, ov: map<string, u64>, draws: Draws, pos: nat, i: nat)
    requires i < |slots|
    ensures var s, f := slots[i], Filled(slots, ov, draws, pos).0[i];
            && f.name == s.name
            && f.value == if s.v.expected != [] || s.name !in ov then Pick(s.v, draws(pos + DrawnBefore(slots, ov, i)))
                          else if s.v.mask == 0 then ov[s.name] else And(ov[s.name], s.v.mask)
  {
    FilledField(slots, ov, draws, pos, i);
    FilledPos(slots[..i], ov, draws, pos);
    DrawnFront(slots, i, ov, i);
  }

  lemma {:induction false} FreshPos(slots: seq<Slot>, draws: Draws, pos: nat)
    ensures Filled(slots, map[], draws, pos).1 == pos + |slots|
  {
    if slots != [] { FilledFresh(slots, draws, pos, 0); }
  }

  lemma {:induction false} BuildNone(ov: map<string, u64>, draws: Draws, pos: nat)
    ensures Built([], ov, draws, pos) == BuiltPacket([], []) && Filled([], ov, draws, pos) == ([], pos)
    ensures Sum(Widths([])) == 0
  {
  }

  /** The body of a build loop once the value is chosen: append its bits and its name. */
  method AppendField(bytes0: seq<byte>, bitOffset0: nat, fields0: seq<FieldValue>, v: Var, f: FieldValue,
                     ghost slots: seq<Slot>, ghost ov: map<string, u64>, ghost draws: Draws, ghost pos: nat)
    returns (bytes: seq<byte>, bitOffset: nat, fields: seq<FieldValue>)
    requires BuiltPacket(bytes0, fields0) == Built(slots, ov, draws, pos) && bitOffset0 == Sum(Widths(slots))
    requires f == Next(Slot(f.name, v), ov, draws, Filled(slots, ov, draws, pos).1).0
    ensures BuiltPacket(bytes, fields) == Built(slots + [Slot(f.name, v)], ov, draws, pos)
    ensures bitOffset == Sum(Widths(slots + [Slot(f.name, v)]))
    ensures Filled(slots + [Slot(f.name, v)], ov, draws, pos).1
         == Next(Slot(f.name, v), ov, draws, Filled(slots, ov, draws, pos).1).1
  {
    bytes, bitOffset := AppendBits(bytes0, bitOffset0, f.value, v.size);
    BuildStep(slots, Slot(f.name, v), ov, draws, pos, f, bytes);
    fields := fields0 + [f];
  }

  class PacketBuilder {
    const draws: Draws
    var pos: nat

    constructor (draws: Draws)
      ensures this.draws == draws && pos == 0
    {
      this.draws := draws;
      pos := 0;
    }

    method PickValue(v: Var) returns (value: u64)
      modifies this`pos
      ensures value == Pick(v, draws(old(pos)))
      ensures pos == old(pos) + Used(v)
    {
      var r := draws(pos);
      if v.expected != [] {
        pos := pos + 1;
        return v.expected[Uniform(0, |v.expected| - 1, r)];
      }
      if v.range.Some? {
        var lo := if v.range.value.min <= v.range.value.max then v.range.value.min else v.range.value.max;
        var hi := if v.range.value.min <= v.range.value.max then v.range.value.max else v.range.value.min;
        pos := pos + 1;
        return Uniform(lo, hi, r);
      }
      if v.size == 0 {
        return 0;
      }
      pos := pos + 1;
      value := Uniform(0, MaxValue(v.size), r);
      if v.HasMask() {
        value := And(value, v.mask);
      }
    }

    /** An expected list wins, then an override by short name, then a free pick. */
    method ValueFor(v: Var, shortName: string, overrides: map<string, u64>) returns (value: u64)
      requires v.size > 0
      modifies this`pos
      ensures (FieldValue(shortName, value), pos) == Next(Slot(shortName, v), overrides, draws, old(pos))
    {
      if v.expected != [] {
        value := PickValue(v);
      } else if shortName in overrides {
        value := overrides[shortName];
        if v.HasMask() {
          value := And(value, v.mask);
        }
      } else {
        value := PickValue(v);
      }
    }

    method BuildWithOverrides(iface: ProtocolInterface, db: VarDb, overrides: map<string, u64>)
      returns (result: BuiltPacket)
      modifies this`pos
      ensures result == Built(Slots(iface.varRefs, db), overrides, draws, old(pos))
      ensures pos == Filled(Slots(iface.varRefs, db), overrides, draws, old(pos)).1
    {
      var refs := iface.varRefs;
      var bytes: seq<byte>, fields: seq<FieldValue>, bitOffset := [], [], 0;
      ghost var slots: seq<Slot> := [];
      BuildNone(overrides, draws, pos);
      for k := 0 to |refs|
        invariant slots == SlotsTo(refs, k, db)
        invariant BuiltPacket(bytes, fields) == Built(slots, overrides, draws, old(pos))
        invariant pos == Filled(slots, overrides, draws, old(pos)).1
        invariant bitOffset == Sum(Widths(slots))
      {
        if refs[k] !in db || db[refs[k]].size == 0 {
          continue;
        }
        var v := db[refs[k]];
        var shortName := ShortName(refs[k]);
        var value := ValueFor(v, shortName, overrides);
        bytes, bitOffset, fields := AppendField(bytes, bitOffset, fields, v, FieldValue(shortName, value),
                                                slots, overrides, draws, old(pos));
        slots := slots + [Slot(shortName, v)];
      }
      result := BuiltPacket(bytes, fields);
    }

    /** The body of the loop without overrides: draw the field's value and append it. */
    method AppendDrawn(bytes0: seq<byte>, bitOffset0: nat, fields0: seq<FieldValue>, v: Var, shortName: string,
                       ghost slots: seq<Slot>, ghost pos0: nat)
      returns (bytes: seq<byte>, bitOffset: nat, fields: seq<FieldValue>)
      requires BuiltPacket(bytes0, fields0) == Built(slots, map[], draws, pos0) && bitOffset0 == Sum(Widths(slots))
      requires v.size > 0 && pos == Filled(slots, map[], draws, pos0).1
      modifies this`pos
      ensures BuiltPacket(bytes, fields) == Built(slots + [Slot(shortName, v)], map[], draws, pos0)
      ensures bitOffset == Sum(Widths(slots + [Slot(shortName, v)]))
      ensures pos == Filled(slots + [Slot(shortName, v)], map[], draws, pos0).1
    {
      var value := PickValue(v);
      bytes, bitOffset, fields := AppendField(bytes0, bitOffset0, fields0, v, FieldValue(shortName, value),
                                              slots, map[], draws, pos0);
    }

    method BuildWithFields(iface: ProtocolInterface, db: VarDb) returns (result: BuiltPacket)
      modifies this`pos
      ensures result == Built(Slots(iface.varRefs, db), map[], draws, old(pos))
      ensures pos == old(pos) + |Slots(iface.varRefs, db)|
    {
      var refs := iface.varRefs;
      var bytes: seq<byte>, fields: seq<FieldValue>, bitOffset := [], [], 0;
      ghost var slots: seq<Slot> := [];
      BuildNone(map[], draws, pos);
      for k := 0 to |refs|
        invariant slots == SlotsTo(refs, k, db)
        invariant BuiltPacket(bytes, fields) == Built(slots, map[], draws, old(pos))
        invariant pos == Filled(slots, map[], draws, old(pos)).1 && bitOffset == Sum(Widths(slots))
      {
        if refs[k] !in db || db[refs[k]].size == 0 {
          continue;
        }
        var v, shortName := db[refs[k]], ShortName(refs[k]);
        bytes, bitOffset, fields := AppendDrawn(bytes, bitOffset, fields, v, shortName, slots, old(pos));
        slots := slots + [Slot(shortName, v)];
      }
      result := BuiltPacket(bytes, fields);
      FreshPos(slots, draws, old(pos));
    }
  }
}
