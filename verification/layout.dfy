/** What a protocol description gives the codec: vars, interfaces and the layout they define. */
module Layout {
  import opened Bits
  import opened Sequences
  import opened FieldCodec

  datatype Option<T> = None | Some(value: T)

  datatype Range = Range(min: u64, max: u64)

  /** A declared field: its width in bits and its value constraints. A zero mask means no mask. */
  datatype Var = Var(size: Width, expected: seq<u64>, range: Option<Range>, mask: u64) {
    predicate HasMask() { mask != 0 }
  }

  type VarDb = map<string, Var>

  datatype ProtocolInterface = ProtocolInterface(name: string, varRefs: seq<string>)

  /** A generated or decoded field, by short name. */
  datatype FieldValue = FieldValue(name: string, value: u64)

  datatype BuiltPacket = BuiltPacket(bytes: seq<byte>, fields: seq<FieldValue>)

  /** Index of the last "::" that starts before n, or -1. */
  function RFindScope(s: string, n: nat): (p: int)
    requires n < |s| || n == 0
    ensures -1 <= p < n
    ensures p >= 0 ==> p + 1 < |s| && s[p] == ':' && s[p + 1] == ':'
  {
    if n == 0 then -1
    else if s[n - 1] == ':' && s[n] == ':' then n - 1
    else RFindScope(s, n - 1)
  }

  /** The part of a qualified name after its last "::". */
  function ShortName(ref: string): string {
    var p := RFindScope(ref, if |ref| == 0 then 0 else |ref| - 1);
    if p >= 0 then ref[p + 2..] else ref
  }

  /** One field of a resolved layout. */
  datatype Slot = Slot(name: string, v: Var)

  /** The reference resolves to a var that takes room on the wire. */
  predicate TakesRoom(ref: string, db: VarDb) {
    ref in db && db[ref].size != 0
  }

  /** The fields of the first k references in wire order; unresolved and empty references are skipped. */
  function SlotsTo(refs: seq<string>, k: nat, db: VarDb): seq<Slot>
    requires k <= |refs|
  {
    if k == 0 then []
    else if TakesRoom(refs[k - 1], db) then
      SlotsTo(refs, k - 1, db) + [Slot(ShortName(refs[k - 1]), db[refs[k - 1]])]
    else SlotsTo(refs, k - 1, db)
  }

  function Slots(refs: seq<string>, db: VarDb): seq<Slot> { SlotsTo(refs, |refs|, db) }

  function Widths(slots: seq<Slot>): (ws: seq<Width>)
    ensures |ws| == |slots|
  {
    if slots == [] then [] else Widths(slots[..|slots| - 1]) + [slots[|slots| - 1].v.size]
  }

  /** Octets the layout occupies. */
  function LayoutOctets(slots: seq<Slot>): nat { Octets(Sum(Widths(slots))) }

  function Vals(fields: seq<FieldValue>): (vs: seq<u64>)
    ensures |vs| == |fields|
  {
    if fields == [] then [] else Vals(fields[..|fields| - 1]) + [fields[|fields| - 1].value]
  }

  function Named(slots: seq<Slot>, vs: seq<u64>): (fields: seq<FieldValue>)
    requires |slots| == |vs|
    ensures |fields| == |slots|
  {
    if slots == [] then []
    else Named(slots[..|slots| - 1], vs[..|vs| - 1]) + [FieldValue(slots[|slots| - 1].name, vs[|vs| - 1])]
  }

  lemma {:induction false} WidthsStep(slots: seq<Slot>, s: Slot)
    ensures Widths(slots + [s]) == Widths(slots) + [s.v.size]
    ensures Sum(Widths(slots + [s])) == Sum(Widths(slots)) + s.v.size
  {
    assert (slots + [s])[..|slots|] == slots;
    assert (Widths(slots) + [s.v.size])[..|slots|] == Widths(slots);
  }

  /* ---------------- which references a layout consists of ---------------- */

  lemma {:induction false} LastScope(s: string, n: nat, p: nat)
    requires p < n < |s| && s[p] == ':' && s[p + 1] == ':'
    ensures RFindScope(s, n) >= p
  {
    if s[n - 1] != ':' || s[n] != ':' { LastScope(s, n - 1, p); }
  }

  /** The short name is what follows the last "::". */
  lemma {:induction false} ShortNameIs(ref: string, p: nat)
    requires p + 1 < |ref| && ref[p] == ':' && ref[p + 1] == ':'
    requires forall q | p < q < |ref| - 1 :: ref[q] != ':' || ref[q + 1] != ':'
    ensures ShortName(ref) == ref[p + 2..]
  {
    LastScope(ref, |ref| - 1, p);
  }

  /** Without one it is the whole name. */
  lemma {:induction false} ShortNameWhole(ref: string)
    requires forall q | 0 <= q < |ref| - 1 :: ref[q] != ':' || ref[q + 1] != ':'
    ensures ShortName(ref) == ref
  {
  }

  /** The field stands for reference j. */
  predicate StandsFor(s: Slot, refs: seq<string>, db: VarDb, j: nat) {
    j < |refs| && refs[j] in db && db[refs[j]].size > 0 && s == Slot(ShortName(refs[j]), db[refs[j]])
  }

  /** The fields stand for these references of the first k, in order. */
  predicate FromRefs(slots: seq<Slot>, refs: seq<string>, k: nat, db: VarDb, at: seq<nat>) {
    && |at| == |slots| && Increasing(at, k)
    && forall i {:trigger StandsFor(slots[i], refs, db, at[i])} | 0 <= i < |at| :: StandsFor(slots[i], refs, db, at[i])
  }

  lemma {:induction false} FromRefsMore(slots: seq<Slot>, refs: seq<string>, k: nat, db: VarDb, at: seq<nat>, s: Slot)
    requires FromRefs(slots, refs, k, db, at) && StandsFor(s, refs, db, k)
    ensures FromRefs(slots + [s], refs, k + 1, db, at + [k])
  {
    forall i | 0 <= i <= |at| ensures StandsFor((slots + [s])[i], refs, db, (at + [k])[i]) {
      if i < |at| { assert StandsFor(slots[i], refs, db, at[i]); }
    }
  }

  lemma {:induction false} SlotsToFrom(refs: seq<string>, k: nat, db: VarDb) returns (at: seq<nat>)
    requires k <= |refs|
    ensures FromRefs(SlotsTo(refs, k, db), refs, k, db, at)
    ensures forall j | 0 <= j < k && refs[j] in db && db[refs[j]].size > 0 :: j in at
  {
    if k == 0 {
      at := [];
    } else {
      var at0 := SlotsToFrom(refs, k - 1, db);
      at := at0;
      if refs[k - 1] in db && db[refs[k - 1]].size > 0 {
        at := at0 + [k - 1];
        FromRefsMore(SlotsTo(refs, k - 1, db), refs, k - 1, db, at0, Slot(ShortName(refs[k - 1]), db[refs[k - 1]]));
      }
    }
  }

  /** A layout has one field for every reference that resolves to a var with a width, in the order of the references,
      named after the last part of its name. */
  lemma {:induction false} SlotsFromRefs(refs: seq<string>, db: VarDb) returns (at: seq<nat>)
    ensures FromRefs(Slots(refs, db), refs, |refs|, db, at)
    ensures forall j | 0 <= j < |refs| && refs[j] in db && db[refs[j]].size > 0 :: j in at
  {
    at := SlotsToFrom(refs, |refs|, db);
  }

  /** The bits of those of the first k references that resolve. */
  function RefBits(refs: seq<string>, k: nat, db: VarDb): nat
    requires k <= |refs|
  {
    if k == 0 then 0 else RefBits(refs, k - 1, db) + if refs[k - 1] in db then db[refs[k - 1]].size else 0
  }

  lemma {:induction false} LayoutBits(refs: seq<string>, k: nat, db: VarDb)
    requires k <= |refs|
    ensures Sum(Widths(SlotsTo(refs, k, db))) == RefBits(refs, k, db)
  {
    if k > 0 {
      LayoutBits(refs, k - 1, db);
      if refs[k - 1] in db { WidthsStep(SlotsTo(refs, k - 1, db), Slot(ShortName(refs[k - 1]), db[refs[k - 1]])); }
    }
  }
}
