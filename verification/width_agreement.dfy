/** When exactly loading a context by short name keeps the codec's round trip. */
module WidthAgreement {
  import opened Bits
  import opened Sequences
  import opened Packing
  import opened FieldCodec
  import opened Layout
  import opened PacketDecoding
  import opened LayerContexts
  import opened StackCodec
  import opened StackLaws

  /** The context loaded with these values for the layout's fields, in order. */
  function LoadedWith(refs: seq<string>, db: VarDb, vs: seq<u64>): seq<Field>
    requires |vs| == |Slots(refs, db)|
  {
    PopulatedTo(refs, db, Named(Slots(refs, db), vs), |vs|)
  }

  /** Load, pack, decode reports every field modulo 2^min(declared width, 64), whatever the values. */
  ghost predicate RoundTrips(refs: seq<string>, db: VarDb) {
    var slots := Slots(refs, db);
    forall vs: seq<u64> | |vs| == |slots| ::
      Decoded(slots, LayerBytesOf(LoadedWith(refs, db, vs)), 0).fields == Named(slots, AllOnWire(Widths(slots), vs))
  }

  lemma {:induction false} NamesOfNamed(slots: seq<Slot>, vs: seq<u64>)
    requires |slots| == |vs|
    ensures Names(slots, Named(slots, vs))
  {
    forall i | 0 <= i < |slots| ensures Named(slots, vs)[i].name == slots[i].name {
      NamedAt(slots, vs, i);
    }
  }

  lemma {:induction false} AgreementSuffices(refs: seq<string>, db: VarDb, vs: seq<u64>)
    requires WidthsAgree(refs, db) && |vs| == |Slots(refs, db)|
    ensures var slots := Slots(refs, db);
            Decoded(slots, LayerBytesOf(LoadedWith(refs, db, vs)), 0).fields
            == Named(slots, AllOnWire(Widths(slots), vs))
  {
    var slots := Slots(refs, db);
    var fvs := Named(slots, vs);
    var fs := LoadedWith(refs, db, vs);
    NamesOfNamed(slots, vs);
    PopulatedLaidOut(refs, db, fvs);
    PopulatedLayout(refs, db, fvs, |fvs|);
    LayerRoundTrip(fs, slots, [], []);
    assert [] + LayerBytesOf(fs) + [] == LayerBytesOf(fs);
    var expected := Named(slots, AllOnWire(Widths(slots), vs));
    forall i | 0 <= i < |slots| ensures WireFields(fs, |fs|)[i] == expected[i] {
      WireFieldsAt(fs, |fs|, i);
      LayoutFieldAt(slots, fvs, |fvs|, i);
      NamedAt(slots, vs, i);
      NamedAt(slots, AllOnWire(Widths(slots), vs), i);
      WidthsAt(slots, i);
    }
  }

  /* ---------------- the other half: a disagreeing width spoils the value 1 ---------------- */

  /** Slot j is the first whose short name leads to another width. */
  predicate SlotFault(refs: seq<string>, db: VarDb, j: nat) {
    j < |Slots(refs, db)| && FoundBelow(refs, db, j) && !WidthFound(refs, db, j)
  }

  function Unit(n: nat, j: nat): (vs: seq<u64>)
    ensures |vs| == n && forall i | 0 <= i < n :: vs[i] == if i == j then 1 else 0
  {
    if n == 0 then [] else Unit(n - 1, j) + [if n - 1 == j then 1 else 0]
  }

  lemma {:induction false} BitOfOne(i: nat)
    ensures Bit(1, i) == if i == 0 then 1 else 0
  {
    if i > 0 { BitZero(i - 1); }
  }

  /** The bit stream of the first k fields. */
  function FieldStream(fs: seq<Field>, k: nat): (bs: seq<bit>)
    requires k <= |fs|
    ensures |bs| == BitsTo(fs, k)
  {
    if k == 0 then [] else FieldStream(fs, k - 1) + ToBits(fs[k - 1].value, fs[k - 1].bits)
  }

  lemma {:induction false} StreamIsPacked(fs: seq<Field>, k: nat)
    requires k <= |fs|
    ensures PackedBits(FieldWidths(fs, k), FieldVals(fs, k)) == FieldStream(fs, k)
  {
    if k > 0 {
      StreamIsPacked(fs, k - 1);
      var ws, vs := FieldWidths(fs, k), FieldVals(fs, k);
      assert ws[..k - 1] == FieldWidths(fs, k - 1) && vs[..k - 1] == FieldVals(fs, k - 1);
    }
  }

  /** Fields that are all 0 but for a 1 at index q give a stream with at most one set bit. */
  lemma {:induction false} OnlyBit(fs: seq<Field>, k: nat, q: nat, x: nat)
    requires k <= |fs| && x < BitsTo(fs, k)
    requires forall i | 0 <= i < |fs| :: fs[i].value == 0 || (i == q && fs[i].value == 1)
    ensures FieldStream(fs, k)[x] == 1 ==> q < k && fs[q].value == 1 && x + 1 == BitsTo(fs, q + 1)
  {
    if x < BitsTo(fs, k - 1) {
      OnlyBit(fs, k - 1, q, x);
    } else {
      BitZero(BitsTo(fs, k) - 1 - x);
      BitOfOne(BitsTo(fs, k) - 1 - x);
    }
  }

  lemma {:induction false} BitsOfPrefix(fs: seq<Field>, more: seq<Field>, k: nat)
    requires k <= |fs|
    ensures BitsTo(fs + more, k) == BitsTo(fs, k)
  {
    if k > 0 { BitsOfPrefix(fs, more, k - 1); }
  }

  lemma {:induction false} SumTo(ws: seq<Width>, k: nat)
    requires k < |ws|
    ensures Sum(ws[..k + 1]) == Sum(ws[..k]) + ws[k]
  {
    assert ws[..k + 1][..k] == ws[..k];
  }

  /** The agreeing slots in front are loaded as the layout declares them. */
  lemma {:induction false} LoadedPrefix(refs: seq<string>, db: VarDb, fvs: seq<FieldValue>, k: nat)
    requires k <= |fvs| && Names(Slots(refs, db), fvs)
    requires FoundBelow(refs, db, k)
    ensures |PopulatedTo(refs, db, fvs, k)| == k
    ensures BitsTo(PopulatedTo(refs, db, fvs, k), k) == Sum(Widths(Slots(refs, db))[..k])
  {
    if k > 0 {
      var slots := Slots(refs, db);
      assert WidthFound(refs, db, k - 1);
      LoadedPrefix(refs, db, fvs, k - 1);
      SlotTakesRoom(refs, db, k - 1);
      assert fvs[k - 1].name == slots[k - 1].name;
      BitsOfPrefix(PopulatedTo(refs, db, fvs, k - 1), [Field(fvs[k - 1].name, fvs[k - 1].value, slots[k - 1].v.size)],
                   k - 1);
      WidthsAt(slots, k - 1);
      SumTo(Widths(slots), k - 1);
    }
  }

  /** Loading more values only appends fields with these values. */
  lemma {:induction false} LoadedRest(refs: seq<string>, db: VarDb, fvs: seq<FieldValue>, j: nat, k: nat)
    returns (rest: seq<Field>)
    requires j <= k <= |fvs|
    requires forall i | j <= i < k :: fvs[i].value == 0
    ensures PopulatedTo(refs, db, fvs, k) == PopulatedTo(refs, db, fvs, j) + rest
    ensures forall i | 0 <= i < |rest| :: rest[i].value == 0
  {
    rest := [];
    if j < k {
      rest := LoadedRest(refs, db, fvs, j, k - 1);
      var bits := WidthOf(refs, db, fvs[k - 1].name);
      if bits != 0 { rest := rest + [Field(fvs[k - 1].name, fvs[k - 1].value, bits)]; }
    }
  }

  lemma {:induction false} UnitAmongZeros(front: seq<Field>, unit: seq<Field>, rest: seq<Field>, bits: Width)
    requires forall i | 0 <= i < |front| :: front[i].value == 0
    requires unit == [] || (|unit| == 1 && unit[0].value == 1 && unit[0].bits == bits)
    requires forall i | 0 <= i < |rest| :: rest[i].value == 0
    ensures var s := front + (unit + rest);
            forall i | 0 <= i < |s| ::
              s[i].value == 0 || (i == |front| && s[i].value == 1 && s[i].bits == bits)
  {
  }

  lemma {:induction false} LoadedNext(refs: seq<string>, db: VarDb, fvs: seq<FieldValue>, j: nat)
    requires j < |fvs|
    ensures var bits := WidthOf(refs, db, fvs[j].name);
            PopulatedTo(refs, db, fvs, j + 1) ==
            PopulatedTo(refs, db, fvs, j) + if bits != 0 then [Field(fvs[j].name, fvs[j].value, bits)] else []
  {
  }

  /** Where loading puts value j among the others. */
  lemma {:induction false} LoadedAround(refs: seq<string>, db: VarDb, fvs: seq<FieldValue>, j: nat)
    returns (unit: seq<Field>, rest: seq<Field>)
    requires j < |fvs| && forall i | j < i < |fvs| :: fvs[i].value == 0
    ensures PopulatedTo(refs, db, fvs, |fvs|) == PopulatedTo(refs, db, fvs, j) + (unit + rest)
    ensures var bits := WidthOf(refs, db, fvs[j].name);
            unit == if bits != 0 then [Field(fvs[j].name, fvs[j].value, bits)] else []
    ensures forall i | 0 <= i < |rest| :: rest[i].value == 0
  {
    var bits := WidthOf(refs, db, fvs[j].name);
    unit := if bits != 0 then [Field(fvs[j].name, fvs[j].value, bits)] else [];
    rest := LoadedRest(refs, db, fvs, j + 1, |fvs|);
    LoadedNext(refs, db, fvs, j);
    Assoc(PopulatedTo(refs, db, fvs, j), unit, rest);
  }

  /** Loading the unit values: the fields before slot j lie where the layout puts them, the 1 is field j with the
      width found for its name (or is dropped), everything else is 0. */
  lemma {:induction false} LoadedUnit(refs: seq<string>, db: VarDb, fvs: seq<FieldValue>, j: nat)
    requires Names(Slots(refs, db), fvs) && j < |fvs|
    requires forall i | 0 <= i < |fvs| :: fvs[i].value == if i == j then 1 else 0
    requires FoundBelow(refs, db, j)
    ensures var s := PopulatedTo(refs, db, fvs, |fvs|);
            && |s| >= j && BitsTo(s, j) == Sum(Widths(Slots(refs, db))[..j])
            && forall i | 0 <= i < |s| ::
                 s[i].value == 0
                 || (i == j && s[i].value == 1 && s[i].bits == WidthOf(refs, db, fvs[j].name))
  {
    LoadedPrefix(refs, db, fvs, j);
    var front := LoadedRest(refs, db, fvs, 0, j);
    assert PopulatedTo(refs, db, fvs, j) == front by { assert [] + front == front; }
    var unit, rest := LoadedAround(refs, db, fvs, j);
    BitsOfPrefix(front, unit + rest, j);
    UnitAmongZeros(front, unit, rest, WidthOf(refs, db, fvs[j].name));
  }

  /** If field j starts at bit p with a width other than w, bit p + w - 1 of the packed unit values is 0. */
  lemma {:induction false} BitMissed(fs: seq<Field>, j: nat, p: nat, w: nat)
    requires w > 0 && j <= |fs| && BitsTo(fs, j) == p
    requires forall i | 0 <= i < |fs| :: fs[i].value == 0 || (i == j && fs[i].value == 1 && fs[i].bits != w)
    ensures BitAt(LayerBytesOf(fs), p + w - 1) == 0
  {
    var x := p + w - 1;
    BitAtToBytes(PackedBits(FieldWidths(fs, |fs|), FieldVals(fs, |fs|)), x);
    StreamIsPacked(fs, |fs|);
    if x < BitsTo(fs, |fs|) {
      OnlyBit(fs, |fs|, j, x);
      assert j < |fs| ==> BitsTo(fs, j + 1) == p + fs[j].bits;
      assert FieldStream(fs, |fs|)[x] == 0;
    }
  }

  lemma {:induction false} ReadEven(ws: seq<Width>, fs: seq<Field>, j: nat)
    requires j < |ws| && ws[j] > 0 && j <= |fs| && BitsTo(fs, j) == Sum(ws[..j])
    requires forall i | 0 <= i < |fs| :: fs[i].value == 0 || (i == j && fs[i].value == 1 && fs[i].bits != ws[j])
    ensures Bit(Values(ws, LayerBytesOf(fs), 0)[j], 0) == 0
  {
    BitMissed(fs, j, Sum(ws[..j]), ws[j]);
    ValuesAt(ws, LayerBytesOf(fs), 0, j);
    BitExtracted(LayerBytesOf(fs), Sum(ws[..j]), ws[j], 0);
  }

  lemma {:induction false} UnitNamed(slots: seq<Slot>, j: nat)
    ensures Names(slots, Named(slots, Unit(|slots|, j)))
    ensures forall i | 0 <= i < |slots| :: Named(slots, Unit(|slots|, j))[i].value == if i == j then 1 else 0
  {
    var vs := Unit(|slots|, j);
    NamesOfNamed(slots, vs);
    forall i | 0 <= i < |slots| ensures Named(slots, vs)[i].value == if i == j then 1 else 0 {
      NamedAt(slots, vs, i);
    }
  }

  /** With every width before slot j agreeing and slot j's not, the value 1 of slot j is read back even. */
  lemma {:induction false} UnitReadEven(refs: seq<string>, db: VarDb, j: nat)
    requires SlotFault(refs, db, j)
    ensures var slots := Slots(refs, db);
            var fs := LoadedWith(refs, db, Unit(|slots|, j));
            Bit(Values(Widths(slots), LayerBytesOf(fs), 0)[j], 0) == 0
  {
    var slots := Slots(refs, db);
    UnitNamed(slots, j);
    LoadedUnit(refs, db, Named(slots, Unit(|slots|, j)), j);
    WidthsAt(slots, j);
    SlotTakesRoom(refs, db, j);
    ReadEven(Widths(slots), LoadedWith(refs, db, Unit(|slots|, j)), j);
  }

  lemma {:induction false} OddOnWire(w: nat)
    requires w > 0
    ensures Bit(OnWire(1, w), 0) == 1
  {
    BitLow(1, Min(w, 64), 0);
  }

  lemma {:induction false} NamedDiffer(slots: seq<Slot>, xs: seq<u64>, ys: seq<u64>, j: nat)
    requires |slots| == |xs| == |ys| && j < |xs| && xs[j] != ys[j]
    ensures Named(slots, xs) != Named(slots, ys)
  {
    NamedAt(slots, xs, j);
    NamedAt(slots, ys, j);
  }

  lemma {:induction false} DisagreementSpoils(refs: seq<string>, db: VarDb, j: nat)
    requires SlotFault(refs, db, j)
    ensures !RoundTrips(refs, db)
  {
    var slots := Slots(refs, db);
    var ws, vs := Widths(slots), Unit(|slots|, j);
    var read := Values(ws, LayerBytesOf(LoadedWith(refs, db, vs)), 0);
    UnitReadEven(refs, db, j);
    assert ws[j] > 0 by {
      WidthsAt(slots, j);
      SlotTakesRoom(refs, db, j);
    }
    OddOnWire(ws[j]);
    NamedDiffer(slots, read, AllOnWire(ws, vs), j);
  }

  lemma {:induction false} FirstDisagreement(refs: seq<string>, db: VarDb, i: nat) returns (j: nat)
    requires !WidthsAgree(refs, db) && FoundBelow(refs, db, i)
    ensures SlotFault(refs, db, j)
    decreases |Slots(refs, db)| - i
  {
    if !WidthFound(refs, db, i) {
      j := i;
    } else {
      j := FirstDisagreement(refs, db, i + 1);
    }
  }

  /** Loading by short name keeps the round trip for all values exactly when every short name leads back to the
      field's own width. Pairwise distinct short names are enough (StackLaws.DistinctNamesAgree). */
  lemma {:induction false} RoundTripsIffWidthsAgree(refs: seq<string>, db: VarDb)
    ensures RoundTrips(refs, db) <==> WidthsAgree(refs, db)
  {
    if WidthsAgree(refs, db) {
      forall vs: seq<u64> | |vs| == |Slots(refs, db)|
        ensures var slots := Slots(refs, db);
                Decoded(slots, LayerBytesOf(LoadedWith(refs, db, vs)), 0).fields
                == Named(slots, AllOnWire(Widths(slots), vs))
      {
        AgreementSuffices(refs, db, vs);
      }
    } else {
      var j := FirstDisagreement(refs, db, 0);
      DisagreementSpoils(refs, db, j);
    }
  }
}
