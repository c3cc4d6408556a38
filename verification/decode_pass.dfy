/** What decoding a generated frame leaves in the contexts and in the logic modules. */
module DecodePassLaws {
  import opened Bits
  import opened FieldCodec
  import opened Layout
  import opened PacketBuilding
  import opened LayerContexts
  import opened LogicModules
  import opened StackCodec
  import opened EncodePassLaws
  import opened StackLaws

  /** got holds the fields of sent as the wire carries them. */
  predicate CarriedOver(got: seq<Field>, sent: seq<Field>) {
    && |got| == |sent|
    && forall k | 0 <= k < |sent| ::
         got[k] == Field(sent[k].name, OnWire(sent[k].value, sent[k].bits), sent[k].bits)
  }

  /** The wire form of the first field of this name. */
  function WireValue(fs: seq<Field>, name: string): u64
    requires Has(fs, name)
  {
    OnWire(fs[Find(fs, name)].value, fs[Find(fs, name)].bits)
  }

  /** What a module that watches this name knows after decoding the fields. */
  function Watched(fs: seq<Field>, name: string, last: u64): u64 {
    if Has(fs, name) then WireValue(fs, name) else last
  }

  lemma {:induction false} CarriedWatched(got: seq<Field>, sent: seq<Field>, name: string, last: u64)
    requires CarriedOver(got, sent)
    ensures Recorded(got, name, last) == Watched(sent, name, last)
  {
    ShapeFind(got, sent, name, 0);
  }

  /** Loading a context from the wire fields of a laid-out one. */
  lemma {:induction false} ReloadCarries(refs: seq<string>, db: VarDb, fs: seq<Field>)
    requires WidthsAgree(refs, db) && LaidOut(fs, Slots(refs, db))
    ensures CarriedOver(PopulatedTo(refs, db, WireFields(fs, |fs|), |fs|), fs)
  {
    var slots, fvs := Slots(refs, db), WireFields(fs, |fs|);
    forall i | 0 <= i < |fs| ensures fvs[i] == FieldValue(fs[i].name, OnWire(fs[i].value, fs[i].bits)) {
      WireFieldsAt(fs, |fs|, i);
    }
    PopulatedLayout(refs, db, fvs, |fvs|);
    forall i | 0 <= i < |fs|
      ensures LayoutFields(slots, fvs, |fvs|)[i] == Field(fs[i].name, OnWire(fs[i].value, fs[i].bits), fs[i].bits)
    {
      LayoutFieldAt(slots, fvs, |fvs|, i);
    }
  }

  /** After decoding a generated frame, on any state of the stack, every context holds the generated fields with each
      value modulo 2^min(width, 64). */
  lemma {:induction false} ContextsCarryOver(st: StackState, other: StackState, db: VarDb, draws: Draws, pos: nat,
                                             i: nat)
    requires Clean(st) && Codable(st, db) && SameBinding(other, st) && i < |st| && st[i].iface.Some?
    ensures var frame := Generated(st, db, draws, pos).bytes;
            && CarriedOver(AfterDecode(other, db, frame)[i].fields, AfterGenerate(st, db, draws, pos)[i].fields)
            && AfterDecode(other, db, frame)[i].logic
                 == other[i].logic.AfterDecode(AfterDecode(other, db, frame)[i].fields)
  {
    var e := AfterGenerate(st, db, draws, pos);
    var frame := Generated(st, db, draws, pos).bytes;
    StackRoundTrip(st, other, db, draws, pos);
    DecodedLayersAt(other, |other|, db, frame, i);
    GeneratedLaidOut(st, db, draws, pos, i);
    ReloadCarries(st[i].iface.value.varRefs, db, e[i].fields);
    DecodedToAt(other, |other|, db, frame, i);
    assert DecodedFrame(other, db, frame).layers[i] == WireLayers(e, |e|)[i];
  }

  /** Each module then remembers, of the field it watches, what the sender put there as the wire carries it. */
  lemma {:induction false} ModulesRemember(st: StackState, other: StackState, db: VarDb, draws: Draws, pos: nat,
                                           i: nat)
    requires Clean(st) && Codable(st, db) && SameBinding(other, st) && i < |st| && st[i].iface.Some?
    ensures var sent := AfterGenerate(st, db, draws, pos)[i].fields;
            AfterDecode(other, db, Generated(st, db, draws, pos).bytes)[i].logic ==
            match other[i].logic
            case PassthroughState => PassthroughState
            case EthernetState(last, enc, dec) => EthernetState(Watched(sent, "ethertype", last), enc, dec + 1)
            case AvtpControlState(last) => AvtpControlState(Watched(sent, "subtype", last))
            case AecpAemState(last) => AecpAemState(Watched(sent, "control_data_length", last))
  {
    var sent := AfterGenerate(st, db, draws, pos)[i].fields;
    var got := AfterDecode(other, db, Generated(st, db, draws, pos).bytes)[i].fields;
    ContextsCarryOver(st, other, db, draws, pos, i);
    match other[i].logic
    case PassthroughState =>
    case EthernetState(last, _, _) => CarriedWatched(got, sent, "ethertype", last);
    case AvtpControlState(last) => CarriedWatched(got, sent, "subtype", last);
    case AecpAemState(last) => CarriedWatched(got, sent, "control_data_length", last);
  }

  /** The length an AECP AEM module learns from a frame is the one derived when the frame was generated, modulo
      2^width. */
  lemma {:induction false} LengthIsLearnt(st: StackState, other: StackState, db: VarDb, draws: Draws, pos: nat, i: nat)
    requires Clean(st) && Codable(st, db) && SameBinding(other, st) && i < |st| && st[i].iface.Some?
    requires st[i].logic.AecpAemState? && Has(AfterGenerate(st, db, draws, pos)[i].fields, "control_data_length")
    ensures var e := AfterGenerate(st, db, draws, pos);
            var fs := e[i].fields;
            AfterDecode(other, db, Generated(st, db, draws, pos).bytes)[i].logic
              == AecpAemState(OnWire(ControlDataLength(fs, Above(e, i)), fs[Find(fs, "control_data_length")].bits))
  {
    LengthDerivation(st, db, draws, pos, i);
    ModulesRemember(st, other, db, draws, pos, i);
    assert SameKind(other[i].logic, st[i].logic);
  }
}
