/** The encode pass: order-free, idempotent, shape-keeping; and the length it derives. */
module EncodePassLaws {
  import opened Bits
  import opened FieldCodec
  import opened Layout
  import opened PacketBuilding
  import opened LayerContexts
  import opened LogicModules
  import opened StackCodec

  predicate SameKind(a: LogicState, b: LogicState) {
    && a.PassthroughState? == b.PassthroughState?
    && a.EthernetState? == b.EthernetState?
    && a.AvtpControlState? == b.AvtpControlState?
  }

  /** The same layers with the same interfaces and the same kinds of module. */
  predicate SameBinding(a: StackState, b: StackState) {
    && |a| == |b|
    && forall i | 0 <= i < |a| ::
         a[i].serviceName == b[i].serviceName && a[i].iface == b[i].iface && SameKind(a[i].logic, b[i].logic)
  }

  predicate SameShapes(a: StackState, b: StackState) {
    SameBinding(a, b) && forall i | 0 <= i < |a| :: SameShape(a[i].fields, b[i].fields)
  }

  lemma {:induction false} SizeFromShape(a: seq<seq<Field>>, b: seq<seq<Field>>, j: nat)
    requires |a| == |b| && j <= |a|
    requires forall i | 0 <= i < |a| :: SameShape(a[i], b[i])
    ensures SizeFrom(a, j) == SizeFrom(b, j)
    decreases |a| - j
  {
    if j < |a| {
      ShapeBits(a[j], b[j], |a[j]|);
      SizeFromShape(a, b, j + 1);
    }
  }

  /** A hook sees its own fields and the shapes around it, nothing else. */
  lemma {:induction false} HookSeesShapes(a: StackState, b: StackState, i: nat)
    requires SameShapes(a, b) && i < |a|
    ensures Upper(a, i) == Upper(b, i) && Above(a, i) == Above(b, i)
    ensures a[i].fields == b[i].fields ==> HookFields(a, i) == HookFields(b, i)
  {
    var fa, fb := FieldLists(a), FieldLists(b);
    assert forall j | 0 <= j < |fa| :: fa[j] == a[j].fields && fb[j] == b[j].fields;
    SizeFromShape(fa, fb, i + 1);
  }

  lemma {:induction false} EncodeAtShapes(s: StackState, i: nat)
    requires i < |s|
    ensures SameShapes(EncodeAt(s, i), s)
  {
    EncodeKeepsShape(s[i].logic, s[i].fields, Upper(s, i), Above(s, i));
  }

  lemma {:induction false} PassShapes(st: StackState, order: seq<nat>, k: nat)
    requires k <= |order| && forall j | 0 <= j < |order| :: order[j] < |st|
    ensures SameShapes(EncodePass(st, order, k), st)
  {
    if k > 0 {
      var s := EncodePass(st, order, k - 1);
      PassShapes(st, order, k - 1);
      EncodeAtShapes(s, order[k - 1]);
      ShapesTransitive(EncodePass(st, order, k), s, st);
    }
  }

  lemma {:induction false} ShapesTransitive(a: StackState, b: StackState, c: StackState)
    requires SameShapes(a, b) && SameShapes(b, c)
    ensures SameShapes(a, c)
  {
  }

  /** Layer i was visited by the first k calls. */
  predicate Visited(order: seq<nat>, k: nat, i: nat)
    requires k <= |order|
  {
    exists j | 0 <= j < k :: order[j] == i
  }

  /** After any pass a visited layer holds what its hook makes of the loaded stack, however often and in
      whatever order it ran; the others are untouched. */
  lemma {:induction false} PassFields(st: StackState, order: seq<nat>, k: nat, i: nat)
    requires k <= |order| && forall j | 0 <= j < |order| :: order[j] < |st|
    requires i < |st|
    ensures EncodePass(st, order, k)[i].fields == if Visited(order, k, i) then HookFields(st, i) else st[i].fields
  {
    if k > 0 {
      PassFields(st, order, k - 1, i);
      var s := EncodePass(st, order, k - 1);
      if order[k - 1] == i {
        assert Visited(order, k, i);
        PassShapes(st, order, k - 1);
        HookSeesShapes(s, st, i);
        if Visited(order, k - 1, i) {
          EncodeIdempotent(st[i].logic, st[i].fields, Upper(st, i), Above(st, i));
        }
      } else {
        assert Visited(order, k, i) <==> Visited(order, k - 1, i);
      }
    }
  }

  /** The encode pass is order-free and idempotent: two passes that visit the same layers agree. */
  lemma {:induction false} PassOrderFree(st: StackState, o1: seq<nat>, o2: seq<nat>)
    requires forall j | 0 <= j < |o1| :: o1[j] < |st|
    requires forall j | 0 <= j < |o2| :: o2[j] < |st|
    requires forall i | 0 <= i < |st| :: Visited(o1, |o1|, i) <==> Visited(o2, |o2|, i)
    ensures forall i | 0 <= i < |st| ::
              EncodePass(st, o1, |o1|)[i].fields == EncodePass(st, o2, |o2|)[i].fields
  {
    forall i | 0 <= i < |st|
      ensures EncodePass(st, o1, |o1|)[i].fields == EncodePass(st, o2, |o2|)[i].fields
    {
      PassFields(st, o1, |o1|, i);
      PassFields(st, o2, |o2|, i);
    }
  }

  /** In a generated stack every layer holds its hook's view of the loaded stack. */
  lemma {:induction false} GeneratedFields(st: StackState, db: VarDb, draws: Draws, pos: nat, i: nat)
    requires i < |st|
    ensures SameShapes(AfterGenerate(st, db, draws, pos), Loaded(st, db, draws, pos))
    ensures AfterGenerate(st, db, draws, pos)[i].fields == HookFields(Loaded(st, db, draws, pos), i)
  {
    var order := BottomUp(|st|);
    assert order[i] == i;
    PassShapes(Loaded(st, db, draws, pos), order, |st|);
    PassFields(Loaded(st, db, draws, pos), order, |st|, i);
  }

  /** Loading rebinds nothing and leaves the modules alone. */
  lemma {:induction false} LoadedBinding(st: StackState, db: VarDb, draws: Draws, pos: nat)
    ensures SameBinding(Loaded(st, db, draws, pos), st)
    ensures forall i | 0 <= i < |st| :: Loaded(st, db, draws, pos)[i].logic == st[i].logic
  {
    var l := Loaded(st, db, draws, pos);
    forall i | 0 <= i < |st|
      ensures l[i].logic == st[i].logic && l[i].iface == st[i].iface && l[i].serviceName == st[i].serviceName
    {
      LoadedToAt(st, |st|, db, draws, pos, i);
    }
  }

  /* ---------------- derived lengths ---------------- */

  lemma {:induction false} WidthSum(fs: seq<Field>, k: nat)
    requires k <= |fs|
    ensures Sum(FieldWidths(fs, k)) == BitsTo(fs, k)
  {
    if k > 0 {
      WidthSum(fs, k - 1);
      assert FieldWidths(fs, k)[..k - 1] == FieldWidths(fs, k - 1);
    }
  }

  /** A layer's packed size is the byteSize its context reports. */
  lemma {:induction false} PackedSize(fs: seq<Field>)
    ensures |LayerBytesOf(fs)| == SizeOf(fs)
  {
    WidthSum(fs, |fs|);
  }

  lemma {:induction false} FrameGrows(st: StackState, i: nat)
    requires i < |st|
    ensures |FrameTo(st, i + 1)| == |FrameTo(st, i)| + SizeOf(FieldLists(st)[i])
  {
    PackedSize(st[i].fields);
  }

  lemma {:induction false} SizeStep(fss: seq<seq<Field>>, i: nat)
    requires i < |fss|
    ensures SizeFrom(fss, i) == SizeOf(fss[i]) + SizeFrom(fss, i + 1)
  {
  }

  /** Frame bytes = bytes below layer i, layer i, bytes above. */
  lemma {:induction false} FrameSize(st: StackState, i: nat)
    requires i <= |st|
    ensures |FrameTo(st, |st|)| == |FrameTo(st, i)| + SizeFrom(FieldLists(st), i)
    decreases |st| - i
  {
    if i == |st| {
      assert SizeFrom(FieldLists(st), i) == 0;
    } else {
      FrameSize(st, i + 1);
      FrameGrows(st, i);
      SizeStep(FieldLists(st), i);
    }
  }

  /** What AecpAemLogic leaves in control_data_length. */
  lemma {:induction false} AecpLength(fs: seq<Field>, above: nat)
    requires Has(fs, "control_data_length")
    ensures ValueOf(AecpAemEncoded(fs, above), "control_data_length") == Some(ControlDataLength(fs, above))
  {
    StatusKeepsLength(LengthDerived(fs, above));
    WithValueReads(fs, "control_data_length", ControlDataLength(fs, above), "control_data_length");
  }

  /** The octets before and after a field of a layer add up to the layer, up to the octet it straddles. */
  lemma {:induction false} SplitAtField(fs: seq<Field>, name: string)
    requires Has(fs, name)
    ensures var p := BitsTo(fs, Find(fs, name) + 1);
            var q := BitsAfter(fs, name);
            var d := SizeOf(fs) - Octets(q);
            p / 8 <= d <= Octets(p) && (q % 8 == 0 ==> d == Octets(p))
  {
    BitsMonotonic(fs, Find(fs, name) + 1, |fs|);
  }

  /** Layer i's control_data_length counts the octets after the field in its layer plus every octet stacked above,
      as a 64-bit number. */
  predicate LengthIsDerived(st: StackState, i: nat)
    requires i < |st|
  {
    && Has(st[i].fields, "control_data_length")
    && ValueOf(st[i].fields, "control_data_length")
         == Some(((BitsAfter(st[i].fields, "control_data_length") + 7) / 8 + Above(st, i)) % 0x1_0000_0000_0000_0000)
  }

  /** The bytes below layer i, d octets of the layer up to and including the field, and the octets the length counts
      make up the whole frame; d differs from the field's own end only by the octet the field may end within. */
  predicate FrameSplitsAt(st: StackState, i: nat, name: string)
    requires i < |st| && Has(st[i].fields, name)
  {
    var p := BitsTo(st[i].fields, Find(st[i].fields, name) + 1);
    var q := BitsAfter(st[i].fields, name);
    var d := |FrameTo(st, |st|)| - |FrameTo(st, i)| - (Octets(q) + Above(st, i));
    p / 8 <= d <= Octets(p) && (q % 8 == 0 ==> d == Octets(p))
  }

  lemma {:induction false} FrameSplits(st: StackState, i: nat, name: string)
    requires i < |st| && Has(st[i].fields, name)
    ensures FrameSplitsAt(st, i, name)
  {
    FrameSize(st, i);
    SplitAtField(st[i].fields, name);
    assert FieldLists(st)[i] == st[i].fields;
  }

  lemma {:induction false} HookDerives(l: StackState, e: StackState, i: nat)
    requires SameShapes(e, l) && i < |l| && l[i].logic.AecpAemState?
    requires e[i].fields == HookFields(l, i)
    requires Has(l[i].fields, "control_data_length")
    ensures LengthIsDerived(e, i)
  {
    var fs := l[i].fields;
    assert Above(e, i) == Above(l, i) by { HookSeesShapes(e, l, i); }
    BitsAfterShape(fs, e[i].fields, "control_data_length");
    AecpLength(fs, Above(l, i));
  }

  /** In every generated frame every AECP AEM layer with a control_data_length field holds the derived length,
      and the length accounts for the frame. */
  lemma {:induction false} LengthDerivation(st: StackState, db: VarDb, draws: Draws, pos: nat, i: nat)
    requires i < |st| && st[i].logic.AecpAemState?
    requires Has(AfterGenerate(st, db, draws, pos)[i].fields, "control_data_length")
    ensures LengthIsDerived(AfterGenerate(st, db, draws, pos), i)
    ensures FrameSplitsAt(AfterGenerate(st, db, draws, pos), i, "control_data_length")
  {
    var l := Loaded(st, db, draws, pos);
    var e := AfterGenerate(st, db, draws, pos);
    LoadedBinding(st, db, draws, pos);
    GeneratedFields(st, db, draws, pos, i);
    ShapeFind(e[i].fields, l[i].fields, "control_data_length", 0);
    HookDerives(l, e, i);
    FrameSplits(e, i, "control_data_length");
  }

  /** In every generated frame a command of an AECP AEM layer carries status 0, and any other message type the status
      that was drawn. */
  lemma {:induction false} CommandStatus(st: StackState, db: VarDb, draws: Draws, pos: nat, i: nat)
    requires i < |st| && st[i].logic.AecpAemState?
    ensures var loaded := Loaded(st, db, draws, pos)[i].fields;
            var kind, status := ValueOf(loaded, "message_type"), ValueOf(loaded, "status");
            ValueOf(AfterGenerate(st, db, draws, pos)[i].fields, "status")
              == if status.Some? && kind.Some? && kind.value % 2 == 0 then Some(0) else status
  {
    var l := Loaded(st, db, draws, pos);
    LoadedBinding(st, db, draws, pos);
    GeneratedFields(st, db, draws, pos, i);
    AecpStatus(l[i].fields, Above(l, i));
  }

  /** In every generated frame the AVTP control invariants hold, and the subtype is that of the family above, or the one
      drawn when there is neither. */
  lemma {:induction false} AvtpInvariants(st: StackState, db: VarDb, draws: Draws, pos: nat, i: nat)
    requires i < |st| && st[i].logic.AvtpControlState?
    ensures var fs := AfterGenerate(st, db, draws, pos)[i].fields;
            && Holds(fs, "sv", 0) && Holds(fs, "version", 0) && Holds(fs, "reserved", 0)
    ensures var subtype := ValueOf(Loaded(st, db, draws, pos)[i].fields, "subtype");
            ValueOf(AfterGenerate(st, db, draws, pos)[i].fields, "subtype")
              == if subtype.None? || i + 1 == |st| then subtype
                 else if "atdecc_aecp" <= st[i + 1].serviceName then Some(0xFB)
                 else if "atdecc_adp" <= st[i + 1].serviceName then Some(0xFA)
                 else subtype
  {
    var l := Loaded(st, db, draws, pos);
    LoadedBinding(st, db, draws, pos);
    GeneratedFields(st, db, draws, pos, i);
    AvtpWrites(l[i].fields, Upper(l, i));
    AvtpSubtype(l[i].fields, Upper(l, i));
  }

  /** In every generated frame every field but the first of the names its layer's module writes is as it was drawn. */
  lemma {:induction false} DrawnFieldsKept(st: StackState, db: VarDb, draws: Draws, pos: nat, i: nat, k: nat)
    requires i < |st| && k < |Loaded(st, db, draws, pos)[i].fields|
    requires var fs := Loaded(st, db, draws, pos)[i].fields;
             FirstOfName(fs, fs[k].name, k) ==>
               && (st[i].logic.EthernetState? ==> fs[k].name != "ethertype")
               && (st[i].logic.AvtpControlState? ==> fs[k].name !in {"subtype", "sv", "version", "reserved"})
               && (st[i].logic.AecpAemState? ==> fs[k].name !in {"control_data_length", "status"})
    ensures |AfterGenerate(st, db, draws, pos)[i].fields| == |Loaded(st, db, draws, pos)[i].fields|
    ensures AfterGenerate(st, db, draws, pos)[i].fields[k] == Loaded(st, db, draws, pos)[i].fields[k]
  {
    var l := Loaded(st, db, draws, pos);
    LoadedBinding(st, db, draws, pos);
    GeneratedFields(st, db, draws, pos, i);
    OthersKept(l[i].logic, l[i].fields, Upper(l, i), Above(l, i), k);
  }

  /** Generating a frame runs every Ethernet module's onEncode once and leaves the rest of every module alone. */
  lemma {:induction false} HooksRunOnce(st: StackState, db: VarDb, draws: Draws, pos: nat, i: nat)
    requires i < |st|
    ensures AfterGenerate(st, db, draws, pos)[i].logic ==
            match st[i].logic
            case EthernetState(last, enc, dec) => EthernetState(last, enc + 1, dec)
            case other => other
  {
    LoadedBinding(st, db, draws, pos);
    PassLogic(Loaded(st, db, draws, pos), |st|, i);
  }

  lemma {:induction false} PassLogic(st: StackState, k: nat, i: nat)
    requires i < |st| && k <= |st|
    ensures EncodePass(st, BottomUp(|st|), k)[i].logic
         == if i < k && st[i].logic.EthernetState? then st[i].logic.(encodeCalls := st[i].logic.encodeCalls + 1)
            else st[i].logic
  {
    if k > 0 { PassLogic(st, k - 1, i); }
  }

  /** In every generated frame an ethertype that was drawn as 0 is 0x22F0, and any other is the one drawn. */
  lemma {:induction false} EthertypeFilled(st: StackState, db: VarDb, draws: Draws, pos: nat, i: nat)
    requires i < |st| && st[i].logic.EthernetState?
    ensures var drawn := ValueOf(Loaded(st, db, draws, pos)[i].fields, "ethertype");
            ValueOf(AfterGenerate(st, db, draws, pos)[i].fields, "ethertype")
              == if drawn == Some(0) then Some(0x22F0) else drawn
  {
    LoadedBinding(st, db, draws, pos);
    GeneratedFields(st, db, draws, pos, i);
    WithValueReads(Loaded(st, db, draws, pos)[i].fields, "ethertype", ETHERTYPE_1722, "ethertype");
  }
}
