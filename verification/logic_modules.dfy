/** The logic modules a stack layer can be bound to, and what their hooks do to a layer's fields. */
module LogicModules {
  import opened Bits
  import opened Layout
  import opened LayerContexts

  const ETHERTYPE_1722: u64 := 0x22F0
  const SUBTYPE_AECP: byte := 0xFB
  const SUBTYPE_ADP: byte := 0xFA

  /** Fills an absent or zero ethertype; a non-zero one is kept. */
  function EthernetEncoded(fs: seq<Field>): seq<Field> {
    var current := ValueOf(fs, "ethertype");
    if current.None? || current.value == 0 then WithValue(fs, "ethertype", ETHERTYPE_1722) else fs
  }

  /** The subtype implied by the service family above, or 0. `<=` on strings is "is a prefix of". */
  function SubtypeForUpper(upper: Option<string>): byte {
    if upper.None? then 0
    else if "atdecc_aecp" <= upper.value then SUBTYPE_AECP
    else if "atdecc_adp" <= upper.value then SUBTYPE_ADP
    else 0
  }

  function AvtpControlEncoded(fs: seq<Field>, upper: Option<string>): seq<Field> {
    var subtype := SubtypeForUpper(upper);
    var f0 := if subtype != 0 then WithValue(fs, "subtype", subtype) else fs;
    WithValue(WithValue(WithValue(f0, "sv", 0), "version", 0), "reserved", 0)
  }

  /** `size_t` arithmetic: the octets after the length field plus the octets stacked above, modulo 2^64. */
  function ControlDataLength(fs: seq<Field>, above: nat): u64
    requires Has(fs, "control_data_length")
  {
    (Octets(BitsAfter(fs, "control_data_length")) + above) % 0x1_0000_0000_0000_0000
  }

  function LengthDerived(fs: seq<Field>, above: nat): seq<Field> {
    if Has(fs, "control_data_length")
    then WithValue(fs, "control_data_length", ControlDataLength(fs, above)) else fs
  }

  /** A command, that is an even message_type, carries status 0. */
  function StatusCleared(fs: seq<Field>): seq<Field> {
    var messageType := ValueOf(fs, "message_type");
    if messageType.Some? && messageType.value % 2 == 0 then WithValue(fs, "status", 0) else fs
  }

  function AecpAemEncoded(fs: seq<Field>, above: nat): seq<Field> {
    StatusCleared(LengthDerived(fs, above))
  }

  /** `getValue(name, last)`: an absent field leaves the recorded value alone. */
  function Recorded(fs: seq<Field>, name: string, last: u64): u64 {
    if Has(fs, name) then ValueOf(fs, name).value else last
  }

  function UpperService(ctx: LayerContext): Option<string>
    reads ctx`mUpper
  {
    if ctx.mUpper == null then None else Some(ctx.mUpper.mServiceName)
  }

  /** The state of a module between calls. */
  datatype LogicState =
    | PassthroughState
    | EthernetState(lastEthertype: u64, encodeCalls: nat, decodeCalls: nat)
    | AvtpControlState(lastSubtype: u64)
    | AecpAemState(lastCdl: u64)
  {
    /** onEncode on the fields: the state the module carries plays no part. */
    function EncodedFields(fs: seq<Field>, upper: Option<string>, above: nat): seq<Field> {
      match this
      case PassthroughState => fs
      case EthernetState(_, _, _) => EthernetEncoded(fs)
      case AvtpControlState(_) => AvtpControlEncoded(fs, upper)
      case AecpAemState(_) => AecpAemEncoded(fs, above)
    }

    function AfterEncode(): LogicState {
      if EthernetState? then this.(encodeCalls := encodeCalls + 1) else this
    }

    function AfterDecode(fs: seq<Field>): LogicState {
      match this
      case PassthroughState => this
      case EthernetState(last, enc, dec) => EthernetState(Recorded(fs, "ethertype", last), enc, dec + 1)
      case AvtpControlState(last) => AvtpControlState(Recorded(fs, "subtype", last))
      case AecpAemState(last) => AecpAemState(Recorded(fs, "control_data_length", last))
    }

    /** nextLayer: the service predicted to come next, "" for no prediction. */
    function Predicted(upper: Option<string>): string {
      if PassthroughState? then ""
      else if upper.Some? then upper.value
      else if EthernetState? then "1722_avtp_common_stream"
      else ""
    }
  }

  /** Which module is bound to a layer. */
  datatype ModuleKind = Passthrough | EthernetFrame | AvtpControl | AecpAem

  /** The module object a layer owns. The kind plays the part of the object's dynamic type; each kind uses its own
      fields: the two call counters and mLastEthertype, mLastSubtype, mLastCdl. */
  class LogicModule {
    const kind: ModuleKind
    var mLastEthertype: u64
    var mEncodeCalls: nat
    var mDecodeCalls: nat
    var mLastSubtype: u64
    var mLastCdl: u64

    constructor (kind: ModuleKind)
      ensures this.kind == kind && mEncodeCalls == 0 && mDecodeCalls == 0
      ensures mLastEthertype == 0 && mLastSubtype == 0 && mLastCdl == 0
    {
      this.kind := kind;
      mLastEthertype, mEncodeCalls, mDecodeCalls, mLastSubtype, mLastCdl := 0, 0, 0, 0, 0;
    }

    ghost function State(): LogicState
      reads this
    {
      match kind
      case Passthrough => PassthroughState
      case EthernetFrame => EthernetState(mLastEthertype, mEncodeCalls, mDecodeCalls)
      case AvtpControl => AvtpControlState(mLastSubtype)
      case AecpAem => AecpAemState(mLastCdl)
    }

    method EthernetOnEncode(ctx: LayerContext)
      requires kind == EthernetFrame
      modifies this`mEncodeCalls, ctx`mFields
      ensures State() == old(State()).AfterEncode() && mEncodeCalls == old(mEncodeCalls) + 1
      ensures ctx.mFields == EthernetEncoded(old(ctx.mFields))
    {
      mEncodeCalls := mEncodeCalls + 1;
      var current := ctx.GetValue("ethertype");
      if current.None? || current.value == 0 {
        var _ := ctx.SetValue("ethertype", ETHERTYPE_1722);
      }
    }

    method AvtpControlOnEncode(ctx: LayerContext)
      modifies ctx`mFields
      ensures ctx.mFields == AvtpControlEncoded(old(ctx.mFields), UpperService(ctx))
    {
      var subtype := SubtypeForUpper(UpperService(ctx));
      if subtype != 0 {
        var _ := ctx.SetValue("subtype", subtype);
      }
      var _ := ctx.SetValue("sv", 0);
      var _ := ctx.SetValue("version", 0);
      var _ := ctx.SetValue("reserved", 0);
    }

    method AecpAemOnEncode(ctx: LayerContext, ghost all: seq<LayerContext>, ghost i: nat)
      requires i < |all| && ctx == all[i] && UpperChain(all)
      modifies ctx`mFields
      ensures ctx.mFields == AecpAemEncoded(old(ctx.mFields), SizeFrom(old(FieldsOf(all)), i + 1))
    {
      DeriveLength(ctx, all, i);
      ClearCommandStatus(ctx);
    }

    /** control_data_length: the octets after the field in this layer and every octet stacked above. */
    method DeriveLength(ctx: LayerContext, ghost all: seq<LayerContext>, ghost i: nat)
      requires i < |all| && ctx == all[i] && UpperChain(all)
      modifies ctx`mFields
      ensures ctx.mFields == LengthDerived(old(ctx.mFields), SizeFrom(old(FieldsOf(all)), i + 1))
    {
      var after := ctx.BytesAfter("control_data_length");
      if after.Some? {
        var above := ctx.BytesAbove(all, i);
        var cdl := (after.value + above) % 0x1_0000_0000_0000_0000;
        var _ := ctx.SetValue("control_data_length", cdl);
      }
    }

    method ClearCommandStatus(ctx: LayerContext)
      modifies ctx`mFields
      ensures ctx.mFields == StatusCleared(old(ctx.mFields))
    {
      var messageType := ctx.GetValue("message_type");
      if messageType.Some? && messageType.value % 2 == 0 {
        var _ := ctx.SetValue("status", 0);
      }
    }

    /** onEncode, dispatched on the kind. `all` are the contexts of the stack, bottom-up; ctx is all[i]. */
    method OnEncode(ctx: LayerContext, ghost all: seq<LayerContext>, ghost i: nat)
      requires i < |all| && ctx == all[i] && UpperChain(all)
      modifies this`mEncodeCalls, ctx`mFields
      ensures State() == old(State()).AfterEncode()
      ensures mEncodeCalls == old(mEncodeCalls) + if kind == EthernetFrame then 1 else 0
      ensures ctx.mFields == old(State()).EncodedFields(
                               old(ctx.mFields), UpperService(ctx), SizeFrom(old(FieldsOf(all)), i + 1))
    {
      match kind
      case Passthrough =>
      case EthernetFrame => EthernetOnEncode(ctx);
      case AvtpControl => AvtpControlOnEncode(ctx);
      case AecpAem => AecpAemOnEncode(ctx, all, i);
    }

    /** onDecode, dispatched on the kind. */
    method OnDecode(ctx: LayerContext)
      modifies this
      ensures State() == old(State()).AfterDecode(ctx.mFields)
      ensures mEncodeCalls == old(mEncodeCalls)
      ensures mDecodeCalls == old(mDecodeCalls) + if kind == EthernetFrame then 1 else 0
      ensures mLastEthertype == if kind == EthernetFrame && Has(ctx.mFields, "ethertype")
                                then ValueOf(ctx.mFields, "ethertype").value else old(mLastEthertype)
      ensures mLastSubtype == if kind == AvtpControl && Has(ctx.mFields, "subtype")
                              then ValueOf(ctx.mFields, "subtype").value else old(mLastSubtype)
      ensures mLastCdl == if kind == AecpAem && Has(ctx.mFields, "control_data_length")
                          then ValueOf(ctx.mFields, "control_data_length").value else old(mLastCdl)
    {
      match kind
      case Passthrough =>
      case EthernetFrame =>
        mDecodeCalls := mDecodeCalls + 1;
        var seen := ctx.GetValue("ethertype");
        if seen.Some? { mLastEthertype := seen.value; }
      case AvtpControl =>
        var seen := ctx.GetValue("subtype");
        if seen.Some? { mLastSubtype := seen.value; }
      case AecpAem =>
        var seen := ctx.GetValue("control_data_length");
        if seen.Some? { mLastCdl := seen.value; }
    }

    /** nextLayer, dispatched on the kind. */
    method NextLayer(ctx: LayerContext) returns (next: string)
      ensures next == State().Predicted(UpperService(ctx))
      ensures next == if kind == Passthrough then ""
                      else if ctx.mUpper != null then ctx.mUpper.mServiceName
                      else if kind == EthernetFrame then "1722_avtp_common_stream" else ""
    {
      if kind == Passthrough {
        return "";
      }
      if ctx.mUpper != null {
        return ctx.mUpper.mServiceName;
      }
      return if kind == EthernetFrame then "1722_avtp_common_stream" else "";
    }
  }

  /* ---------------- what every hook keeps ---------------- */

  lemma {:induction false} AecpKeepsShape(fs: seq<Field>, above: nat)
    ensures SameShape(AecpAemEncoded(fs, above), fs)
  {
    var f0 := LengthDerived(fs, above);
    assert SameShape(f0, fs);
    assert SameShape(StatusCleared(f0), f0);
  }

  /** Writing one name does not change what another name holds, nor where it is found. */
  lemma {:induction false} WithValueReads(fs: seq<Field>, name: string, value: u64, other: string)
    ensures Find(WithValue(fs, name, value), other) == Find(fs, other)
    ensures ValueOf(WithValue(fs, name, value), other) ==
            if other == name && Has(fs, name) then Some(value) else ValueOf(fs, other)
  {
    ShapeFind(WithValue(fs, name, value), fs, other, 0);
  }

  lemma {:induction false} WithValueTwice(fs: seq<Field>, name: string, value: u64)
    ensures WithValue(WithValue(fs, name, value), name, value) == WithValue(fs, name, value)
  {
    WithValueReads(fs, name, value, name);
  }

  /** Running a hook a second time changes nothing more. */
  lemma {:induction false} EncodeIdempotent(l: LogicState, fs: seq<Field>, upper: Option<string>, above: nat)
    ensures var once := l.EncodedFields(fs, upper, above);
            l.EncodedFields(once, upper, above) == once
  {
    match l
    case PassthroughState =>
    case EthernetState(_, _, _) =>
      WithValueReads(fs, "ethertype", ETHERTYPE_1722, "ethertype");
      WithValueTwice(fs, "ethertype", ETHERTYPE_1722);
    case AvtpControlState(_) =>
      AvtpIdempotent(fs, upper);
    case AecpAemState(_) =>
      AecpIdempotent(fs, above);
  }

  /** The first field of this name, if there is one, already holds this value. */
  predicate Holds(fs: seq<Field>, name: string, value: u64) {
    Has(fs, name) ==> ValueOf(fs, name) == Some(value)
  }

  lemma {:induction false} HoldsIsFixed(fs: seq<Field>, name: string, value: u64)
    requires Holds(fs, name, value)
    ensures WithValue(fs, name, value) == fs
  {
  }

  lemma {:induction false} WithValueHolds(fs: seq<Field>, name: string, value: u64)
    ensures Holds(WithValue(fs, name, value), name, value)
    ensures forall other, v | other != name && Holds(fs, other, v) :: Holds(WithValue(fs, name, value), other, v)
  {
    WithValueReads(fs, name, value, name);
    forall other, v | other != name && Holds(fs, other, v) ensures Holds(WithValue(fs, name, value), other, v) {
      WithValueReads(fs, name, value, other);
    }
  }

  lemma {:induction false} WithValueShape(fs: seq<Field>, name: string, value: u64)
    ensures SameShape(WithValue(fs, name, value), fs)
  {
  }

  lemma {:induction false} ShapeTransitive(a: seq<Field>, b: seq<Field>, c: seq<Field>)
    requires SameShape(a, b) && SameShape(b, c)
    ensures SameShape(a, c)
  {
  }

  /** Writing 0 to three names after other fields were written: every write holds, the shape is kept. */
  lemma {:induction false} ThreeZeros(fs: seq<Field>, first: string, value: u64, x: string, y: string, z: string)
    requires x != y && x != z && y != z && first != x && first != y && first != z
    ensures var r := WithValue(WithValue(WithValue(fs, x, 0), y, 0), z, 0);
            && Holds(r, x, 0) && Holds(r, y, 0) && Holds(r, z, 0)
            && (Holds(fs, first, value) ==> Holds(r, first, value))
            && SameShape(r, fs)
  {
    var f1 := WithValue(fs, x, 0);
    var f2 := WithValue(f1, y, 0);
    WithValueHolds(fs, x, 0);
    WithValueHolds(f1, y, 0);
    WithValueHolds(f2, z, 0);
    WithValueShape(fs, x, 0);
    WithValueShape(f1, y, 0);
    WithValueShape(f2, z, 0);
    ShapeTransitive(f2, f1, fs);
    ShapeTransitive(WithValue(f2, z, 0), f2, fs);
  }

  /** The AVTP control hook leaves the invariants and the subtype of the family above in place. */
  lemma {:induction false} AvtpWrites(fs: seq<Field>, upper: Option<string>)
    ensures var r := AvtpControlEncoded(fs, upper);
            && Holds(r, "sv", 0) && Holds(r, "version", 0) && Holds(r, "reserved", 0)
            && (SubtypeForUpper(upper) != 0 ==> Holds(r, "subtype", SubtypeForUpper(upper)))
            && SameShape(r, fs)
  {
    var subtype := SubtypeForUpper(upper);
    var f0 := if subtype != 0 then WithValue(fs, "subtype", subtype) else fs;
    ThreeZeros(f0, "subtype", subtype, "sv", "version", "reserved");
    WithValueHolds(fs, "subtype", subtype);
    WithValueShape(fs, "subtype", subtype);
    ShapeTransitive(AvtpControlEncoded(fs, upper), f0, fs);
  }

  lemma {:induction false} AvtpIdempotent(fs: seq<Field>, upper: Option<string>)
    ensures AvtpControlEncoded(AvtpControlEncoded(fs, upper), upper) == AvtpControlEncoded(fs, upper)
  {
    var subtype := SubtypeForUpper(upper);
    var r := AvtpControlEncoded(fs, upper);
    AvtpWrites(fs, upper);
    if subtype != 0 { HoldsIsFixed(r, "subtype", subtype); }
    HoldsIsFixed(r, "sv", 0);
    HoldsIsFixed(r, "version", 0);
    HoldsIsFixed(r, "reserved", 0);
  }

  /** No hook changes field names, their order or their widths. */
  lemma {:induction false} EncodeKeepsShape(l: LogicState, fs: seq<Field>, upper: Option<string>, above: nat)
    ensures SameShape(l.EncodedFields(fs, upper, above), fs)
  {
    match l
    case PassthroughState =>
    case EthernetState(_, _, _) =>
    case AvtpControlState(_) => AvtpWrites(fs, upper);
    case AecpAemState(_) => AecpKeepsShape(fs, above);
  }

  lemma {:induction false} WithValueKeeps(fs: seq<Field>, name: string, value: u64, k: nat)
    requires k < |fs| && !FirstOfName(fs, name, k)
    ensures WithValue(fs, name, value)[k] == fs[k]
  {
    if Has(fs, name) && Find(fs, name) == k { FoundFirst(fs, name); }
  }

  lemma {:induction false} FoundFirst(fs: seq<Field>, name: string)
    requires Has(fs, name)
    ensures FirstOfName(fs, name, Find(fs, name))
  {
    forall j | 0 <= j < Find(fs, name) ensures fs[j].name != name {
      if fs[j].name == name { FindFromIsFirst(fs, name, 0, j); }
    }
  }

  lemma {:induction false} ShapeFirst(a: seq<Field>, b: seq<Field>, name: string, k: nat)
    requires SameShape(a, b)
    ensures FirstOfName(a, name, k) <==> FirstOfName(b, name, k)
  {
  }

  /** The names whose first field this kind of module may write. */
  predicate MayWrite(l: LogicState, name: string) {
    match l
    case PassthroughState => false
    case EthernetState(_, _, _) => name == "ethertype"
    case AvtpControlState(_) => name in {"subtype", "sv", "version", "reserved"}
    case AecpAemState(_) => name in {"control_data_length", "status"}
  }

  /** A hook leaves every other field alone. */
  lemma {:induction false} OthersKept(l: LogicState, fs: seq<Field>, upper: Option<string>, above: nat, k: nat)
    requires k < |fs| && !(MayWrite(l, fs[k].name) && FirstOfName(fs, fs[k].name, k))
    ensures |l.EncodedFields(fs, upper, above)| == |fs| && l.EncodedFields(fs, upper, above)[k] == fs[k]
  {
    match l
    case PassthroughState =>
    case EthernetState(_, _, _) => WithValueKeeps(fs, "ethertype", ETHERTYPE_1722, k);
    case AvtpControlState(_) => AvtpKeeps(fs, upper, k);
    case AecpAemState(_) => AecpKeeps(fs, above, k);
  }

  lemma {:induction false} AvtpKeeps(fs: seq<Field>, upper: Option<string>, k: nat)
    requires k < |fs|
    requires forall name | name in {"subtype", "sv", "version", "reserved"} :: !FirstOfName(fs, name, k)
    ensures AvtpControlEncoded(fs, upper)[k] == fs[k]
  {
    var subtype := SubtypeForUpper(upper);
    var f0 := if subtype != 0 then WithValue(fs, "subtype", subtype) else fs;
    var f1 := WithValue(f0, "sv", 0);
    var f2 := WithValue(f1, "version", 0);
    WithValueKeeps(fs, "subtype", subtype, k);
    ShapeFirst(f0, fs, "sv", k);
    WithValueKeeps(f0, "sv", 0, k);
    ShapeFirst(f1, fs, "version", k);
    WithValueKeeps(f1, "version", 0, k);
    ShapeFirst(f2, fs, "reserved", k);
    WithValueKeeps(f2, "reserved", 0, k);
  }

  lemma {:induction false} AecpKeeps(fs: seq<Field>, above: nat, k: nat)
    requires k < |fs| && !FirstOfName(fs, "control_data_length", k) && !FirstOfName(fs, "status", k)
    ensures AecpAemEncoded(fs, above)[k] == fs[k]
  {
    var f0 := LengthDerived(fs, above);
    if Has(fs, "control_data_length") {
      WithValueKeeps(fs, "control_data_length", ControlDataLength(fs, above), k);
    }
    ShapeFirst(f0, fs, "status", k);
    WithValueKeeps(f0, "status", 0, k);
  }

  /** What the AECP AEM hook leaves in the status: 0 for a command, that is an even message type, and else what was
      there. */
  lemma {:induction false} AecpStatus(fs: seq<Field>, above: nat)
    ensures var kind, status := ValueOf(fs, "message_type"), ValueOf(fs, "status");
            ValueOf(AecpAemEncoded(fs, above), "status")
              == if status.Some? && kind.Some? && kind.value % 2 == 0 then Some(0) else status
  {
    var f0 := LengthDerived(fs, above);
    if Has(fs, "control_data_length") {
      WithValueReads(fs, "control_data_length", ControlDataLength(fs, above), "message_type");
      WithValueReads(fs, "control_data_length", ControlDataLength(fs, above), "status");
    }
    WithValueReads(f0, "status", 0, "status");
  }

  /** What the AVTP control hook leaves in the subtype: that of the family above, and else what was there. */
  lemma {:induction false} AvtpSubtype(fs: seq<Field>, upper: Option<string>)
    ensures var subtype := ValueOf(fs, "subtype");
            ValueOf(AvtpControlEncoded(fs, upper), "subtype")
              == if subtype.None? || upper.None? then subtype
                 else if "atdecc_aecp" <= upper.value then Some(0xFB)
                 else if "atdecc_adp" <= upper.value then Some(0xFA)
                 else subtype
  {
    var v := SubtypeForUpper(upper);
    var f0 := if v != 0 then WithValue(fs, "subtype", v) else fs;
    WithValueReads(fs, "subtype", v, "subtype");
    WithValueReads(f0, "sv", 0, "subtype");
    WithValueReads(WithValue(f0, "sv", 0), "version", 0, "subtype");
    WithValueReads(WithValue(WithValue(f0, "sv", 0), "version", 0), "reserved", 0, "subtype");
  }

  lemma {:induction false} BitsAfterShape(a: seq<Field>, b: seq<Field>, name: string)
    requires SameShape(a, b) && Has(a, name)
    ensures Has(b, name) && BitsAfter(a, name) == BitsAfter(b, name)
  {
    ShapeFind(a, b, name, 0);
    ShapeBits(a, b, |a|);
    ShapeBits(a, b, Find(a, name) + 1);
  }

  lemma {:induction false} StatusIdempotent(fs: seq<Field>)
    ensures StatusCleared(StatusCleared(fs)) == StatusCleared(fs)
  {
    WithValueReads(fs, "status", 0, "message_type");
    WithValueTwice(fs, "status", 0);
  }

  /** Clearing the status keeps what the length field holds. */
  lemma {:induction false} StatusKeepsLength(fs: seq<Field>)
    ensures ValueOf(StatusCleared(fs), "control_data_length") == ValueOf(fs, "control_data_length")
  {
    WithValueReads(fs, "status", 0, "control_data_length");
  }

  lemma {:induction false} AecpIdempotent(fs: seq<Field>, above: nat)
    ensures AecpAemEncoded(AecpAemEncoded(fs, above), above) == AecpAemEncoded(fs, above)
  {
    var f0 := LengthDerived(fs, above);
    var once := StatusCleared(f0);
    StatusIdempotent(f0);
    assert LengthDerived(once, above) == once by {
      AecpKeepsShape(fs, above);
      StatusKeepsLength(f0);
      if Has(once, "control_data_length") {
        BitsAfterShape(once, fs, "control_data_length");
        WithValueReads(fs, "control_data_length", ControlDataLength(fs, above), "control_data_length");
        HoldsIsFixed(once, "control_data_length", ControlDataLength(fs, above));
      }
    }
  }
}
