/** What a packet's bytes are, and what is decoded at any offset, in plain arithmetic. */
module PacketLaws {
  import opened Bits
  import opened Packing
  import opened FieldCodec
  import opened PackedNumbers
  import opened Layout
  import opened PacketBuilding
  import opened PacketDecoding
  import opened LayerContexts
  import opened StackCodec
  import opened StackLaws
  import opened ListCodec

  /** A built packet is ceil(bits / 8) octets; read as one big-endian number they are its values, each modulo 2^width,
      one after the other in layout order, and zeros behind. */
  lemma {:induction false} BuiltNumber(slots: seq<Slot>, ov: map<string, u64>, draws: Draws, pos: nat)
    ensures var b, bits := Built(slots, ov, draws, pos), Sum(Widths(slots));
            && |b.bytes| == (bits + 7) / 8 && |b.fields| == |slots|
            && Number(b.bytes) == Digits(Widths(slots), Vals(b.fields)) * Pow2(8 * |b.bytes| - bits)
  {
    PackedNumber(Widths(slots), Vals(Built(slots, ov, draws, pos).fields));
  }

  /** The same of a layer's fields in a stack. */
  lemma {:induction false} LayerNumber(fs: seq<Field>)
    ensures var b, ws := LayerPacket(fs), FieldWidths(fs, |fs|);
            && |b.bytes| == (Sum(ws) + 7) / 8
            && Number(b.bytes) == Digits(ws, FieldVals(fs, |fs|)) * Pow2(8 * |b.bytes| - Sum(ws))
  {
    PackedNumber(FieldWidths(fs, |fs|), FieldVals(fs, |fs|));
  }

  lemma {:induction false} DecodedAt(slots: seq<Slot>, bytes: seq<byte>, at: nat, i: nat)
    requires i < |slots|
    ensures Decoded(slots, bytes, at).fields[i]
         == FieldValue(slots[i].name, Extracted(bytes, 8 * at + Sum(Widths(slots)[..i]), slots[i].v.size))
  {
    NamedAt(slots, Values(Widths(slots), bytes, 8 * at), i);
    ValuesAt(Widths(slots), bytes, 8 * at, i);
    WidthsAt(slots, i);
  }

  /** What is decoded, field by field: the layout's names; the digits that lie behind the fields before it in the frame
      filled up with z zero octets, modulo 2^min(width, 64). */
  lemma {:induction false} DecodedField(slots: seq<Slot>, bytes: seq<byte>, at: nat, i: nat, z: nat)
    requires i < |slots| && 8 * at + Sum(Widths(slots)[..i]) + slots[i].v.size <= 8 * (|bytes| + z)
    ensures var f, w := Decoded(slots, bytes, at).fields[i], slots[i].v.size;
            var behind := 8 * (|bytes| + z) - (8 * at + Sum(Widths(slots)[..i])) - w;
            && f.name == slots[i].name
            && f.value == Number(bytes) * Pow2(8 * z) / Pow2(behind) % Pow2(if w < 64 then w else 64)
  {
    DecodedAt(slots, bytes, at, i);
    ExtractedNumber(bytes, 8 * at + Sum(Widths(slots)[..i]), slots[i].v.size, z);
  }

  /* ---------------- frames ---------------- */

  /** Octets of the first i layers. */
  function BytesBelow(ls: seq<Layer>, i: nat): nat
    requires i <= |ls|
  {
    if i == 0 then 0 else BytesBelow(ls, i - 1) + |ls[i - 1].packet.bytes|
  }

  predicate LayerLies(p: StackedPacket, i: nat)
    requires i < |p.layers|
  {
    var from := BytesBelow(p.layers, i);
    var to := from + |p.layers[i].packet.bytes|;
    to <= |p.bytes| && p.bytes[from..to] == p.layers[i].packet.bytes
  }

  /** The frame is its layers' bytes, the first layer first and nothing else. */
  predicate Stacked(p: StackedPacket) {
    && |p.bytes| == BytesBelow(p.layers, |p.layers|)
    && forall i {:trigger LayerLies(p, i)} | 0 <= i < |p.layers| :: LayerLies(p, i)
  }

  lemma {:induction false} BelowFront(ls: seq<Layer>, l: Layer, i: nat)
    requires i <= |ls|
    ensures BytesBelow(ls + [l], i) == BytesBelow(ls, i)
  {
    if i > 0 { BelowFront(ls, l, i - 1); }
  }

  lemma {:induction false} StackedMore(bytes: seq<byte>, ls: seq<Layer>, l: Layer)
    requires Stacked(StackedPacket(bytes, ls))
    ensures Stacked(StackedPacket(bytes + l.packet.bytes, ls + [l]))
  {
    var p, q := StackedPacket(bytes, ls), StackedPacket(bytes + l.packet.bytes, ls + [l]);
    BelowFront(ls, l, |ls|);
    forall i | 0 <= i < |q.layers| ensures LayerLies(q, i) {
      if i < |ls| {
        BelowFront(ls, l, i);
        assert LayerLies(p, i);
      }
    }
  }

  lemma {:induction false} FrameStackedTo(e: StackState, k: nat)
    requires k <= |e|
    ensures Stacked(StackedPacket(FrameTo(e, k), FrameLayers(e, k)))
  {
    if k > 0 {
      FrameStackedTo(e, k - 1);
      StackedMore(FrameTo(e, k - 1), FrameLayers(e, k - 1), Layer(e[k - 1].serviceName, LayerPacket(e[k - 1].fields)));
    }
  }

  /** What generateStack reports is what it sends: the frame is the reported layers' bytes, bottom-up, and layer i is
      reported under its service with the names and values its context holds. */
  lemma {:induction false} GeneratedStacked(st: StackState, db: VarDb, draws: Draws, pos: nat)
    ensures Stacked(Generated(st, db, draws, pos)) && |Generated(st, db, draws, pos).layers| == |st|
  {
    FrameStackedTo(AfterGenerate(st, db, draws, pos), |st|);
  }

  lemma {:induction false} GeneratedReports(st: StackState, db: VarDb, draws: Draws, pos: nat, i: nat, k: nat)
    requires i < |st| && k < |AfterGenerate(st, db, draws, pos)[i].fields|
    ensures var l, fs := Generated(st, db, draws, pos).layers[i], AfterGenerate(st, db, draws, pos)[i].fields;
            && l.name == st[i].serviceName && l.packet.bytes == LayerPacket(fs).bytes
            && |l.packet.fields| == |fs| && l.packet.fields[k] == FieldValue(fs[k].name, fs[k].value)
  {
    var e := AfterGenerate(st, db, draws, pos);
    GeneratedBinding(st, db, draws, pos);
    FrameLayersAt(e, |e|, i);
    FieldWidthsAt(e[i].fields, |e[i].fields|, k);
  }

  /** The same of a list of interfaces. */
  lemma {:induction false} ListStacked(ifaces: seq<ProtocolInterface>, bs: seq<BuiltPacket>)
    requires |bs| <= |ifaces|
    ensures Stacked(StackedPacket(Join(bs), Labelled(ifaces, bs)))
  {
    if bs != [] {
      var n := |bs| - 1;
      ListStacked(ifaces, bs[..n]);
      StackedMore(Join(bs[..n]), Labelled(ifaces, bs[..n]), Layer(ifaces[n].name, bs[n]));
    }
  }
}
