/** Stacking interfaces without logic modules: generate, concatenate, slice, decode. */
module ListCodec {
  import opened Bits
  import opened FieldCodec
  import opened Layout
  import opened PacketBuilding
  import opened PacketDecoding
  import opened StackCodec
  import opened StackLaws

  /** The layouts of the first k interfaces. */
  function Layouts(ifaces: seq<ProtocolInterface>, k: nat, db: VarDb): (ss: seq<seq<Slot>>)
    requires k <= |ifaces|
    ensures |ss| == k
  {
    if k == 0 then [] else Layouts(ifaces, k - 1, db) + [Slots(ifaces[k - 1].varRefs, db)]
  }

  lemma {:induction false} LayoutAt(ifaces: seq<ProtocolInterface>, k: nat, db: VarDb, i: nat)
    requires i < k <= |ifaces|
    ensures Layouts(ifaces, k, db)[i] == Slots(ifaces[i].varRefs, db)
  {
    if i < k - 1 { LayoutAt(ifaces, k - 1, db, i); }
  }

  /** The packets built for the layouts, each from the draws that follow its predecessors', and the engine position
      afterwards. */
  function BuiltList(ss: seq<seq<Slot>>, draws: Draws, pos: nat): (r: (seq<BuiltPacket>, nat))
    ensures |r.0| == |ss|
  {
    if ss == [] then ([], pos)
    else
      var (bs, p) := BuiltList(ss[..|ss| - 1], draws, pos);
      (bs + [Built(ss[|ss| - 1], map[], draws, p)], p + |ss[|ss| - 1]|)
  }

  /** The packets' bytes, one after the other. */
  function Join(bs: seq<BuiltPacket>): seq<byte> {
    if bs == [] then [] else Join(bs[..|bs| - 1]) + bs[|bs| - 1].bytes
  }

  function Labelled(ifaces: seq<ProtocolInterface>, bs: seq<BuiltPacket>): (ls: seq<Layer>)
    requires |bs| <= |ifaces|
    ensures |ls| == |bs|
  {
    if bs == [] then []
    else Labelled(ifaces, bs[..|bs| - 1]) + [Layer(ifaces[|bs| - 1].name, bs[|bs| - 1])]
  }

  /** Octets of the first k layouts: where layer k starts. */
  function Offset(ss: seq<seq<Slot>>, k: nat): nat
    requires k <= |ss|
  {
    if k == 0 then 0 else Offset(ss, k - 1) + LayoutOctets(ss[k - 1])
  }

  /** The first k layers sliced off and decoded. */
  function DecodedList(ss: seq<seq<Slot>>, k: nat, bytes: seq<byte>): (bs: seq<BuiltPacket>)
    requires k <= |ss|
    ensures |bs| == k
  {
    if k == 0 then [] else DecodedList(ss, k - 1, bytes) + [Decoded(ss[k - 1], bytes, Offset(ss, k - 1))]
  }

  lemma {:induction false} BuiltStep(ss: seq<seq<Slot>>, slots: seq<Slot>, draws: Draws, pos: nat)
    ensures var (bs, p) := BuiltList(ss, draws, pos);
            BuiltList(ss + [slots], draws, pos) == (bs + [Built(slots, map[], draws, p)], p + |slots|)
  {
    assert (ss + [slots])[..|ss|] == ss;
  }

  /** One packet more in a list. */
  lemma {:induction false} ListStep(ifaces: seq<ProtocolInterface>, k: nat, db: VarDb, draws: Draws, pos: nat,
                                    bs: seq<BuiltPacket>, p: nat)
    requires k < |ifaces|
    requires bs == BuiltList(Layouts(ifaces, k, db), draws, pos).0
    requires p == BuiltList(Layouts(ifaces, k, db), draws, pos).1
    ensures var slots := Slots(ifaces[k].varRefs, db);
            var b := Built(slots, map[], draws, p);
            && BuiltList(Layouts(ifaces, k + 1, db), draws, pos).0 == bs + [b]
            && BuiltList(Layouts(ifaces, k + 1, db), draws, pos).1 == p + |slots|
            && Join(bs + [b]) == Join(bs) + b.bytes
            && Labelled(ifaces, bs + [b]) == Labelled(ifaces, bs) + [Layer(ifaces[k].name, b)]
  {
    BuiltStep(Layouts(ifaces, k, db), Slots(ifaces[k].varRefs, db), draws, pos);
    JoinStep(ifaces, bs, Built(Slots(ifaces[k].varRefs, db), map[], draws, p));
  }

  lemma {:induction false} JoinPush(bs: seq<BuiltPacket>, b: BuiltPacket)
    ensures Join(bs + [b]) == Join(bs) + b.bytes
  {
    assert (bs + [b])[..|bs|] == bs;
  }

  lemma {:induction false} JoinStep(ifaces: seq<ProtocolInterface>, bs: seq<BuiltPacket>, b: BuiltPacket)
    requires |bs| < |ifaces|
    ensures Join(bs + [b]) == Join(bs) + b.bytes
    ensures Labelled(ifaces, bs + [b]) == Labelled(ifaces, bs) + [Layer(ifaces[|bs|].name, b)]
  {
    assert (bs + [b])[..|bs|] == bs;
  }

  lemma {:induction false} LabelledAt(ifaces: seq<ProtocolInterface>, bs: seq<BuiltPacket>, i: nat)
    requires i < |bs| <= |ifaces|
    ensures Labelled(ifaces, bs)[i] == Layer(ifaces[i].name, bs[i])
  {
    if i < |bs| - 1 { LabelledAt(ifaces, bs[..|bs| - 1], i); }
  }

  /* ---------------- laws ---------------- */

  /** b carries one value for each field of the layout and its bytes are those values packed. */
  predicate PackedAs(slots: seq<Slot>, b: BuiltPacket) {
    |b.fields| == |slots| && b.bytes == Packed(Widths(slots), Vals(b.fields))
  }

  /** A built packet as it comes off the wire: the same bytes, each value modulo 2^min(width, 64). */
  function OffTheWire(slots: seq<Slot>, b: BuiltPacket): BuiltPacket
    requires |b.fields| == |slots|
  {
    BuiltPacket(b.bytes, Named(slots, AllOnWire(Widths(slots), Vals(b.fields))))
  }

  lemma {:induction false} JoinAround(bs: seq<BuiltPacket>, i: nat) returns (rest: seq<byte>)
    requires i < |bs|
    ensures Join(bs) == Join(bs[..i]) + bs[i].bytes + rest
  {
    var n := |bs| - 1;
    if i == n {
      rest := [];
    } else {
      var r := JoinAround(bs[..n], i);
      assert bs[..n][..i] == bs[..i];
      rest := r + bs[n].bytes;
    }
  }

  lemma {:induction false} JoinSize(ss: seq<seq<Slot>>, bs: seq<BuiltPacket>, k: nat)
    requires |ss| == |bs| && k <= |ss| && forall i | 0 <= i < |ss| :: PackedAs(ss[i], bs[i])
    ensures |Join(bs[..k])| == Offset(ss, k)
  {
    if k > 0 {
      JoinSize(ss, bs, k - 1);
      assert bs[..k][..k - 1] == bs[..k - 1];
      assert PackedAs(ss[k - 1], bs[k - 1]);
    }
  }

  /** A packed layer decodes to itself off the wire, wherever it lies in a frame. */
  lemma {:induction false} PacketRoundTrip(slots: seq<Slot>, b: BuiltPacket, before: seq<byte>, after: seq<byte>)
    requires PackedAs(slots, b)
    ensures Decoded(slots, before + b.bytes + after, |before|) == OffTheWire(slots, b)
  {
    RoundTrip(Widths(slots), Vals(b.fields), before, after);
    assert Slice(before + b.bytes + after, |before|, |b.bytes|) == b.bytes;
  }

  lemma {:induction false} DecodedAt(ss: seq<seq<Slot>>, k: nat, bytes: seq<byte>, i: nat)
    requires i < k <= |ss|
    ensures DecodedList(ss, k, bytes)[i] == Decoded(ss[i], bytes, Offset(ss, i))
  {
    if i < k - 1 { DecodedAt(ss, k - 1, bytes, i); }
  }

  lemma {:induction false} BuiltPacked(ss: seq<seq<Slot>>, draws: Draws, pos: nat, i: nat)
    requires i < |ss|
    ensures PackedAs(ss[i], BuiltList(ss, draws, pos).0[i])
  {
    if i < |ss| - 1 { BuiltPacked(ss[..|ss| - 1], draws, pos, i); }
  }

  lemma {:induction false} PackedRoundTrip(ss: seq<seq<Slot>>, bs: seq<BuiltPacket>, i: nat)
    requires |ss| == |bs| && i < |ss| && forall j | 0 <= j < |ss| :: PackedAs(ss[j], bs[j])
    ensures |bs[i].fields| == |ss[i]| && DecodedList(ss, |ss|, Join(bs))[i] == OffTheWire(ss[i], bs[i])
  {
    assert PackedAs(ss[i], bs[i]);
    DecodedAt(ss, |ss|, Join(bs), i);
    var rest := JoinAround(bs, i);
    JoinSize(ss, bs, i);
    PacketRoundTrip(ss[i], bs[i], Join(bs[..i]), rest);
  }

  /** The interface-list round trip asks nothing of the names: whatever the interfaces and the draws, decoding the
      concatenated frame gives every layer back off the wire. */
  lemma {:induction false} ListRoundTrip(ss: seq<seq<Slot>>, draws: Draws, pos: nat, i: nat)
    requires i < |ss|
    ensures var bs := BuiltList(ss, draws, pos).0;
            |bs[i].fields| == |ss[i]| && DecodedList(ss, |ss|, Join(bs))[i] == OffTheWire(ss[i], bs[i])
  {
    var bs := BuiltList(ss, draws, pos).0;
    forall j | 0 <= j < |ss| ensures PackedAs(ss[j], bs[j]) {
      BuiltPacked(ss, draws, pos, j);
    }
    assert PackedAs(ss[i], bs[i]);
    PackedRoundTrip(ss, bs, i);
  }

  /** For any frame, short or long, the slices of the first k layers put together are the part of the frame they
      cover. */
  lemma {:induction false} ListSlices(ss: seq<seq<Slot>>, k: nat, bytes: seq<byte>)
    requires k <= |ss|
    ensures Join(DecodedList(ss, k, bytes)) == Covered(bytes, Offset(ss, k))
  {
    if k > 0 {
      ListSlices(ss, k - 1, bytes);
      var below := DecodedList(ss, k - 1, bytes);
      var b := Decoded(ss[k - 1], bytes, Offset(ss, k - 1));
      JoinPush(below, b);
      SliceExtends(bytes, Offset(ss, k - 1), Offset(ss, k));
    }
  }
}
