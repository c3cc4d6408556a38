/** PacketDecoder: the inverse of PacketBuilder at any octet offset of a frame. */
module PacketDecoding {
  import opened Bits
  import opened Packing
  import opened FieldCodec
  import opened Layout

  /** The part of a frame a layer of len octets at this offset covers, cut at the end of the frame. */
  function Slice(bytes: seq<byte>, at: nat, len: nat): seq<byte> {
    var end := Min(at + len, |bytes|);
    if at < end then bytes[at..end] else []
  }

  function Decoded(slots: seq<Slot>, bytes: seq<byte>, at: nat): BuiltPacket {
    BuiltPacket(Slice(bytes, at, LayoutOctets(slots)), Named(slots, Values(Widths(slots), bytes, 8 * at)))
  }

  /** PacketDecoder::layerBytes */
  method LayerBytes(iface: ProtocolInterface, db: VarDb) returns (n: nat)
    ensures n == LayoutOctets(Slots(iface.varRefs, db))
    ensures n == (RefBits(iface.varRefs, |iface.varRefs|, db) + 7) / 8
  {
    var refs := iface.varRefs;
    var totalBits := 0;
    for k := 0 to |refs|
      invariant totalBits == RefBits(refs, k, db)
    {
      if refs[k] in db {
        totalBits := totalBits + db[refs[k]].size;
      }
    }
    LayoutBits(refs, |refs|, db);
    n := (totalBits + 7) / 8;
  }

  lemma {:induction false} ValuesStep(slots: seq<Slot>, s: Slot, bytes: seq<byte>, off: nat)
    ensures var v := Extracted(bytes, off + Sum(Widths(slots)), s.v.size);
            Named(slots + [s], Values(Widths(slots + [s]), bytes, off)) ==
            Named(slots, Values(Widths(slots), bytes, off)) + [FieldValue(s.name, v)]
  {
    WidthsStep(slots, s);
    assert Widths(slots + [s])[..|slots|] == Widths(slots);
  }

  /** The body of the decode loop for a field that takes room. */
  method DecodeField(bytes: seq<byte>, bitOffset0: nat, fields0: seq<FieldValue>, v: Var, name: string,
                     ghost slots: seq<Slot>, ghost off: nat)
    returns (bitOffset: nat, fields: seq<FieldValue>)
    requires bitOffset0 == off + Sum(Widths(slots)) && fields0 == Named(slots, Values(Widths(slots), bytes, off))
    ensures var slots1 := slots + [Slot(name, v)];
            bitOffset == off + Sum(Widths(slots1)) && fields == Named(slots1, Values(Widths(slots1), bytes, off))
  {
    var value;
    value, bitOffset := ExtractBits(bytes, bitOffset0, v.size);
    fields := fields0 + [FieldValue(name, value)];
    ValuesStep(slots, Slot(name, v), bytes, off);
    WidthsStep(slots, Slot(name, v));
  }

  /** The fields of a layer, read from its octet offset on. */
  method DecodeFields(refs: seq<string>, db: VarDb, bytes: seq<byte>, byteOffset: nat) returns (fields: seq<FieldValue>)
    ensures fields == Named(Slots(refs, db), Values(Widths(Slots(refs, db)), bytes, 8 * byteOffset))
  {
    var bitOffset := 8 * byteOffset;
    fields := [];
    ghost var slots: seq<Slot> := [];
    for k := 0 to |refs|
      invariant slots == SlotsTo(refs, k, db)
      invariant bitOffset == 8 * byteOffset + Sum(Widths(slots))
      invariant fields == Named(slots, Values(Widths(slots), bytes, 8 * byteOffset))
    {
      if refs[k] !in db || db[refs[k]].size == 0 {
        continue;
      }
      var v, shortName := db[refs[k]], ShortName(refs[k]);
      bitOffset, fields := DecodeField(bytes, bitOffset, fields, v, shortName, slots, 8 * byteOffset);
      slots := slots + [Slot(shortName, v)];
    }
  }

  /** PacketDecoder::decode */
  method Decode(iface: ProtocolInterface, db: VarDb, bytes: seq<byte>, byteOffset: nat) returns (result: BuiltPacket)
    ensures result == Decoded(Slots(iface.varRefs, db), bytes, byteOffset)
    ensures var end := byteOffset + (RefBits(iface.varRefs, |iface.varRefs|, db) + 7) / 8;
            result.bytes == if byteOffset >= |bytes| then []
                            else if end <= |bytes| then bytes[byteOffset..end] else bytes[byteOffset..]
  {
    var fields := DecodeFields(iface.varRefs, db, bytes, byteOffset);
    var layerLen := LayerBytes(iface, db);
    var end := if byteOffset + layerLen <= |bytes| then byteOffset + layerLen else |bytes|;
    if byteOffset < end {
      result := BuiltPacket(bytes[byteOffset..end], fields);
    } else {
      result := BuiltPacket([], fields);
    }
  }
}
