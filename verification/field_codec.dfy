/** Laws of packing and unpacking a whole list of fields. */
module FieldCodec {
  import opened Bits
  import opened Packing

  function Sum(ws: seq<Width>): nat {
    if ws == [] then 0 else Sum(ws[..|ws| - 1]) + ws[|ws| - 1]
  }

  /** The fields' bits one after the other, each field most significant bit first. */
  function PackedBits(ws: seq<Width>, vs: seq<u64>): (bs: seq<bit>)
    requires |ws| == |vs|
    ensures |bs| == Sum(ws)
  {
    if ws == [] then []
    else PackedBits(ws[..|ws| - 1], vs[..|vs| - 1]) + ToBits(vs[|vs| - 1], ws[|ws| - 1])
  }

  function Packed(ws: seq<Width>, vs: seq<u64>): (buf: seq<byte>)
    requires |ws| == |vs|
    ensures |buf| == Octets(Sum(ws))
  {
    ToBytes(PackedBits(ws, vs))
  }

  /** The values found by reading fields of these widths from bit off on. */
  function Values(ws: seq<Width>, buf: seq<byte>, off: nat): (vs: seq<u64>)
    ensures |vs| == |ws|
  {
    if ws == [] then []
    else
      var init := ws[..|ws| - 1];
      Values(init, buf, off) + [Extracted(buf, off + Sum(init), ws[|ws| - 1])]
  }

  lemma {:induction false} ValuesAt(ws: seq<Width>, buf: seq<byte>, off: nat, i: nat)
    requires i < |ws|
    ensures Values(ws, buf, off)[i] == Extracted(buf, off + Sum(ws[..i]), ws[i])
  {
    if i < |ws| - 1 {
      ValuesAt(ws[..|ws| - 1], buf, off, i);
      assert ws[..|ws| - 1][..i] == ws[..i];
    }
  }

  /** What the wire carries of a value: its low min(width, 64) bits. */
  function OnWire(v: u64, w: nat): (r: u64)
    ensures r <= v
  {
    Low(v, Min(w, 64))
  }

  function AllOnWire(ws: seq<Width>, vs: seq<u64>): (r: seq<u64>)
    requires |ws| == |vs|
    ensures |r| == |vs| && forall i | 0 <= i < |r| :: r[i] == OnWire(vs[i], ws[i])
  {
    if ws == [] then []
    else AllOnWire(ws[..|ws| - 1], vs[..|vs| - 1]) + [OnWire(vs[|vs| - 1], ws[|ws| - 1])]
  }

  lemma {:induction false} ExtractedOnWire(buf: seq<byte>, off: nat, v: u64, w: nat)
    requires Window(buf, off, w) == ToBits(v, w)
    ensures Extracted(buf, off, w) == OnWire(v, w)
  {
    var m := Min(w, 64);
    WindowSlice(buf, off, w, w - m, m);
    assert ToBits(v, w)[w - m..w] == ToBits(v, m);
    assert off + (w - m) == off + w - m;
    FromToBits(v, m);
  }

  /** Whatever surrounds the packed bits, reading them back gives each value modulo 2^min(width, 64). */
  lemma {:induction false} ReadsPacked(ws: seq<Width>, vs: seq<u64>, buf: seq<byte>, off: nat)
    requires |ws| == |vs|
    requires Window(buf, off, Sum(ws)) == PackedBits(ws, vs)
    ensures Values(ws, buf, off) == AllOnWire(ws, vs)
  {
    if ws != [] {
      var n := |ws| - 1;
      var s := Sum(ws[..n]);
      WindowSlice(buf, off, Sum(ws), 0, s);
      assert PackedBits(ws, vs)[..s] == PackedBits(ws[..n], vs[..n]);
      ReadsPacked(ws[..n], vs[..n], buf, off);
      WindowSlice(buf, off, Sum(ws), s, ws[n]);
      assert PackedBits(ws, vs)[s..] == ToBits(vs[n], ws[n]);
      ExtractedOnWire(buf, off + s, vs[n], ws[n]);
    }
  }

  lemma {:induction false} BitAtConcat(a: seq<byte>, b: seq<byte>, k: nat)
    ensures BitAt(a + b, k) == if k < 8 * |a| then BitAt(a, k) else BitAt(b, k - 8 * |a|)
  {
    if k >= 8 * |a| {
      assert (k - 8 * |a|) / 8 == k / 8 - |a| && (k - 8 * |a|) % 8 == k % 8;
    }
  }

  /** Round trip at any octet offset of any frame. */
  lemma {:induction false} RoundTrip(ws: seq<Width>, vs: seq<u64>, before: seq<byte>, after: seq<byte>)
    requires |ws| == |vs|
    ensures Values(ws, before + Packed(ws, vs) + after, 8 * |before|) == AllOnWire(ws, vs)
  {
    var p := Packed(ws, vs);
    var off := 8 * |before|;
    var w := Window(before + p + after, off, Sum(ws));
    forall k | 0 <= k < Sum(ws) ensures w[k] == PackedBits(ws, vs)[k] {
      BitAtConcat(before + p, after, off + k);
      BitAtConcat(before, p, off + k);
      BitAtToBytes(PackedBits(ws, vs), k);
    }
    ReadsPacked(ws, vs, before + p + after, off);
  }

  lemma {:induction false} ExtractedCongruent(a: seq<byte>, offA: nat, b: seq<byte>, offB: nat, w: nat)
    requires Window(a, offA, w) == Window(b, offB, w)
    ensures Extracted(a, offA, w) == Extracted(b, offB, w)
  {
    var m := Min(w, 64);
    WindowSlice(a, offA, w, w - m, m);
    WindowSlice(b, offB, w, w - m, m);
  }

  /** Decoding looks only at the bits of the layer's own window. */
  lemma {:induction false} ValuesCongruent(ws: seq<Width>, a: seq<byte>, offA: nat, b: seq<byte>, offB: nat)
    requires Window(a, offA, Sum(ws)) == Window(b, offB, Sum(ws))
    ensures Values(ws, a, offA) == Values(ws, b, offB)
  {
    if ws != [] {
      var n := |ws| - 1;
      var s := Sum(ws[..n]);
      WindowSlice(a, offA, Sum(ws), 0, s);
      WindowSlice(b, offB, Sum(ws), 0, s);
      ValuesCongruent(ws[..n], a, offA, b, offB);
      WindowSlice(a, offA, Sum(ws), s, ws[n]);
      WindowSlice(b, offB, Sum(ws), s, ws[n]);
      ExtractedCongruent(a, offA + s, b, offB + s, ws[n]);
    }
  }

  lemma {:induction false} ZerosBit(zeros: seq<byte>, k: nat)
    requires forall z | z in zeros :: z == 0
    ensures BitAt(zeros, k) == 0
  {
    BitZero(7 - k % 8);
    if k / 8 < |zeros| { assert zeros[k / 8] in zeros; }
  }

  /** A frame cut short decodes to the same values as the frame filled up with zero octets. */
  lemma {:induction false} ZeroExtension(ws: seq<Width>, buf: seq<byte>, zeros: seq<byte>, off: nat)
    requires forall z | z in zeros :: z == 0
    ensures Values(ws, buf, off) == Values(ws, buf + zeros, off)
  {
    var a, b := Window(buf, off, Sum(ws)), Window(buf + zeros, off, Sum(ws));
    forall k | 0 <= k < Sum(ws) ensures a[k] == b[k] {
      BitAtConcat(buf, zeros, off + k);
      if off + k >= 8 * |buf| { ZerosBit(zeros, off + k - 8 * |buf|); }
    }
    ValuesCongruent(ws, buf, off, buf + zeros, off);
  }

  /** Bit k of the layout belongs to a field and is among the low 64 bits of that field. */
  predicate Kept(ws: seq<Width>, k: nat) {
    if k >= Sum(ws) then false
    else if k >= Sum(ws[..|ws| - 1]) then Sum(ws) - 1 - k < 64
    else Kept(ws[..|ws| - 1], k)
  }

  /** The bits of one field read at bit off and packed again. */
  lemma {:induction false} ReencodedBit(buf: seq<byte>, off: nat, w: Width, j: nat)
    requires j < w
    ensures ToBits(Extracted(buf, off, w), w)[j] == if w - 1 - j < 64 then BitAt(buf, off + j) else 0
  {
    BitExtracted(buf, off, w, w - 1 - j);
    assert off + w - 1 - (w - 1 - j) == off + j;
  }

  lemma {:induction false} ReencodedBits(ws: seq<Width>, buf: seq<byte>, off: nat, k: nat)
    requires k < Sum(ws)
    ensures PackedBits(ws, Values(ws, buf, off))[k] == if Kept(ws, k) then BitAt(buf, off + k) else 0
  {
    var n := |ws| - 1;
    var init, s := ws[..n], Sum(ws[..n]);
    assert Values(ws, buf, off)[..n] == Values(init, buf, off);
    if k < s {
      ReencodedBits(init, buf, off, k);
    } else {
      ReencodedBit(buf, off + s, ws[n], k - s);
      assert off + s + (k - s) == off + k;
    }
  }

  /** Packing what was decoded projects the slice: padding and bits above the low 64 are cleared, every other
      bit is the buffer's (zero past its end). */
  lemma {:induction false} Reencode(ws: seq<Width>, buf: seq<byte>, off: nat, k: nat)
    ensures BitAt(Packed(ws, Values(ws, buf, off)), k) == if Kept(ws, k) then BitAt(buf, off + k) else 0
  {
    BitAtToBytes(PackedBits(ws, Values(ws, buf, off)), k);
    if k < Sum(ws) { ReencodedBits(ws, buf, off, k); }
  }

  lemma {:induction false} ExtractedFits(buf: seq<byte>, off: nat, w: nat)
    ensures OnWire(Extracted(buf, off, w), w) == Extracted(buf, off, w)
  {
    var m := Min(w, 64);
    FromBitsBound(Window(buf, off + (w - m), m));
    LowFits(Extracted(buf, off, w), m);
  }

  lemma {:induction false} DecodedFit(ws: seq<Width>, buf: seq<byte>, off: nat)
    ensures AllOnWire(ws, Values(ws, buf, off)) == Values(ws, buf, off)
  {
    if ws != [] {
      var n := |ws| - 1;
      var vs := Values(ws, buf, off);
      assert vs[..n] == Values(ws[..n], buf, off);
      DecodedFit(ws[..n], buf, off);
      ExtractedFits(buf, off + Sum(ws[..n]), ws[n]);
      assert AllOnWire(ws, vs) == vs[..n] + [vs[n]];
    }
  }

  /** Decode after encode after decode equals decode. */
  lemma {:induction false} DecodeStable(ws: seq<Width>, buf: seq<byte>, off: nat)
    ensures Values(ws, Packed(ws, Values(ws, buf, off)), 0) == Values(ws, buf, off)
  {
    var p := Packed(ws, Values(ws, buf, off));
    RoundTrip(ws, Values(ws, buf, off), [], []);
    assert [] + p + [] == p;
    DecodedFit(ws, buf, off);
  }

  lemma {:induction false} KeptAll(ws: seq<Width>, k: nat)
    requires forall w | w in ws :: w <= 64
    requires k < Sum(ws)
    ensures Kept(ws, k)
  {
    var n := |ws| - 1;
    assert ws[n] in ws;
    assert forall w | w in ws[..n] :: w in ws;
    if k < Sum(ws[..n]) { KeptAll(ws[..n], k); }
  }

  lemma {:induction false} BitAtSlice(buf: seq<byte>, at: nat, len: nat, k: nat)
    requires at + len <= |buf| && k < 8 * len
    ensures BitAt(buf[at..at + len], k) == BitAt(buf, 8 * at + k)
  {
    assert (8 * at + k) / 8 == at + k / 8 && (8 * at + k) % 8 == k % 8;
  }

  /** For a layout of whole octets without over-wide fields, encode inverts decode exactly. */
  lemma {:induction false} ReencodeExact(ws: seq<Width>, buf: seq<byte>, at: nat)
    requires forall w | w in ws :: w <= 64
    requires Sum(ws) % 8 == 0 && at + Octets(Sum(ws)) <= |buf|
    ensures Packed(ws, Values(ws, buf, 8 * at)) == buf[at..at + Octets(Sum(ws))]
  {
    var p := Packed(ws, Values(ws, buf, 8 * at));
    var slice := buf[at..at + Octets(Sum(ws))];
    assert 8 * Octets(Sum(ws)) == Sum(ws);
    forall k | 0 <= k < 8 * |p| ensures BitAt(p, k) == BitAt(slice, k) {
      Reencode(ws, buf, 8 * at, k);
      KeptAll(ws, k);
      BitAtSlice(buf, at, Octets(Sum(ws)), k);
    }
    BufferExt(p, slice);
  }
}
