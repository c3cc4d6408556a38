/** Packing and unpacking as arithmetic: a buffer read as one big-endian number. */
module PackedNumbers {
  import opened Bits
  import opened Packing
  import opened FieldCodec

  /** The octets as the digits of one number, the first most significant. */
  function Number(buf: seq<byte>): nat {
    if buf == [] then 0 else 256 * Number(buf[..|buf| - 1]) + buf[|buf| - 1]
  }

  /** The fields' values one after the other as the digits of one number, each taken modulo 2^width. */
  function Digits(ws: seq<Width>, vs: seq<u64>): nat
    requires |ws| == |vs|
  {
    if ws == [] then 0
    else
      var n := |ws| - 1;
      Digits(ws[..n], vs[..n]) * Pow2(ws[n]) + vs[n] % Pow2(ws[n])
  }

  lemma {:induction false} OctetBit(a: nat, b: byte, t: nat)
    ensures Bit(256 * a + b, t) == if t < 8 then Bit(b, t) else Bit(a, t - 8)
  {
    Pow2Eight();
    OrDisjoint(b, a, 8);
    BitOr(b, a * Pow2(8), t);
    BitShl(a, 8, t);
    if t >= 8 { BitsAbove(b, 8, t); }
  }

  /** Bit t of the number is bit t of the buffer from the end. */
  lemma {:induction false} NumberBit(buf: seq<byte>, t: nat)
    ensures Bit(Number(buf), t) == if t < 8 * |buf| then BitAt(buf, 8 * |buf| - 1 - t) else 0
  {
    if buf == [] {
      BitZero(t);
    } else {
      var n := |buf| - 1;
      OctetBit(Number(buf[..n]), buf[n], t);
      if t < 8 {
        assert (8 * |buf| - 1 - t) / 8 == n && (8 * |buf| - 1 - t) % 8 == 7 - t;
      } else {
        NumberBit(buf[..n], t - 8);
        if t < 8 * |buf| { assert (8 * n - 1 - (t - 8)) / 8 < n; }
      }
    }
  }

  lemma {:induction false} NumberBound(buf: seq<byte>)
    ensures Number(buf) < Pow2(8 * |buf|)
  {
    if buf != [] {
      var n := |buf| - 1;
      NumberBound(buf[..n]);
      Pow2Add(8 * n, 8);
      Pow2Eight();
    }
  }

  /** Numbers with the same bits are the same number. */
  lemma {:induction false} SameBits(a: nat, b: nat, n: nat)
    requires a < Pow2(n) && b < Pow2(n)
    requires forall t: nat :: Bit(a, t) == Bit(b, t)
    ensures a == b
  {
    BitExt(a, b, n);
  }

  lemma {:induction false} FromBitsPush(s: seq<bit>, b: bit)
    ensures FromBits(s + [b]) == 2 * FromBits(s) + b
  {
    assert (s + [b])[..|s|] == s;
  }

  lemma {:induction false} ShiftOne(x: nat, n: nat)
    ensures x * Pow2(n + 1) == 2 * (x * Pow2(n))
  {
    assert Pow2(n + 1) == 2 * Pow2(n);
  }

  lemma {:induction false} FromBitsConcat(a: seq<bit>, b: seq<bit>)
    ensures FromBits(a + b) == FromBits(a) * Pow2(|b|) + FromBits(b)
    decreases |b|
  {
    if b == [] {
      assert a + b == a;
    } else {
      var front, last := b[..|b| - 1], b[|b| - 1];
      FromBitsConcat(a, front);
      FromBitsPush(a + front, last);
      FromBitsPush(front, last);
      ShiftOne(FromBits(a), |front|);
      assert b == front + [last] && a + b == a + front + [last];
    }
  }

  lemma {:induction false} DigitsAreBits(ws: seq<Width>, vs: seq<u64>)
    requires |ws| == |vs|
    ensures FromBits(PackedBits(ws, vs)) == Digits(ws, vs)
  {
    if ws != [] {
      var n := |ws| - 1;
      DigitsAreBits(ws[..n], vs[..n]);
      FromBitsConcat(PackedBits(ws[..n], vs[..n]), ToBits(vs[n], ws[n]));
      FromToBits(vs[n], ws[n]);
      LowIsMod(vs[n], ws[n]);
    }
  }

  lemma {:induction false} PaddedBit(bs: seq<bit>, pad: nat, t: nat)
    requires pad == 8 * |ToBytes(bs)| - |bs|
    ensures Bit(Number(ToBytes(bs)), t) == Bit(FromBits(bs) * Pow2(pad), t)
  {
    var n := 8 * |ToBytes(bs)|;
    NumberBit(ToBytes(bs), t);
    BitShl(FromBits(bs), pad, t);
    if t < n { BitAtToBytes(bs, n - 1 - t); }
    if t >= pad { BitFromBits(bs, t - pad); }
  }

  /** A bit stream padded to whole octets is its number shifted left. */
  lemma {:induction false} PaddedNumber(bs: seq<bit>)
    ensures Number(ToBytes(bs)) == FromBits(bs) * Pow2(8 * |ToBytes(bs)| - |bs|)
  {
    var pad := 8 * |ToBytes(bs)| - |bs|;
    forall t: nat ensures Bit(Number(ToBytes(bs)), t) == Bit(FromBits(bs) * Pow2(pad), t) { PaddedBit(bs, pad, t); }
    NumberBound(ToBytes(bs));
    FromBitsBound(bs);
    ShiftedBound(FromBits(bs), |bs|, pad);
    SameBits(Number(ToBytes(bs)), FromBits(bs) * Pow2(pad), 8 * |ToBytes(bs)|);
  }

  lemma {:induction false} ShiftedBound(v: nat, n: nat, pad: nat)
    requires v < Pow2(n)
    ensures v * Pow2(pad) < Pow2(n + pad)
  {
    Pow2Add(n, pad);
    assert (Pow2(n) - v) * Pow2(pad) > 0 by { PositiveProduct(Pow2(n) - v, Pow2(pad)); }
    assert (Pow2(n) - v) * Pow2(pad) == Pow2(n) * Pow2(pad) - v * Pow2(pad);
  }

  lemma {:induction false} PositiveProduct(a: nat, b: nat)
    requires a > 0 && b > 0
    ensures a * b > 0
  {
  }

  /** What packing writes, for any fields: ceil(bits / 8) octets, which read as one big-endian number are the values
      modulo 2^width one after the other, shifted left past the padding. */
  lemma {:induction false} PackedNumber(ws: seq<Width>, vs: seq<u64>)
    requires |ws| == |vs|
    ensures |Packed(ws, vs)| == (Sum(ws) + 7) / 8
    ensures Number(Packed(ws, vs)) == Digits(ws, vs) * Pow2(8 * |Packed(ws, vs)| - Sum(ws))
  {
    PaddedNumber(PackedBits(ws, vs));
    DigitsAreBits(ws, vs);
  }

  lemma {:induction false} ReadBit(buf: seq<byte>, off: nat, n: nat, z: nat, s: nat, m: nat, k: nat)
    requires s + off + n == 8 * (|buf| + z) && m == Min(n, 64)
    ensures Bit(Extracted(buf, off, n), k) == Bit(Low(Halved(Number(buf) * Pow2(8 * z), s), m), k)
  {
    var shifted := Number(buf) * Pow2(8 * z);
    BitExtracted(buf, off, n, k);
    BitLow(Halved(shifted, s), m, k);
    BitHalved(shifted, s, k);
    BitShl(Number(buf), 8 * z, k + s);
    if k < m { FieldBit(buf, off, n, z, k); }
  }

  /** What unpacking reads at any offset of a buffer followed by z zero octets that reach past the field: the buffer's
      number shifted right until the field is lowest, modulo 2^min(width, 64). */
  lemma {:induction false} ExtractedNumber(buf: seq<byte>, off: nat, n: nat, z: nat)
    requires off + n <= 8 * (|buf| + z)
    ensures Extracted(buf, off, n)
         == Number(buf) * Pow2(8 * z) / Pow2(8 * (|buf| + z) - off - n) % Pow2(if n < 64 then n else 64)
  {
    var m, s := Min(n, 64), 8 * (|buf| + z) - off - n;
    var read := Low(Halved(Number(buf) * Pow2(8 * z), s), m);
    HalvedIs(Number(buf) * Pow2(8 * z), s);
    LowIsMod(Halved(Number(buf) * Pow2(8 * z), s), m);
    forall k: nat ensures Bit(Extracted(buf, off, n), k) == Bit(read, k) { ReadBit(buf, off, n, z, s, m, k); }
    LowBound(Halved(Number(buf) * Pow2(8 * z), s), m);
    ExtractedBound(buf, off, n);
    SameBits(Extracted(buf, off, n), read, m);
  }

  lemma {:induction false} FieldBit(buf: seq<byte>, off: nat, n: nat, z: nat, k: nat)
    requires off + n <= 8 * (|buf| + z) && k < n
    ensures var t := k + (8 * (|buf| + z) - off - n);
            BitAt(buf, off + n - 1 - k) == if t < 8 * z then 0 else Bit(Number(buf), t - 8 * z)
  {
    var t := k + (8 * (|buf| + z) - off - n);
    if t >= 8 * z {
      NumberBit(buf, t - 8 * z);
      assert 8 * |buf| - 1 - (t - 8 * z) == off + n - 1 - k;
    }
  }

  lemma {:induction false} ExtractedBound(buf: seq<byte>, off: nat, n: nat)
    ensures Extracted(buf, off, n) < Pow2(if n < 64 then n else 64)
  {
    var m := Min(n, 64);
    FromBitsBound(Window(buf, off + (n - m), m));
  }

  /** What the wire carries of a value. */
  lemma {:induction false} OnWireIs(v: u64, w: nat)
    ensures OnWire(v, w) == v % Pow2(if w < 64 then w else 64)
  {
    LowIsMod(v, Min(w, 64));
  }
}
