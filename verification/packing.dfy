/** The MSB-first bit packer and unpacker, and the bit-stream specification both refine. */
module Packing {
  import opened Bits

  /** Bit k of a buffer, most significant bit of each octet first; zero past the end. */
  function BitAt(buf: seq<byte>, k: nat): bit {
    if k / 8 < |buf| then Bit(buf[k / 8], 7 - k % 8) else 0
  }

  /** The bits of the octet at index i of a bit stream, zero past the end of the stream. */
  function OctetBits(bs: seq<bit>, i: nat): seq<bit> {
    seq(8, j requires 0 <= j < 8 => if 8 * i + j < |bs| then bs[8 * i + j] else 0)
  }

  /** The octet at index i of a bit stream. */
  function OctetAt(bs: seq<bit>, i: nat): byte {
    FromBitsBound(OctetBits(bs, i));
    Pow2Eight();
    FromBits(OctetBits(bs, i))
  }

  /** A bit stream padded with zeros to whole octets. */
  function ToBytes(bs: seq<bit>): (buf: seq<byte>)
    ensures |buf| == Octets(|bs|)
  {
    seq(Octets(|bs|), i requires 0 <= i < Octets(|bs|) => OctetAt(bs, i))
  }

  /** ToBytes(bs) read as bits is bs followed by zeros. */
  lemma {:induction false} BitAtToBytes(bs: seq<bit>, k: nat)
    ensures BitAt(ToBytes(bs), k) == if k < |bs| then bs[k] else 0
  {
    if k / 8 < Octets(|bs|) {
      BitFromBits(OctetBits(bs, k / 8), 7 - k % 8);
    }
  }

  /** Buffers of one size with the same bits are the same buffer. */
  lemma {:induction false} BufferExt(a: seq<byte>, b: seq<byte>)
    requires |a| == |b|
    requires forall k | 0 <= k < 8 * |a| :: BitAt(a, k) == BitAt(b, k)
    ensures a == b
  {
    forall i | 0 <= i < |a| ensures a[i] == b[i] {
      forall q | 0 <= q < 8 ensures Bit(a[i], q) == Bit(b[i], q) {
        var k := 8 * i + (7 - q);
        assert BitAt(a, k) == BitAt(b, k);
        assert k / 8 == i && 7 - k % 8 == q;
      }
      Pow2Eight();
      BitExt(a[i], b[i], 8);
    }
  }

  lemma {:induction false} ToBytesUnique(buf: seq<byte>, bs: seq<bit>)
    requires |buf| == Octets(|bs|)
    requires forall k | 0 <= k < 8 * |buf| :: BitAt(buf, k) == if k < |bs| then bs[k] else 0
    ensures buf == ToBytes(bs)
  {
    forall k | 0 <= k < 8 * |buf| ensures BitAt(buf, k) == BitAt(ToBytes(bs), k) {
      BitAtToBytes(bs, k);
    }
    BufferExt(buf, ToBytes(bs));
  }

  /** buf is buf0 with the low n bits of value OR-ed in from bit off on, most significant first. */
  ghost predicate OredIn(buf0: seq<byte>, off: nat, value: nat, n: nat, buf: seq<byte>) {
    && |buf| == Max(|buf0|, Octets(off + n))
    && forall k: nat :: BitAt(buf, k) ==
         if off <= k < off + n then Max(BitAt(buf0, k), Bit(value, off + n - 1 - k)) else BitAt(buf0, k)
  }

  /** What `octet |= bit << p` does to each bit of the octet. */
  lemma {:induction false} SetBit(octet: byte, b: bit, p: nat)
    requires p < 8
    ensures Or(octet, b * Pow2(p)) < 256
    ensures forall q: nat :: Bit(Or(octet, b * Pow2(p)), q) == if q == p then Max(Bit(octet, q), b) else Bit(octet, q)
  {
    Pow2Mono(p, 7);
    Pow2Eight();
    assert b * Pow2(p) < 256;
    OrBound(octet, b * Pow2(p), 8);
    forall q: nat
      ensures Bit(Or(octet, b * Pow2(p)), q) == if q == p then Max(Bit(octet, q), b) else Bit(octet, q)
    {
      BitOr(octet, b * Pow2(p), q);
      BitShl(b, p, q);
      if q > p { BitZero(q - p - 1); }
    }
  }

  /** One turn of the packing loop, seen on the bits. */
  lemma {:induction false} SetBitAt(buf0: seq<byte>, off: nat, b: bit, buf: seq<byte>)
    requires off <= 8 * |buf0|
    requires |buf| == Max(|buf0|, off / 8 + 1)
    requires forall i | 0 <= i < |buf| && i != off / 8 :: buf[i] == buf0[i]
    requires buf[off / 8] == Or(if off / 8 < |buf0| then buf0[off / 8] else 0, b * Pow2(7 - off % 8))
    ensures forall k: nat :: BitAt(buf, k) == if k == off then Max(BitAt(buf0, k), b) else BitAt(buf0, k)
  {
    SetBit(if off / 8 < |buf0| then buf0[off / 8] else 0, b, 7 - off % 8);
    forall k: nat
      ensures BitAt(buf, k) == if k == off then Max(BitAt(buf0, k), b) else BitAt(buf0, k)
    {
      BitZero(7 - k % 8);
      assert k == 8 * (k / 8) + k % 8 && off == 8 * (off / 8) + off % 8;
    }
  }

  /** PacketBuilder::appendBits. The vector and the offset are in/out. */
  method AppendBits(buf0: seq<byte>, bitOffset0: nat, value: u64, numBits: Width)
    returns (buf: seq<byte>, bitOffset: nat)
    requires bitOffset0 <= 8 * |buf0|
    ensures bitOffset == bitOffset0 + numBits
    ensures OredIn(buf0, bitOffset0, value, numBits, buf)
  {
    buf, bitOffset := buf0, bitOffset0;
    for i := numBits downto 0
      invariant bitOffset == bitOffset0 + (numBits - i)
      invariant |buf| == Max(|buf0|, Octets(bitOffset))
      invariant forall k: nat :: BitAt(buf, k) ==
                  if bitOffset0 <= k < bitOffset
                  then Max(BitAt(buf0, k), Bit(value, bitOffset0 + numBits - 1 - k))
                  else BitAt(buf0, k)
    {
      var b: bit := if i < 64 then Bit(value, i) else 0;
      if i >= 64 { Pow2Word(); BitsAbove(value, 64, i); }
      var byteIdx := bitOffset / 8;
      var bitInByte := 7 - bitOffset % 8;
      ghost var before := buf;
      if byteIdx >= |buf| {
        buf := buf + [0];
      }
      SetBit(buf[byteIdx], b, bitInByte);
      buf := buf[byteIdx := Or(buf[byteIdx], b * Pow2(bitInByte))];
      SetBitAt(before, bitOffset, b, buf);
      bitOffset := bitOffset + 1;
    }
  }

  /** Appending at the end of a packed stream packs the longer stream. */
  lemma {:induction false} AppendPacks(bs: seq<bit>, value: nat, n: nat, buf: seq<byte>)
    requires OredIn(ToBytes(bs), |bs|, value, n, buf)
    ensures buf == ToBytes(bs + ToBits(value, n))
  {
    var all := bs + ToBits(value, n);
    forall k | 0 <= k < 8 * |buf| ensures BitAt(buf, k) == if k < |all| then all[k] else 0 {
      BitAtToBytes(bs, k);
    }
    ToBytesUnique(buf, all);
  }

  /** The m bits of a buffer from bit off on, zeros past the end. */
  function Window(buf: seq<byte>, off: nat, m: nat): (s: seq<bit>)
    ensures |s| == m
  {
    seq(m, j requires 0 <= j < m => if BitAt(buf, off + j) == 1 then 1 else 0)
  }

  lemma {:induction false} WindowSlice(buf: seq<byte>, off: nat, n: nat, i: nat, m: nat)
    requires i + m <= n
    ensures Window(buf, off, n)[i..i + m] == Window(buf, off + i, m)
  {
    var s := Window(buf, off, n)[i..i + m];
    forall j | 0 <= j < m ensures s[j] == Window(buf, off + i, m)[j] {
      assert off + i + j == off + (i + j);
    }
  }

  /** The number held in the low 64 bits of the n-bit field at bit off, zeros past the end. */
  function Extracted(buf: seq<byte>, off: nat, n: nat): u64 {
    var m := Min(n, 64);
    var s := Window(buf, off + (n - m), m);
    FromBitsBound(s);
    Pow2Word();
    Pow2Mono(m, 64);
    FromBits(s)
  }

  lemma {:induction false} BitExtracted(buf: seq<byte>, off: nat, n: nat, k: nat)
    ensures Bit(Extracted(buf, off, n), k) == if k < Min(n, 64) then BitAt(buf, off + n - 1 - k) else 0
  {
    var m := Min(n, 64);
    BitFromBits(Window(buf, off + (n - m), m), k);
  }

  lemma {:induction false} ExtractedUnique(buf: seq<byte>, off: nat, n: nat, v: u64)
    requires forall k: nat :: Bit(v, k) == if k < Min(n, 64) then BitAt(buf, off + n - 1 - k) else 0
    ensures v == Extracted(buf, off, n)
  {
    forall k | 0 <= k < 64 ensures Bit(v, k) == Bit(Extracted(buf, off, n), k) {
      BitExtracted(buf, off, n, k);
    }
    Pow2Word();
    BitExt(v, Extracted(buf, off, n), 64);
  }

  /** What `value |= bit << i` does when value has no bit at or below i. */
  lemma {:induction false} OrBitIn(value: u64, b: bit, i: nat)
    requires i < 64
    ensures Or(value, b * Pow2(i)) < 0x1_0000_0000_0000_0000
    ensures forall k: nat :: Bit(Or(value, b * Pow2(i)), k) == if k == i then Max(Bit(value, k), b) else Bit(value, k)
  {
    Pow2Word();
    Pow2Mono(i, 63);
    assert b * Pow2(i) < Pow2(64);
    OrBound(value, b * Pow2(i), 64);
    forall k: nat
      ensures Bit(Or(value, b * Pow2(i)), k) == if k == i then Max(Bit(value, k), b) else Bit(value, k)
    {
      BitOr(value, b * Pow2(i), k);
      BitShl(b, i, k);
      if k > i { BitZero(k - i - 1); }
    }
  }

  /** PacketDecoder::extractBits. The offset is in/out. */
  method ExtractBits(buf: seq<byte>, bitOffset0: nat, numBits: Width) returns (value: u64, bitOffset: nat)
    ensures bitOffset == bitOffset0 + numBits
    ensures value == Extracted(buf, bitOffset0, numBits)
  {
    value, bitOffset := 0, bitOffset0;
    forall k: nat ensures Bit(0, k) == 0 { BitZero(k); }
    for i := numBits downto 0
      invariant bitOffset == bitOffset0 + (numBits - i)
      invariant forall k: nat :: Bit(value, k) ==
                  if i <= k < Min(numBits, 64) then BitAt(buf, bitOffset0 + numBits - 1 - k) else 0
    {
      var byteIdx := bitOffset / 8;
      var bitInByte := 7 - bitOffset % 8;
      if byteIdx < |buf| && i < 64 {
        var b := Bit(buf[byteIdx], bitInByte);
        OrBitIn(value, b, i);
        value := Or(value, b * Pow2(i));
      }
      bitOffset := bitOffset + 1;
    }
    ExtractedUnique(buf, bitOffset0, numBits, value);
  }
}
