/** Machine words as bounded integers, and the bitwise operators the code applies to them. */
module Bits {

  type bit = x: int | 0 <= x < 2
  type byte = x: int | 0 <= x < 256
  type u32 = x: int | 0 <= x < 0x1_0000_0000
  type u64 = x: int | 0 <= x < 0x1_0000_0000_0000_0000

  /** A declared field width. The codec loops convert it to a signed int, so it stays below 2^31. */
  type Width = x: int | 0 <= x < 0x8000_0000

  function Pow2(n: nat): (p: nat)
    ensures p > 0
  {
    if n == 0 then 1 else 2 * Pow2(n - 1)
  }

  /** `(v >> i) & 1` */
  function Bit(v: nat, i: nat): bit {
    if i == 0 then v % 2 else Bit(v / 2, i - 1)
  }

  /** `a | b` */
  function Or(a: nat, b: nat): nat {
    if a == 0 && b == 0 then 0
    else 2 * Or(a / 2, b / 2) + (if a % 2 == 1 || b % 2 == 1 then 1 else 0)
  }

  /** `a & b` */
  function And(a: nat, b: nat): (r: nat)
    ensures r <= a && r <= b
  {
    if a == 0 || b == 0 then 0
    else 2 * And(a / 2, b / 2) + (if a % 2 == 1 && b % 2 == 1 then 1 else 0)
  }

  function Min(a: nat, b: nat): nat { if a <= b then a else b }

  function Max(a: nat, b: nat): nat { if a <= b then b else a }

  /** Number of octets that hold `bits` bits: `(bits + 7) / 8`. */
  function Octets(bits: nat): nat { (bits + 7) / 8 }

  lemma {:induction false} BitZero(i: nat)
    ensures Bit(0, i) == 0
  {
    if i > 0 { BitZero(i - 1); }
  }

  lemma {:induction false} BitOr(a: nat, b: nat, i: nat)
    ensures Bit(Or(a, b), i) == Max(Bit(a, i), Bit(b, i))
  {
    if a == 0 && b == 0 {
      BitZero(i);
    } else if i > 0 {
      assert Or(a, b) / 2 == Or(a / 2, b / 2);
      BitOr(a / 2, b / 2, i - 1);
    }
  }

  lemma {:induction false} BitAnd(a: nat, b: nat, i: nat)
    ensures Bit(And(a, b), i) == Min(Bit(a, i), Bit(b, i))
  {
    if a == 0 || b == 0 {
      BitZero(i);
    } else if i > 0 {
      assert And(a, b) / 2 == And(a / 2, b / 2);
      BitAnd(a / 2, b / 2, i - 1);
    }
  }

  lemma {:induction false} BitShl(v: nat, k: nat, i: nat)
    ensures Bit(v * Pow2(k), i) == if i < k then 0 else Bit(v, i - k)
  {
    if k > 0 {
      assert v * Pow2(k) == 2 * (v * Pow2(k - 1));
      if i > 0 { BitShl(v, k - 1, i - 1); }
    }
  }

  /** The low m bits of v. */
  function Low(v: nat, m: nat): (r: nat)
    ensures r <= v
  {
    if m == 0 then 0 else 2 * Low(v / 2, m - 1) + v % 2
  }

  lemma {:induction false} LowIsMod(v: nat, m: nat)
    ensures Low(v, m) == v % Pow2(m)
  {
    if m > 0 {
      LowIsMod(v / 2, m - 1);
      ModHalf(v, Pow2(m - 1));
    }
  }

  lemma {:induction false} LowBound(v: nat, m: nat)
    ensures Low(v, m) < Pow2(m)
  {
    if m > 0 { LowBound(v / 2, m - 1); }
  }

  /** A number that already fits is its own low part. */
  lemma {:induction false} LowFits(v: nat, m: nat)
    requires v < Pow2(m)
    ensures Low(v, m) == v
  {
    if m > 0 { LowFits(v / 2, m - 1); }
  }

  lemma {:induction false} BitLow(v: nat, m: nat, k: nat)
    ensures Bit(Low(v, m), k) == if k < m then Bit(v, k) else 0
  {
    if m == 0 {
      BitZero(k);
    } else {
      assert Low(v, m) / 2 == Low(v / 2, m - 1);
      if k > 0 { BitLow(v / 2, m - 1, k - 1); }
    }
  }

  lemma {:induction false} ModHalf(v: nat, p: nat)
    requires p > 0
    ensures v % (2 * p) == 2 * ((v / 2) % p) + v % 2
  {
    var q := v / 2 / p;
    var r := (v / 2) % p;
    assert v == q * (2 * p) + (2 * r + v % 2) by {
      assert v / 2 == q * p + r;
      assert q * (2 * p) == 2 * (q * p);
    }
    DivModUnique(v, 2 * p, q, 2 * r + v % 2);
  }

  lemma {:induction false} DivModUnique(v: nat, d: nat, q: nat, r: nat)
    requires d > 0 && r < d
    requires v == q * d + r
    ensures v / d == q && v % d == r
  {
    var e := q - v / d;
    assert v % d - r == e * d by {
      assert v == (v / d) * d + v % d;
      assert (q - v / d) * d == q * d - (v / d) * d;
    }
    if e > 0 {
      MulAtLeast(e, d);
    } else if e < 0 {
      assert (-e) * d == -(e * d);
      MulAtLeast(-e, d);
    }
  }

  lemma {:induction false} MulAtLeast(e: nat, d: nat)
    requires e > 0
    ensures e * d >= d
  {
  }

  /** A number below 2^n is determined by its low n bits. */
  lemma {:induction false} BitExt(a: nat, b: nat, n: nat)
    requires a < Pow2(n) && b < Pow2(n)
    requires forall i | 0 <= i < n :: Bit(a, i) == Bit(b, i)
    ensures a == b
  {
    if n > 0 {
      assert Bit(a, 0) == Bit(b, 0);
      forall i | 0 <= i < n - 1 ensures Bit(a / 2, i) == Bit(b / 2, i) {
        assert Bit(a, i + 1) == Bit(b, i + 1);
      }
      BitExt(a / 2, b / 2, n - 1);
    }
  }

  lemma {:induction false} BitsAbove(v: nat, n: nat, k: nat)
    requires v < Pow2(n) && n <= k
    ensures Bit(v, k) == 0
  {
    if n == 0 {
      BitZero(k);
    } else {
      BitsAbove(v / 2, n - 1, k - 1);
    }
  }

  lemma {:induction false} OrBound(a: nat, b: nat, n: nat)
    requires a < Pow2(n) && b < Pow2(n)
    ensures Or(a, b) < Pow2(n)
  {
    if n > 0 { OrBound(a / 2, b / 2, n - 1); }
  }

  /** OR-ing a value shifted clear of everything below it is addition. */
  lemma {:induction false} OrDisjoint(a: nat, b: nat, k: nat)
    requires a < Pow2(k)
    ensures Or(a, b * Pow2(k)) == a + b * Pow2(k)
  {
    if k == 0 {
      OrZero(b);
    } else {
      assert b * Pow2(k) == 2 * (b * Pow2(k - 1));
      OrDisjoint(a / 2, b, k - 1);
    }
  }

  lemma {:induction false} OrZero(b: nat)
    ensures Or(0, b) == b
  {
    if b > 0 { OrZero(b / 2); }
  }

  lemma {:induction false} Pow2Add(m: nat, n: nat)
    ensures Pow2(m + n) == Pow2(m) * Pow2(n)
  {
    if n > 0 {
      Pow2Add(m, n - 1);
      assert m + n - 1 == m + (n - 1);
      assert Pow2(m) * Pow2(n) == 2 * (Pow2(m) * Pow2(n - 1));
    }
  }

  lemma {:induction false} Pow2Mono(m: nat, n: nat)
    requires m <= n
    ensures Pow2(m) <= Pow2(n)
  {
    if m < n { Pow2Mono(m, n - 1); }
  }

  lemma {:induction false} Pow2Eight()
    ensures Pow2(8) == 256
  {
    assert Pow2(4) == 16;
    Pow2Add(4, 4);
  }

  lemma {:induction false} Pow2Half()
    ensures Pow2(32) == 0x1_0000_0000
  {
    Pow2Eight();
    Pow2Add(8, 8);
    Pow2Add(16, 16);
  }

  lemma {:induction false} Pow2Word()
    ensures Pow2(64) == 0x1_0000_0000_0000_0000
  {
    Pow2Half();
    Pow2Add(32, 32);
  }

  /** The number whose bits, most significant first, are s. */
  function FromBits(s: seq<bit>): nat {
    if s == [] then 0 else 2 * FromBits(s[..|s| - 1]) + s[|s| - 1]
  }

  /** The low n bits of v, most significant first. */
  function ToBits(v: nat, n: nat): seq<bit> {
    seq(n, j requires 0 <= j < n => Bit(v, n - 1 - j))
  }

  lemma {:induction false} BitFromBits(s: seq<bit>, k: nat)
    ensures Bit(FromBits(s), k) == if k < |s| then s[|s| - 1 - k] else 0
  {
    if s == [] {
      BitZero(k);
    } else {
      assert FromBits(s) / 2 == FromBits(s[..|s| - 1]);
      if k > 0 { BitFromBits(s[..|s| - 1], k - 1); }
    }
  }

  lemma {:induction false} FromBitsBound(s: seq<bit>)
    ensures FromBits(s) < Pow2(|s|)
  {
    if s != [] { FromBitsBound(s[..|s| - 1]); }
  }

  /** Reading back n bits of v gives the low n bits of v. */
  lemma {:induction false} FromToBits(v: nat, n: nat)
    ensures FromBits(ToBits(v, n)) == Low(v, n)
  {
    var s := ToBits(v, n);
    FromBitsBound(s);
    LowBound(v, n);
    forall i | 0 <= i < n ensures Bit(FromBits(s), i) == Bit(Low(v, n), i) {
      BitFromBits(s, i);
      BitLow(v, n, i);
    }
    BitExt(FromBits(s), Low(v, n), n);
  }

  /** Bit i is the parity of v / 2^i. */
  lemma {:induction false} BitIs(v: nat, i: nat)
    ensures Bit(v, i) == v / Pow2(i) % 2
  {
    if i > 0 {
      BitIs(v / 2, i - 1);
      DivTwice(v, Pow2(i - 1));
    }
  }

  lemma {:induction false} DivTwice(v: nat, p: nat)
    requires p > 0
    ensures v / (2 * p) == v / 2 / p
  {
    var q, r := v / 2 / p, v / 2 % p;
    assert v == q * (2 * p) + (2 * r + v % 2) by {
      assert v / 2 == q * p + r;
      assert q * (2 * p) == 2 * (q * p);
    }
    DivModUnique(v, 2 * p, q, 2 * r + v % 2);
  }

  /** `v >> n` */
  function Halved(v: nat, n: nat): nat {
    if n == 0 then v else Halved(v / 2, n - 1)
  }

  lemma {:induction false} HalvedIs(v: nat, n: nat)
    ensures Halved(v, n) == v / Pow2(n)
  {
    if n > 0 {
      HalvedIs(v / 2, n - 1);
      DivTwice(v, Pow2(n - 1));
    }
  }

  lemma {:induction false} BitHalved(v: nat, n: nat, i: nat)
    ensures Bit(Halved(v, n), i) == Bit(v, i + n)
  {
    if n > 0 { BitHalved(v / 2, n - 1, i); }
  }
}
