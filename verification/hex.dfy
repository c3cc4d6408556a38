/** Octets as hexadecimal text, and the reading that strtoul makes of it. */
module HexText {
  import opened Bits

  const DIGITS: string := "0123456789abcdef"

  predicate IsDigit(c: char) { '0' <= c <= '9' || 'a' <= c <= 'f' || 'A' <= c <= 'F' }

  function DigitValue(c: char): (v: nat)
    requires IsDigit(c)
    ensures v < 16
  {
    if '0' <= c <= '9' then c as int - '0' as int
    else if 'a' <= c <= 'f' then c as int - 'a' as int + 10
    else c as int - 'A' as int + 10
  }

  predicate IsSpace(c: char) { c == ' ' || '\U{9}' <= c <= '\U{D}' }

  predicate IsSign(c: char) { c == '+' || c == '-' }

  /** How far a run of spaces, or of digits, goes from i on. */
  function SpacesFrom(s: string, i: nat): (j: nat)
    requires i <= |s|
    ensures i <= j <= |s|
    decreases |s| - i
  {
    if i < |s| && IsSpace(s[i]) then SpacesFrom(s, i + 1) else i
  }

  function DigitsFrom(s: string, i: nat): (j: nat)
    requires i <= |s|
    ensures i <= j <= |s|
    ensures forall k | i <= k < j :: IsDigit(s[k])
    decreases |s| - i
  {
    if i < |s| && IsDigit(s[i]) then DigitsFrom(s, i + 1) else i
  }

  function Number(s: string, i: nat, j: nat): nat
    requires i <= j <= |s| && forall k | i <= k < j :: IsDigit(s[k])
    decreases j - i
  {
    if i == j then 0 else 16 * Number(s, i, j - 1) + DigitValue(s[j - 1])
  }

  datatype Parsed = Parsed(value: nat, end: nat)

  /** Where the digits start: behind the spaces, a sign, and a 0x that a digit follows. */
  function DigitsStart(s: string): (k: nat)
    ensures k <= |s|
  {
    var i := SpacesFrom(s, 0);
    var j := if i < |s| && IsSign(s[i]) then i + 1 else i;
    if j + 2 < |s| && s[j] == '0' && (s[j + 1] == 'x' || s[j + 1] == 'X') && IsDigit(s[j + 2]) then j + 2 else j
  }

  predicate IsNegative(s: string) {
    var i := SpacesFrom(s, 0);
    i < |s| && s[i] == '-'
  }

  /** A number too large gives the largest; a minus sign negates in 64 bits. */
  function Signed(v: nat, negative: bool): nat {
    var limit := 0x1_0000_0000_0000_0000;
    if v >= limit then limit - 1 else if negative then (limit - v) % limit else v
  }

  /** strtoul in base 16. Without digits nothing is read. */
  function Strtoul(s: string): Parsed {
    var k := DigitsStart(s);
    var end := DigitsFrom(s, k);
    if end == k then Parsed(0, 0) else Parsed(Signed(Number(s, k, end), IsNegative(s)), end)
  }

  function HexOf(b: byte): (s: string)
    ensures |s| == 2
  {
    [DIGITS[b / 16], DIGITS[b % 16]]
  }

  function HexText(bs: seq<byte>): string {
    if bs == [] then [] else HexText(bs[..|bs| - 1]) + HexOf(bs[|bs| - 1])
  }

  method ToHex(bytes: seq<byte>) returns (s: string)
    ensures s == HexText(bytes)
  {
    s := [];
    for i := 0 to |bytes|
      invariant s == HexText(bytes[..i])
    {
      assert bytes[..i + 1][..i] == bytes[..i];
      s := s + [DIGITS[bytes[i] / 16]];
      s := s + [DIGITS[bytes[i] % 16]];
    }
    assert bytes[..|bytes|] == bytes;
  }

  /** A pair that fromHex takes: a digit, or a space or sign in front of one. */
  predicate PairTaken(c0: char, c1: char) {
    IsDigit(c1) && (IsDigit(c0) || IsSpace(c0) || IsSign(c0))
  }

  /** The octet it stands for. */
  function PairValue(c0: char, c1: char): byte
    requires PairTaken(c0, c1)
  {
    if IsDigit(c0) then 16 * DigitValue(c0) + DigitValue(c1)
    else if c0 == '-' then (256 - DigitValue(c1)) % 256
    else DigitValue(c1)
  }

  /** The scans over a pair. */
  lemma {:induction false} PairSpaces(c0: char, c1: char)
    ensures SpacesFrom([c0, c1], 0) == if !IsSpace(c0) then 0 else if IsSpace(c1) then 2 else 1
  {
    var s := [c0, c1];
    assert SpacesFrom(s, 2) == 2;
    assert SpacesFrom(s, 1) == if IsSpace(c1) then 2 else 1;
  }

  lemma {:induction false} PairDigits(c0: char, c1: char)
    ensures DigitsFrom([c0, c1], 2) == 2
    ensures DigitsFrom([c0, c1], 1) == if IsDigit(c1) then 2 else 1
    ensures DigitsFrom([c0, c1], 0) == if !IsDigit(c0) then 0 else if IsDigit(c1) then 2 else 1
  {
    var s := [c0, c1];
    assert DigitsFrom(s, 2) == 2;
    assert DigitsFrom(s, 1) == if IsDigit(c1) then 2 else 1;
  }

  lemma {:induction false} PairStart(c0: char, c1: char)
    requires IsDigit(c1)
    ensures DigitsStart([c0, c1]) == if IsSpace(c0) || IsSign(c0) then 1 else 0
    ensures IsNegative([c0, c1]) == (c0 == '-')
  {
    PairSpaces(c0, c1);
  }

  lemma {:induction false} PairNumbers(c0: char, c1: char)
    requires IsDigit(c1)
    ensures Number([c0, c1], 1, 2) == DigitValue(c1)
    ensures IsDigit(c0) ==> Number([c0, c1], 0, 2) == 16 * DigitValue(c0) + DigitValue(c1)
  {
    var s := [c0, c1];
    assert Number(s, 1, 1) == 0;
    if IsDigit(c0) {
      assert Number(s, 0, 0) == 0;
      assert Number(s, 0, 1) == 16 * Number(s, 0, 0) + DigitValue(c0);
    }
  }

  lemma {:induction false} SignedLow(v: byte, negative: bool)
    ensures Signed(v, negative) % 256 == if negative then (256 - v) % 256 else v
  {
  }

  lemma {:induction false} PairTakenParsed(c0: char, c1: char)
    requires PairTaken(c0, c1)
    ensures Strtoul([c0, c1]).end == 2 && Strtoul([c0, c1]).value % 256 == PairValue(c0, c1)
  {
    PairDigits(c0, c1);
    PairStart(c0, c1);
    PairNumbers(c0, c1);
    SignedLow(if IsDigit(c0) then 16 * DigitValue(c0) + DigitValue(c1) else DigitValue(c1), c0 == '-');
  }

  lemma {:induction false} PairLeftOver(c0: char, c1: char)
    requires !PairTaken(c0, c1)
    ensures Strtoul([c0, c1]).end != 2
  {
    PairDigits(c0, c1);
    if IsDigit(c1) { PairStart(c0, c1); }
  }

  /** strtoul consumes both characters of exactly those pairs, and its low octet is that value. */
  lemma {:induction false} PairParsed(c0: char, c1: char)
    ensures Strtoul([c0, c1]).end == 2 <==> PairTaken(c0, c1)
    ensures PairTaken(c0, c1) ==> Strtoul([c0, c1]).value % 256 == PairValue(c0, c1)
  {
    if PairTaken(c0, c1) { PairTakenParsed(c0, c1); } else { PairLeftOver(c0, c1); }
  }

  /** The pair parsed in full, or not at all. */
  method ParsePair(pair: string) returns (ok: bool, v: byte)
    requires |pair| == 2
    ensures ok == PairTaken(pair[0], pair[1])
    ensures ok ==> v == PairValue(pair[0], pair[1])
  {
    assert pair == [pair[0], pair[1]];
    PairParsed(pair[0], pair[1]);
    var parsed := Strtoul(pair);
    ok, v := parsed.end == 2, parsed.value % 256;
  }

  predicate PairAt(s: string, i: nat)
    requires 2 * i + 1 < |s|
  {
    PairTaken(s[2 * i], s[2 * i + 1])
  }

  /** The first n pairs of s are taken. */
  predicate PairsTaken(s: string, n: nat)
    requires 2 * n <= |s|
  {
    n == 0 || (PairsTaken(s, n - 1) && PairAt(s, n - 1))
  }

  function PairValues(s: string, n: nat): (bs: seq<byte>)
    requires 2 * n <= |s| && PairsTaken(s, n)
    ensures |bs| == n
  {
    if n == 0 then [] else PairValues(s, n - 1) + [PairValue(s[2 * (n - 1)], s[2 * (n - 1) + 1])]
  }

  lemma {:induction false} PairRefused(s: string, n: nat, i: nat)
    requires i < n && 2 * n <= |s| && !PairAt(s, i)
    ensures !PairsTaken(s, n)
  {
    if i < n - 1 { PairRefused(s, n - 1, i); }
  }

  /** Accepts an even number of characters in taken pairs. */
  method FromHex(hex: string, out0: seq<byte>) returns (ok: bool, out: seq<byte>)
    ensures ok <==> |hex| % 2 == 0 && PairsTaken(hex, |hex| / 2)
    ensures ok ==> out == PairValues(hex, |hex| / 2)
    ensures |hex| % 2 != 0 ==> out == out0
  {
    out := out0;
    if |hex| % 2 != 0 { return false, out; }
    out := [];
    var i := 0;
    while i < |hex|
      invariant i % 2 == 0 && i <= |hex|
      invariant PairsTaken(hex, i / 2) && out == PairValues(hex, i / 2)
    {
      var v: byte;
      ok, v := ParsePair(hex[i..i + 2]);
      if !ok {
        PairRefused(hex, |hex| / 2, i / 2);
        return;
      }
      out := out + [v];
      i := i + 2;
    }
    return true, out;
  }

  lemma {:induction false} DigitOf(v: nat)
    requires v < 16
    ensures IsDigit(DIGITS[v]) && DigitValue(DIGITS[v]) == v
  {
  }

  lemma {:induction false} TextAt(bs: seq<byte>, i: nat)
    ensures |HexText(bs)| == 2 * |bs|
    ensures i < |bs| ==> HexText(bs)[2 * i] == HexOf(bs[i])[0] && HexText(bs)[2 * i + 1] == HexOf(bs[i])[1]
  {
    if bs != [] {
      var front, last := bs[..|bs| - 1], bs[|bs| - 1];
      TextAt(front, i);
      var text, pair := HexText(front), HexOf(last);
      assert HexText(bs) == text + pair;
      if i < |front| {
        assert bs[i] == front[i] && (text + pair)[2 * i] == text[2 * i] && (text + pair)[2 * i + 1] == text[2 * i + 1];
      } else if i == |front| {
        assert (text + pair)[2 * i] == pair[0] && (text + pair)[2 * i + 1] == pair[1];
      }
    }
  }

  lemma {:induction false} PairOf(b: byte)
    ensures PairTaken(HexOf(b)[0], HexOf(b)[1]) && PairValue(HexOf(b)[0], HexOf(b)[1]) == b
  {
    DigitOf(b / 16);
    DigitOf(b % 16);
  }

  /** Pair i of the text is octet i. */
  predicate Spells(s: string, bs: seq<byte>, i: nat)
    requires |s| == 2 * |bs| && i < |bs|
  {
    s[2 * i] == HexOf(bs[i])[0] && s[2 * i + 1] == HexOf(bs[i])[1]
  }

  lemma {:induction false} SpelledPairs(s: string, bs: seq<byte>, n: nat)
    requires |s| == 2 * |bs| && n <= |bs|
    requires forall i | 0 <= i < n :: Spells(s, bs, i)
    ensures PairsTaken(s, n) && PairValues(s, n) == bs[..n]
  {
    if n > 0 {
      SpelledPairs(s, bs, n - 1);
      assert Spells(s, bs, n - 1);
      PairOf(bs[n - 1]);
      assert bs[..n] == bs[..n - 1] + [bs[n - 1]];
    }
  }

  /** What toHex writes, fromHex accepts and reads back. */
  lemma {:induction false} HexRoundTrip(bs: seq<byte>)
    ensures |HexText(bs)| == 2 * |bs| && PairsTaken(HexText(bs), |bs|) && PairValues(HexText(bs), |bs|) == bs
  {
    TextAt(bs, 0);
    forall i | 0 <= i < |bs| ensures Spells(HexText(bs), bs, i) {
      TextAt(bs, i);
    }
    SpelledPairs(HexText(bs), bs, |bs|);
    assert bs[..|bs|] == bs;
  }

  predicate AllDigits(s: string, n: nat)
    requires n <= |s|
  {
    forall i | 0 <= i < n :: IsDigit(s[i])
  }

  /** The documented condition, only hex digits, is sufficient; it is also necessary unless a pair starts with a
      space or a sign. */
  lemma {:induction false} DigitsSuffice(s: string, n: nat)
    requires 2 * n <= |s|
    ensures AllDigits(s, 2 * n) <==>
            PairsTaken(s, n) && forall i | 0 <= i < n :: !IsSpace(s[2 * i]) && !IsSign(s[2 * i])
  {
    if n > 0 {
      DigitsSuffice(s, n - 1);
      var m := 2 * (n - 1);
      assert AllDigits(s, 2 * n) <==> AllDigits(s, m) && IsDigit(s[m]) && IsDigit(s[m + 1]);
    }
  }

  /** A space or a sign in front of a digit is accepted although it is no hex digit. */
  lemma {:induction false} NotOnlyHex(c: char)
    requires IsSpace(c) || IsSign(c)
    ensures PairsTaken([c, '1'], 1) && !AllDigits([c, '1'], 2)
  {
    assert PairsTaken([c, '1'], 0);
    assert !IsDigit([c, '1'][0]);
  }

  /* ---------------- the characters ---------------- */

  /** Two digits an octet, high half first, letters in lower case. */
  lemma {:induction false} TextDigits(bs: seq<byte>, i: nat)
    requires i < |bs|
    ensures |HexText(bs)| == 2 * |bs|
    ensures HexText(bs)[2 * i] == "0123456789abcdef"[bs[i] / 16]
    ensures HexText(bs)[2 * i + 1] == "0123456789abcdef"[bs[i] % 16]
  {
    TextAt(bs, i);
  }

  /** What counts as a digit and what it is worth, what as a space, what as a sign. */
  lemma {:induction false} Characters(c: char, d: nat)
    requires d < 16
    ensures IsDigit(c) <==> c in "0123456789abcdefABCDEF"
    ensures IsDigit("0123456789abcdef"[d]) && DigitValue("0123456789abcdef"[d]) == d
    ensures IsDigit("0123456789ABCDEF"[d]) && DigitValue("0123456789ABCDEF"[d]) == d
    ensures IsSpace(c) <==> c in " \t\n\U{B}\U{C}\r"
    ensures IsSign(c) <==> c in "+-"
  {
  }

  /** The octet of a taken pair whose second digit is worth b: 16 * a + b behind a digit worth a, its negative modulo
      256 behind a minus sign, b behind a space or a plus sign. */
  lemma {:induction false} PairOctet(c0: char, c1: char)
    requires PairTaken(c0, c1)
    ensures c0 in "0123456789abcdefABCDEF" ==> PairValue(c0, c1) == 16 * DigitValue(c0) + DigitValue(c1)
    ensures c0 == '-' ==> PairValue(c0, c1) == (256 - DigitValue(c1)) % 256
    ensures c0 in " \t\n\U{B}\U{C}\r+" ==> PairValue(c0, c1) == DigitValue(c1)
  {
    Characters(c0, 0);
  }
}
