/**
 * java.lang.Long.toHexString, which turns the construction-time clock value
 * into the multipart boundary: the 64-bit two's-complement value read as
 * unsigned, in lower-case hexadecimal, without leading zeros ("0" for zero).
 */
module HexString {

  /** A Java long. */
  type Long = x: int | -0x8000_0000_0000_0000 <= x < 0x8000_0000_0000_0000

  const TwoTo64: nat := 0x1_0000_0000_0000_0000

  /** The unsigned value of the long's 64 bits. */
  function Unsigned(v: Long): (u: nat)
    ensures u < TwoTo64
    ensures (u - v) % TwoTo64 == 0
  {
    if v < 0 then v + TwoTo64 else v
  }

  predicate IsHexDigit(c: char)
  {
    '0' <= c <= '9' || 'a' <= c <= 'f'
  }

  /** The lower-case hexadecimal digit for 0 <= d < 16. */
  function Digit(d: nat): (c: char)
    requires d < 16
    ensures IsHexDigit(c)
    ensures c == '0' <==> d == 0
  {
    if d < 10 then ('0' as int + d) as char else ('a' as int + d - 10) as char
  }

  function DigitValue(c: char): (d: nat)
    requires IsHexDigit(c)
    ensures d < 16
    ensures Digit(d) == c
  {
    if c <= '9' then c as int - '0' as int else c as int - 'a' as int + 10
  }

  /** Digits only, at least one, and no leading zero unless the number is zero. */
  predicate IsCanonicalHex(s: string)
  {
    && |s| >= 1
    && (forall i :: 0 <= i < |s| ==> IsHexDigit(s[i]))
    && (s[0] == '0' ==> |s| == 1)
  }

  /** The hexadecimal numeral of n, most significant digit first. */
  function HexOf(n: nat): (s: string)
    ensures IsCanonicalHex(s)
    ensures s[0] == '0' <==> n == 0
    decreases n
  {
    if n < 16 then [Digit(n)] else HexOf(n / 16) + [Digit(n % 16)]
  }

  /** The number a string of hexadecimal digits denotes. */
  function HexValue(s: string): nat
    requires forall i :: 0 <= i < |s| ==> IsHexDigit(s[i])
  {
    if s == [] then 0 else HexValue(s[..|s| - 1]) * 16 + DigitValue(s[|s| - 1])
  }

  function Pow16(k: nat): (p: nat)
    ensures p >= 1
  {
    if k == 0 then 1 else 16 * Pow16(k - 1)
  }

  lemma {:induction false} Pow16Add(a: nat, b: nat)
    ensures Pow16(a + b) == Pow16(a) * Pow16(b)
  {
    if a > 0 {
      Pow16Add(a - 1, b);
    }
  }

  /** Reading the numeral back gives the number. */
  lemma {:induction false} HexOfValue(n: nat)
    ensures HexValue(HexOf(n)) == n
    decreases n
  {
    if n >= 16 {
      var s := HexOf(n);
      assert s[..|s| - 1] == HexOf(n / 16);
      HexOfValue(n / 16);
    }
  }

  /** A canonical numeral with a non-zero first digit denotes a positive number. */
  lemma {:induction false} HexValuePositive(s: string)
    requires IsCanonicalHex(s) && s[0] != '0'
    ensures HexValue(s) >= 1
    decreases |s|
  {
    if |s| > 1 {
      var t := s[..|s| - 1];
      assert t[0] == s[0];
      HexValuePositive(t);
    }
  }

  /** Every canonical numeral is the one HexOf produces for its value. */
  lemma {:induction false} ValueHexOf(s: string)
    requires IsCanonicalHex(s)
    ensures HexOf(HexValue(s)) == s
    decreases |s|
  {
    var t, c := s[..|s| - 1], s[|s| - 1];
    assert s == t + [c];
    if |s| > 1 {
      assert t[0] == s[0];
      HexValuePositive(t);
      ValueHexOf(t);
      var n := HexValue(s);
      assert n == HexValue(t) * 16 + DigitValue(c);
      DivMod16(HexValue(t), DigitValue(c));
      assert HexOf(n) == HexOf(HexValue(t)) + [Digit(DigitValue(c))];
    }
  }

  lemma DivMod16(q: nat, r: nat)
    requires r < 16
    ensures (q * 16 + r) / 16 == q && (q * 16 + r) % 16 == r
  {
  }

  /** A number below 16^k has at most k digits. */
  lemma {:induction false} HexOfLength(n: nat, k: nat)
    requires 1 <= k && n < Pow16(k)
    ensures |HexOf(n)| <= k
    decreases n
  {
    if n >= 16 {
      assert Pow16(1) == 16;
      assert n / 16 < Pow16(k - 1);
      HexOfLength(n / 16, k - 1);
    }
  }

  /** Long.toHexString(v): the canonical numeral of v's unsigned value, at most 16 digits. */
  function ToHexString(v: Long): (s: string)
    ensures IsCanonicalHex(s) && |s| <= 16
    ensures HexValue(s) == Unsigned(v)
  {
    var u := Unsigned(v);
    HexOfValue(u);
    assert Pow16(4) == 0x1_0000;
    assert Pow16(8) == 0x1_0000_0000 by { Pow16Add(4, 4); }
    assert Pow16(16) == TwoTo64 by { Pow16Add(8, 8); }
    HexOfLength(u, 16);
    HexOf(u)
  }

  /** Distinct clock values give distinct boundaries. */
  lemma ToHexStringInjective(v: Long, w: Long)
    requires ToHexString(v) == ToHexString(w)
    ensures v == w
  {
  }
}
