/** Decimal text of integers, as Kotlin's `Int.toString()` writes it, with the parser that
    reads it back and the `trimEnd` that the frequency labels apply to it. */
module Decimal {
  import opened Wrappers

  predicate IsDigit(c: char) {
    '0' <= c <= '9'
  }

  predicate AllDigits(s: string) {
    forall i :: 0 <= i < |s| ==> IsDigit(s[i])
  }

  function DigitChar(d: nat): (c: char)
    requires d < 10
    ensures IsDigit(c)
  {
    ('0' as int + d) as char
  }

  function DigitValue(c: char): (d: nat)
    requires IsDigit(c)
    ensures d < 10
  {
    c as int - '0' as int
  }

  function Pow10(k: nat): (r: nat)
    ensures r >= 1
  {
    if k == 0 then 1 else 10 * Pow10(k - 1)
  }

  /** The number a string of digits spells, most significant digit first. */
  function DigitsValue(s: string): nat
    requires AllDigits(s)
  {
    if s == [] then 0 else 10 * DigitsValue(s[..|s| - 1]) + DigitValue(s[|s| - 1])
  }

  /** `n.toString()` for n ≥ 0: digits only, and no leading zero unless n is 0. */
  function NatToString(n: nat): (s: string)
    ensures |s| >= 1 && AllDigits(s)
    ensures s[0] == '0' <==> n == 0
    decreases n
  {
    if n < 10 then [DigitChar(n)] else NatToString(n / 10) + [DigitChar(n % 10)]
  }

  /** `Int.toString()`: a minus sign before the digits of a negative number. */
  function IntToString(i: int): (s: string)
    ensures |s| >= 1
    ensures s[0] == '-' <==> i < 0
  {
    if i < 0 then "-" + NatToString(-i) else NatToString(i)
  }

  /** Reads back what `IntToString` writes: an optional minus sign and at least one digit. */
  function ParseInt(s: string): (r: Option<int>)
    ensures r.Some? ==> |s| >= 1 && (r.value < 0 ==> s[0] == '-')
  {
    if |s| >= 2 && s[0] == '-' && AllDigits(s[1..]) then
      var v: int := DigitsValue(s[1..]);
      Some(-v)
    else if |s| >= 1 && AllDigits(s) then Some(DigitsValue(s))
    else None
  }

  lemma {:induction false} DigitsValueOfNatToString(n: nat)
    ensures DigitsValue(NatToString(n)) == n
    decreases n
  {
    var s := NatToString(n);
    if n >= 10 {
      DigitsValueOfNatToString(n / 10);
      assert s[..|s| - 1] == NatToString(n / 10);
    }
  }

  /** Printing then parsing gives the number back, for every integer. */
  lemma ParseIntToString(i: int)
    ensures ParseInt(IntToString(i)) == Some(i)
  {
    if i < 0 {
      ParseNegative(-i);
    } else {
      ParseNatural(i);
    }
  }

  lemma ParseNatural(n: nat)
    ensures ParseInt(NatToString(n)) == Some(n)
  {
    DigitsValueOfNatToString(n);
  }

  lemma ParseNegative(n: nat)
    requires n > 0
    ensures ParseInt("-" + NatToString(n)) == Some(-(n as int))
  {
    var digits := NatToString(n);
    assert ("-" + digits)[1..] == digits;
    DigitsValueOfNatToString(n);
  }

  /** Different integers print differently. */
  lemma IntToStringInjective(i: int, j: int)
    requires IntToString(i) == IntToString(j)
    ensures i == j
  {
    ParseIntToString(i);
    ParseIntToString(j);
  }

  /** A number below 10^k has at most k digits. */
  lemma {:induction false} NatToStringLength(n: nat, k: nat)
    requires 1 <= k && n < Pow10(k)
    ensures |NatToString(n)| <= k
    decreases k
  {
    if n >= 10 {
      assert Pow10(k) == 10 * Pow10(k - 1);
      NatToStringLength(n / 10, k - 1);
    }
  }

  /** The value of digits written one after the other. */
  lemma {:induction false} DigitsValueAppend(a: string, b: string)
    requires AllDigits(a) && AllDigits(b)
    ensures AllDigits(a + b)
    ensures DigitsValue(a + b) == DigitsValue(a) * Pow10(|b|) + DigitsValue(b)
    decreases |b|
  {
    if b == [] {
      assert a + b == a;
    } else {
      var b', c := b[..|b| - 1], b[|b| - 1];
      assert b == b' + [c];
      assert a + b == (a + b') + [c];
      DigitsValueAppend(a, b');
      DigitsValueSnoc(a + b', c);
      DigitsValueSnoc(b', c);
      ShiftDigit(DigitsValue(a), DigitsValue(b'), Pow10(|b'|), DigitValue(c));
    }
  }

  lemma DigitsValueSnoc(s: string, c: char)
    requires AllDigits(s) && IsDigit(c)
    ensures AllDigits(s + [c]) && DigitsValue(s + [c]) == 10 * DigitsValue(s) + DigitValue(c)
  {
    assert (s + [c])[..|s|] == s;
  }

  lemma ShiftDigit(va: int, vb: int, p: int, d: int)
    ensures 10 * (va * p + vb) + d == va * (10 * p) + (10 * vb + d)
  {
  }

  function ZeroDigits(k: nat): (s: string)
    ensures |s| == k && AllDigits(s)
    ensures forall i :: 0 <= i < k ==> s[i] == '0'
  {
    seq(k, _ => '0')
  }

  lemma {:induction false} ZeroDigitsValue(k: nat)
    ensures DigitsValue(ZeroDigits(k)) == 0
  {
    if k > 0 {
      assert ZeroDigits(k)[..k - 1] == ZeroDigits(k - 1);
      ZeroDigitsValue(k - 1);
    }
  }

  /** `padStart(width, '0')`: zeros in front up to `width` characters; longer text is kept. */
  function PadStart(s: string, width: nat): (r: string)
    ensures |r| == if |s| >= width then |s| else width
    ensures r[|r| - |s|..] == s
  {
    if |s| >= width then s else ZeroDigits(width - |s|) + s
  }

  /** `trimEnd(c)`: the longest prefix that does not end in c. */
  function TrimEnd(s: string, c: char): (r: string)
    ensures |r| <= |s| && r == s[..|r|]
    ensures r == [] || r[|r| - 1] != c
    ensures forall i :: |r| <= i < |s| ==> s[i] == c
  {
    if s != [] && s[|s| - 1] == c then TrimEnd(s[..|s| - 1], c) else s
  }

  /** Trailing zeros scale a digit string's value by a power of ten. */
  lemma TrimZerosValue(s: string)
    requires AllDigits(s)
    ensures var t := TrimEnd(s, '0');
      AllDigits(t) && DigitsValue(t) * Pow10(|s| - |t|) == DigitsValue(s)
  {
    var t := TrimEnd(s, '0');
    assert s == t + s[|t|..];
    assert s[|t|..] == ZeroDigits(|s| - |t|);
    DigitsValueAppend(t, ZeroDigits(|s| - |t|));
    ZeroDigitsValue(|s| - |t|);
  }

  /** Zeros in front leave the value unchanged. */
  lemma PadStartValue(s: string, width: nat)
    requires AllDigits(s)
    ensures AllDigits(PadStart(s, width)) && DigitsValue(PadStart(s, width)) == DigitsValue(s)
  {
    if |s| < width {
      DigitsValueAppend(ZeroDigits(width - |s|), s);
      ZeroDigitsValue(width - |s|);
    }
  }
}
