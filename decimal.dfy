/** Decimal digit strings: the text form of a number (JavaScript's
    `String(n)` and template interpolation for non-negative integers) and the
    subset of `parseInt` the bot relies on. */
module Decimal {
  import opened Wrappers
  import opened Text

  predicate IsDigit(c: char)
  {
    '0' <= c <= '9'
  }

  predicate AllDigits(s: string)
  {
    forall i :: 0 <= i < |s| ==> IsDigit(s[i])
  }

  function DigitValue(c: char): (d: nat)
    requires IsDigit(c)
    ensures d < 10
  {
    c as int - '0' as int
  }

  function DigitChar(d: nat): (c: char)
    requires d < 10
    ensures IsDigit(c) && DigitValue(c) == d
  {
    ('0' as int + d) as char
  }

  function Pow10(k: nat): (p: nat)
    ensures p >= 1
  {
    if k == 0 then 1 else 10 * Pow10(k - 1)
  }

  /** The number a digit string denotes, read left to right as `parseInt` does. */
  function DecimalValue(s: string): nat
    requires AllDigits(s)
  {
    if |s| == 0 then 0 else 10 * DecimalValue(s[..|s| - 1]) + DigitValue(s[|s| - 1])
  }

  /** The decimal text of a non-negative integer: at least one digit, no
      leading zero, and it reads back as the same number. */
  function NatToString(n: nat): (s: string)
    ensures |s| >= 1 && AllDigits(s)
    ensures DecimalValue(s) == n
    ensures s[0] == '0' ==> n == 0
  {
    if n < 10 then [DigitChar(n)]
    else
      var s := NatToString(n / 10) + [DigitChar(n % 10)];
      assert s[..|s| - 1] == NatToString(n / 10);
      s
  }

  lemma {:induction false} DecimalBound(s: string)
    requires AllDigits(s)
    ensures DecimalValue(s) < Pow10(|s|)
  {
    if |s| > 0 {
      DecimalBound(s[..|s| - 1]);
    }
  }

  /** The same value read from the most significant digit. */
  lemma {:induction false} DecimalLeading(s: string)
    requires AllDigits(s) && |s| >= 1
    ensures DecimalValue(s) == DigitValue(s[0]) * Pow10(|s| - 1) + DecimalValue(s[1..])
  {
    var n := |s|;
    if n == 1 {
      assert s[..0] == [] && s[1..] == [];
    } else {
      var init := s[..n - 1];
      DecimalLeading(init);
      assert init[0] == s[0];
      assert s[1..][..n - 2] == init[1..];
      assert DecimalValue(s[1..]) == 10 * DecimalValue(init[1..]) + DigitValue(s[n - 1]);
      var d, p := DigitValue(s[0]), Pow10(n - 2);
      calc {
        DecimalValue(s);
        10 * DecimalValue(init) + DigitValue(s[n - 1]);
        10 * (d * p + DecimalValue(init[1..])) + DigitValue(s[n - 1]);
        { assert 10 * (d * p) == d * (10 * p); }
        d * Pow10(n - 1) + DecimalValue(s[1..]);
      }
    }
  }

  /** A larger leading digit outweighs whatever follows it. */
  lemma LeadingDigitDecides(da: nat, db: nat, p: nat, ra: nat, rb: nat)
    requires da < db && ra < p
    ensures da * p + ra < db * p + rb
  {
    var k: nat := db - da - 1;
    assert db == da + 1 + k;
    assert db * p == da * p + p + k * p;
    assert k * p >= 0;
  }

  /** For digit strings of one length, text order is numeric order; this
      is what makes zero-padded month numbers and four-digit years sort by
      date when SQLite compares them as text. */
  lemma {:induction false} DigitsOrder(a: string, b: string)
    requires AllDigits(a) && AllDigits(b) && |a| == |b|
    ensures LexLess(a, b) <==> DecimalValue(a) < DecimalValue(b)
  {
    if |a| > 0 {
      DecimalLeading(a);
      DecimalLeading(b);
      var da, db, p := DigitValue(a[0]), DigitValue(b[0]), Pow10(|a| - 1);
      var ra, rb := DecimalValue(a[1..]), DecimalValue(b[1..]);
      if a[0] == b[0] {
        DigitsOrder(a[1..], b[1..]);
      } else if a[0] < b[0] {
        DecimalBound(a[1..]);
        LeadingDigitDecides(da, db, p, ra, rb);
      } else {
        DecimalBound(b[1..]);
        LeadingDigitDecides(db, da, p, rb, ra);
      }
    }
  }

  /** A number with `k` digits prints as `k` characters. */
  lemma {:induction false} NatToStringLength(n: nat, k: nat)
    requires k >= 1 && Pow10(k - 1) <= n < Pow10(k)
    ensures |NatToString(n)| == k
  {
    if k > 1 {
      NatToStringLength(n / 10, k - 1);
    }
  }

  /** What follows an optional leading '+' or '-'. */
  function Unsigned(s: string): (r: string)
    ensures r == s || (|s| > 0 && r == s[1..])
  {
    if |s| > 0 && (s[0] == '-' || s[0] == '+') then s[1..] else s
  }

  /** JavaScript's `parseInt(s, 10)` on a whitespace-free token: an optional
      sign, then the longest run of decimal digits, anything after it
      ignored; `None` stands for NaN, which comes when no digit follows the
      sign. */
  function ParseInt(s: string): (r: Option<int>)
    ensures r.None? <==> Unsigned(s) == [] || !IsDigit(Unsigned(s)[0])
    ensures r.Some? && r.value < 0 ==> s[0] == '-'
  {
    var digits := LeadingRun(Unsigned(s), IsDigit);
    if digits == [] then None
    else if s[0] == '-' then Some(-(DecimalValue(digits) as int))
    else Some(DecimalValue(digits))
  }

  /** Reading back a printed number, with or without a sign and with any
      non-digit suffix, gives the number (the partner of `NatToString`). */
  lemma ParseIntOfNat(n: nat, rest: string)
    requires rest == [] || !IsDigit(rest[0])
    ensures ParseInt(NatToString(n) + rest) == Some(n)
    ensures ParseInt("+" + NatToString(n) + rest) == Some(n)
    ensures ParseInt("-" + NatToString(n) + rest) == Some(-(n as int))
  {
    var s := NatToString(n);
    LeadingRunOf(s, rest, IsDigit);
    assert IsDigit(s[0]);
    assert Unsigned(s + rest) == s + rest;
    ParseAfterSign('+', s, rest);
    ParseAfterSign('-', s, rest);
  }

  /** A sign in front of a digit string is stripped before the digits are read. */
  lemma ParseAfterSign(sign: char, s: string, rest: string)
    requires sign == '+' || sign == '-'
    requires s != [] && IsDigit(s[0])
    ensures Unsigned([sign] + s + rest) == s + rest
  {
    assert ([sign] + s + rest)[1..] == s + rest;
  }

}
