/** The month key that tags every monthly row and that the monthly rollover
    compares (`getCurrentMonth`, index.js:41): the year, a '-', and the
    month number zero-padded to two digits. The wall clock is not modelled:
    the year and month are parameters. */
module MonthKeys {
  import opened Text
  import opened Decimal

  /** `String.prototype.padStart(2, '0')`. */
  function PadStart2(s: string): (r: string)
    ensures |s| <= 2 ==> |r| == 2
    ensures |s| >= 2 ==> r == s
    ensures r[|r| - |s|..] == s
  {
    if |s| < 2 then seq(2 - |s|, _ => '0') + s else s
  }

  /** The key of calendar month `month` (1 to 12) of `year`: the year's
      digits, a '-', and two digits that spell the month. */
  function MonthKey(year: nat, month: nat): (k: string)
    requires 1 <= month <= 12
    ensures var y := NatToString(year);
      |k| == |y| + 3 && k[..|y|] == y && k[|y|] == '-' &&
      AllDigits(k[|y| + 1..]) && DecimalValue(k[|y| + 1..]) == month
  {
    var y, m := NatToString(year), PadStart2(NatToString(month));
    MonthDigits(month);
    var k := y + "-" + m;
    assert k[..|y|] == y && k[|y| + 1..] == m;
    k
  }

  /** The two characters after the '-' are the month in digits. */
  lemma MonthDigits(month: nat)
    requires 1 <= month <= 12
    ensures var m := PadStart2(NatToString(month)); |m| == 2 && AllDigits(m) && DecimalValue(m) == month
  {
    var s := NatToString(month);
    if month < 10 {
      NatToStringLength(month, 1);
      var m := PadStart2(s);
      assert m == ['0'] + s;
      assert m[..1] == ['0'];
      assert DecimalValue(['0']) == 0 by {
        assert ['0'][..0] == [];
      }
    } else {
      NatToStringLength(month, 2);
    }
  }

  /** January pads to "01"; December needs no padding. */
  lemma MonthPadding()
    ensures PadStart2(NatToString(1)) == "01"
    ensures PadStart2(NatToString(12)) == "12"
  {
    assert NatToString(12) == NatToString(1) + [DigitChar(2)];
  }

  /** January 2024 is keyed "2024-01". */
  lemma January2024()
    ensures MonthKey(2024, 1) == "2024-01"
  {
    MonthPadding();
    assert NatToString(20) == NatToString(2) + "0";
    assert NatToString(202) == NatToString(20) + "2";
    assert NatToString(2024) == NatToString(202) + "4";
  }

  /** A key splits back into its parts: the year is its leading digit run
      and the month the two digits after the '-'. */
  lemma MonthKeyParts(year: nat, month: nat)
    requires 1 <= month <= 12
    ensures LeadingRun(MonthKey(year, month), IsDigit) == NatToString(year)
    ensures MonthKey(year, month)[|NatToString(year)| + 1..] == PadStart2(NatToString(month))
  {
    var y, p := NatToString(year), PadStart2(NatToString(month));
    SplitAtDash(y, p);
    assert MonthKey(year, month) == y + "-" + p;
  }

  /** Digits, a '-', then anything: the digits are the leading digit run,
      and what follows the '-' is the rest. */
  lemma SplitAtDash(y: string, p: string)
    requires AllDigits(y)
    ensures LeadingRun(y + "-" + p, IsDigit) == y
    ensures (y + "-" + p)[|y| + 1..] == p
  {
    assert y + "-" + p == y + ("-" + p);
    assert ("-" + p)[0] == '-';
    LeadingRunOf(y, "-" + p, IsDigit);
  }

  /** A key names exactly one month, for every year, not only four-digit
      ones: different months never share a key. */
  lemma MonthKeyInjective(y1: nat, m1: nat, y2: nat, m2: nat)
    requires 1 <= m1 <= 12 && 1 <= m2 <= 12
    requires MonthKey(y1, m1) == MonthKey(y2, m2)
    ensures y1 == y2 && m1 == m2
  {
    MonthKeyParts(y1, m1);
    MonthKeyParts(y2, m2);
    var y := NatToString(y1);
    assert y == NatToString(y2);
    assert MonthKey(y1, m1)[|y| + 1..] == MonthKey(y2, m2)[|y| + 1..];
  }

  /** For four-digit years, text order of keys is calendar order. This is
      what `ORDER BY month DESC LIMIT 1` in the rollover relies on to find
      the latest month (index.js:86). */
  lemma MonthKeyOrder(y1: nat, m1: nat, y2: nat, m2: nat)
    requires 1000 <= y1 <= 9999 && 1000 <= y2 <= 9999
    requires 1 <= m1 <= 12 && 1 <= m2 <= 12
    ensures LexLess(MonthKey(y1, m1), MonthKey(y2, m2)) <==> y1 < y2 || (y1 == y2 && m1 < m2)
  {
    var a, b := NatToString(y1), NatToString(y2);
    var p1, p2 := PadStart2(NatToString(m1)), PadStart2(NatToString(m2));
    FourDigitYear(y1);
    FourDigitYear(y2);
    MonthDigits(m1);
    MonthDigits(m2);
    KeyTextOrder(a, p1, b, p2);
    DigitsOrder(a, b);
    DigitsOrder(p1, p2);
    if y1 != y2 {
      assert a != b;
    }
  }

  /** A year from 1000 to 9999 prints as four digits. */
  lemma FourDigitYear(y: nat)
    requires 1000 <= y <= 9999
    ensures |NatToString(y)| == 4
  {
    assert Pow10(3) == 1000 by {
      assert Pow10(1) == 10;
      assert Pow10(2) == 100;
    }
    assert Pow10(4) == 10000;
    NatToStringLength(y, 4);
  }

  /** Keys with equally long years compare by year, then by month. */
  lemma KeyTextOrder(a: string, p1: string, b: string, p2: string)
    requires |a| == |b|
    ensures LexLess(a + "-" + p1, b + "-" + p2) <==> if a == b then LexLess(p1, p2) else LexLess(a, b)
  {
    assert a + "-" + p1 == a + ("-" + p1);
    assert b + "-" + p2 == b + ("-" + p2);
    LexAppend(a, "-" + p1, b, "-" + p2);
    LexAppend("-", p1, "-", p2);
  }

}
