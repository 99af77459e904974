/** The text the ledger takes from chat: the amount in a donation message
    (index.js:102-105) and the arguments of the admin commands
    (index.js:144-146, 171-173, 200-201). Command-prefix splitting is not
    modelled: the admin parsers take the argument list after the command
    word. */
module Commands {
  import opened Wrappers
  import opened Text
  import opened Decimal

  // ---------------------------------------------------------------- mentions

  predicate IsMentionChar(c: char)
  {
    c == '<' || c == '@' || c == '!' || c == '>'
  }

  /** `arg.replace(/[<@!>]/g, '')`: the user id inside a Discord mention. */
  function StripMention(s: string): (r: string)
    ensures forall i :: 0 <= i < |r| ==> !IsMentionChar(r[i])
    ensures forall i :: 0 <= i < |r| ==> r[i] in s
  {
    RemoveAll(s, IsMentionChar)
  }

  /** Both mention forms `<@id>` and `<@!id>`, and the bare id, give the id back. */
  lemma MentionRoundTrip(id: string)
    requires forall i :: 0 <= i < |id| ==> !IsMentionChar(id[i])
    ensures StripMention("<@" + id + ">") == id
    ensures StripMention("<@!" + id + ">") == id
    ensures StripMention(id) == id
  {
    RemoveAllNone(id, IsMentionChar);
    RemoveAllOnly("<@", IsMentionChar);
    RemoveAllOnly("<@!", IsMentionChar);
    RemoveAllOnly(">", IsMentionChar);
    RemoveAllAppend("<@" + id, ">", IsMentionChar);
    RemoveAllAppend("<@", id, IsMentionChar);
    RemoveAllAppend("<@!" + id, ">", IsMentionChar);
    RemoveAllAppend("<@!", id, IsMentionChar);
  }

  // ------------------------------------------------------- admin arguments

  /** How an admin command's arguments turn out: no first argument at all
      (`args[0].replace` then throws a TypeError and the handler stops with
      no reply), a format error reply, or the parsed value. */
  datatype Parsed<T> = NoArgument | FormatError | Parsed(value: T)

  /** The target of `%resetuser` (index.js:200-201): the stripped first
      argument, which must not be empty. */
  function TargetOf(args: seq<string>): (r: Parsed<string>)
    ensures r.NoArgument? <==> |args| == 0
    ensures r.FormatError? <==> |args| > 0 && StripMention(args[0]) == []
    ensures r.Parsed? ==> r.value == StripMention(args[0]) && r.value != []
  {
    if |args| == 0 then NoArgument
    else
      var id := StripMention(args[0]);
      if id == [] then FormatError else Parsed(id)
  }

  /** The target and amount of `%adddonation` and `%removedonation`
      (index.js:144-146, 171-173): a non-empty stripped id and a second
      argument that `parseInt` reads as a positive number. A missing second
      argument is `parseInt(undefined)`, which is NaN. */
  function TargetAndAmount(args: seq<string>): (r: Parsed<(string, int)>)
    ensures r.NoArgument? <==> |args| == 0
    ensures r.FormatError? <==>
      |args| > 0 &&
      (StripMention(args[0]) == [] || |args| < 2 || ParseInt(args[1]).None? || ParseInt(args[1]).value <= 0)
    ensures r.Parsed? ==>
      r.value.0 == StripMention(args[0]) && r.value.0 != [] &&
      |args| >= 2 && ParseInt(args[1]) == Some(r.value.1) && r.value.1 > 0
  {
    if |args| == 0 then NoArgument
    else
      var id := StripMention(args[0]);
      var amount := if |args| >= 2 then ParseInt(args[1]) else None;
      if id == [] || amount.None? || amount.value <= 0 then FormatError
      else Parsed((id, amount.value))
  }

  /** The arguments an admin types, `<@id> 50000`, parse back to the id and
      the amount; the same with a negative or zero amount is a format error. */
  lemma AdminArgsRoundTrip(id: string, n: nat, more: seq<string>)
    requires id != [] && forall i :: 0 <= i < |id| ==> !IsMentionChar(id[i])
    ensures n > 0 ==> TargetAndAmount(["<@" + id + ">", NatToString(n)] + more) == Parsed((id, n))
    ensures TargetAndAmount(["<@!" + id + ">", "-" + NatToString(n)] + more) == FormatError
    ensures TargetAndAmount(["<@!" + id + ">"]) == FormatError
    ensures TargetOf(["<@!" + id + ">"] + more) == Parsed(id)
  {
    MentionRoundTrip(id);
    ParseIntOfNat(n, []);
    assert NatToString(n) + [] == NatToString(n);
    assert "-" + NatToString(n) + [] == "-" + NatToString(n);
  }

  // -------------------------------------------------------- donation text

  /** ASCII white space, the characters `\s` matches below code point 128. */
  predicate IsSpace(c: char)
  {
    c == ' ' || '\t' <= c <= '\r'
  }

  predicate IsDot(c: char)
  {
    c == '.'
  }

  /** The class `[\d.]`. */
  predicate IsAmountChar(c: char)
  {
    IsDigit(c) || IsDot(c)
  }

  function OrElse(a: Option<string>, b: Option<string>): Option<string>
  {
    if a.Some? then a else b
  }

  /** `([\d.]+)` tried at position `w`: the greedy run of amount characters. */
  function CaptureAt(s: string, w: nat): (r: Option<string>)
    ensures r.Some? ==> r.value != [] && forall i :: 0 <= i < |r.value| ==> IsAmountChar(r.value[i])
  {
    if w < |s| && IsAmountChar(s[w]) then Some(LeadingRun(s[w..], IsAmountChar)) else None
  }

  /** `\s?([\d.]+)` tried at position `d`: first with one white-space
      character consumed, then (on backtracking) without. */
  function AfterSpace(s: string, d: nat): (r: Option<string>)
    ensures r.Some? ==> r.value != [] && forall i :: 0 <= i < |r.value| ==> IsAmountChar(r.value[i])
  {
    if d < |s| && IsSpace(s[d]) then OrElse(CaptureAt(s, d + 1), CaptureAt(s, d))
    else CaptureAt(s, d)
  }

  /** `\.?\s?([\d.]+)` tried right after "Rp": first with the dot consumed,
      then without. */
  function AfterRp(s: string, q: nat): (r: Option<string>)
    ensures r.Some? ==> r.value != [] && forall i :: 0 <= i < |r.value| ==> IsAmountChar(r.value[i])
  {
    if q < |s| && s[q] == '.' then OrElse(AfterSpace(s, q + 1), AfterSpace(s, q))
    else AfterSpace(s, q)
  }

  /** "Rp" at position `p`, in either case (the `i` flag). */
  predicate RpAt(s: string, p: nat)
  {
    p + 1 < |s| && (s[p] == 'R' || s[p] == 'r') && (s[p + 1] == 'P' || s[p + 1] == 'p')
  }

  /** `/Rp\.?\s?([\d.]+)/i` matches at position `p`. */
  predicate MatchAt(s: string, p: nat)
  {
    RpAt(s, p) && AfterRp(s, p + 2).Some?
  }

  /** The capture group of the leftmost match of `/Rp\.?\s?([\d.]+)/i` at
      or after `from`, as `String.prototype.match` finds it: there is one
      exactly when a match starts somewhere, and it is the capture of the
      match that starts first. */
  function FirstRpCapture(s: string, from: nat): (r: Option<string>)
    ensures r.Some? ==> r.value != [] && forall i :: 0 <= i < |r.value| ==> IsAmountChar(r.value[i])
    ensures r.Some? <==> exists p :: from <= p < |s| && MatchAt(s, p)
    ensures r.Some? ==>
      exists p :: from <= p < |s| && MatchAt(s, p) && r == AfterRp(s, p + 2) &&
        forall q :: from <= q < p ==> !MatchAt(s, q)
    decreases |s| - from
  {
    if from >= |s| then None
    else if MatchAt(s, from) then
      MatchHere(s, from);
      AfterRp(s, from + 2)
    else
      var r := FirstRpCapture(s, from + 1);
      MatchLater(s, from, r);
      r
  }

  /** A match at `from` is the first one from `from` on. */
  lemma MatchHere(s: string, from: nat)
    requires from < |s| && MatchAt(s, from)
    ensures exists p :: from <= p < |s| && MatchAt(s, p) && AfterRp(s, from + 2) == AfterRp(s, p + 2) &&
                        forall q :: from <= q < p ==> !MatchAt(s, q)
  {
  }

  /** Without a match at `from`, the first match from `from` on is the first from `from + 1` on. */
  lemma MatchLater(s: string, from: nat, r: Option<string>)
    requires from < |s| && !MatchAt(s, from)
    requires r.Some? <==> exists p :: from + 1 <= p < |s| && MatchAt(s, p)
    requires r.Some? ==>
      exists p :: from + 1 <= p < |s| && MatchAt(s, p) && r == AfterRp(s, p + 2) &&
        forall q :: from + 1 <= q < p ==> !MatchAt(s, q)
    ensures r.Some? <==> exists p :: from <= p < |s| && MatchAt(s, p)
    ensures r.Some? ==>
      exists p :: from <= p < |s| && MatchAt(s, p) && r == AfterRp(s, p + 2) &&
        forall q :: from <= q < p ==> !MatchAt(s, q)
  {
    if r.Some? {
      var p :| from + 1 <= p < |s| && MatchAt(s, p) && r == AfterRp(s, p + 2) &&
        forall q :: from + 1 <= q < p ==> !MatchAt(s, q);
      assert forall q :: from <= q < p ==> !MatchAt(s, q);
    } else {
      assert forall p :: from <= p < |s| ==> !MatchAt(s, p);
    }
  }

  /** The match that starts first decides the capture. */
  lemma LeftmostMatch(s: string, p: nat)
    requires MatchAt(s, p)
    requires forall q :: 0 <= q < p ==> !MatchAt(s, q)
    ensures FirstRpCapture(s, 0) == AfterRp(s, p + 2)
  {
    var first :| 0 <= first < |s| && MatchAt(s, first) && FirstRpCapture(s, 0) == AfterRp(s, first + 2) &&
      forall q :: 0 <= q < first ==> !MatchAt(s, q);
    assert first == p;
  }

  /** The amount a donation message credits (index.js:102-105): the digits
      of the first "Rp" amount with the '.' thousands separators removed,
      read by `parseInt`; `None` when there is no match or the value is NaN
      or not positive, in which case the message changes nothing. */
  function DonationAmount(content: string): (r: Option<int>)
    ensures r.Some? ==> r.value > 0
    ensures FirstRpCapture(content, 0).None? ==> r.None?
  {
    match FirstRpCapture(content, 0)
    case None => None
    case Some(capture) =>
      var n := ParseInt(RemoveAll(capture, IsDot));
      if n.None? || n.value <= 0 then None else n
  }

  /** "Rp" in either case, then an optional '.', then an optional white-space character. */
  predicate IsRpHead(h: string)
  {
    |h| >= 2 && (h[0] == 'R' || h[0] == 'r') && (h[1] == 'P' || h[1] == 'p') &&
    (|h| == 2 || (|h| == 3 && (h[2] == '.' || IsSpace(h[2]))) || (|h| == 4 && h[2] == '.' && IsSpace(h[3])))
  }

  /** The digits of an amount written with '.' separators. */
  function AmountDigits(c: string): (d: string)
    requires forall i :: 0 <= i < |c| ==> IsAmountChar(c[i])
    ensures AllDigits(d)
  {
    var d := RemoveAll(c, IsDot);
    assert AllDigits(d) by {
      forall i | 0 <= i < |d| ensures IsDigit(d[i]) {
        assert d[i] in c && !IsDot(d[i]);
        var j :| 0 <= j < |c| && c[j] == d[i];
        assert IsAmountChar(c[j]);
      }
    }
    d
  }

  /** `([\d.]+)` at a position where a maximal run of amount characters starts. */
  lemma CaptureRun(s: string, w: nat, c: string, rest: string)
    requires w <= |s| && s[w..] == c + rest
    requires c != [] && forall i :: 0 <= i < |c| ==> IsAmountChar(c[i])
    requires rest == [] || !IsAmountChar(rest[0])
    ensures CaptureAt(s, w) == Some(c)
  {
    assert s[w] == c[0];
    LeadingRunOf(c, rest, IsAmountChar);
  }

  /** After "Rp" with no dot or space of its own, a leading '.' of the
      amount is taken as the optional dot, and the capture starts after it. */
  lemma AfterBareRp(pre: string, h: string, c: string, rest: string)
    requires |h| == 2 && RpAt(h, 0)
    requires |c| >= 2 && c[0] == '.' && forall i :: 0 <= i < |c| ==> IsAmountChar(c[i])
    requires rest == [] || !IsAmountChar(rest[0])
    requires forall q :: 0 <= q < |pre| ==> !MatchAt(pre + h + c + rest, q)
    ensures FirstRpCapture(pre + h + c + rest, 0) == Some(c[1..])
  {
    BareMatch(pre, h, c, rest);
    LeftmostMatch(pre + h + c + rest, |pre|);
  }

  /** A match starts at the bare "Rp", and it captures the amount after its '.'. */
  lemma BareMatch(pre: string, h: string, c: string, rest: string)
    requires |h| == 2 && RpAt(h, 0)
    requires |c| >= 2 && c[0] == '.' && forall i :: 0 <= i < |c| ==> IsAmountChar(c[i])
    requires rest == [] || !IsAmountChar(rest[0])
    ensures MatchAt(pre + h + c + rest, |pre|)
    ensures AfterRp(pre + h + c + rest, |pre| + 2) == Some(c[1..])
  {
    var s := pre + h + c + rest;
    var b := |pre|;
    assert s[b + 3..] == c[1..] + rest;
    assert s[b] == h[0] && s[b + 1] == h[1];
    assert s[b + 2] == '.' && s[b + 3] == c[1] && !IsSpace(c[1]);
    CaptureRun(s, b + 3, c[1..], rest);
  }

  /** Otherwise the capture is the whole amount. */
  lemma AfterHead(pre: string, h: string, c: string, rest: string)
    requires IsRpHead(h)
    requires c != [] && (|h| > 2 || c[0] != '.')
    requires forall i :: 0 <= i < |c| ==> IsAmountChar(c[i])
    requires rest == [] || !IsAmountChar(rest[0])
    requires forall q :: 0 <= q < |pre| ==> !MatchAt(pre + h + c + rest, q)
    ensures FirstRpCapture(pre + h + c + rest, 0) == Some(c)
  {
    HeadMatch(pre, h, c, rest);
    LeftmostMatch(pre + h + c + rest, |pre|);
  }

  /** A match starts at the head, and it captures the whole amount. */
  lemma HeadMatch(pre: string, h: string, c: string, rest: string)
    requires IsRpHead(h)
    requires c != [] && (|h| > 2 || c[0] != '.')
    requires forall i :: 0 <= i < |c| ==> IsAmountChar(c[i])
    requires rest == [] || !IsAmountChar(rest[0])
    ensures MatchAt(pre + h + c + rest, |pre|)
    ensures AfterRp(pre + h + c + rest, |pre| + 2) == Some(c)
  {
    var s := pre + h + c + rest;
    var b := |pre|;
    var n := b + |h|;
    assert s[n..] == c + rest;
    assert s[b] == h[0] && s[b + 1] == h[1];
    assert s[n] == c[0] && !IsSpace(c[0]);
    assert |h| > 2 ==> s[b + 2] == h[2];
    assert |h| > 3 ==> s[b + 3] == h[3];
    CaptureRun(s, n, c, rest);
  }

  /** What the regular expression captures from a message whose first
      match is an "Rp" amount after the text `pre`: the amount itself, or
      the amount without a leading '.' that the optional dot took. Either
      way the digits are those of the amount. */
  lemma RpCapture(pre: string, h: string, c: string, rest: string)
    requires IsRpHead(h)
    requires forall i :: 0 <= i < |c| ==> IsAmountChar(c[i])
    requires exists i :: 0 <= i < |c| && IsDigit(c[i])
    requires rest == [] || !IsAmountChar(rest[0])
    requires forall q :: 0 <= q < |pre| ==> !MatchAt(pre + h + c + rest, q)
    ensures FirstRpCapture(pre + h + c + rest, 0).Some?
    ensures RemoveAll(FirstRpCapture(pre + h + c + rest, 0).value, IsDot) == AmountDigits(c)
  {
    assert c != [];
    if |h| == 2 && c[0] == '.' {
      assert |c| >= 2 by {
        var i :| 0 <= i < |c| && IsDigit(c[i]);
        assert i != 0;
      }
      AfterBareRp(pre, h, c, rest);
      DropLeadingDot(c);
    } else {
      AfterHead(pre, h, c, rest);
    }
  }

  /** A leading '.' contributes no digit. */
  lemma DropLeadingDot(c: string)
    requires c != [] && c[0] == '.' && forall i :: 0 <= i < |c| ==> IsAmountChar(c[i])
    ensures RemoveAll(c[1..], IsDot) == AmountDigits(c)
  {
    assert c == [c[0]] + c[1..];
    RemoveAllAppend([c[0]], c[1..], IsDot);
    RemoveAllOnly([c[0]], IsDot);
  }

  /** `parseInt` of a non-empty digit string is its value. */
  lemma ParseDigits(d: string)
    requires d != [] && AllDigits(d)
    ensures ParseInt(d) == Some(DecimalValue(d) as int)
  {
    LeadingRunOf(d, [], IsDigit);
    assert d + [] == d;
  }

  /** A message whose first match is an "Rp" amount, such as
      "Transfer Rp. 50.000 ..." or "rp 1.500", credits the number those
      digits spell once the dots are dropped, provided it is positive. */
  lemma RpAmount(pre: string, h: string, c: string, rest: string)
    requires IsRpHead(h)
    requires forall i :: 0 <= i < |c| ==> IsAmountChar(c[i])
    requires exists i :: 0 <= i < |c| && IsDigit(c[i])
    requires rest == [] || !IsAmountChar(rest[0])
    requires forall q :: 0 <= q < |pre| ==> !MatchAt(pre + h + c + rest, q)
    ensures DonationAmount(pre + h + c + rest) ==
      if DecimalValue(AmountDigits(c)) > 0 then Some(DecimalValue(AmountDigits(c)) as int) else None
  {
    RpCapture(pre, h, c, rest);
    var d := AmountDigits(c);
    assert d != [] by {
      var i :| 0 <= i < |c| && IsDigit(c[i]);
      RemoveAllKeeps(c, IsDot, i);
    }
    ParseDigits(d);
  }

  /** No match starts in text that has no "Rp" of its own and does not end
      in 'R' or 'r'. */
  lemma NoMatchIn(pre: string, tail: string)
    requires forall i {:trigger pre[i]} :: 0 <= i < |pre| ==>
      ((pre[i] != 'R' && pre[i] != 'r') || (i + 1 < |pre| && pre[i + 1] != 'P' && pre[i + 1] != 'p'))
    ensures forall q :: 0 <= q < |pre| ==> !MatchAt(pre + tail, q)
  {
    var s := pre + tail;
    forall q | 0 <= q < |pre| ensures !RpAt(s, q) {
      assert s[q] == pre[q];
      if pre[q] == 'R' || pre[q] == 'r' {
        assert s[q + 1] == pre[q + 1];
      }
    }
  }

  /** A character that is not removed survives removal. */
  lemma {:induction false} RemoveAllKeeps(s: string, p: char -> bool, i: nat)
    requires i < |s| && !p(s[i])
    ensures RemoveAll(s, p) != []
  {
    if i > 0 && p(s[0]) {
      RemoveAllKeeps(s[1..], p, i - 1);
    }
  }

  /** An "Rp" match whose capture holds no digit, such as "Rp..", credits
      nothing: removing the dots leaves nothing for `parseInt` to read. */
  lemma DotsOnlyCreditNothing(content: string)
    requires FirstRpCapture(content, 0).Some?
    requires forall i :: 0 <= i < |FirstRpCapture(content, 0).value| ==> !IsDigit(FirstRpCapture(content, 0).value[i])
    ensures DonationAmount(content).None?
  {
    var c := FirstRpCapture(content, 0).value;
    RemoveAllOnly(c, IsDot);
  }

  /** A typical donation message: "Rp. 50.000" credits 50000. */
  lemma FiftyThousand()
    ensures DonationAmount("Rp. 50.000") == Some(50000)
  {
    var tail := "Rp. 50.000";
    assert [] + tail == tail;
    FiftyThousandAfter([]);
  }

  /** The same amount after other text credits the same. */
  lemma FiftyThousandAfterText()
    ensures DonationAmount("Donasi Rp. 50.000") == Some(50000)
  {
    var pre, tail := "Donasi ", "Rp. 50.000";
    assert pre + tail == "Donasi Rp. 50.000";
    NoMatchIn(pre, tail);
    FiftyThousandAfter(pre);
  }

  /** "Rp. 50.000" after text in which no match starts credits 50000. */
  lemma FiftyThousandAfter(pre: string)
    requires forall q :: 0 <= q < |pre| ==> !MatchAt(pre + "Rp. 50.000", q)
    ensures DonationAmount(pre + "Rp. 50.000") == Some(50000)
  {
    var h, c := "Rp. ", "50.000";
    assert pre + "Rp. 50.000" == pre + h + c + [];
    assert IsDigit(c[0]);
    assert IsRpHead(h);
    FiftyThousandDigits();
    RpAmount(pre, h, c, []);
  }

  lemma FiftyThousandDigits()
    ensures AmountDigits("50.000") == "50000"
    ensures DecimalValue("50000") == 50000
  {
    FiftyThousandDots();
    assert DecimalValue("5") == 5 by { assert "5"[..0] == []; }
    assert DecimalValue("50") == 50 by { assert "50"[..1] == "5"; }
    assert DecimalValue("500") == 500 by { assert "500"[..2] == "50"; }
    assert DecimalValue("5000") == 5000 by { assert "5000"[..3] == "500"; }
    assert DecimalValue("50000") == 50000 by { assert "50000"[..4] == "5000"; }
  }

  lemma FiftyThousandDots()
    ensures RemoveAll("50.000", IsDot) == "50000"
  {
    DropSeparator("50", "000");
    assert "50" + "." + "000" == "50.000";
    assert "50" + "000" == "50000";
  }

  /** Dropping the one '.' between two dot-free parts joins them. */
  lemma DropSeparator(a: string, b: string)
    requires forall i :: 0 <= i < |a| ==> !IsDot(a[i])
    requires forall i :: 0 <= i < |b| ==> !IsDot(b[i])
    ensures RemoveAll(a + "." + b, IsDot) == a + b
  {
    var x := a + ".";
    RemoveAllOnly(".", IsDot);
    RemoveAllNone(a, IsDot);
    RemoveAllAppend(a, ".", IsDot);
    assert RemoveAll(x, IsDot) == a by {
      assert a + [] == a;
    }
    RemoveAllNone(b, IsDot);
    RemoveAllAppend(x, b, IsDot);
  }

}
