/** String helpers shared by the parsers and the tables: the order SQLite
    sorts TEXT in, the longest leading run of a character class (what a
    greedy regular-expression class `[...]+` or `parseInt` consumes), and
    removal of every character of a class (`String.replace` with a global
    character-class pattern). */
module Text {

  /** Strict lexicographic order on strings: the order of SQLite's default
      BINARY collation, which compares UTF-8 bytes with a proper prefix
      first. UTF-8 preserves code-point order, so comparing characters gives
      the same order. Used for `ORDER BY month DESC` and to break ties by id. */
  predicate LexLess(a: string, b: string)
  {
    if |a| == 0 then |b| > 0
    else if |b| == 0 then false
    else if a[0] != b[0] then a[0] < b[0]
    else LexLess(a[1..], b[1..])
  }

  lemma {:induction false} LexIrreflexive(a: string)
    ensures !LexLess(a, a)
  {
    if |a| > 0 {
      LexIrreflexive(a[1..]);
    }
  }

  lemma {:induction false} LexTransitive(a: string, b: string, c: string)
    requires LexLess(a, b) && LexLess(b, c)
    ensures LexLess(a, c)
  {
    if |a| > 0 && |b| > 0 && |c| > 0 && a[0] == b[0] && b[0] == c[0] {
      LexTransitive(a[1..], b[1..], c[1..]);
    }
  }

  lemma {:induction false} LexTotal(a: string, b: string)
    requires a != b
    ensures LexLess(a, b) || LexLess(b, a)
  {
    if |a| > 0 && |b| > 0 && a[0] == b[0] {
      assert a == [a[0]] + a[1..] && b == [b[0]] + b[1..];
      LexTotal(a[1..], b[1..]);
    }
  }

  lemma LexAsymmetric(a: string, b: string)
    requires LexLess(a, b)
    ensures !LexLess(b, a)
  {
    if LexLess(b, a) {
      LexTransitive(a, b, a);
      LexIrreflexive(a);
    }
  }

  /** Comparing two strings that start with equally long parts: the first
      parts decide unless they are equal, in which case the rest decides. */
  lemma {:induction false} LexAppend(a: string, x: string, b: string, y: string)
    requires |a| == |b|
    ensures LexLess(a + x, b + y) <==> if a == b then LexLess(x, y) else LexLess(a, b)
  {
    if |a| == 0 {
      assert a + x == x && b + y == y;
    } else {
      assert (a + x)[0] == a[0] && (b + y)[0] == b[0];
      assert (a + x)[1..] == a[1..] + x && (b + y)[1..] == b[1..] + y;
      LexAppend(a[1..], x, b[1..], y);
      if a[0] == b[0] {
        assert a == b <==> a[1..] == b[1..] by {
          assert a == [a[0]] + a[1..] && b == [b[0]] + b[1..];
        }
      }
    }
  }

  /** The longest prefix of `s` whose characters all satisfy `p`. */
  function LeadingRun(s: string, p: char -> bool): (r: string)
    ensures r <= s
    ensures forall i :: 0 <= i < |r| ==> p(r[i])
    ensures |r| == |s| || !p(s[|r|])
  {
    if |s| == 0 || !p(s[0]) then [] else [s[0]] + LeadingRun(s[1..], p)
  }

  /** A string made only of `p`-characters, followed by something that does
      not start with one, has exactly that string as its leading run. */
  lemma {:induction false} LeadingRunOf(s: string, rest: string, p: char -> bool)
    requires forall i :: 0 <= i < |s| ==> p(s[i])
    requires rest == [] || !p(rest[0])
    ensures LeadingRun(s + rest, p) == s
  {
    if |s| > 0 {
      assert (s + rest)[1..] == s[1..] + rest;
      LeadingRunOf(s[1..], rest, p);
    } else {
      assert s + rest == rest;
    }
  }

  /** `s` with every character satisfying `p` removed, order kept. */
  function RemoveAll(s: string, p: char -> bool): (r: string)
    ensures forall i :: 0 <= i < |r| ==> !p(r[i])
    ensures forall i :: 0 <= i < |r| ==> r[i] in s
    ensures |r| <= |s|
  {
    if |s| == 0 then []
    else if p(s[0]) then RemoveAll(s[1..], p)
    else [s[0]] + RemoveAll(s[1..], p)
  }

  /** Removal works piecewise: removing from a concatenation removes from each part. */
  lemma {:induction false} RemoveAllAppend(a: string, b: string, p: char -> bool)
    ensures RemoveAll(a + b, p) == RemoveAll(a, p) + RemoveAll(b, p)
  {
    if |a| == 0 {
      assert a + b == b;
    } else {
      assert (a + b)[0] == a[0] && (a + b)[1..] == a[1..] + b;
      RemoveAllAppend(a[1..], b, p);
    }
  }

  /** A string with no `p`-character is left as it is. */
  lemma {:induction false} RemoveAllNone(s: string, p: char -> bool)
    requires forall i :: 0 <= i < |s| ==> !p(s[i])
    ensures RemoveAll(s, p) == s
  {
    if |s| > 0 {
      RemoveAllNone(s[1..], p);
    }
  }

  /** A string made only of `p`-characters disappears. */
  lemma {:induction false} RemoveAllOnly(s: string, p: char -> bool)
    requires forall i :: 0 <= i < |s| ==> p(s[i])
    ensures RemoveAll(s, p) == []
  {
    if |s| > 0 {
      RemoveAllOnly(s[1..], p);
    }
  }

}
