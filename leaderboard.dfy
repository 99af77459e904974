/** The leaderboard projector (index.js:40, 44-80): choose the top rows of a
    table, compare their id sequence with the one last published, and when it
    differs publish the rows ranked 1, 2, ... with medals on the first three.
    `ORDER BY total DESC` leaves the order of equal totals to SQLite; this
    model fixes it as ascending user id (text order), so that the top list
    is a function of the table. */
module Leaderboard {
  import opened Wrappers
  import opened Text
  import opened Tables

  /** `LIMIT 30` of the all-time board (index.js:45). */
  const AllTimeSize: nat := 30
  /** `LIMIT 10` of the monthly board (index.js:65). */
  const MonthlySize: nat := 10

  function Min(a: nat, b: nat): nat
  {
    if a <= b then a else b
  }

  /** Row `a` is listed before row `b`: a larger total, or an equal total
      and a smaller id. */
  predicate Outranks(a: UserId, ra: Row, b: UserId, rb: Row)
  {
    ra.total > rb.total || (ra.total == rb.total && LexLess(a, b))
  }

  predicate Before(t: map<UserId, Row>, a: UserId, b: UserId)
  {
    a in t && b in t && Outranks(a, t[a], b, t[b])
  }

  lemma BeforeIrreflexive(t: map<UserId, Row>, a: UserId)
    ensures !Before(t, a, a)
  {
    LexIrreflexive(a);
  }

  lemma BeforeTransitive(t: map<UserId, Row>, a: UserId, b: UserId, c: UserId)
    requires Before(t, a, b) && Before(t, b, c)
    ensures Before(t, a, c)
  {
    if t[a].total == t[b].total == t[c].total {
      LexTransitive(a, b, c);
    }
  }

  lemma BeforeAsymmetric(t: map<UserId, Row>, a: UserId, b: UserId)
    requires Before(t, a, b)
    ensures !Before(t, b, a)
  {
    if t[a].total == t[b].total {
      LexAsymmetric(a, b);
    }
  }

  /** Any two different rows are ordered one way or the other. */
  lemma BeforeTotal(t: map<UserId, Row>, a: UserId, b: UserId)
    requires a in t && b in t && a != b
    ensures Before(t, a, b) || Before(t, b, a)
  {
    LexTotal(a, b);
  }

  /** `s` lists rows of `t`, each strictly before the next (so no id twice). */
  ghost predicate Ranked(t: map<UserId, Row>, s: seq<UserId>)
  {
    (forall i :: 0 <= i < |s| ==> s[i] in t) &&
    forall i, j :: 0 <= i < j < |s| ==> Before(t, s[i], s[j])
  }

  /** `ids` is the result of `ORDER BY total DESC LIMIT n` on `t`: as many
      rows as the limit allows, ranked, and every row left out comes after
      every row listed. */
  ghost predicate IsTopN(t: map<UserId, Row>, n: nat, ids: seq<UserId>)
  {
    Ranked(t, ids) &&
    |ids| == Min(n, |t.Keys|) &&
    forall k, i :: k in t && k !in ids && 0 <= i < |ids| ==> Before(t, ids[i], k)
  }

  /** Putting a row before a ranked list that it precedes entirely. */
  lemma PrependRanked(t: map<UserId, Row>, a: UserId, s: seq<UserId>)
    requires Ranked(t, s) && a in t
    requires forall i :: 0 <= i < |s| ==> Before(t, a, s[i])
    ensures Ranked(t, [a] + s)
  {
    var r := [a] + s;
    forall i, j | 0 <= i < j < |r| ensures Before(t, r[i], r[j]) {
      if i > 0 {
        assert r[i] == s[i - 1] && r[j] == s[j - 1];
      }
    }
  }

  /** Insert `k` at its place in a ranked list. */
  function Insert(t: map<UserId, Row>, s: seq<UserId>, k: UserId): (r: seq<UserId>)
    requires Ranked(t, s) && k in t && k !in s
    ensures Ranked(t, r) && |r| == |s| + 1
    ensures forall x :: x in r <==> x in s || x == k
  {
    if s == [] then [k]
    else if Outranks(k, t[k], s[0], t[s[0]]) then
      assert forall i :: 0 <= i < |s| ==> Before(t, k, s[i]) by {
        forall i | 0 <= i < |s| ensures Before(t, k, s[i]) {
          if i > 0 {
            BeforeTransitive(t, k, s[0], s[i]);
          }
        }
      }
      PrependRanked(t, k, s);
      [k] + s
    else
      var rest := Insert(t, s[1..], k);
      assert Before(t, s[0], k) by {
        BeforeTotal(t, s[0], k);
      }
      assert forall i :: 0 <= i < |rest| ==> Before(t, s[0], rest[i]) by {
        forall i | 0 <= i < |rest| ensures Before(t, s[0], rest[i]) {
          if rest[i] != k {
            assert rest[i] in rest;
            assert rest[i] in s[1..];
            var j :| 0 <= j < |s[1..]| && s[1..][j] == rest[i];
            assert s[j + 1] == rest[i];
          }
        }
      }
      PrependRanked(t, s[0], rest);
      assert s == [s[0]] + s[1..];
      [s[0]] + rest
  }

  /** The top `n` rows of `t`: rank every row by insertion, keep the first `n`. */
  method SelectTop(t: map<UserId, Row>, n: nat) returns (ids: seq<UserId>)
    ensures IsTopN(t, n, ids)
  {
    var rest := t.Keys;
    var ranked: seq<UserId> := [];
    while rest != {}
      invariant rest <= t.Keys
      invariant Ranked(t, ranked)
      invariant forall k :: k in t ==> (k in rest <==> k !in ranked)
      invariant |ranked| + |rest| == |t.Keys|
      decreases |rest|
    {
      var k :| k in rest;
      ranked := Insert(t, ranked, k);
      rest := rest - {k};
    }
    ids := ranked[..Min(n, |ranked|)];
    TopOfRanked(t, n, ranked);
  }

  /** The first `n` of all rows ranked are the top `n`. */
  lemma TopOfRanked(t: map<UserId, Row>, n: nat, ranked: seq<UserId>)
    requires Ranked(t, ranked) && |ranked| == |t.Keys|
    requires forall k :: k in t ==> k in ranked
    ensures IsTopN(t, n, ranked[..Min(n, |ranked|)])
  {
    var ids := ranked[..Min(n, |ranked|)];
    forall k, i | k in t && k !in ids && 0 <= i < |ids| ensures Before(t, ids[i], k) {
      var tail := ranked[|ids|..];
      assert ranked == ids + tail;
      assert k in tail;
      var j :| 0 <= j < |tail| && tail[j] == k;
      assert ranked[|ids| + j] == k && ranked[i] == ids[i];
    }
  }

  /** Where two top lists agree on their first `i` ids and differ at the
      next, the second list's id comes before the first's. */
  lemma TopNPrefers(t: map<UserId, Row>, n: nat, a: seq<UserId>, b: seq<UserId>, i: nat)
    requires IsTopN(t, n, a) && IsTopN(t, n, b)
    requires i < |a| && a[..i] == b[..i] && a[i] != b[i]
    ensures Before(t, b[i], a[i])
  {
    var x := a[i];
    if x in b {
      var p :| 0 <= p < |b| && b[p] == x;
      if p < i {
        assert a[p] == b[p];
        BeforeIrreflexive(t, x);
        assert false;
      }
    }
  }

  /** The first `i` ids of any two top-`n` lists of one table agree. */
  lemma {:induction false} TopNAgree(t: map<UserId, Row>, n: nat, a: seq<UserId>, b: seq<UserId>, i: nat)
    requires IsTopN(t, n, a) && IsTopN(t, n, b) && i <= |a|
    ensures a[..i] == b[..i]
  {
    if i > 0 {
      TopNAgree(t, n, a, b, i - 1);
      if a[i - 1] != b[i - 1] {
        TopNPrefers(t, n, a, b, i - 1);
        TopNPrefers(t, n, b, a, i - 1);
        BeforeAsymmetric(t, a[i - 1], b[i - 1]);
      }
      assert a[..i] == a[..i - 1] + [a[i - 1]];
      assert b[..i] == b[..i - 1] + [b[i - 1]];
    }
  }

  /** The top list of a table is unique: the projector reads the same ids
      from the same table every time. */
  lemma TopNUnique(t: map<UserId, Row>, n: nat, a: seq<UserId>, b: seq<UserId>)
    requires IsTopN(t, n, a) && IsTopN(t, n, b)
    ensures a == b
  {
    TopNAgree(t, n, a, b, |a|);
  }

  /** Two tables over the same users that order every pair alike. */
  ghost predicate SameOrder(t: map<UserId, Row>, t': map<UserId, Row>)
  {
    t.Keys == t'.Keys &&
    forall a, b :: a in t && b in t ==> (Before(t, a, b) <==> Before(t', a, b))
  }

  /** A change of totals that keeps every pairwise order keeps the top list. */
  lemma TopNKeptBySameOrder(t: map<UserId, Row>, t': map<UserId, Row>, n: nat, ids: seq<UserId>)
    requires SameOrder(t, t') && IsTopN(t, n, ids)
    ensures IsTopN(t', n, ids)
  {
  }

  /** When the user ranked first gives more, the order of the table is the
      same as before. */
  lemma LeaderTopUpSameOrder(t: map<UserId, Row>, n: nat, ids: seq<UserId>, username: string, amount: int)
    requires IsTopN(t, n, ids) && |ids| > 0 && amount > 0
    ensures SameOrder(t, Credit(t, ids[0], username, amount))
  {
    var u := ids[0];
    var t' := Credit(t, u, username, amount);
    forall a, b | a in t && b in t ensures Before(t, a, b) <==> Before(t', a, b) {
      if a == u && b != u {
        if b in ids {
          var j :| 0 <= j < |ids| && ids[j] == b;
          assert j != 0;
        }
        assert Before(t, u, b);
      } else if b == u && a != u {
        if a in ids {
          var j :| 0 <= j < |ids| && ids[j] == a;
          assert j != 0;
        }
        assert Before(t, u, a);
        BeforeAsymmetric(t, u, a);
      }
    }
  }

  // ------------------------------------------------------------ the board

  /** `getEmoji(pos)` (index.js:40): a medal for ranks 1 to 3, nothing otherwise. */
  function Medal(rank: int): (m: string)
    ensures m != "" <==> 1 <= rank <= 3
  {
    if 1 <= rank <= 3 then ["\U{1F947}", "\U{1F948}", "\U{1F949}"][rank - 1] else ""
  }

  /** The three medals differ. */
  lemma MedalsDistinct(r1: int, r2: int)
    requires 1 <= r1 <= 3 && 1 <= r2 <= 3 && r1 != r2
    ensures Medal(r1) != Medal(r2)
  {
  }

  /** One line of a published board: rank, medal, username and total (the
      fields of `embed.addFields`, index.js:56, 76, without the display text). */
  datatype Entry = Entry(rank: nat, medal: string, username: string, total: int)

  /** The board that lists `ids` of `t` in order. */
  ghost function Board(t: map<UserId, Row>, ids: seq<UserId>): seq<Entry>
    requires forall i :: 0 <= i < |ids| ==> ids[i] in t
  {
    seq(|ids|, i requires 0 <= i < |ids| => Entry(i + 1, Medal(i + 1), t[ids[i]].username, t[ids[i]].total))
  }

  /** The `forEach` that numbers the rows (index.js:55-57, 75-77). */
  method RankEntries(t: map<UserId, Row>, ids: seq<UserId>) returns (entries: seq<Entry>)
    requires forall i :: 0 <= i < |ids| ==> ids[i] in t
    ensures entries == Board(t, ids)
  {
    entries := [];
    var index := 0;
    while index < |ids|
      invariant 0 <= index <= |ids|
      invariant |entries| == index
      invariant forall i :: 0 <= i < index ==>
        entries[i] == Entry(i + 1, Medal(i + 1), t[ids[i]].username, t[ids[i]].total)
    {
      var row := t[ids[index]];
      entries := entries + [Entry(index + 1, Medal(index + 1), row.username, row.total)];
      index := index + 1;
    }
  }

  /** A published board has at most `n` lines, ranked 1, 2, ... in order of
      non-increasing total, with medals on ranks 1 to 3 and only there. */
  lemma BoardShape(t: map<UserId, Row>, n: nat, ids: seq<UserId>)
    requires IsTopN(t, n, ids)
    ensures var b := Board(t, ids);
      |b| <= n && |b| <= |t.Keys| &&
      (forall i :: 0 <= i < |b| ==> b[i].rank == i + 1 && (b[i].medal != "" <==> i < 3)) &&
      (forall i, j :: 0 <= i < j < |b| ==> b[i].total >= b[j].total)
  {
  }

  /** What one run of a projector did: `board` is `None` exactly when the
      top ids equal the cached ones (`JSON.stringify(ids) === JSON.stringify(previous)`),
      and then the cache stays; otherwise the cache becomes the new top ids
      before the board is sent. */
  ghost predicate Projected(t: map<UserId, Row>, n: nat, cache: seq<UserId>,
                            board: Option<seq<Entry>>, cache': seq<UserId>)
  {
    (board.None? <==> IsTopN(t, n, cache)) &&
    (board.None? ==> cache' == cache) &&
    (board.Some? ==> IsTopN(t, n, cache') && board.value == Board(t, cache'))
  }

  /** The shared body of both projectors: select, compare, rank. */
  method Project(t: map<UserId, Row>, n: nat, cache: seq<UserId>)
    returns (board: Option<seq<Entry>>, cache': seq<UserId>)
    ensures Projected(t, n, cache, board, cache')
  {
    var ids := SelectTop(t, n);
    if ids == cache {
      return None, cache;
    }
    if IsTopN(t, n, cache) {
      TopNUnique(t, n, ids, cache);
    }
    cache' := ids;
    var entries := RankEntries(t, ids);
    board := Some(entries);
  }

  /** A second projection with nothing changed in between sends nothing. */
  lemma RepeatIsSilent(t: map<UserId, Row>, n: nat, c0: seq<UserId>, b1: Option<seq<Entry>>,
                       c1: seq<UserId>, b2: Option<seq<Entry>>, c2: seq<UserId>)
    requires Projected(t, n, c0, b1, c1) && Projected(t, n, c1, b2, c2)
    ensures b2.None? && c2 == c1
  {
  }

  /** A change that keeps every pairwise order sends nothing either; a
      further donation by the leader is one (`LeaderTopUpIsSilent`). */
  lemma SameOrderIsSilent(t: map<UserId, Row>, t': map<UserId, Row>, n: nat, c0: seq<UserId>,
                          b1: Option<seq<Entry>>, c1: seq<UserId>, b2: Option<seq<Entry>>, c2: seq<UserId>)
    requires Projected(t, n, c0, b1, c1) && SameOrder(t, t') && Projected(t', n, c1, b2, c2)
    ensures b2.None?
  {
    if b1.None? {
      TopNKeptBySameOrder(t, t', n, c0);
    } else {
      TopNKeptBySameOrder(t, t', n, c1);
    }
  }

  /** When the user at the top of a published board donates again, the
      board is not sent again. */
  lemma LeaderTopUpIsSilent(t: map<UserId, Row>, n: nat, c0: seq<UserId>, b1: Option<seq<Entry>>,
                            c1: seq<UserId>, username: string, amount: int,
                            b2: Option<seq<Entry>>, c2: seq<UserId>)
    requires Projected(t, n, c0, b1, c1) && |c1| > 0 && amount > 0
    requires Projected(Credit(t, c1[0], username, amount), n, c1, b2, c2)
    ensures b2.None?
  {
    assert IsTopN(t, n, c1);
    LeaderTopUpSameOrder(t, n, c1, username, amount);
    TopNKeptBySameOrder(t, Credit(t, c1[0], username, amount), n, c1);
  }

}
