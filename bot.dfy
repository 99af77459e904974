/** The ledger state of the bot and the handlers that change it
    (index.js:36-37, 43-211). The two tables and the two cached id lists are
    fields of one object; each handler is a method that updates them in the
    order the source does and returns what the source would send: the reply
    to an admin command and the boards posted to the leaderboard channel.
    The wall clock, the Discord user directory and the sending of messages
    are not modelled: the current month key and a user lookup are
    parameters, and a board is returned instead of sent. */
module DonationBot {
  import opened Wrappers
  import opened Text
  import opened Tables
  import opened Leaderboard
  import opened Commands
  import opened MonthKeys

  /** The reply an admin command ends with: the confirmation, the
      "Format salah" message, or none because the handler threw first (no
      first argument, or the user lookup rejected). */
  datatype Reply = Confirmed | WrongFormat | Aborted

  /** `SELECT month FROM donations_monthly ORDER BY month DESC LIMIT 1`
      (index.js:86): the greatest month key in text order, `None` for an
      empty table. */
  method LatestMonth(m: map<MonthlyKey, Row>) returns (latest: Option<Month>)
    ensures latest.None? <==> m == map[]
    ensures latest.Some? ==> IsLatestMonth(m, latest.value)
  {
    var rest := m.Keys;
    latest := None;
    while rest != {}
      invariant rest <= m.Keys
      invariant latest.None? <==> rest == m.Keys
      invariant latest.Some? ==> exists k :: k in m && k !in rest && k.month == latest.value
      invariant latest.Some? ==> forall k :: k in m && k !in rest ==> !LexLess(latest.value, k.month)
      decreases |rest|
    {
      var k :| k in rest;
      LexIrreflexive(k.month);
      if latest.None? || LexLess(latest.value, k.month) {
        if latest.Some? {
          forall j | j in m && j !in rest ensures !LexLess(k.month, j.month) {
            if LexLess(k.month, j.month) {
              LexTransitive(latest.value, k.month, j.month);
            }
          }
        }
        latest := Some(k.month);
      }
      rest := rest - {k};
    }
    if latest.None? {
      assert m.Keys == {};
    }
  }

  class Ledger {
    /** `donations_total`: userId to (username, total). */
    var total: map<UserId, Row>
    /** `donations_monthly`: (userId, month) to (username, total). */
    var monthly: map<MonthlyKey, Row>
    /** `previousTopTotal`: the ids of the all-time board last published. */
    var prevTotal: seq<UserId>
    /** `previousTopMonthly`: the ids of the monthly board last published. */
    var prevMonthly: seq<UserId>

    /** No total in either table is negative. */
    ghost predicate Valid()
      reads this
    {
      NonNegative(total) && NonNegative(monthly)
    }

    /** Process start (index.js:14-37): the tables hold what the database
        files hold, and both caches start empty. */
    constructor (storedTotal: map<UserId, Row>, storedMonthly: map<MonthlyKey, Row>)
      requires NonNegative(storedTotal) && NonNegative(storedMonthly)
      ensures Valid()
      ensures total == storedTotal && monthly == storedMonthly
      ensures prevTotal == [] && prevMonthly == []
    {
      total := storedTotal;
      monthly := storedMonthly;
      prevTotal := [];
      prevMonthly := [];
    }

    /** Both projectors ran after a change, from the caches `cacheTotal`
        and `cacheMonthly`, and published `allTime` and `thisMonth`. */
    ghost predicate Republished(cacheTotal: seq<UserId>, cacheMonthly: seq<UserId>,
                                allTime: Option<seq<Entry>>, thisMonth: Option<seq<Entry>>, month: Month)
      reads this
    {
      Projected(total, AllTimeSize, cacheTotal, allTime, prevTotal) &&
      Projected(MonthTable(monthly, month), MonthlySize, cacheMonthly, thisMonth, prevMonthly)
    }

    /** Credit a donation to both tables (index.js:109-120, 151-162). */
    method Contribute(id: UserId, username: string, amount: int, month: Month)
      requires Valid() && amount > 0
      modifies this`total, this`monthly
      ensures Valid()
      ensures total == Credit(old(total), id, username, amount)
      ensures monthly == Credit(old(monthly), MonthlyKey(id, month), username, amount)
    {
      if id in total {
        total := total[id := Row(username, total[id].total + amount)];
      } else {
        total := total[id := Row(username, amount)];
      }
      var key := MonthlyKey(id, month);
      if key in monthly {
        monthly := monthly[key := Row(username, monthly[key].total + amount)];
      } else {
        monthly := monthly[key := Row(username, amount)];
      }
    }

    /** Subtract from the rows that exist (index.js:178-191). */
    method Subtract(id: UserId, username: string, amount: int, month: Month)
      requires Valid()
      modifies this`total, this`monthly
      ensures Valid()
      ensures total == Debit(old(total), id, username, amount)
      ensures monthly == Debit(old(monthly), MonthlyKey(id, month), username, amount)
    {
      if id in total {
        total := total[id := Row(username, Max0(total[id].total - amount))];
      }
      var key := MonthlyKey(id, month);
      if key in monthly {
        monthly := monthly[key := Row(username, Max0(monthly[key].total - amount))];
      }
    }

    /** Delete the user's all-time row and their rows of every month
        (index.js:204-205). */
    method Forget(id: UserId)
      requires Valid()
      modifies this`total, this`monthly
      ensures Valid()
      ensures total == DropUser(old(total), id)
      ensures monthly == DropUserMonths(old(monthly), id)
    {
      total := DropUser(total, id);
      monthly := DropUserMonths(monthly, id);
    }

    /** `updateLeaderboardTotal` (index.js:44-60), also run by `%donators`. */
    method UpdateLeaderboardTotal() returns (board: Option<seq<Entry>>)
      modifies this`prevTotal
      ensures Projected(total, AllTimeSize, old(prevTotal), board, prevTotal)
    {
      board, prevTotal := Project(total, AllTimeSize, prevTotal);
    }

    /** `updateLeaderboardMonthly` (index.js:63-80), also run by `%monthly`:
        the same over the rows of the current month. */
    method UpdateLeaderboardMonthly(month: Month) returns (board: Option<seq<Entry>>)
      modifies this`prevMonthly
      ensures Projected(MonthTable(monthly, month), MonthlySize, old(prevMonthly), board, prevMonthly)
    {
      board, prevMonthly := Project(MonthTable(monthly, month), MonthlySize, prevMonthly);
    }

    /** Run both projectors, as every handler that changes a table does
        (index.js:122-124, 165-167, 193-195, 207-209). */
    method Publish(month: Month) returns (allTime: Option<seq<Entry>>, thisMonth: Option<seq<Entry>>)
      modifies this`prevTotal, this`prevMonthly
      ensures Republished(old(prevTotal), old(prevMonthly), allTime, thisMonth, month)
    {
      allTime := UpdateLeaderboardTotal();
      thisMonth := UpdateLeaderboardMonthly(month);
    }

    /** `checkMonthlyReset` (index.js:83-93): when the latest month in the
        table is not the current one, delete every row of another month and
        forget the monthly board. An empty table counts as current. */
    method CheckMonthlyReset(current: Month) returns (reset: bool)
      requires Valid()
      modifies this`monthly, this`prevMonthly
      ensures Valid()
      ensures reset <==> old(monthly) != map[] && !IsLatestMonth(old(monthly), current)
      ensures monthly == if reset then KeepMonth(old(monthly), current) else old(monthly)
      ensures prevMonthly == if reset then [] else old(prevMonthly)
    {
      var latest := LatestMonth(monthly);
      var lastMonth := if latest.Some? then latest.value else current;
      reset := lastMonth != current;
      if latest.Some? && IsLatestMonth(monthly, current) {
        LatestMonthUnique(monthly, latest.value, current);
      }
      if reset {
        monthly := KeepMonth(monthly, current);
        prevMonthly := [];
      }
    }

    /** A message in the donation channel (index.js:101-125): credit the
        first "Rp" amount to the author, then run both projectors; a message
        without a positive amount changes nothing. */
    method HandleDonationMessage(content: string, authorId: UserId, authorName: string, month: Month)
      returns (credited: Option<int>, allTime: Option<seq<Entry>>, thisMonth: Option<seq<Entry>>)
      requires Valid()
      modifies this
      ensures Valid()
      ensures credited == DonationAmount(content)
      ensures credited.None? ==> unchanged(this) && allTime.None? && thisMonth.None?
      ensures credited.Some? ==>
        total == Credit(old(total), authorId, authorName, credited.value) &&
        monthly == Credit(old(monthly), MonthlyKey(authorId, month), authorName, credited.value) &&
        Republished(old(prevTotal), old(prevMonthly), allTime, thisMonth, month)
    {
      credited := DonationAmount(content);
      if credited.None? {
        return credited, None, None;
      }
      Contribute(authorId, authorName, credited.value, month);
      allTime, thisMonth := Publish(month);
    }

    /** `%resetdonation` (index.js:135-141): empty both tables and both caches. */
    method ResetDonation() returns (reply: Reply)
      modifies this
      ensures reply == Confirmed
      ensures Valid()
      ensures total == map[] && monthly == map[]
      ensures prevTotal == [] && prevMonthly == []
    {
      total := map[];
      monthly := map[];
      prevTotal := [];
      prevMonthly := [];
      reply := Confirmed;
    }

    /** `%adddonation @user amount` (index.js:143-168): check the
        arguments, look the user up, credit both tables, reply, then run
        both projectors. */
    method AddDonation(args: seq<string>, users: UserId -> Option<string>, month: Month)
      returns (reply: Reply, allTime: Option<seq<Entry>>, thisMonth: Option<seq<Entry>>)
      requires Valid()
      modifies this
      ensures Valid()
      ensures var p := TargetAndAmount(args);
        if p.Parsed? && users(p.value.0).Some? then
          var (id, amount) := p.value;
          reply == Confirmed &&
          total == Credit(old(total), id, users(id).value, amount) &&
          monthly == Credit(old(monthly), MonthlyKey(id, month), users(id).value, amount) &&
          Republished(old(prevTotal), old(prevMonthly), allTime, thisMonth, month)
        else
          reply == (if p.FormatError? then WrongFormat else Aborted) &&
          unchanged(this) && allTime.None? && thisMonth.None?
    {
      var parsed := TargetAndAmount(args);
      if parsed.NoArgument? {
        return Aborted, None, None;
      }
      if parsed.FormatError? {
        return WrongFormat, None, None;
      }
      var (id, amount) := parsed.value;
      var user := users(id);
      if user.None? {
        return Aborted, None, None;
      }
      Contribute(id, user.value, amount, month);
      reply := Confirmed;
      allTime, thisMonth := Publish(month);
    }

    /** `%removedonation @user amount` (index.js:170-197): check the
        arguments, look the user up, subtract from the rows that exist, run
        both projectors, reply. */
    method RemoveDonation(args: seq<string>, users: UserId -> Option<string>, month: Month)
      returns (reply: Reply, allTime: Option<seq<Entry>>, thisMonth: Option<seq<Entry>>)
      requires Valid()
      modifies this
      ensures Valid()
      ensures var p := TargetAndAmount(args);
        if p.Parsed? && users(p.value.0).Some? then
          var (id, amount) := p.value;
          reply == Confirmed &&
          total == Debit(old(total), id, users(id).value, amount) &&
          monthly == Debit(old(monthly), MonthlyKey(id, month), users(id).value, amount) &&
          Republished(old(prevTotal), old(prevMonthly), allTime, thisMonth, month)
        else
          reply == (if p.FormatError? then WrongFormat else Aborted) &&
          unchanged(this) && allTime.None? && thisMonth.None?
    {
      var parsed := TargetAndAmount(args);
      if parsed.NoArgument? {
        return Aborted, None, None;
      }
      if parsed.FormatError? {
        return WrongFormat, None, None;
      }
      var (id, amount) := parsed.value;
      var user := users(id);
      if user.None? {
        return Aborted, None, None;
      }
      Subtract(id, user.value, amount, month);
      allTime, thisMonth := Publish(month);
      reply := Confirmed;
    }

    /** `%resetuser @user` (index.js:199-211): check the argument, look the
        user up, delete their all-time row and their rows of every month,
        run both projectors, reply. */
    method ResetUser(args: seq<string>, users: UserId -> Option<string>, month: Month)
      returns (reply: Reply, allTime: Option<seq<Entry>>, thisMonth: Option<seq<Entry>>)
      requires Valid()
      modifies this
      ensures Valid()
      ensures var p := TargetOf(args);
        if p.Parsed? && users(p.value).Some? then
          reply == Confirmed &&
          total == DropUser(old(total), p.value) &&
          monthly == DropUserMonths(old(monthly), p.value) &&
          Republished(old(prevTotal), old(prevMonthly), allTime, thisMonth, month)
        else
          reply == (if p.FormatError? then WrongFormat else Aborted) &&
          unchanged(this) && allTime.None? && thisMonth.None?
    {
      var parsed := TargetOf(args);
      if parsed.NoArgument? {
        return Aborted, None, None;
      }
      if parsed.FormatError? {
        return WrongFormat, None, None;
      }
      var id := parsed.value;
      if users(id).None? {
        return Aborted, None, None;
      }
      Forget(id);
      allTime, thisMonth := Publish(month);
      reply := Confirmed;
    }
  }

  // ------------------------------------------------ consequences worth knowing

  /** After `%resetdonation`, projecting the empty tables sends nothing:
      the empty id list equals the emptied cache. */
  lemma EmptyAfterResetIsSilent(n: nat, board: Option<seq<Entry>>, cache': seq<UserId>)
    requires Projected(map[], n, [], board, cache')
    ensures board.None? && cache' == []
  {
  }

  /** A monthly table holding a row of an earlier month and a row of the
      current month: the latest month is the current one, so the rollover
      check does not fire and the earlier row survives until the current
      month's rows are the only ones or a later month begins. */
  lemma CurrentRowDelaysPurge(a: UserId, b: UserId, ra: Row, rb: Row, y1: nat, m1: nat, y2: nat, m2: nat)
    requires 1000 <= y1 <= 9999 && 1000 <= y2 <= 9999
    requires 1 <= m1 <= 12 && 1 <= m2 <= 12
    requires y1 < y2 || (y1 == y2 && m1 < m2)
    ensures var m := map[MonthlyKey(a, MonthKey(y1, m1)) := ra, MonthlyKey(b, MonthKey(y2, m2)) := rb];
      IsLatestMonth(m, MonthKey(y2, m2)) && KeepMonth(m, MonthKey(y2, m2)) != m
  {
    MonthKeyOrder(y1, m1, y2, m2);
    EarlierRowSurvives(a, b, ra, rb, MonthKey(y1, m1), MonthKey(y2, m2));
  }

  /** The same for any two month keys in text order. */
  lemma EarlierRowSurvives(a: UserId, b: UserId, ra: Row, rb: Row, earlier: Month, current: Month)
    requires LexLess(earlier, current)
    ensures var m := map[MonthlyKey(a, earlier) := ra, MonthlyKey(b, current) := rb];
      IsLatestMonth(m, current) && KeepMonth(m, current) != m
  {
    var m := map[MonthlyKey(a, earlier) := ra, MonthlyKey(b, current) := rb];
    LexAsymmetric(earlier, current);
    LexIrreflexive(current);
    LexIrreflexive(earlier);
    assert MonthlyKey(b, current) in m;
    assert MonthlyKey(a, earlier) !in KeepMonth(m, current);
  }

  /** Users "A" and "B" donate 50000, 70000 and again 20000 for "A": both
      stand at 70000, and the tie goes to the smaller id, "A". */
  lemma TieGoesToSmallerId()
    ensures var t := Credit(Credit(Credit(map[], "A", "alice", 50000), "B", "bob", 70000), "A", "alice", 20000);
      t == map["A" := Row("alice", 70000), "B" := Row("bob", 70000)] &&
      IsTopN(t, AllTimeSize, ["A", "B"])
  {
    var t := Credit(Credit(Credit(map[], "A", "alice", 50000), "B", "bob", 70000), "A", "alice", 20000);
    assert t == map["A" := Row("alice", 70000), "B" := Row("bob", 70000)];
    assert LexLess("A", "B");
    assert t.Keys == {"A", "B"};
    assert |t.Keys| == 2;
  }

}
