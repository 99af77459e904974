/** The two SQLite tables of the ledger (index.js:13-30), as maps:
    `donations_total` keyed by user id and `donations_monthly` keyed by
    (user id, month). The statements the bot runs on them become the
    functions below; the class in the bot module applies them in place. */
module Tables {
  import opened Text

  type UserId = string
  type Month = string

  /** A row of either table: the username last seen and the running total. */
  datatype Row = Row(username: string, total: int)

  /** The primary key `(userId, month)` of the monthly table. */
  datatype MonthlyKey = MonthlyKey(user: UserId, month: Month)

  /** No row of the table has a negative total. */
  ghost predicate NonNegative<K>(t: map<K, Row>)
  {
    forall k :: k in t ==> t[k].total >= 0
  }

  /** The total a key holds, 0 when it has no row. */
  function TotalOf<K>(t: map<K, Row>, k: K): int
  {
    if k in t then t[k].total else 0
  }

  function Max0(x: int): (r: nat)
    ensures r >= x
  {
    if x > 0 then x else 0
  }

  // ----------------------------------------------------------- ledger rules

  /** `UPDATE ... SET total=total+?, username=?` when the row exists, else
      `INSERT` with the amount as total (index.js:109-120, 151-162): the row
      gains exactly `amount`, carries the latest username, and no other row
      changes. */
  function Credit<K>(t: map<K, Row>, k: K, username: string, amount: int): (r: map<K, Row>)
    ensures r.Keys == t.Keys + {k}
    ensures r[k] == Row(username, TotalOf(t, k) + amount)
    ensures forall j :: j in t && j != k ==> r[j] == t[j]
    ensures NonNegative(t) && amount >= 0 ==> NonNegative(r)
  {
    if k in t then t[k := Row(username, t[k].total + amount)]
    else t[k := Row(username, amount)]
  }

  /** The subtraction of `%removedonation` (index.js:178-191): an existing
      row gets `max(total - amount, 0)` and the latest username; a missing
      row stays missing. No row is created or deleted and no total goes
      below zero. */
  function Debit<K>(t: map<K, Row>, k: K, username: string, amount: int): (r: map<K, Row>)
    ensures r.Keys == t.Keys
    ensures k in t ==> r[k].username == username
    ensures k in t ==> r[k].total == Max0(t[k].total - amount)
    ensures forall j :: j in t && j != k ==> r[j] == t[j]
    ensures NonNegative(t) ==> NonNegative(r)
  {
    if k in t then t[k := Row(username, Max0(t[k].total - amount))] else t
  }

  /** Removing what was just added gives the old total back, but a row
      that the addition created stays, with total 0: subtraction never
      deletes. */
  lemma DebitUndoesCredit<K>(t: map<K, Row>, k: K, username: string, amount: nat)
    requires NonNegative(t)
    ensures Debit(Credit(t, k, username, amount), k, username, amount) ==
            t[k := Row(username, TotalOf(t, k))]
  {
  }

  /** A subtraction larger than the total clamps it to zero. */
  lemma DebitClamps<K>(t: map<K, Row>, k: K, username: string, amount: int)
    requires k in t && amount >= t[k].total
    ensures Debit(t, k, username, amount)[k].total == 0
  {
  }

  /** One credited donation: whose, under which name, how much. */
  datatype Gift<K> = Gift(key: K, username: string, amount: int)

  /** The table after crediting `gifts` in order. */
  function CreditAll<K>(t: map<K, Row>, gifts: seq<Gift<K>>): map<K, Row>
  {
    if gifts == [] then t
    else
      var g := gifts[|gifts| - 1];
      Credit(CreditAll(t, gifts[..|gifts| - 1]), g.key, g.username, g.amount)
  }

  /** The sum of the amounts in `gifts` credited to `k`. */
  function SumFor<K(==)>(gifts: seq<Gift<K>>, k: K): int
  {
    if gifts == [] then 0
    else
      var g := gifts[|gifts| - 1];
      SumFor(gifts[..|gifts| - 1], k) + (if g.key == k then g.amount else 0)
  }

  /** After any sequence of donations, a user's total is what they started
      with plus the sum of their own donations, and positive donations keep
      every total non-negative. */
  lemma {:induction false} CreditAllSums<K>(t: map<K, Row>, gifts: seq<Gift<K>>, k: K)
    ensures TotalOf(CreditAll(t, gifts), k) == TotalOf(t, k) + SumFor(gifts, k)
    ensures NonNegative(t) && (forall i :: 0 <= i < |gifts| ==> gifts[i].amount > 0) ==>
              NonNegative(CreditAll(t, gifts))
  {
    if gifts != [] {
      var init := gifts[..|gifts| - 1];
      CreditAllSums(t, init, k);
      assert forall i :: 0 <= i < |init| ==> init[i] == gifts[i];
    }
  }

  /** `DELETE FROM donations_total WHERE userId=?` (index.js:204). */
  function DropUser(t: map<UserId, Row>, id: UserId): (r: map<UserId, Row>)
    ensures r.Keys == t.Keys - {id}
    ensures forall j :: j in r ==> r[j] == t[j]
  {
    t - {id}
  }

  /** `DELETE FROM donations_monthly WHERE userId=?` (index.js:205): the
      user's rows of every month go, nobody else's. */
  function DropUserMonths(m: map<MonthlyKey, Row>, id: UserId): (r: map<MonthlyKey, Row>)
    ensures forall k :: k in r <==> k in m && k.user != id
    ensures forall k :: k in r ==> r[k] == m[k]
  {
    map k | k in m && k.user != id :: m[k]
  }

  /** Resetting a user twice is resetting them once. */
  lemma ResetUserIdempotent(t: map<UserId, Row>, m: map<MonthlyKey, Row>, id: UserId)
    ensures DropUser(DropUser(t, id), id) == DropUser(t, id)
    ensures DropUserMonths(DropUserMonths(m, id), id) == DropUserMonths(m, id)
  {
  }

  /** `DELETE FROM donations_monthly WHERE month <> ?` (index.js:89): only
      the rows of `month` remain, unchanged. */
  function KeepMonth(m: map<MonthlyKey, Row>, month: Month): (r: map<MonthlyKey, Row>)
    ensures forall k :: k in r <==> k in m && k.month == month
    ensures forall k :: k in r ==> r[k] == m[k]
  {
    map k | k in m && k.month == month :: m[k]
  }

  /** The rows of one month, by user: what
      `SELECT * FROM donations_monthly WHERE month=?` reads (index.js:65). */
  function MonthTable(m: map<MonthlyKey, Row>, month: Month): (r: map<UserId, Row>)
    ensures forall u :: u in r <==> MonthlyKey(u, month) in m
    ensures forall u :: u in r ==> r[u] == m[MonthlyKey(u, month)]
  {
    map k | k in m && k.month == month :: k.user := m[k]
  }

  /** Crediting a user's row of `month` credits their row in that month's
      table. */
  lemma CreditMonthTable(m: map<MonthlyKey, Row>, id: UserId, month: Month, username: string, amount: int)
    ensures MonthTable(Credit(m, MonthlyKey(id, month), username, amount), month) ==
            Credit(MonthTable(m, month), id, username, amount)
  {
    var a := MonthTable(Credit(m, MonthlyKey(id, month), username, amount), month);
    var b := Credit(MonthTable(m, month), id, username, amount);
    assert a.Keys == b.Keys;
    forall u | u in a ensures a[u] == b[u] {
      if u != id {
        assert MonthlyKey(u, month) != MonthlyKey(id, month);
      }
    }
  }

  /** ... and leaves every other month's table as it was. */
  lemma CreditOtherMonth(m: map<MonthlyKey, Row>, id: UserId, month: Month, username: string, amount: int, other: Month)
    requires other != month
    ensures MonthTable(Credit(m, MonthlyKey(id, month), username, amount), other) == MonthTable(m, other)
  {
    var a := MonthTable(Credit(m, MonthlyKey(id, month), username, amount), other);
    assert a.Keys == MonthTable(m, other).Keys;
  }

  /** Subtracting from a user's row of `month` subtracts in that month's table. */
  lemma DebitMonthTable(m: map<MonthlyKey, Row>, id: UserId, month: Month, username: string, amount: int)
    ensures MonthTable(Debit(m, MonthlyKey(id, month), username, amount), month) ==
            Debit(MonthTable(m, month), id, username, amount)
  {
    var a := MonthTable(Debit(m, MonthlyKey(id, month), username, amount), month);
    var b := Debit(MonthTable(m, month), id, username, amount);
    assert a.Keys == b.Keys;
    forall u | u in a ensures a[u] == b[u] {
      if u != id {
        assert MonthlyKey(u, month) != MonthlyKey(id, month);
      }
    }
  }

  // --------------------------------------------------------------- rollover

  /** `month` is what `SELECT month ... ORDER BY month DESC LIMIT 1` reads
      (index.js:86): the month of some row, and no row's month sorts after it. */
  ghost predicate IsLatestMonth(m: map<MonthlyKey, Row>, month: Month)
  {
    (exists k :: k in m && k.month == month) &&
    forall k :: k in m ==> !LexLess(month, k.month)
  }

  /** There is only one latest month. */
  lemma LatestMonthUnique(m: map<MonthlyKey, Row>, a: Month, b: Month)
    requires IsLatestMonth(m, a) && IsLatestMonth(m, b)
    ensures a == b
  {
    if a != b {
      var ka :| ka in m && ka.month == a;
      var kb :| kb in m && kb.month == b;
      LexTotal(a, b);
    }
  }

  /** The purge leaves the current month's rows, so the next check finds
      the table empty or the current month latest and does not fire again,
      and the current month's board is not touched. */
  lemma PurgeSettles(m: map<MonthlyKey, Row>, current: Month)
    ensures KeepMonth(m, current) == map[] || IsLatestMonth(KeepMonth(m, current), current)
    ensures MonthTable(KeepMonth(m, current), current) == MonthTable(m, current)
  {
    var r := KeepMonth(m, current);
    LexIrreflexive(current);
    if r != map[] {
      var k :| k in r;
      assert k.month == current;
    }
    assert MonthTable(r, current).Keys == MonthTable(m, current).Keys;
  }

}
