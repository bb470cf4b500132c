/** The four queries of the check-in repository (repository/DailyCheckinRepository.java),
    as functions of the table, which is a sequence of rows in insertion (id) order. Being
    functions, none of them can change the table. */
module DailyCheckinRepository {
  import opened Wrappers
  import opened Calendar
  import opened Entities

  /** The JPQL filter `d.userId = :userId AND YEAR(d.checkinDate) = :year AND
      MONTH(d.checkinDate) = :month`. */
  predicate InMonth(row: DailyCheckin, userId: int, year: int, month: int) {
    row.userId == userId && row.checkinDate.year == year && row.checkinDate.month == month
  }

  /** The rows the filter selects, in table order. */
  function MonthRows(rows: seq<DailyCheckin>, userId: int, year: int, month: int): (r: seq<DailyCheckin>)
    ensures |r| <= |rows|
  {
    if |rows| == 0 then []
    else
      var prefix := MonthRows(rows[..|rows| - 1], userId, year, month);
      var last := rows[|rows| - 1];
      if InMonth(last, userId, year, month) then prefix + [last] else prefix
  }

  lemma MonthRowsAppend(rows: seq<DailyCheckin>, row: DailyCheckin, userId: int, year: int, month: int)
    ensures MonthRows(rows + [row], userId, year, month) ==
      if InMonth(row, userId, year, month) then MonthRows(rows, userId, year, month) + [row]
      else MonthRows(rows, userId, year, month)
  {
    assert (rows + [row])[..|rows|] == rows;
  }

  /** The filter keeps every selected row as often as the table holds it and no other row. */
  lemma {:induction false} MonthRowsExact(rows: seq<DailyCheckin>, userId: int, year: int, month: int)
    ensures forall x :: multiset(MonthRows(rows, userId, year, month))[x] ==
                        (if InMonth(x, userId, year, month) then multiset(rows)[x] else 0)
  {
    if |rows| > 0 {
      var init, last := rows[..|rows| - 1], rows[|rows| - 1];
      assert rows == init + [last];
      MonthRowsExact(init, userId, year, month);
      MonthRowsAppend(init, last, userId, year, month);
    }
  }

  lemma MonthRowsMember(rows: seq<DailyCheckin>, userId: int, year: int, month: int, x: DailyCheckin)
    ensures x in MonthRows(rows, userId, year, month) <==> x in rows && InMonth(x, userId, year, month)
  {
    MonthRowsExact(rows, userId, year, month);
    assert x in MonthRows(rows, userId, year, month) <==> multiset(MonthRows(rows, userId, year, month))[x] > 0;
    assert x in rows <==> multiset(rows)[x] > 0;
  }

  /** A row of the user on `date` counts towards the month of `date`. */
  lemma HasRowCounted(rows: seq<DailyCheckin>, userId: int, date: Date)
    ensures HasRow(rows, userId, date) ==> CountByUserIdAndMonth(rows, userId, date.year, date.month) > 0
  {
    if HasRow(rows, userId, date) {
      var i :| 0 <= i < |rows| && rows[i].userId == userId && rows[i].checkinDate == date;
      MonthRowsMember(rows, userId, date.year, date.month, rows[i]);
    }
  }

  /** `findByUserIdAndCheckinDate`: the row of that user on that date, if any. */
  function FindByUserIdAndCheckinDate(rows: seq<DailyCheckin>, userId: int, date: Date): (r: Option<DailyCheckin>)
    ensures r.Some? ==> r.value in rows && r.value.userId == userId && r.value.checkinDate == date
    ensures r.None? <==> !HasRow(rows, userId, date)
  {
    if |rows| == 0 then None
    else if rows[0].userId == userId && rows[0].checkinDate == date then Some(rows[0])
    else
      var r := FindByUserIdAndCheckinDate(rows[1..], userId, date);
      assert HasRow(rows, userId, date) ==> HasRow(rows[1..], userId, date) by {
        if HasRow(rows, userId, date) {
          var i :| 0 <= i < |rows| && rows[i].userId == userId && rows[i].checkinDate == date;
          assert rows[1..][i - 1] == rows[i];
        }
      }
      assert HasRow(rows[1..], userId, date) ==> HasRow(rows, userId, date) by {
        if HasRow(rows[1..], userId, date) {
          var i :| 0 <= i < |rows[1..]| && rows[1..][i].userId == userId && rows[1..][i].checkinDate == date;
          assert rows[i + 1] == rows[1..][i];
        }
      }
      r
  }

  /** Under the unique constraint the row found is the one row of that user and date. */
  lemma FindUnique(rows: seq<DailyCheckin>, i: int)
    requires UniqueUserDate(rows) && 0 <= i < |rows|
    ensures FindByUserIdAndCheckinDate(rows, rows[i].userId, rows[i].checkinDate) == Some(rows[i])
  {
    var r := FindByUserIdAndCheckinDate(rows, rows[i].userId, rows[i].checkinDate);
    var j :| 0 <= j < |rows| && rows[j] == r.value;
  }

  /** The user has a row in that month. */
  predicate HasMonthRow(rows: seq<DailyCheckin>, userId: int, year: int, month: int) {
    exists i :: 0 <= i < |rows| && InMonth(rows[i], userId, year, month)
  }

  /** Every row the filter selects, and only those. */
  lemma MonthRowsMembers(rows: seq<DailyCheckin>, userId: int, year: int, month: int)
    ensures forall x :: x in MonthRows(rows, userId, year, month) <==> x in rows && InMonth(x, userId, year, month)
  {
    forall x {
      MonthRowsMember(rows, userId, year, month, x);
    }
  }

  /** `countByUserIdAndMonth`: zero exactly when the user has no row in that month. */
  function CountByUserIdAndMonth(rows: seq<DailyCheckin>, userId: int, year: int, month: int): (n: nat)
    ensures n <= |rows|
    ensures n > 0 <==> HasMonthRow(rows, userId, year, month)
  {
    MonthRowsMembers(rows, userId, year, month);
    var rs := MonthRows(rows, userId, year, month);
    assert |rs| > 0 ==> rs[0] in rs;
    |rs|
  }

  /** A new row adds one to the count of its own user and month and to no other. */
  lemma CountAppend(rows: seq<DailyCheckin>, row: DailyCheckin, userId: int, year: int, month: int)
    ensures CountByUserIdAndMonth(rows + [row], userId, year, month) ==
      CountByUserIdAndMonth(rows, userId, year, month) + (if InMonth(row, userId, year, month) then 1 else 0)
  {
    MonthRowsAppend(rows, row, userId, year, month);
  }

  datatype Direction = Ascending | Descending

  /** `a` may come before `b` in a list sorted by date in direction `dir`. */
  predicate InOrder(a: Date, b: Date, dir: Direction) {
    if dir == Ascending then !Before(b, a) else !Before(a, b)
  }

  predicate SortedBy(rows: seq<DailyCheckin>, dir: Direction) {
    forall i, j :: 0 <= i < j < |rows| ==> InOrder(rows[i].checkinDate, rows[j].checkinDate, dir)
  }

  function Insert(row: DailyCheckin, sorted: seq<DailyCheckin>, dir: Direction): (r: seq<DailyCheckin>)
    requires SortedBy(sorted, dir)
    ensures SortedBy(r, dir)
    ensures multiset(r) == multiset(sorted) + multiset{row}
    ensures |r| == |sorted| + 1
  {
    if |sorted| == 0 then [row]
    else if InOrder(row.checkinDate, sorted[0].checkinDate, dir) then [row] + sorted
    else
      var rest := Insert(row, sorted[1..], dir);
      assert sorted == [sorted[0]] + sorted[1..];
      forall k | 0 <= k < |rest| ensures InOrder(sorted[0].checkinDate, rest[k].checkinDate, dir) {
        assert rest[k] in multiset(rest);
        if rest[k] != row {
          assert rest[k] in sorted[1..];
        }
      }
      [sorted[0]] + rest
  }

  /** The rows ordered by date in the given direction. */
  function SortByDate(rows: seq<DailyCheckin>, dir: Direction): (r: seq<DailyCheckin>)
    ensures SortedBy(r, dir)
    ensures multiset(r) == multiset(rows)
    ensures |r| == |rows|
  {
    if |rows| == 0 then []
    else
      assert rows == [rows[0]] + rows[1..];
      Insert(rows[0], SortByDate(rows[1..], dir), dir)
  }

  /** `findByUserIdAndMonth`: the month's rows of the user, newest date first, as many as
      the count query reports. */
  function FindByUserIdAndMonth(rows: seq<DailyCheckin>, userId: int, year: int, month: int): (r: seq<DailyCheckin>)
    ensures SortedBy(r, Descending)
    ensures |r| == CountByUserIdAndMonth(rows, userId, year, month)
  {
    SortByDate(MonthRows(rows, userId, year, month), Descending)
  }

  /** The month query returns exactly the filtered rows: each selected row as often as the
      table holds it, and no other row. */
  lemma FindByUserIdAndMonthSpec(rows: seq<DailyCheckin>, userId: int, year: int, month: int)
    ensures forall x :: multiset(FindByUserIdAndMonth(rows, userId, year, month))[x] ==
                        (if InMonth(x, userId, year, month) then multiset(rows)[x] else 0)
  {
    MonthRowsExact(rows, userId, year, month);
  }

  /** The largest `checkinOrder` in `rs`, or None (SQL NULL) when `rs` is empty. */
  function MaxOrder(rs: seq<DailyCheckin>): (r: Option<int>)
    ensures r.None? <==> |rs| == 0
    ensures r.Some? ==> exists i :: 0 <= i < |rs| && rs[i].checkinOrder == r.value
    ensures r.Some? ==> forall i :: 0 <= i < |rs| ==> rs[i].checkinOrder <= r.value
  {
    if |rs| == 0 then None
    else
      var m := MaxOrder(rs[..|rs| - 1]);
      var o := rs[|rs| - 1].checkinOrder;
      if m.None? || m.value < o then Some(o) else Some(m.value)
  }

  /** `findMaxCheckinOrderByUserIdAndMonth`: NULL when the user has no row in the month,
      otherwise the largest order among the month's rows. */
  function FindMaxCheckinOrder(rows: seq<DailyCheckin>, userId: int, year: int, month: int): (r: Option<int>)
    ensures r.None? <==> CountByUserIdAndMonth(rows, userId, year, month) == 0
    ensures r.Some? ==> forall x :: x in rows && InMonth(x, userId, year, month) ==> x.checkinOrder <= r.value
    ensures r.Some? ==> exists x :: x in rows && InMonth(x, userId, year, month) && x.checkinOrder == r.value
  {
    MonthRowsMembers(rows, userId, year, month);
    var rs := MonthRows(rows, userId, year, month);
    var m := MaxOrder(rs);
    assert m.Some? ==> forall x :: x in rs ==> x.checkinOrder <= m.value by {
      if m.Some? {
        forall x | x in rs ensures x.checkinOrder <= m.value {
          var i :| 0 <= i < |rs| && rs[i] == x;
        }
      }
    }
    m
  }

  /** Check-in orders of each user and month run 1, 2, ..., c in table order. */
  ghost predicate GapFree(rows: seq<DailyCheckin>) {
    forall userId, year, month, k ::
      0 <= k < |MonthRows(rows, userId, year, month)| ==>
        MonthRows(rows, userId, year, month)[k].checkinOrder == k + 1
  }

  /** The integers 1, ..., n. */
  function UpTo(n: nat): (r: set<int>)
    ensures forall k :: k in r <==> 1 <= k <= n
  {
    if n == 0 then {} else UpTo(n - 1) + {n}
  }

  /** With gap-free orders the orders of a month are exactly {1, ..., c}. */
  lemma GapFreeOrders(rows: seq<DailyCheckin>, userId: int, year: int, month: int)
    requires GapFree(rows)
    ensures (set x | x in MonthRows(rows, userId, year, month) :: x.checkinOrder) ==
            UpTo(CountByUserIdAndMonth(rows, userId, year, month))
  {
    var rs := MonthRows(rows, userId, year, month);
    var orders := set x | x in rs :: x.checkinOrder;
    forall k | k in UpTo(|rs|) ensures k in orders {
      assert rs[k - 1].checkinOrder == k;
    }
    forall x | x in rs ensures x.checkinOrder in UpTo(|rs|) {
      var k :| 0 <= k < |rs| && rs[k] == x;
    }
  }

  /** With gap-free orders the largest order of a month is its count, or None if empty. */
  lemma GapFreeMaxIsCount(rows: seq<DailyCheckin>, userId: int, year: int, month: int)
    requires GapFree(rows)
    ensures FindMaxCheckinOrder(rows, userId, year, month) ==
      var c := CountByUserIdAndMonth(rows, userId, year, month);
      if c == 0 then None else Some(c)
  {
    var rs := MonthRows(rows, userId, year, month);
    var m := MaxOrder(rs);
    if |rs| > 0 {
      var i :| 0 <= i < |rs| && rs[i].checkinOrder == m.value;
      assert rs[|rs| - 1].checkinOrder == |rs|;
    }
  }

  /** Appending the row numbered count + 1 of its user and month keeps orders gap-free. */
  lemma GapFreeAppend(rows: seq<DailyCheckin>, row: DailyCheckin)
    requires GapFree(rows)
    requires row.checkinOrder ==
      CountByUserIdAndMonth(rows, row.userId, row.checkinDate.year, row.checkinDate.month) + 1
    ensures GapFree(rows + [row])
  {
    forall userId, year, month, k | 0 <= k < |MonthRows(rows + [row], userId, year, month)|
      ensures MonthRows(rows + [row], userId, year, month)[k].checkinOrder == k + 1
    {
      MonthRowsAppend(rows, row, userId, year, month);
    }
  }
}
