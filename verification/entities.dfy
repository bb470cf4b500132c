/** The persistent records of the ledger: check-in rows (entity/DailyCheckin.java), points
    history entries (entity/UserPointsHistory.java) and users. */
module Entities {
  import opened Calendar

  /** One row of `daily_checkin`. Every column is required, and the date has no time part.
      The generated id is the row's position in the table. */
  datatype DailyCheckin = DailyCheckin(
    userId: int,
    checkinDate: Date,
    pointsEarned: int,
    checkinOrder: int)

  datatype TransactionType = Checkin | Deduct

  /** One row of `user_points_history`: a signed change to a user's balance. */
  datatype PointsHistoryEntry = PointsHistoryEntry(
    userId: int,
    points: int,
    transactionType: TransactionType,
    description: string)

  /** One row of `users`; `password` holds the encoder's output, never the clear text. */
  datatype User = User(
    username: string,
    password: string,
    name: string,
    avatar: string,
    totalPoints: int)

  /** The table holds a row for this user and date. */
  predicate HasRow(rows: seq<DailyCheckin>, userId: int, date: Date) {
    exists i :: 0 <= i < |rows| && rows[i].userId == userId && rows[i].checkinDate == date
  }

  /** The unique constraint on (user_id, checkin_date). */
  predicate UniqueUserDate(rows: seq<DailyCheckin>) {
    forall i, j ::
      0 <= i < |rows| && 0 <= j < |rows| && i != j ==>
        !(rows[i].userId == rows[j].userId && rows[i].checkinDate == rows[j].checkinDate)
  }

  /** Inserting a row whose (user, date) is not taken keeps the constraint, and a row whose
      pair is taken is exactly the insert the constraint refuses. */
  lemma InsertKeepsUnique(rows: seq<DailyCheckin>, row: DailyCheckin)
    requires UniqueUserDate(rows)
    ensures UniqueUserDate(rows + [row]) <==> !HasRow(rows, row.userId, row.checkinDate)
  {
    var rows' := rows + [row];
    if HasRow(rows, row.userId, row.checkinDate) {
      var i :| 0 <= i < |rows| && rows[i].userId == row.userId && rows[i].checkinDate == row.checkinDate;
      assert rows'[i] == rows[i] && rows'[|rows|] == row;
    } else {
      forall i, j | 0 <= i < |rows'| && 0 <= j < |rows'| && i != j
        ensures !(rows'[i].userId == rows'[j].userId && rows'[i].checkinDate == rows'[j].checkinDate)
      {
        if i < |rows| && j < |rows| {
          assert rows'[i] == rows[i] && rows'[j] == rows[j];
        } else if i < |rows| {
          assert rows'[i] == rows[i];
        } else {
          assert rows'[j] == rows[j];
        }
      }
    }
  }

  /** Under the unique constraint a sequence holds each row at most once. */
  lemma {:induction false} UniqueRowsOnce(rows: seq<DailyCheckin>, x: DailyCheckin)
    requires UniqueUserDate(rows)
    ensures multiset(rows)[x] <= 1
  {
    if |rows| > 0 {
      var init, last := rows[..|rows| - 1], rows[|rows| - 1];
      assert rows == init + [last];
      assert UniqueUserDate(init) by {
        forall i, j | 0 <= i < |init| && 0 <= j < |init| && i != j
          ensures !(init[i].userId == init[j].userId && init[i].checkinDate == init[j].checkinDate)
        {
          assert init[i] == rows[i] && init[j] == rows[j];
        }
      }
      UniqueRowsOnce(init, x);
      if x in init {
        var i :| 0 <= i < |init| && init[i] == x;
        assert rows[i] == x;
      }
    }
  }

  /** A value found at two positions is held twice. */
  lemma TwoPositions(s: seq<DailyCheckin>, i: int, j: int)
    requires 0 <= i < j < |s|
    ensures s[i] == s[j] ==> multiset(s)[s[i]] >= 2
  {
    assert s == s[..j] + [s[j]] + s[j + 1..];
    assert s[i] in s[..j];
  }

  /** Under the unique constraint, two rows of one user on one date are the same row. */
  lemma SameUserDateSameRow(rows: seq<DailyCheckin>, x: DailyCheckin, y: DailyCheckin)
    requires UniqueUserDate(rows) && x in rows && y in rows
    ensures x.userId == y.userId && x.checkinDate == y.checkinDate ==> x == y
  {
    var p :| 0 <= p < |rows| && rows[p] == x;
    var q :| 0 <= q < |rows| && rows[q] == y;
  }
}
