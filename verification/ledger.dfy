/** The relational store behind the services: the users, check-in and points history tables,
    as one value (`LedgerState`) and as the mutable store the transactions write
    (`Database`). */
module Ledger {
  import Int32
  import opened Entities
  import opened DailyCheckinRepository

  datatype LedgerState = LedgerState(
    users: map<int, User>,
    nextUserId: int,
    checkins: seq<DailyCheckin>,
    history: seq<PointsHistoryEntry>)

  /** Empty tables; identity columns start at 1. */
  function Empty(): LedgerState {
    LedgerState(map[], 1, [], [])
  }

  /** The sum of the history points of one user. */
  function HistorySum(history: seq<PointsHistoryEntry>, userId: int): int {
    if |history| == 0 then 0
    else
      var last := history[|history| - 1];
      HistorySum(history[..|history| - 1], userId) + (if last.userId == userId then last.points else 0)
  }

  lemma HistorySumAppend(history: seq<PointsHistoryEntry>, e: PointsHistoryEntry, userId: int)
    ensures HistorySum(history + [e], userId) ==
      HistorySum(history, userId) + (if e.userId == userId then e.points else 0)
  {
    assert (history + [e])[..|history|] == history;
  }

  /** A user with no history entries has a sum of 0. */
  lemma {:induction false} HistorySumAbsent(history: seq<PointsHistoryEntry>, userId: int)
    requires forall i :: 0 <= i < |history| ==> history[i].userId != userId
    ensures HistorySum(history, userId) == 0
  {
    if |history| > 0 {
      HistorySumAbsent(history[..|history| - 1], userId);
    }
  }

  /** Every user's balance is the sum of their history, as a Java `int` holds it. */
  ghost predicate Balanced(st: LedgerState) {
    forall id :: id in st.users ==> st.users[id].totalPoints == Int32.Wrap(HistorySum(st.history, id))
  }

  /** The invariant every committed state keeps. */
  ghost predicate Valid(st: LedgerState) {
    && (forall id :: id in st.users ==> id < st.nextUserId)
    && (forall a, b :: a in st.users && b in st.users && st.users[a].username == st.users[b].username ==> a == b)
    && (forall i :: 0 <= i < |st.history| ==> st.history[i].userId in st.users)
    && UniqueUserDate(st.checkins)
    && GapFree(st.checkins)
    && Balanced(st)
  }

  lemma EmptyValid()
    ensures Valid(Empty())
  {
    var rows: seq<DailyCheckin> := [];
    forall userId, year, month ensures MonthRows(rows, userId, year, month) == [] {
    }
  }

  /** The balance of the entry's user after the entry is applied, as a Java `int` holds it. */
  function Credited(st: LedgerState, entry: PointsHistoryEntry): int
    requires entry.userId in st.users
  {
    Int32.Wrap(st.users[entry.userId].totalPoints + entry.points)
  }

  /** Applying a history entry to its user's balance and recording it keeps the invariant. */
  lemma CreditPreservesValid(st: LedgerState, entry: PointsHistoryEntry)
    requires Valid(st) && entry.userId in st.users
    ensures Valid(st.(users := st.users[entry.userId := st.users[entry.userId].(totalPoints := Credited(st, entry))],
                      history := st.history + [entry]))
  {
    var u := entry.userId;
    var st' := st.(users := st.users[u := st.users[u].(totalPoints := Credited(st, entry))],
                   history := st.history + [entry]);
    forall id | id in st'.users
      ensures st'.users[id].totalPoints == Int32.Wrap(HistorySum(st'.history, id))
    {
      HistorySumAppend(st.history, entry, id);
      if id == u {
        Int32.WrapAdd(HistorySum(st.history, id), entry.points);
      }
    }
    forall i | 0 <= i < |st'.history| ensures st'.history[i].userId in st'.users {
      if i < |st.history| {
        assert st'.history[i] == st.history[i];
      }
    }
  }

  /** Adding the row numbered count + 1 for a user and day with no row keeps the invariant. */
  lemma AddCheckinPreservesValid(st: LedgerState, row: DailyCheckin)
    requires Valid(st)
    requires !HasRow(st.checkins, row.userId, row.checkinDate)
    requires row.checkinOrder ==
      CountByUserIdAndMonth(st.checkins, row.userId, row.checkinDate.year, row.checkinDate.month) + 1
    ensures Valid(st.(checkins := st.checkins + [row]))
  {
    InsertKeepsUnique(st.checkins, row);
    GapFreeAppend(st.checkins, row);
  }

  /** The store the services write through the repositories. */
  class Database {
    var users: map<int, User>
    var nextUserId: int
    var checkins: seq<DailyCheckin>
    var history: seq<PointsHistoryEntry>

    function State(): LedgerState
      reads this
    {
      LedgerState(users, nextUserId, checkins, history)
    }

    constructor ()
      ensures State() == Empty()
    {
      users := map[];
      nextUserId := 1;
      checkins := [];
      history := [];
    }

    /** `dailyCheckinRepository.save` of a new row. */
    method SaveCheckin(row: DailyCheckin)
      modifies this
      ensures State() == old(State()).(checkins := old(checkins) + [row])
    {
      checkins := checkins + [row];
    }

    /** `userRepository.save` of an existing user. */
    method SaveUser(id: int, user: User)
      modifies this
      ensures State() == old(State()).(users := old(users)[id := user])
    {
      users := users[id := user];
    }

    /** `userRepository.save` of a new user: the identity column assigns the next id. */
    method InsertUser(user: User) returns (id: int)
      modifies this
      ensures id == old(nextUserId)
      ensures State() == old(State()).(users := old(users)[id := user], nextUserId := id + 1)
    {
      id := nextUserId;
      users := users[id := user];
      nextUserId := nextUserId + 1;
    }

    /** `userPointsHistoryRepository.save` of a new entry. */
    method SaveHistory(entry: PointsHistoryEntry)
      modifies this
      ensures State() == old(State()).(history := old(history) + [entry])
    {
      history := history + [entry];
    }
  }
}
