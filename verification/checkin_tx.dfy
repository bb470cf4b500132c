/** The check-in transaction (service/impl/CheckinTransactionServiceImpl.java): the checks,
    the order and reward of the new check-in, and its three writes, all or nothing. */
module CheckinTransactionService {
  import Int32
  import opened Wrappers
  import opened Decimal
  import opened Calendar
  import opened Entities
  import opened Failures
  import opened DailyCheckinRepository
  import opened Ledger
  import Config

  datatype CheckinResponse = CheckinResponse(
    success: bool,
    message: string,
    pointsEarned: int,
    totalPoints: int,
    checkinOrder: int)

  /** `String.format("Daily check-in #%d", order)`. */
  function Description(order: int): string {
    "Daily check-in #" + Dec(order)
  }

  /** The history entry names the order of its check-in: different orders give different
      descriptions. */
  lemma DescriptionInjective(a: int, b: int)
    requires Description(a) == Description(b)
    ensures a == b
  {
    var p := "Daily check-in #";
    assert Dec(a) == Description(a)[|p|..];
    assert Dec(b) == Description(b)[|p|..];
    DecInjective(a, b);
  }

  /** `doCheckinTransactional(userId, today)` on the store `st`: the outcome and the store
      after commit (or rollback). The reward index is not checked by the source; an index
      outside the schedule is the `RewardIndexOutOfBounds` failure, raised before any write. */
  function CheckinTx(st: LedgerState, pointsSequence: seq<int>, maxPerMonth: int, userId: int, today: Date): (out: (Result<CheckinResponse, Failure>, LedgerState))
    ensures out.0.Err? ==> out.1 == st
    ensures out.0.Ok? ==> userId in st.users && userId in out.1.users
    ensures out.0.Ok? ==> out.0.value.success && out.0.value.message == "Check-in successful"
    ensures out.0.Ok? ==> out.0.value.totalPoints == out.1.users[userId].totalPoints
  {
    if FindByUserIdAndCheckinDate(st.checkins, userId, today).Some? then (Err(AlreadyCheckedIn), st)
    else
      var current := CountByUserIdAndMonth(st.checkins, userId, today.year, today.month);
      if current >= maxPerMonth then (Err(MonthlyLimitReached(maxPerMonth)), st)
      else if userId !in st.users then (Err(UserNotFound), st)
      else
        var maxOrder := FindMaxCheckinOrder(st.checkins, userId, today.year, today.month);
        var order := (if maxOrder.None? then 0 else maxOrder.value) + 1;
        if !(0 <= order - 1 < |pointsSequence|) then
          (Err(RewardIndexOutOfBounds(order - 1, |pointsSequence|)), st)
        else
          var earned := pointsSequence[order - 1];
          var user := st.users[userId];
          var updated := user.(totalPoints := Int32.Wrap(user.totalPoints + earned));
          var row := DailyCheckin(userId, today, earned, order);
          var entry := PointsHistoryEntry(userId, earned, Checkin, Description(order));
          (Ok(CheckinResponse(true, "Check-in successful", earned, updated.totalPoints, order)),
           st.(checkins := st.checkins + [row],
               users := st.users[userId := updated],
               history := st.history + [entry]))
  }

  /** The transaction against the mutable store, step by step as the source runs it. */
  method DoCheckinTransactional(db: Database, config: Config.CheckinConfig, userId: int, today: Date)
    returns (r: Result<CheckinResponse, Failure>)
    modifies db
    ensures (r, db.State()) ==
      CheckinTx(old(db.State()), config.pointsSequence, config.maxPerMonth, userId, today)
  {
    var existing := FindByUserIdAndCheckinDate(db.checkins, userId, today);
    if existing.Some? {
      return Err(AlreadyCheckedIn);
    }
    var current := CountByUserIdAndMonth(db.checkins, userId, today.year, today.month);
    var maxPerMonth := config.maxPerMonth;
    if current >= maxPerMonth {
      return Err(MonthlyLimitReached(maxPerMonth));
    }
    if userId !in db.users {
      return Err(UserNotFound);
    }
    var user := db.users[userId];
    var maxOrder := FindMaxCheckinOrder(db.checkins, userId, today.year, today.month);
    var order := (if maxOrder.None? then 0 else maxOrder.value) + 1;
    var pointsSequence := config.pointsSequence;
    if !(0 <= order - 1 < |pointsSequence|) {
      return Err(RewardIndexOutOfBounds(order - 1, |pointsSequence|));
    }
    var earned := pointsSequence[order - 1];
    db.SaveCheckin(DailyCheckin(userId, today, earned, order));
    user := user.(totalPoints := Int32.Wrap(user.totalPoints + earned));
    db.SaveUser(userId, user);
    db.SaveHistory(PointsHistoryEntry(userId, earned, Checkin, Description(order)));
    r := Ok(CheckinResponse(true, "Check-in successful", earned, user.totalPoints, order));
  }

  /** A second check-in on the same day is refused first, and changes nothing. */
  lemma CheckinRejectsSameDay(st: LedgerState, pointsSequence: seq<int>, maxPerMonth: int, userId: int, today: Date)
    requires HasRow(st.checkins, userId, today)
    ensures CheckinTx(st, pointsSequence, maxPerMonth, userId, today) == (Err(AlreadyCheckedIn), st)
  {
  }

  /** The monthly cap is checked after the duplicate check and before the user lookup. */
  lemma CheckinRejectsAtMonthlyCap(st: LedgerState, pointsSequence: seq<int>, maxPerMonth: int, userId: int, today: Date)
    requires !HasRow(st.checkins, userId, today)
    requires CountByUserIdAndMonth(st.checkins, userId, today.year, today.month) >= maxPerMonth
    ensures CheckinTx(st, pointsSequence, maxPerMonth, userId, today) == (Err(MonthlyLimitReached(maxPerMonth)), st)
  {
  }

  lemma CheckinRejectsUnknownUser(st: LedgerState, pointsSequence: seq<int>, maxPerMonth: int, userId: int, today: Date)
    requires !HasRow(st.checkins, userId, today)
    requires CountByUserIdAndMonth(st.checkins, userId, today.year, today.month) < maxPerMonth
    requires userId !in st.users
    ensures CheckinTx(st, pointsSequence, maxPerMonth, userId, today) == (Err(UserNotFound), st)
  {
  }

  /** The order of the new check-in is one more than the month's count, the reward is the
      schedule entry at that count, and the three writes are exactly one new row, the user's
      balance raised by the reward (as an `int`), and one CHECKIN history entry. When the
      count has run past the schedule the lookup fails and nothing is written. */
  lemma CheckinOrderAndReward(st: LedgerState, pointsSequence: seq<int>, maxPerMonth: int, userId: int, today: Date)
    requires GapFree(st.checkins)
    requires !HasRow(st.checkins, userId, today)
    requires CountByUserIdAndMonth(st.checkins, userId, today.year, today.month) < maxPerMonth
    requires userId in st.users
    ensures
      var c := CountByUserIdAndMonth(st.checkins, userId, today.year, today.month);
      var out := CheckinTx(st, pointsSequence, maxPerMonth, userId, today);
      if c < |pointsSequence| then
        var earned := pointsSequence[c];
        var total := Int32.Wrap(st.users[userId].totalPoints + earned);
        && out.0 == Ok(CheckinResponse(true, "Check-in successful", earned, total, c + 1))
        && out.1 == st.(checkins := st.checkins + [DailyCheckin(userId, today, earned, c + 1)],
                        users := st.users[userId := st.users[userId].(totalPoints := total)],
                        history := st.history + [PointsHistoryEntry(userId, earned, Checkin, Description(c + 1))])
      else
        out == (Err(RewardIndexOutOfBounds(c, |pointsSequence|)), st)
  {
    GapFreeMaxIsCount(st.checkins, userId, today.year, today.month);
  }

  /** With a schedule at least as long as the cap, the reward lookup never fails. */
  lemma CheckinIndexInBounds(st: LedgerState, pointsSequence: seq<int>, maxPerMonth: int, userId: int, today: Date)
    requires GapFree(st.checkins) && maxPerMonth <= |pointsSequence|
    ensures !CheckinTx(st, pointsSequence, maxPerMonth, userId, today).0.Err?
      || !CheckinTx(st, pointsSequence, maxPerMonth, userId, today).0.error.RewardIndexOutOfBounds?
  {
    GapFreeMaxIsCount(st.checkins, userId, today.year, today.month);
  }

  /** Nothing ties the cap to the schedule length: with a cap of 1 and an empty schedule the
      first check-in of a month passes the cap check and fails on the reward lookup. */
  lemma CheckinIndexOutOfBoundsExample(st: LedgerState, userId: int, today: Date)
    requires GapFree(st.checkins) && userId in st.users
    requires CountByUserIdAndMonth(st.checkins, userId, today.year, today.month) == 0
    ensures CheckinTx(st, [], 1, userId, today) == (Err(RewardIndexOutOfBounds(0, 0)), st)
  {
    HasRowCounted(st.checkins, userId, today);
    CheckinOrderAndReward(st, [], 1, userId, today);
  }

  /** A committed check-in is the one whose checks all passed, and its new store is the old
      one with the three writes applied. */
  lemma CheckinCommitted(st: LedgerState, pointsSequence: seq<int>, maxPerMonth: int, userId: int, today: Date)
    requires GapFree(st.checkins)
    requires CheckinTx(st, pointsSequence, maxPerMonth, userId, today).0.Ok?
    ensures
      var c := CountByUserIdAndMonth(st.checkins, userId, today.year, today.month);
      && !HasRow(st.checkins, userId, today) && userId in st.users && c < |pointsSequence|
      && var row := DailyCheckin(userId, today, pointsSequence[c], c + 1);
         var entry := PointsHistoryEntry(userId, pointsSequence[c], Checkin, Description(c + 1));
         CheckinTx(st, pointsSequence, maxPerMonth, userId, today).1 ==
           st.(checkins := st.checkins + [row],
               users := st.users[row.userId := st.users[row.userId].(totalPoints := Credited(st, entry))],
               history := st.history + [entry])
  {
    assert !HasRow(st.checkins, userId, today);
    CheckinOrderAndReward(st, pointsSequence, maxPerMonth, userId, today);
  }

  /** The three writes of a check-in, applied to a valid store, give a valid store. */
  lemma CommitCheckinPreservesValid(st: LedgerState, row: DailyCheckin, entry: PointsHistoryEntry)
    requires Valid(st) && row.userId in st.users && entry.userId == row.userId
    requires !HasRow(st.checkins, row.userId, row.checkinDate)
    requires row.checkinOrder ==
      CountByUserIdAndMonth(st.checkins, row.userId, row.checkinDate.year, row.checkinDate.month) + 1
    ensures Valid(st.(checkins := st.checkins + [row],
                      users := st.users[row.userId := st.users[row.userId].(totalPoints := Credited(st, entry))],
                      history := st.history + [entry]))
  {
    var st1 := st.(checkins := st.checkins + [row]);
    AddCheckinPreservesValid(st, row);
    CreditPreservesValid(st1, entry);
    assert Credited(st1, entry) == Credited(st, entry);
  }

  /** A committed check-in keeps every invariant of the store: one row per user and day,
      gap-free orders, balances equal to history sums, and known owners of history. */
  lemma CheckinPreservesValid(st: LedgerState, pointsSequence: seq<int>, maxPerMonth: int, userId: int, today: Date)
    requires Valid(st)
    ensures Valid(CheckinTx(st, pointsSequence, maxPerMonth, userId, today).1)
  {
    var out := CheckinTx(st, pointsSequence, maxPerMonth, userId, today);
    if out.0.Ok? {
      CheckinCommitted(st, pointsSequence, maxPerMonth, userId, today);
      var c := CountByUserIdAndMonth(st.checkins, userId, today.year, today.month);
      var row := DailyCheckin(userId, today, pointsSequence[c], c + 1);
      var entry := PointsHistoryEntry(userId, pointsSequence[c], Checkin, Description(c + 1));
      CommitCheckinPreservesValid(st, row, entry);
    }
  }

  /** After a committed check-in, the same user's second attempt that day is refused. */
  lemma CheckinOncePerDay(st: LedgerState, pointsSequence: seq<int>, maxPerMonth: int, userId: int, today: Date)
    requires CheckinTx(st, pointsSequence, maxPerMonth, userId, today).0.Ok?
    ensures
      var st' := CheckinTx(st, pointsSequence, maxPerMonth, userId, today).1;
      CheckinTx(st', pointsSequence, maxPerMonth, userId, today) == (Err(AlreadyCheckedIn), st')
  {
    var st' := CheckinTx(st, pointsSequence, maxPerMonth, userId, today).1;
    var n := |st.checkins|;
    assert st'.checkins[n].userId == userId && st'.checkins[n].checkinDate == today;
  }

  /** A check-in leaves other users' balances, rows and history sums as they were, and adds
      one to its own user's count for the month. */
  lemma CheckinFrame(st: LedgerState, pointsSequence: seq<int>, maxPerMonth: int, userId: int, today: Date, other: int, year: int, month: int)
    requires CheckinTx(st, pointsSequence, maxPerMonth, userId, today).0.Ok?
    ensures
      var st' := CheckinTx(st, pointsSequence, maxPerMonth, userId, today).1;
      && st'.users.Keys == st.users.Keys
      && (other != userId ==>
            && (other in st.users ==> st'.users[other] == st.users[other])
            && MonthRows(st'.checkins, other, year, month) == MonthRows(st.checkins, other, year, month)
            && HistorySum(st'.history, other) == HistorySum(st.history, other))
      && CountByUserIdAndMonth(st'.checkins, userId, today.year, today.month) ==
         CountByUserIdAndMonth(st.checkins, userId, today.year, today.month) + 1
  {
    var st' := CheckinTx(st, pointsSequence, maxPerMonth, userId, today).1;
    var row := st'.checkins[|st.checkins|];
    assert st'.checkins == st.checkins + [row];
    var entry := st'.history[|st.history|];
    assert st'.history == st.history + [entry];
    MonthRowsAppend(st.checkins, row, other, year, month);
    HistorySumAppend(st.history, entry, other);
    CountAppend(st.checkins, row, userId, today.year, today.month);
  }

  /** With a non-negative reward that does not overflow, a non-negative balance stays
      non-negative and grows by exactly the reward. */
  lemma CheckinKeepsBalanceNonNegative(st: LedgerState, pointsSequence: seq<int>, maxPerMonth: int, userId: int, today: Date)
    requires GapFree(st.checkins)
    requires CheckinTx(st, pointsSequence, maxPerMonth, userId, today).0.Ok?
    requires st.users[userId].totalPoints >= 0
    requires forall i :: 0 <= i < |pointsSequence| ==> 0 <= pointsSequence[i]
    requires forall i :: 0 <= i < |pointsSequence| ==> st.users[userId].totalPoints + pointsSequence[i] <= Int32.Max
    ensures
      var out := CheckinTx(st, pointsSequence, maxPerMonth, userId, today);
      && out.1.users[userId].totalPoints == st.users[userId].totalPoints + out.0.value.pointsEarned
      && out.1.users[userId].totalPoints >= 0
  {
    var c := CountByUserIdAndMonth(st.checkins, userId, today.year, today.month);
    assert !HasRow(st.checkins, userId, today) && c < maxPerMonth && userId in st.users;
    CheckinOrderAndReward(st, pointsSequence, maxPerMonth, userId, today);
    assert c < |pointsSequence|;
    var total := st.users[userId].totalPoints + pointsSequence[c];
    Int32.WrapInRange(total);
  }
}
