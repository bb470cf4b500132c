/** The deduction transaction (service/impl/PointsTransactionServiceImpl.java): the balance
    check, the decrement and the DEDUCT history entry, all or nothing. */
module PointsTransactionService {
  import Int32
  import opened Wrappers
  import opened Entities
  import opened Failures
  import opened DailyCheckinRepository
  import opened Ledger

  /** The history entry that records a deduction of `amount`. */
  function DeductEntry(userId: int, amount: int): PointsHistoryEntry {
    PointsHistoryEntry(userId, -amount, Deduct, "Points deduction")
  }

  /** `doDeductPointsTransactional(userId, request)` on the store `st`. The amount is the
      request's, which the request validation keeps positive. */
  function DeductTx(st: LedgerState, userId: int, amount: int): (out: (Result<(), Failure>, LedgerState))
    requires 0 < amount <= Int32.Max
    ensures out.0.Err? ==> out.1 == st
  {
    if userId !in st.users then (Err(UserNotFound), st)
    else
      var user := st.users[userId];
      if user.totalPoints < amount then (Err(InsufficientPoints(user.totalPoints)), st)
      else
        var updated := user.(totalPoints := Int32.Wrap(user.totalPoints - amount));
        (Ok(()), st.(users := st.users[userId := updated],
                     history := st.history + [DeductEntry(userId, amount)]))
  }

  /** The transaction against the mutable store, step by step as the source runs it. */
  method DoDeductPointsTransactional(db: Database, userId: int, amount: int) returns (r: Result<(), Failure>)
    requires 0 < amount <= Int32.Max
    modifies db
    ensures (r, db.State()) == DeductTx(old(db.State()), userId, amount)
  {
    if userId !in db.users {
      return Err(UserNotFound);
    }
    var user := db.users[userId];
    var pointsToDeduct := amount;
    if user.totalPoints < pointsToDeduct {
      return Err(InsufficientPoints(user.totalPoints));
    }
    user := user.(totalPoints := Int32.Wrap(user.totalPoints - pointsToDeduct));
    db.SaveUser(userId, user);
    db.SaveHistory(DeductEntry(userId, pointsToDeduct));
    r := Ok(());
  }

  /** A deduction succeeds exactly for a known user whose balance covers the amount;
      otherwise it names the reason and changes nothing. */
  lemma DeductOutcome(st: LedgerState, userId: int, amount: int)
    requires 0 < amount <= Int32.Max
    ensures userId !in st.users ==> DeductTx(st, userId, amount) == (Err(UserNotFound), st)
    ensures userId in st.users && st.users[userId].totalPoints < amount ==>
      DeductTx(st, userId, amount) == (Err(InsufficientPoints(st.users[userId].totalPoints)), st)
    ensures DeductTx(st, userId, amount).0.Ok? <==> userId in st.users && st.users[userId].totalPoints >= amount
  {
  }

  /** A successful deduction lowers the user's balance by exactly the amount, so it stays
      non-negative; it appends exactly one DEDUCT entry of minus the amount, and leaves the
      check-ins, the other users and their history sums as they were. */
  lemma DeductEffect(st: LedgerState, userId: int, amount: int, other: int)
    requires 0 < amount <= Int32.Max
    requires Valid(st)
    requires DeductTx(st, userId, amount).0.Ok?
    ensures
      var st' := DeductTx(st, userId, amount).1;
      && st'.users[userId].totalPoints == st.users[userId].totalPoints - amount
      && st'.users[userId].totalPoints >= 0
      && st'.users == st.users[userId := st.users[userId].(totalPoints := st.users[userId].totalPoints - amount)]
      && st'.history == st.history + [DeductEntry(userId, amount)]
      && st'.checkins == st.checkins && st'.nextUserId == st.nextUserId
      && (other != userId ==> HistorySum(st'.history, other) == HistorySum(st.history, other))
      && HistorySum(st'.history, userId) == HistorySum(st.history, userId) - amount
  {
    var total := st.users[userId].totalPoints;
    assert total == Int32.Wrap(HistorySum(st.history, userId));
    Int32.WrapInRange(total - amount);
    HistorySumAppend(st.history, DeductEntry(userId, amount), other);
    HistorySumAppend(st.history, DeductEntry(userId, amount), userId);
  }

  /** A deduction keeps every invariant of the store, the balance-equals-history one
      included. */
  lemma DeductPreservesValid(st: LedgerState, userId: int, amount: int)
    requires 0 < amount <= Int32.Max
    requires Valid(st)
    ensures Valid(DeductTx(st, userId, amount).1)
  {
    var out := DeductTx(st, userId, amount);
    if out.0.Ok? {
      var entry := DeductEntry(userId, amount);
      CreditPreservesValid(st, entry);
      assert out.1 == st.(users := st.users[userId := st.users[userId].(totalPoints := Credited(st, entry))],
                          history := st.history + [entry]);
    }
  }
}
