/** The deduction entry point (service/impl/PointsServiceImpl.java): the per-user deduction
    lock around the deduction transaction. */
module PointsService {
  import Int32
  import opened Wrappers
  import opened Decimal
  import opened Failures
  import opened Ledger
  import opened Coordination
  import opened PointsTransactionService
  import Calendar
  import CheckinService

  /** `String.format("lock:points:deduct:%d", userId)`. */
  function DeductLockKey(userId: int): (key: string)
    ensures forall u, d :: Calendar.ValidDate(d) ==> key != CheckinService.CacheKey(u, d)
  {
    var key := "lock:points:deduct:" + Dec(userId);
    assert key[0] == 'l';
    assert forall u, d :: Calendar.ValidDate(d) ==> CheckinService.CacheKey(u, d)[0] == 'c';
    key
  }

  /** Each user has a deduction lock of their own, and no deduction lock is a check-in lock,
      so a deduction never waits for a check-in. */
  lemma DeductLockKeyDistinct(u1: int, u2: int)
    ensures DeductLockKey(u1) == DeductLockKey(u2) ==> u1 == u2
    ensures DeductLockKey(u1) != CheckinService.CheckinLockKey(u2)
  {
    var p := "lock:points:deduct:";
    assert DeductLockKey(u1)[5] == 'p';
    assert CheckinService.CheckinLockKey(u2)[5] == 'c';
    if DeductLockKey(u1) == DeductLockKey(u2) {
      assert DeductLockKey(u1)[|p|..] == Dec(u1);
      assert DeductLockKey(u2)[|p|..] == Dec(u2);
      DecInjective(u1, u2);
    }
  }

  /** `deductPoints(userId, request)` on the shared world. */
  function DeductProtocol(w: World, caller: Caller, userId: int, amount: int, attempt: LockAttempt): (out: (Result<(), Failure>, World))
    requires 0 < amount <= Int32.Max
    ensures out.1.cache == w.cache
    ensures out.0.Err? ==> out.1.ledger == w.ledger
  {
    var lockKey := DeductLockKey(userId);
    var (outcome, held) := TryLock(w.locks, lockKey, caller, attempt);
    match outcome
    case Interrupted => (Err(DeductionInterrupted), w.(locks := held))
    case NotAcquired => (Err(LockUnavailable), w.(locks := held))
    case Acquired =>
      var (r, ledger) := DeductTx(w.ledger, userId, amount);
      (r, World(ledger, w.cache, held - {lockKey}))
  }

  /** `deductPoints(userId, request)`, with the lock released in the `finally` block whenever
      it was taken. */
  method DeductPoints(db: Database, locks: LockTable, caller: Caller, userId: int, amount: int, attempt: LockAttempt)
    returns (r: Result<(), Failure>)
    requires 0 < amount <= Int32.Max
    modifies db, locks
    // `deductPoints` never reads or writes the marker cache, and `DeductProtocol` leaves
    // whatever cache it is given untouched, so the empty map here stands for "no cache" and
    // assumes nothing about the Redis contents.
    ensures
      var out := DeductProtocol(World(old(db.State()), map[], old(locks.holders)), caller, userId, amount, attempt);
      r == out.0 && db.State() == out.1.ledger && locks.holders == out.1.locks
  {
    var lockKey := DeductLockKey(userId);
    var locked := false;
    var outcome := locks.TryLockKey(lockKey, caller, attempt);
    if outcome == Interrupted {
      r := Err(DeductionInterrupted);
    } else {
      locked := outcome == Acquired;
      if !locked {
        r := Err(LockUnavailable);
      } else {
        r := DoDeductPointsTransactional(db, userId, amount);
      }
    }
    if locked {
      var held := locks.IsHeldBy(lockKey, caller);
      if held {
        locks.Unlock(lockKey, caller);
      }
    }
  }

  /** Whatever happens, the request leaves the locks as it found them. */
  lemma DeductReleasesLock(w: World, caller: Caller, userId: int, amount: int, attempt: LockAttempt)
    requires 0 < amount <= Int32.Max
    ensures DeductProtocol(w, caller, userId, amount, attempt).1.locks == w.locks
  {
    var lockKey := DeductLockKey(userId);
    if attempt == Grant && lockKey !in w.locks {
      assert w.locks[lockKey := caller] - {lockKey} == w.locks;
    }
  }

  /** What each request does: an interrupted wait and a lock not obtained are refused with
      their own failures and change no data; the store changes only through a deduction run
      under a lock obtained on a free key, whose answer is then the request's; the cache is
      never touched. */
  lemma DeductEffects(w: World, caller: Caller, userId: int, amount: int, attempt: LockAttempt)
    requires 0 < amount <= Int32.Max
    ensures
      var out := DeductProtocol(w, caller, userId, amount, attempt);
      var runs := attempt == Grant && DeductLockKey(userId) !in w.locks;
      && (attempt == Interrupt ==> out.0 == Err(DeductionInterrupted))
      && (!runs && attempt != Interrupt ==> out.0 == Err(LockUnavailable))
      && out.1.ledger == (if runs then DeductTx(w.ledger, userId, amount).1 else w.ledger)
      && (runs ==> out.0 == DeductTx(w.ledger, userId, amount).0)
      && out.1.cache == w.cache
  {
  }

  /** A deduction request keeps the store's invariant and the soundness of the check-in
      marker cache. */
  lemma DeductPreservesInvariants(w: World, caller: Caller, userId: int, amount: int, attempt: LockAttempt)
    requires 0 < amount <= Int32.Max
    requires Valid(w.ledger) && CheckinService.CacheSound(w)
    ensures Valid(DeductProtocol(w, caller, userId, amount, attempt).1.ledger)
    ensures CheckinService.CacheSound(DeductProtocol(w, caller, userId, amount, attempt).1)
  {
    DeductEffects(w, caller, userId, amount, attempt);
    DeductPreservesValid(w.ledger, userId, amount);
  }

  /** A check-in lock held by anyone, on any user, does not change what a deduction does. */
  lemma DeductIgnoresCheckinLocks(w: World, caller: Caller, userId: int, amount: int, attempt: LockAttempt, other: int, holder: Caller)
    requires 0 < amount <= Int32.Max
    ensures
      var w2 := w.(locks := w.locks[CheckinService.CheckinLockKey(other) := holder]);
      DeductProtocol(w2, caller, userId, amount, attempt).0 == DeductProtocol(w, caller, userId, amount, attempt).0
      && DeductProtocol(w2, caller, userId, amount, attempt).1.ledger == DeductProtocol(w, caller, userId, amount, attempt).1.ledger
  {
    DeductLockKeyDistinct(userId, other);
  }
}
