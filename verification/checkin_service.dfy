/** The check-in entry point (service/impl/CheckinServiceImpl.java): the time window, the
    cache marker of a day's check-in, the per-user lock around the transaction, and the
    month's status list. */
module CheckinService {
  import opened Wrappers
  import opened Decimal
  import opened Calendar
  import opened Entities
  import opened Failures
  import opened DailyCheckinRepository
  import opened Ledger
  import opened Coordination
  import opened CheckinTransactionService
  import Config

  const MorningStart: Time := TimeOf(9, 0)
  const MorningEnd: Time := TimeOf(11, 0)
  const EveningStart: Time := TimeOf(19, 0)
  const EveningEnd: Time := TimeOf(21, 0)

  /** `isValidCheckinTime`: strictly inside a window, or exactly on one of its four ends;
      that is, within one of the two closed windows 09:00-11:00 and 19:00-21:00. */
  function IsValidCheckinTime(t: Time): (ok: bool)
    ensures ok <==> (MorningStart <= t <= MorningEnd) || (EveningStart <= t <= EveningEnd)
  {
    (MorningStart < t && t < MorningEnd) ||
    (EveningStart < t && t < EveningEnd) ||
    t == MorningStart || t == MorningEnd ||
    t == EveningStart || t == EveningEnd
  }

  /** `String.format("checkin:%d:%s", userId, today.format(ISO_DATE))`. */
  function CacheKey(userId: int, date: Date): (key: string)
    requires ValidDate(date)
    ensures forall u :: key != CheckinLockKey(u)
  {
    var key := "checkin:" + (Dec(userId) + ":" + IsoDate(date));
    assert key[0] == 'c';
    assert forall u :: CheckinLockKey(u)[0] == 'l';
    key
  }

  /** `String.format("lock:checkin:%d", userId)`. */
  function CheckinLockKey(userId: int): string {
    "lock:checkin:" + Dec(userId)
  }

  /** Keys that share a prefix and split at a separator the first parts lack name the same
      parts. */
  lemma KeyParts(p: string, a: string, b: string, c: string, d: string, sep: char)
    requires sep !in a && sep !in c
    requires p + (a + [sep] + b) == p + (c + [sep] + d)
    ensures a == c && b == d
  {
    assert (p + (a + [sep] + b))[|p|..] == a + [sep] + b;
    assert (p + (c + [sep] + d))[|p|..] == c + [sep] + d;
    SplitAtSeparator(a, b, c, d, sep);
  }

  /** The marker of one user's day names that user and day only. */
  lemma CacheKeyInjective(u1: int, d1: Date, u2: int, d2: Date)
    requires ValidDate(d1) && ValidDate(d2)
    requires CacheKey(u1, d1) == CacheKey(u2, d2)
    ensures u1 == u2 && d1 == d2
  {
    DecShape(u1);
    DecShape(u2);
    KeyParts("checkin:", Dec(u1), IsoDate(d1), Dec(u2), IsoDate(d2), ':');
    DecInjective(u1, u2);
    IsoDateInjective(d1, d2);
  }

  /** Each user has a lock of their own. */
  lemma CheckinLockKeyInjective(u1: int, u2: int)
    requires CheckinLockKey(u1) == CheckinLockKey(u2)
    ensures u1 == u2
  {
    var p := "lock:checkin:";
    assert CheckinLockKey(u1)[|p|..] == Dec(u1);
    assert CheckinLockKey(u2)[|p|..] == Dec(u2);
    DecInjective(u1, u2);
  }

  /** `Duration.between(now, startOfTomorrow).getSeconds()`, where `elapsed` is the
      nanosecond of `now` counted from the start of today. The seconds are the whole seconds
      left, rounded down, so the marker expires within the second before midnight; a
      reading taken after midnight gives zero or less. */
  function SecondsUntilMidnight(elapsed: int): (secs: int)
    ensures secs * NanosPerSecond <= NanosPerDay - elapsed < (secs + 1) * NanosPerSecond
    ensures 0 <= elapsed < NanosPerDay ==> 0 <= secs <= SecondsPerDay
  {
    (NanosPerDay - elapsed) / NanosPerSecond
  }

  /** The three clock readings of one request: `LocalDate.now()`, `LocalTime.now()`, and
      the `LocalDateTime.now()` taken after the commit, as nanoseconds since the start of
      `today`. */
  datatype Clock = Clock(today: Date, now: Time, afterCommit: int)

  /** `checkin(userId)` on the shared world. */
  function CheckinProtocol(w: World, pointsSequence: seq<int>, maxPerMonth: int, caller: Caller, userId: int, clock: Clock, attempt: LockAttempt): (out: (Result<CheckinResponse, Failure>, World))
    requires ValidDate(clock.today)
    ensures out.0.Err? ==> out.1.ledger == w.ledger && out.1.cache == w.cache
  {
    if !IsValidCheckinTime(clock.now) then (Err(OutsideWindow), w)
    else
      var key := CacheKey(userId, clock.today);
      if key in w.cache then (Err(AlreadyCheckedIn), w)
      else
        var lockKey := CheckinLockKey(userId);
        var (outcome, held) := TryLock(w.locks, lockKey, caller, attempt);
        match outcome
        case Interrupted => (Err(CheckinInterrupted), w.(locks := held))
        case NotAcquired => (Err(LockUnavailable), w.(locks := held))
        case Acquired =>
          var (r, ledger) := CheckinTx(w.ledger, pointsSequence, maxPerMonth, userId, clock.today);
          var cache := if r.Ok? then w.cache[key := CacheEntry("1", SecondsUntilMidnight(clock.afterCommit))] else w.cache;
          (r, World(ledger, cache, held - {lockKey}))
  }

  /** `checkin(userId)`, with the lock released in the `finally` block whenever it was taken. */
  method Checkin(db: Database, cache: Cache, locks: LockTable, config: Config.CheckinConfig,
                 caller: Caller, userId: int, clock: Clock, attempt: LockAttempt)
    returns (r: Result<CheckinResponse, Failure>)
    requires ValidDate(clock.today)
    modifies db, cache, locks
    ensures (r, World(db.State(), cache.entries, locks.holders)) ==
      CheckinProtocol(World(old(db.State()), old(cache.entries), old(locks.holders)),
                      config.pointsSequence, config.maxPerMonth, caller, userId, clock, attempt)
  {
    if !IsValidCheckinTime(clock.now) {
      return Err(OutsideWindow);
    }
    var redisKey := CacheKey(userId, clock.today);
    var cached := cache.HasKey(redisKey);
    if cached {
      return Err(AlreadyCheckedIn);
    }
    var lockKey := CheckinLockKey(userId);
    var locked := false;
    var outcome := locks.TryLockKey(lockKey, caller, attempt);
    if outcome == Interrupted {
      r := Err(CheckinInterrupted);
    } else {
      locked := outcome == Acquired;
      if !locked {
        r := Err(LockUnavailable);
      } else {
        r := DoCheckinTransactional(db, config, userId, clock.today);
        if r.Ok? {
          cache.Set(redisKey, "1", SecondsUntilMidnight(clock.afterCommit));
        }
      }
    }
    if locked {
      var held := locks.IsHeldBy(lockKey, caller);
      if held {
        locks.Unlock(lockKey, caller);
      }
    }
  }

  /** Whatever happens, the request leaves the locks as it found them. */
  lemma CheckinReleasesLock(w: World, pointsSequence: seq<int>, maxPerMonth: int, caller: Caller, userId: int, clock: Clock, attempt: LockAttempt)
    requires ValidDate(clock.today)
    ensures CheckinProtocol(w, pointsSequence, maxPerMonth, caller, userId, clock, attempt).1.locks == w.locks
  {
    var lockKey := CheckinLockKey(userId);
    if IsValidCheckinTime(clock.now) && CacheKey(userId, clock.today) !in w.cache
       && attempt == Grant && lockKey !in w.locks {
      assert w.locks[lockKey := caller] - {lockKey} == w.locks;
    }
  }

  /** What each request does: it is refused outside the window, and on a cache hit, without
      touching anything; the store changes only through a transaction run under a lock
      obtained on a free key; the marker is written exactly when the transaction succeeds,
      and the answer is then the transaction's. */
  lemma CheckinEffects(w: World, pointsSequence: seq<int>, maxPerMonth: int, caller: Caller, userId: int, clock: Clock, attempt: LockAttempt)
    requires ValidDate(clock.today)
    ensures
      var out := CheckinProtocol(w, pointsSequence, maxPerMonth, caller, userId, clock, attempt);
      var key := CacheKey(userId, clock.today);
      var runs := IsValidCheckinTime(clock.now) && key !in w.cache
                  && attempt == Grant && CheckinLockKey(userId) !in w.locks;
      var tx := CheckinTx(w.ledger, pointsSequence, maxPerMonth, userId, clock.today);
      && (out.0 == Err(OutsideWindow) <==> !IsValidCheckinTime(clock.now))
      && (IsValidCheckinTime(clock.now) && key in w.cache ==> out == (Err(AlreadyCheckedIn), w))
      && (IsValidCheckinTime(clock.now) && key !in w.cache && attempt == Interrupt ==> out.0 == Err(CheckinInterrupted))
      && (IsValidCheckinTime(clock.now) && key !in w.cache && attempt != Interrupt && !runs ==> out.0 == Err(LockUnavailable))
      && out.1.ledger == (if runs then tx.1 else w.ledger)
      && (runs ==> out.0 == tx.0)
      && out.1.cache == (if out.0.Ok? then w.cache[key := CacheEntry("1", SecondsUntilMidnight(clock.afterCommit))] else w.cache)
  {
  }

  /** The marker cache only ever names check-ins that the store holds. */
  ghost predicate CacheSound(w: World) {
    forall userId, date :: ValidDate(date) && CacheKey(userId, date) in w.cache ==> HasRow(w.ledger.checkins, userId, date)
  }

  /** A check-in only appends to the table, and a committed one holds the user's row for
      the day. */
  lemma CheckinRecordsRow(st: LedgerState, pointsSequence: seq<int>, maxPerMonth: int, userId: int, today: Date)
    ensures st.checkins <= CheckinTx(st, pointsSequence, maxPerMonth, userId, today).1.checkins
    ensures CheckinTx(st, pointsSequence, maxPerMonth, userId, today).0.Ok? ==>
      HasRow(CheckinTx(st, pointsSequence, maxPerMonth, userId, today).1.checkins, userId, today)
  {
    var out := CheckinTx(st, pointsSequence, maxPerMonth, userId, today);
    if out.0.Ok? {
      assert out.1.checkins[|st.checkins|].userId == userId;
    }
  }

  /** Setting the marker of a day whose row the grown table holds keeps the cache sound. */
  lemma MarkerKeepsCacheSound(w: World, ledger: LedgerState, userId: int, today: Date, entry: CacheEntry)
    requires ValidDate(today) && CacheSound(w)
    requires w.ledger.checkins <= ledger.checkins
    requires HasRow(ledger.checkins, userId, today)
    ensures CacheSound(World(ledger, w.cache[CacheKey(userId, today) := entry], w.locks))
    ensures CacheSound(World(ledger, w.cache, w.locks))
  {
    forall u, d | ValidDate(d) && CacheKey(u, d) in w.cache[CacheKey(userId, today) := entry]
      ensures HasRow(ledger.checkins, u, d)
    {
      if CacheKey(u, d) in w.cache {
        var i :| 0 <= i < |w.ledger.checkins| && w.ledger.checkins[i].userId == u && w.ledger.checkins[i].checkinDate == d;
        assert ledger.checkins[i] == w.ledger.checkins[i];
      } else {
        CacheKeyInjective(u, d, userId, today);
      }
    }
  }

  /** A request keeps the store's invariant and the soundness of the marker cache. */
  lemma CheckinPreservesInvariants(w: World, pointsSequence: seq<int>, maxPerMonth: int, caller: Caller, userId: int, clock: Clock, attempt: LockAttempt)
    requires ValidDate(clock.today)
    requires Valid(w.ledger) && CacheSound(w)
    ensures Valid(CheckinProtocol(w, pointsSequence, maxPerMonth, caller, userId, clock, attempt).1.ledger)
    ensures CacheSound(CheckinProtocol(w, pointsSequence, maxPerMonth, caller, userId, clock, attempt).1)
  {
    var out := CheckinProtocol(w, pointsSequence, maxPerMonth, caller, userId, clock, attempt);
    CheckinEffects(w, pointsSequence, maxPerMonth, caller, userId, clock, attempt);
    CheckinReleasesLock(w, pointsSequence, maxPerMonth, caller, userId, clock, attempt);
    CheckinPreservesValid(w.ledger, pointsSequence, maxPerMonth, userId, clock.today);
    CheckinRecordsRow(w.ledger, pointsSequence, maxPerMonth, userId, clock.today);
    var tx := CheckinTx(w.ledger, pointsSequence, maxPerMonth, userId, clock.today);
    if out.0.Ok? {
      MarkerKeepsCacheSound(w, tx.1, userId, clock.today, CacheEntry("1", SecondsUntilMidnight(clock.afterCommit)));
    }
  }

  /** With a sound cache, the early exit on a cache hit gives the answer the transaction
      would have given. */
  lemma CacheHitAgreesWithStore(w: World, pointsSequence: seq<int>, maxPerMonth: int, userId: int, today: Date)
    requires ValidDate(today) && CacheSound(w)
    requires CacheKey(userId, today) in w.cache
    ensures CheckinTx(w.ledger, pointsSequence, maxPerMonth, userId, today).0 == Err(AlreadyCheckedIn)
  {
    CheckinRejectsSameDay(w.ledger, pointsSequence, maxPerMonth, userId, today);
  }

  /** After a successful check-in, every later request of that user on that day, at any
      time and whatever the lock does, is refused as a duplicate. */
  lemma CheckinOnceADay(w: World, pointsSequence: seq<int>, maxPerMonth: int, caller: Caller, userId: int, clock: Clock, attempt: LockAttempt,
                        caller2: Caller, now2: Time, afterCommit2: int, attempt2: LockAttempt)
    requires ValidDate(clock.today)
    requires CheckinProtocol(w, pointsSequence, maxPerMonth, caller, userId, clock, attempt).0.Ok?
    requires IsValidCheckinTime(now2)
    ensures
      var w' := CheckinProtocol(w, pointsSequence, maxPerMonth, caller, userId, clock, attempt).1;
      CheckinProtocol(w', pointsSequence, maxPerMonth, caller2, userId, Clock(clock.today, now2, afterCommit2), attempt2)
        == (Err(AlreadyCheckedIn), w')
  {
    CheckinEffects(w, pointsSequence, maxPerMonth, caller, userId, clock, attempt);
  }

  /** One line of the status list: a day checked in (with its date and points), today's
      pending slot, or a later slot with no date and the points it would earn, if any. */
  datatype StatusEntry = StatusEntry(date: Option<Date>, checkedIn: bool, pointsEarned: Option<int>)

  function CheckedEntry(row: DailyCheckin): StatusEntry {
    StatusEntry(Some(row.checkinDate), true, Some(row.pointsEarned))
  }

  function SlotEntry(index: int, pointsSequence: seq<int>): StatusEntry {
    StatusEntry(None, false, if 0 <= index < |pointsSequence| then Some(pointsSequence[index]) else None)
  }

  /** `checkinMap.containsKey(today)`. */
  predicate ContainsDate(rows: seq<DailyCheckin>, date: Date) {
    exists k :: 0 <= k < |rows| && rows[k].checkinDate == date
  }

  /** The list shows a pending slot for today. */
  predicate TodaySlot(checkins: seq<DailyCheckin>, today: Date, maxPerMonth: int, pointsSequence: seq<int>) {
    !ContainsDate(checkins, today) && |checkins| < maxPerMonth && |checkins| < |pointsSequence|
  }

  /** The list assembled from the month's check-ins (`checkins`, the query's result, and
      `sorted`, the same rows oldest first): one checked-in line per row, today's slot, then
      slots without a date up to the cap. */
  method AssembleStatusList(checkins: seq<DailyCheckin>, sorted: seq<DailyCheckin>, maxPerMonth: int, pointsSequence: seq<int>, today: Date)
    returns (statusList: seq<StatusEntry>)
    requires |sorted| == |checkins|
    ensures
      var slot := TodaySlot(checkins, today, maxPerMonth, pointsSequence);
      var n := |checkins| + (if slot then 1 else 0);
      && |statusList| == (if |checkins| < maxPerMonth then maxPerMonth else |checkins|)
      && (forall i :: 0 <= i < |checkins| ==> statusList[i] == CheckedEntry(sorted[i]))
      && (slot ==> statusList[|checkins|] == StatusEntry(Some(today), false, Some(pointsSequence[|checkins|])))
      && (forall i :: n <= i < |statusList| ==> statusList[i] == SlotEntry(i, pointsSequence))
  {
    var checkedInCount := |checkins|;
    statusList := [];
    for i := 0 to |sorted|
      invariant |statusList| == i
      invariant forall k :: 0 <= k < i ==> statusList[k] == CheckedEntry(sorted[k])
    {
      statusList := statusList + [CheckedEntry(sorted[i])];
    }
    ghost var slot := TodaySlot(checkins, today, maxPerMonth, pointsSequence);
    var todayCheckedIn := ContainsDate(checkins, today);
    if !todayCheckedIn && checkedInCount < maxPerMonth {
      if checkedInCount < |pointsSequence| {
        statusList := statusList + [StatusEntry(Some(today), false, Some(pointsSequence[checkedInCount]))];
      }
    }
    ghost var n := |statusList|;
    assert n == checkedInCount + (if slot then 1 else 0);
    while |statusList| < maxPerMonth
      invariant n <= |statusList| <= (if n < maxPerMonth then maxPerMonth else n)
      invariant forall k :: 0 <= k < checkedInCount ==> statusList[k] == CheckedEntry(sorted[k])
      invariant slot ==> statusList[checkedInCount] == StatusEntry(Some(today), false, Some(pointsSequence[checkedInCount]))
      invariant forall k :: n <= k < |statusList| ==> statusList[k] == SlotEntry(k, pointsSequence)
      decreases maxPerMonth - |statusList|
    {
      var dayIndex := |statusList|;
      var pointsEarned: Option<int> := None;
      if dayIndex < |pointsSequence| {
        pointsEarned := Some(pointsSequence[dayIndex]);
      }
      statusList := statusList + [StatusEntry(None, false, pointsEarned)];
    }
  }

  /** `getCheckinStatusForCurrentMonth(userId)`: the month's check-ins oldest first, then
      today's slot if the user can still check in today, then slots without a date up to
      the monthly cap; the list is never shorter than the cap, and longer only when the
      month already holds more check-ins than the cap. The map of dates the source builds
      needs the dates of the month's rows to be distinct, which the unique constraint
      guarantees. */
  method GetCheckinStatusForCurrentMonth(db: Database, config: Config.CheckinConfig, userId: int, today: Date)
    returns (statusList: seq<StatusEntry>)
    requires UniqueUserDate(db.checkins)
    ensures
      var checkins := FindByUserIdAndMonth(db.checkins, userId, today.year, today.month);
      var sorted := SortByDate(checkins, Ascending);
      var slot := TodaySlot(checkins, today, config.maxPerMonth, config.pointsSequence);
      var n := |checkins| + (if slot then 1 else 0);
      && |statusList| == (if |checkins| < config.maxPerMonth then config.maxPerMonth else |checkins|)
      && (forall i :: 0 <= i < |checkins| ==> statusList[i] == CheckedEntry(sorted[i]))
      && (slot ==> statusList[|checkins|] == StatusEntry(Some(today), false, Some(config.pointsSequence[|checkins|])))
      && (forall i :: n <= i < |statusList| ==> statusList[i] == SlotEntry(i, config.pointsSequence))
  {
    var checkins := FindByUserIdAndMonth(db.checkins, userId, today.year, today.month);
    var sorted := SortByDate(checkins, Ascending);
    statusList := AssembleStatusList(checkins, sorted, config.maxPerMonth, config.pointsSequence, today);
  }

  /** The checked-in lines of the status list run strictly forward in time, one per day. */
  lemma StatusDatesIncrease(rows: seq<DailyCheckin>, userId: int, year: int, month: int)
    requires UniqueUserDate(rows)
    ensures
      var sorted := SortByDate(FindByUserIdAndMonth(rows, userId, year, month), Ascending);
      forall i, j :: 0 <= i < j < |sorted| ==> Before(sorted[i].checkinDate, sorted[j].checkinDate)
  {
    var checkins := FindByUserIdAndMonth(rows, userId, year, month);
    var sorted := SortByDate(checkins, Ascending);
    FindByUserIdAndMonthSpec(rows, userId, year, month);
    forall i, j | 0 <= i < j < |sorted|
      ensures Before(sorted[i].checkinDate, sorted[j].checkinDate)
    {
      var a, b := sorted[i], sorted[j];
      assert a in multiset(sorted) && b in multiset(sorted);
      assert InMonth(a, userId, year, month) && InMonth(b, userId, year, month);
      assert a in rows && b in rows;
      TwoPositions(sorted, i, j);
      UniqueRowsOnce(rows, a);
      assert a != b;
      SameUserDateSameRow(rows, a, b);
      BeforeIsStrictTotal(a.checkinDate, b.checkinDate, a.checkinDate);
    }
  }

  /** A row of the user on `date` is among the month's rows that the status list reads. */
  lemma HasRowShown(rows: seq<DailyCheckin>, userId: int, date: Date)
    ensures HasRow(rows, userId, date) ==>
      ContainsDate(FindByUserIdAndMonth(rows, userId, date.year, date.month), date)
  {
    if HasRow(rows, userId, date) {
      var checkins := FindByUserIdAndMonth(rows, userId, date.year, date.month);
      FindByUserIdAndMonthSpec(rows, userId, date.year, date.month);
      var i :| 0 <= i < |rows| && rows[i].userId == userId && rows[i].checkinDate == date;
      var x := rows[i];
      assert multiset(checkins)[x] > 0;
      var k :| 0 <= k < |checkins| && checkins[k] == x;
    }
  }

  /** Today's pending slot shows exactly the reward a check-in now would earn, and the
      check-in it announces goes through for a known user. */
  lemma TodaySlotMatchesReward(st: LedgerState, pointsSequence: seq<int>, maxPerMonth: int, userId: int, today: Date)
    requires GapFree(st.checkins) && userId in st.users
    requires TodaySlot(FindByUserIdAndMonth(st.checkins, userId, today.year, today.month), today, maxPerMonth, pointsSequence)
    ensures
      var c := |FindByUserIdAndMonth(st.checkins, userId, today.year, today.month)|;
      var out := CheckinTx(st, pointsSequence, maxPerMonth, userId, today);
      out.0.Ok? && out.0.value.pointsEarned == pointsSequence[c] && out.0.value.checkinOrder == c + 1
  {
    FindByUserIdAndMonthSpec(st.checkins, userId, today.year, today.month);
    HasRowShown(st.checkins, userId, today);
    CheckinOrderAndReward(st, pointsSequence, maxPerMonth, userId, today);
  }
}
