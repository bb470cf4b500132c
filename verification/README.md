# Loyalty service: daily check-in and points ledger

This project models the daily check-in and points core of the loyalty service (Java,
Spring). A user may check in once a day, within two time windows: 09:00-11:00 and
19:00-21:00. They may check in at most `maxPerMonth` times per calendar month. The n-th
check-in of a month earns the n-th entry of a configured reward schedule.

Each check-in does three things:
- writes a row to `daily_checkin`;
- raises the user's `totalPoints`;
- appends a CHECKIN entry to the points history.

A deduction lowers the balance and appends a DEDUCT entry. Both operations run inside a
per-user Redisson lock. A Redis marker key, written after commit, lets repeat check-ins
fail fast.

The model has one abstract store with these parts:
- users, from id to user record;
- the check-in table, as a sequence of rows in insertion order;
- the append-only points history;
- the marker cache, as a map from key to entry;
- the lock table, as a map from lock key to holder.

Five operations that change state are modelled in two forms: `checkin`,
`doCheckinTransactional`, `deductPoints`, `doDeductPointsTransactional` and `createUser`.
- Each has a pure transition function on that store: `CheckinProtocol`, `CheckinTx`,
  `DeductProtocol`, `DeductTx` and `CreateUserTx`.
- Each also has an imperative method that runs the source's steps against mutable objects:
  `Ledger.Database`, `Coordination.Cache`, `Coordination.LockTable` and
  `Config.CheckinConfig`. The method's postcondition is that its result and new state are
  those of the transition function.

The two profile lookups, `getUserProfile` and `getUserById`, change nothing and are pure
functions only. The status query `getCheckinStatusForCurrentMonth` is a method
(`GetCheckinStatusForCurrentMonth`). It has no transition function; its contract states
the layout of the list directly, and it has no `modifies` clause, so the store is unchanged.

The properties are lemmas about the transition functions:
- every error path leaves the store unchanged;
- at most one row per user and day;
- each user's check-in orders in a month run 1..c with no gaps;
- every balance equals the Java `int` sum of that user's history;
- the lock is held after a request exactly when it was held before;
- every cache marker names a stored row;
- the response fields;
- the status list's layout.

Files, in dependency order:
- `wrappers.dfy`: Option and Result.
- `int32.dfy`: Java `int` wrap-around.
- `decimal.dfy`: `%d` formatting and `Integer.parseInt`.
- `calendar.dfy`: `LocalDate` order, ISO_DATE text and `LocalTime`.
- `config.dfy`: the reward-schedule parser and `CheckinConfig`.
- `entities.dfy`: rows and the unique constraint.
- `failures.dfy`: the exceptions.
- `repository.dfy`: the four JPQL queries.
- `ledger.dfy`: the store and its invariant.
- `coordination.dfy`: the cache and locks.
- `checkin_tx.dfy`, `checkin_service.dfy`, `points_tx.dfy`, `points_service.dfy`,
  `user_service.dfy`: the services.

### Behaviour of the code worth noting

- **Schedule length.** `CheckinConfig.init` does not compare `maxPerMonth` with the length
  of the schedule. The lookup `pointsSequence[checkinOrder - 1]` is unchecked and can
  therefore fail. The model raises it as the failure `RewardIndexOutOfBounds`, before any
  write. `CheckinIndexOutOfBoundsExample` exhibits it. `CheckinIndexInBounds` proves it
  cannot happen when the schedule is at least as long as the cap.
- **Cache check.** `checkin` trusts a marker key without consulting the store. This is sound
  as long as every marker names a stored row (`CacheSound`): `CacheHitAgreesWithStore`
  proves the early reject then gives the transaction's own answer. Every request keeps that
  property (`CheckinPreservesInvariants`, `DeductPreservesInvariants`).
- **Status list.** `getCheckinStatusForCurrentMonth` builds a list of `maxPerMonth` slots,
  not one line per calendar day; past the cap it lists every check-in of the month.
- **Reward values.** The parser accepts any `int` as a reward, zero and negative ones
  included.

## Model

| member | source | states |
|---|---|---|
| Int32.Wrap | src/main/java/vn/ghtk/loyalty/service/impl/CheckinTransactionServiceImpl.java:74 | The result is the value in the Java `int` range that is congruent to the exact sum modulo 2^32, as `int` addition yields it |
| Int32.WrapAdd | src/main/java/vn/ghtk/loyalty/service/impl/CheckinTransactionServiceImpl.java:74 | Adding to a wrapped balance and wrapping equals wrapping the exact total, so an `int` balance is the exact history sum modulo 2^32 |
| Int32.WrapInRange | src/main/java/vn/ghtk/loyalty/service/impl/PointsTransactionServiceImpl.java:38 | Arithmetic whose exact result fits in an `int` is not changed by wrapping |
| Decimal.Dec | src/main/java/vn/ghtk/loyalty/service/impl/CheckinServiceImpl.java:53 | `%d` text of a number is never empty |
| Decimal.DecShape | src/main/java/vn/ghtk/loyalty/service/impl/CheckinServiceImpl.java:53 | `%d` text has no ',', ':' or space, ends in a digit, and starts with '-' exactly for negative numbers |
| Decimal.DecInjective | src/main/java/vn/ghtk/loyalty/service/impl/CheckinServiceImpl.java:53 | Different numbers never format alike |
| Decimal.ParseInt | src/main/java/vn/ghtk/loyalty/config/CheckinConfig.java:29 | `Integer.parseInt` succeeds if and only if the text is an optional '-' or '+' followed by at least one ASCII digit whose value lies in the `int` range; the result is that value, negated after '-' |
| Decimal.ParseIntDec | src/main/java/vn/ghtk/loyalty/config/CheckinConfig.java:29 | Parsing the `%d` text of any `int` gives it back |
| Decimal.ParseIntRejectsOverflow | src/main/java/vn/ghtk/loyalty/config/CheckinConfig.java:29 | A number above or below the `int` range is rejected |
| Calendar.BeforeIsStrictTotal | src/main/java/vn/ghtk/loyalty/service/impl/CheckinServiceImpl.java:113-115 | Date order (`isBefore`, which the sort by date uses) is irreflexive, total on distinct dates and transitive |
| Calendar.YearTextInjective | src/main/java/vn/ghtk/loyalty/service/impl/CheckinServiceImpl.java:53 | The ISO year field of two different years differs, in all four of its forms |
| Calendar.IsoDateInjective | src/main/java/vn/ghtk/loyalty/service/impl/CheckinServiceImpl.java:53 | Two valid dates with the same ISO_DATE text are the same date |
| Config.SplitAll | src/main/java/vn/ghtk/loyalty/config/CheckinConfig.java:27 | Splitting at commas yields at least one piece, and no piece holds a comma |
| Config.DropTrailingEmpty | src/main/java/vn/ghtk/loyalty/config/CheckinConfig.java:27 | `split` keeps a prefix of the pieces whose last piece is not empty, and every piece it drops is empty |
| Config.JavaSplit | src/main/java/vn/ghtk/loyalty/config/CheckinConfig.java:27 | `split(",")` of text without a comma is one piece, the text itself; with a comma, the last piece kept is not empty |
| Config.JavaSplitCommaFree | src/main/java/vn/ghtk/loyalty/config/CheckinConfig.java:27 | No piece of `split(",")` holds a comma |
| Config.TrimShape | src/main/java/vn/ghtk/loyalty/config/CheckinConfig.java:28 | `trim` never lengthens the text, and a non-empty result starts and ends with a character above U+0020 |
| Config.TrimPadded | src/main/java/vn/ghtk/loyalty/config/CheckinConfig.java:28 | `trim` removes exactly the blank padding around text that starts and ends with visible characters |
| Config.ParsePaddedDec | src/main/java/vn/ghtk/loyalty/config/CheckinConfig.java:28-29 | A piece holding an `int` with blanks around it parses to that `int` |
| Config.ParseAllSpec | src/main/java/vn/ghtk/loyalty/config/CheckinConfig.java:28-30 | The list parses if and only if every trimmed piece parses; it then holds one number per piece, in order, each the value of its piece |
| Config.ParsePointsSequenceSpec | src/main/java/vn/ghtk/loyalty/config/CheckinConfig.java:27-30 | `init`'s parse succeeds if and only if every trimmed piece of `split(",")` is an `int`, and then yields those `int`s in order, one per piece |
| Config.ParseAllFailsAt | src/main/java/vn/ghtk/loyalty/config/CheckinConfig.java:29-30 | One unparsable piece makes the whole list fail |
| Config.SplitJoinPieces | src/main/java/vn/ghtk/loyalty/config/CheckinConfig.java:27 | `split(",")` undoes joining comma-free pieces whose last piece is not empty |
| Config.ParseJoinTrimmed | src/main/java/vn/ghtk/loyalty/config/CheckinConfig.java:27-30 | Comma-separated `int`s with any blank padding, e.g. "10, 20 ,30", parse to those `int`s |
| Config.ParseJoinRoundTrip | src/main/java/vn/ghtk/loyalty/config/CheckinConfig.java:27-30 | Round trip: joining the `%d` texts of a non-empty `int` list with "," and parsing gives the list back |
| Config.TrailingCommaIgnored | src/main/java/vn/ghtk/loyalty/config/CheckinConfig.java:27 | A trailing comma is dropped: "10,20," parses like "10,20" |
| Config.EmptyMiddlePieceFails | src/main/java/vn/ghtk/loyalty/config/CheckinConfig.java:27-30 | An empty piece between commas, as in "10,,20", makes `init` fail |
| Config.OutOfRangeFails | src/main/java/vn/ghtk/loyalty/config/CheckinConfig.java:29 | A number above or below the `int` range makes `init` fail |
| Config.EmptyTextFails | src/main/java/vn/ghtk/loyalty/config/CheckinConfig.java:27-30 | An empty configuration value makes `init` fail |
| Config.CheckinConfig.Init | src/main/java/vn/ghtk/loyalty/config/CheckinConfig.java:25-34 | `init` succeeds exactly when the text parses, then assigns the parsed schedule; any cap and any values are accepted |
| Entities.UniqueRowsOnce | src/main/java/vn/ghtk/loyalty/entity/DailyCheckin.java:13-15 | Under the unique constraint the table holds no row twice |
| Entities.InsertKeepsUnique | src/main/java/vn/ghtk/loyalty/entity/DailyCheckin.java:13-15 | A new row keeps the (user_id, checkin_date) constraint if and only if the table holds no row for that pair |
| DailyCheckinRepository.MonthRowsExact | src/main/java/vn/ghtk/loyalty/repository/DailyCheckinRepository.java:18-20 | The month filter keeps every row of that user, year and month, with its multiplicity, and no other row |
| DailyCheckinRepository.FindByUserIdAndCheckinDate | src/main/java/vn/ghtk/loyalty/repository/DailyCheckinRepository.java:16 | The query returns a stored row of that user and date, and returns empty exactly when no such row exists |
| DailyCheckinRepository.FindUnique | src/main/java/vn/ghtk/loyalty/repository/DailyCheckinRepository.java:16 | Under the unique constraint, the row found is the only row of that user and date |
| DailyCheckinRepository.CountByUserIdAndMonth | src/main/java/vn/ghtk/loyalty/repository/DailyCheckinRepository.java:18-20 | The count never exceeds the table size, and is positive if and only if the user has a row in that month |
| DailyCheckinRepository.CountAppend | src/main/java/vn/ghtk/loyalty/repository/DailyCheckinRepository.java:18-20 | A new row adds one to the count of its own user and month and nothing to any other |
| DailyCheckinRepository.HasRowCounted | src/main/java/vn/ghtk/loyalty/repository/DailyCheckinRepository.java:18-20 | A row of the user on a date is counted in that date's month |
| DailyCheckinRepository.SortByDate | src/main/java/vn/ghtk/loyalty/repository/DailyCheckinRepository.java:22-25 | The result is sorted by date in the given direction and is a permutation of the input |
| DailyCheckinRepository.FindByUserIdAndMonth | src/main/java/vn/ghtk/loyalty/repository/DailyCheckinRepository.java:22-25 | The result is sorted newest first and has as many rows as `countByUserIdAndMonth` reports |
| DailyCheckinRepository.FindByUserIdAndMonthSpec | src/main/java/vn/ghtk/loyalty/repository/DailyCheckinRepository.java:22-25 | `findByUserIdAndMonth` returns exactly the month's rows of the user, each as often as the table holds it, and no other row |
| DailyCheckinRepository.MaxOrder | src/main/java/vn/ghtk/loyalty/repository/DailyCheckinRepository.java:27-29 | MAX is NULL exactly on no rows; otherwise it is an order some row has, and no row's order exceeds it |
| DailyCheckinRepository.FindMaxCheckinOrder | src/main/java/vn/ghtk/loyalty/repository/DailyCheckinRepository.java:27-29 | NULL if and only if the user has no row in the month; otherwise some row of that month has this order, and no row of that month has a larger one |
| DailyCheckinRepository.GapFreeOrders | src/main/java/vn/ghtk/loyalty/repository/DailyCheckinRepository.java:27-29 | With gap-free sequencing, the orders of a user's month are exactly {1..c}, where c is the month's count |
| DailyCheckinRepository.GapFreeMaxIsCount | src/main/java/vn/ghtk/loyalty/repository/DailyCheckinRepository.java:27-29 | With gap-free sequencing, MAX(checkinOrder) is the month's count, or NULL when there are no rows |
| DailyCheckinRepository.GapFreeAppend | src/main/java/vn/ghtk/loyalty/service/impl/CheckinTransactionServiceImpl.java:57-71 | Appending the row numbered count + 1 keeps orders gap-free: {1..c} becomes {1..c+1} |
| Ledger.HistorySumAppend | src/main/java/vn/ghtk/loyalty/service/impl/CheckinTransactionServiceImpl.java:78-84 | A history entry changes only its own user's sum, and changes it by its points |
| Ledger.EmptyValid | src/main/java/vn/ghtk/loyalty/service/impl/UserServiceImpl.java:28-50 | The empty store satisfies every invariant |
| Ledger.CreditPreservesValid | src/main/java/vn/ghtk/loyalty/service/impl/CheckinTransactionServiceImpl.java:73-84 | Crediting a user's balance with an entry's points, as an `int`, and recording the entry keeps balance == wrapped history sum |
| Ledger.AddCheckinPreservesValid | src/main/java/vn/ghtk/loyalty/service/impl/CheckinTransactionServiceImpl.java:64-71 | A new row for a day without one, numbered count + 1, keeps uniqueness and gap-free orders |
| Ledger.Database.SaveCheckin | src/main/java/vn/ghtk/loyalty/service/impl/CheckinTransactionServiceImpl.java:71 | Saving a row appends it to the table and changes nothing else |
| Ledger.Database.SaveUser | src/main/java/vn/ghtk/loyalty/service/impl/CheckinTransactionServiceImpl.java:75 | Saving a user replaces that user's record and changes nothing else |
| Ledger.Database.InsertUser | src/main/java/vn/ghtk/loyalty/service/impl/UserServiceImpl.java:41 | Saving a new user assigns the next identity value and records the user under it |
| Ledger.Database.SaveHistory | src/main/java/vn/ghtk/loyalty/service/impl/CheckinTransactionServiceImpl.java:84 | Saving a history entry appends it and changes nothing else |
| Failures.MessageCarriesNumbers | src/main/java/vn/ghtk/loyalty/service/impl/CheckinTransactionServiceImpl.java:49 | The number in a business message is the failure's own: equal messages of the monthly-limit, insufficient-points or unknown-id kind carry equal numbers |
| Coordination.TryLock | src/main/java/vn/ghtk/loyalty/service/impl/CheckinServiceImpl.java:67-70 | The lock is acquired if and only if the wait is granted and the key is free; an interrupted wait is reported as interrupted; only an acquisition changes the holders |
| Coordination.Cache.HasKey | src/main/java/vn/ghtk/loyalty/service/impl/CheckinServiceImpl.java:56 | `hasKey` is true exactly for keys present |
| Coordination.Cache.Set | src/main/java/vn/ghtk/loyalty/service/impl/CheckinServiceImpl.java:80 | `set` stores the value and TTL under the key and changes no other key |
| Coordination.LockTable.TryLockKey | src/main/java/vn/ghtk/loyalty/service/impl/CheckinServiceImpl.java:67 | The lock table changes as `TryLock` says |
| Coordination.LockTable.IsHeldBy | src/main/java/vn/ghtk/loyalty/service/impl/CheckinServiceImpl.java:87 | `isHeldByCurrentThread` is true exactly when the caller holds the key |
| Coordination.LockTable.Unlock | src/main/java/vn/ghtk/loyalty/service/impl/CheckinServiceImpl.java:88 | `unlock` frees the key, which only its holder may do |
| CheckinTransactionService.CheckinTx | src/main/java/vn/ghtk/loyalty/service/impl/CheckinTransactionServiceImpl.java:34-95 | Every failure leaves the store unchanged; a success concerns a known user and answers success=true, "Check-in successful" and the user's new balance |
| CheckinTransactionService.DescriptionInjective | src/main/java/vn/ghtk/loyalty/service/impl/CheckinTransactionServiceImpl.java:82 | The history description "Daily check-in #<order>" determines the order |
| CheckinTransactionService.DoCheckinTransactional | src/main/java/vn/ghtk/loyalty/service/impl/CheckinTransactionServiceImpl.java:34-95 | Running the checks and the three writes step by step gives the result and store of `CheckinTx` |
| CheckinTransactionService.CheckinRejectsSameDay | src/main/java/vn/ghtk/loyalty/service/impl/CheckinTransactionServiceImpl.java:36-41 | If a row for (user, today) exists, the call fails with AlreadyCheckedIn and nothing changes |
| CheckinTransactionService.CheckinRejectsAtMonthlyCap | src/main/java/vn/ghtk/loyalty/service/impl/CheckinTransactionServiceImpl.java:43-50 | After the duplicate check and before the user lookup, a count of at least maxPerMonth fails with the monthly-limit error and nothing changes |
| CheckinTransactionService.CheckinRejectsUnknownUser | src/main/java/vn/ghtk/loyalty/service/impl/CheckinTransactionServiceImpl.java:52-54 | An unknown user, past the first two checks, fails with "User not found" and nothing changes |
| CheckinTransactionService.CheckinOrderAndReward | src/main/java/vn/ghtk/loyalty/service/impl/CheckinTransactionServiceImpl.java:56-94 | Once the checks pass: order = c + 1 and reward = schedule[c]. There is exactly one new row, the balance rises by the reward as an `int`, and one CHECKIN entry "Daily check-in #order" is appended. The response is exactly (true, "Check-in successful", reward, new balance, order). If c is past the schedule, the lookup fails and nothing is written |
| CheckinTransactionService.CheckinIndexInBounds | src/main/java/vn/ghtk/loyalty/service/impl/CheckinTransactionServiceImpl.java:43-62 | With maxPerMonth <= schedule length, the reward index is always in bounds |
| CheckinTransactionService.CheckinIndexOutOfBoundsExample | src/main/java/vn/ghtk/loyalty/config/CheckinConfig.java:25-34 | Nothing ties the cap to the schedule: cap 1 with an empty schedule fails the first check-in of a month at the reward lookup |
| CheckinTransactionService.CheckinCommitted | src/main/java/vn/ghtk/loyalty/service/impl/CheckinTransactionServiceImpl.java:36-84 | A committed check-in passed every check, and its store is the old one with exactly the three writes |
| CheckinTransactionService.CommitCheckinPreservesValid | src/main/java/vn/ghtk/loyalty/service/impl/CheckinTransactionServiceImpl.java:64-84 | The three writes keep every store invariant |
| CheckinTransactionService.CheckinPreservesValid | src/main/java/vn/ghtk/loyalty/service/impl/CheckinTransactionServiceImpl.java:34-95 | A check-in keeps every invariant: one row per user and day, gap-free orders, balance == wrapped history sum, and history owned by known users |
| CheckinTransactionService.CheckinOncePerDay | src/main/java/vn/ghtk/loyalty/service/impl/CheckinTransactionServiceImpl.java:36-41 | After a successful check-in, the same user's second one that day fails with AlreadyCheckedIn |
| CheckinTransactionService.CheckinFrame | src/main/java/vn/ghtk/loyalty/service/impl/CheckinTransactionServiceImpl.java:64-84 | Other users' records, month rows and history sums are untouched; the user's month count rises by one |
| CheckinTransactionService.CheckinKeepsBalanceNonNegative | src/main/java/vn/ghtk/loyalty/service/impl/CheckinTransactionServiceImpl.java:73-75 | A non-negative reward that does not overflow raises a non-negative balance by exactly the reward |
| CheckinService.IsValidCheckinTime | src/main/java/vn/ghtk/loyalty/service/impl/CheckinServiceImpl.java:155-160 | True exactly for times in the closed windows [09:00, 11:00] and [19:00, 21:00], ends included |
| CheckinService.CacheKey | src/main/java/vn/ghtk/loyalty/service/impl/CheckinServiceImpl.java:53 | A marker key is never a check-in lock key, though both live in one Redis keyspace |
| CheckinService.CacheKeyInjective | src/main/java/vn/ghtk/loyalty/service/impl/CheckinServiceImpl.java:53 | The marker key "checkin:<userId>:<ISO date>" determines the user and the date |
| CheckinService.CheckinLockKeyInjective | src/main/java/vn/ghtk/loyalty/service/impl/CheckinServiceImpl.java:61 | The lock key "lock:checkin:<userId>" determines the user |
| CheckinService.SecondsUntilMidnight | src/main/java/vn/ghtk/loyalty/service/impl/CheckinServiceImpl.java:76-79 | The TTL is the time left until the next midnight, in whole seconds rounded down; for a reading taken today it lies in 0..86400 |
| CheckinService.CheckinProtocol | src/main/java/vn/ghtk/loyalty/service/impl/CheckinServiceImpl.java:44-91 | A failed request leaves the store and the marker cache as they were |
| CheckinService.Checkin | src/main/java/vn/ghtk/loyalty/service/impl/CheckinServiceImpl.java:44-91 | The method's result and its new store, cache and locks are those of `CheckinProtocol`. This covers the time gate, the cache check, tryLock, the transaction, the marker after commit, the interrupt and the unlock in `finally` |
| CheckinService.CheckinReleasesLock | src/main/java/vn/ghtk/loyalty/service/impl/CheckinServiceImpl.java:83-90 | On every path the locks end as they began: released if acquired, never released if not |
| CheckinService.CheckinEffects | src/main/java/vn/ghtk/loyalty/service/impl/CheckinServiceImpl.java:48-85 | OutsideWindow if and only if the time is outside the windows. A cache hit fails with AlreadyCheckedIn and changes nothing. An interrupted wait fails as interrupted; any other wait that does not obtain the lock fails with "Unable to acquire lock". The store changes only through the transaction, run exactly when the lock is obtained, and then the response is the transaction's. The marker is written if and only if the transaction succeeds |
| CheckinService.CheckinRecordsRow | src/main/java/vn/ghtk/loyalty/service/impl/CheckinTransactionServiceImpl.java:64-71 | The table only grows, and after a success it holds the user's row for today |
| CheckinService.MarkerKeepsCacheSound | src/main/java/vn/ghtk/loyalty/service/impl/CheckinServiceImpl.java:75-80 | Writing the marker only after the row is stored keeps every marker backed by a row |
| CheckinService.CheckinPreservesInvariants | src/main/java/vn/ghtk/loyalty/service/impl/CheckinServiceImpl.java:44-91 | A request keeps the store invariant and keeps every cache marker backed by a stored row |
| CheckinService.CacheHitAgreesWithStore | src/main/java/vn/ghtk/loyalty/service/impl/CheckinServiceImpl.java:56-58 | With a sound cache, the fast reject returns what the transaction would have returned |
| CheckinService.CheckinOnceADay | src/main/java/vn/ghtk/loyalty/service/impl/CheckinServiceImpl.java:53-58 | After a successful check-in, any later request that day in a window fails with AlreadyCheckedIn and changes nothing, whatever the lock does |
| CheckinService.AssembleStatusList | src/main/java/vn/ghtk/loyalty/service/impl/CheckinServiceImpl.java:106-152 | The list holds the month's c check-ins oldest first (checked, with date and points). Today's slot, with schedule[c], appears exactly when today is unchecked, c < cap and c < schedule length. Undated slots i carry schedule[i] or null. The length is max(c, cap) |
| CheckinService.GetCheckinStatusForCurrentMonth | src/main/java/vn/ghtk/loyalty/service/impl/CheckinServiceImpl.java:94-153 | The same layout for the month's query result, without changing the store |
| CheckinService.StatusDatesIncrease | src/main/java/vn/ghtk/loyalty/service/impl/CheckinServiceImpl.java:113-123 | The checked-in lines carry strictly increasing dates, one per day |
| CheckinService.HasRowShown | src/main/java/vn/ghtk/loyalty/service/impl/CheckinServiceImpl.java:100-126 | A stored row of the user on a date is among the month's rows that the status list reads |
| CheckinService.TodaySlotMatchesReward | src/main/java/vn/ghtk/loyalty/service/impl/CheckinServiceImpl.java:126-135 | For a known user, today's slot announces exactly the reward and order a check-in now earns |
| PointsTransactionService.DeductTx | src/main/java/vn/ghtk/loyalty/service/impl/PointsTransactionServiceImpl.java:27-52 | Every failure leaves the store unchanged |
| PointsTransactionService.DoDeductPointsTransactional | src/main/java/vn/ghtk/loyalty/service/impl/PointsTransactionServiceImpl.java:27-52 | Running the check, the decrement and the history write step by step gives the result and store of `DeductTx` |
| PointsTransactionService.DeductOutcome | src/main/java/vn/ghtk/loyalty/service/impl/PointsTransactionServiceImpl.java:28-35 | An unknown user fails with "User not found". A balance below the amount fails with InsufficientPoints(balance). Both leave the store unchanged. Success happens if and only if the user exists and the balance covers the amount |
| PointsTransactionService.DeductEffect | src/main/java/vn/ghtk/loyalty/service/impl/PointsTransactionServiceImpl.java:37-48 | A success lowers the balance by exactly the amount, so it stays >= 0. It appends one DEDUCT entry of -amount, "Points deduction". Check-ins, other users and their history sums are untouched |
| PointsTransactionService.DeductPreservesValid | src/main/java/vn/ghtk/loyalty/service/impl/PointsTransactionServiceImpl.java:37-48 | A deduction keeps every store invariant, balance == wrapped history sum included |
| PointsService.DeductLockKey | src/main/java/vn/ghtk/loyalty/service/impl/PointsServiceImpl.java:39 | A deduction lock key is never a check-in marker key |
| PointsService.DeductLockKeyDistinct | src/main/java/vn/ghtk/loyalty/service/impl/PointsServiceImpl.java:39-40 | "lock:points:deduct:<userId>" determines the user and is never a check-in lock key |
| PointsService.DeductProtocol | src/main/java/vn/ghtk/loyalty/service/impl/PointsServiceImpl.java:36-61 | A deduction request never touches the marker cache, and a failed one leaves the store as it was |
| PointsService.DeductPoints | src/main/java/vn/ghtk/loyalty/service/impl/PointsServiceImpl.java:36-61 | The method's result, store and locks are those of `DeductProtocol`, with the unlock in `finally` |
| PointsService.DeductReleasesLock | src/main/java/vn/ghtk/loyalty/service/impl/PointsServiceImpl.java:56-60 | On every path the locks end as they began |
| PointsService.DeductEffects | src/main/java/vn/ghtk/loyalty/service/impl/PointsServiceImpl.java:43-55 | An interrupted wait fails as interrupted, and a lock not obtained fails with "Unable to acquire lock"; both leave the data unchanged. The deduction runs exactly when the lock is obtained, and then its answer is the request's |
| PointsService.DeductPreservesInvariants | src/main/java/vn/ghtk/loyalty/service/impl/PointsServiceImpl.java:36-61 | A deduction request keeps the store invariant and the soundness of the check-in markers |
| PointsService.DeductIgnoresCheckinLocks | src/main/java/vn/ghtk/loyalty/service/impl/PointsServiceImpl.java:39-45 | A held check-in lock, on any user, changes neither the answer nor the effect of a deduction |
| UserService.CreateUserTx | src/main/java/vn/ghtk/loyalty/service/impl/UserServiceImpl.java:28-50 | A refused creation leaves the store unchanged |
| UserService.CreateUser | src/main/java/vn/ghtk/loyalty/service/impl/UserServiceImpl.java:28-50 | The method's result and store are those of `CreateUserTx` |
| UserService.CreateUserOutcome | src/main/java/vn/ghtk/loyalty/service/impl/UserServiceImpl.java:29-49 | "Username already exists" if and only if the name is taken. Otherwise exactly one user is added, under a fresh id, with the request's fields and 0 points, and the response echoes the id, name, avatar and 0 |
| UserService.CreateUserPreservesValid | src/main/java/vn/ghtk/loyalty/service/impl/UserServiceImpl.java:33-41 | A new user's 0 points agree with an empty history, and usernames stay unique |
| UserService.CreatedUsersValid | src/main/java/vn/ghtk/loyalty/service/impl/UserServiceImpl.java:28-50 | Any run of user creations from the empty store gives a valid store |
| UserService.GetUserProfile | src/main/java/vn/ghtk/loyalty/service/impl/UserServiceImpl.java:54-69 | Fails with "User not found with id" if and only if the id is unknown |
| UserService.ProfileReportsLedger | src/main/java/vn/ghtk/loyalty/service/impl/UserServiceImpl.java:58-68 | The profile reports the stored name and avatar. Its balance is the wrapped history sum, and its day count is the size of the month's query result |
| UserService.GetUserById | src/main/java/vn/ghtk/loyalty/service/impl/UserServiceImpl.java:73-84 | Fails if and only if the id is unknown; otherwise answers that id and the stored balance |
| UserService.CreatedUserFound | src/main/java/vn/ghtk/loyalty/service/impl/UserServiceImpl.java:41-84 | Looking up a just-created user by its new id returns the creation response |

## Left out

- Clock readings are parameters. The model takes today's date, the `LocalTime` of the time
  check and the `LocalDateTime` after commit as a `Clock` value.
- Redis and Redisson internals are not modelled:
  - lock wait and lease times (10 s/30 s and 5 s/20 s);
  - expiry of a lease while the holder still works;
  - reentrant acquisition by the holder;
  - the thread's interrupt flag;
  - expiry of cache keys.
- Whether `tryLock` is granted, times out or is interrupted is an input (`LockAttempt`). A
  key held by anyone is never granted.
- `SecondsUntilMidnight`: the model does not capture Redis refusing a TTL of zero or less.
  A post-commit reading after 23:59:59, up to midnight, gives a TTL of 0, and one taken after
  midnight a negative TTL. The model stores the marker with the computed TTL.
- Concurrency is not modelled. This covers two replicas interleaving, lock-bypass races, and
  READ_COMMITTED isolation. Each request runs alone, and a transaction is all or nothing.
  Check-in and deduction take different lock keys (`DeductIgnoresCheckinLocks`), so in the
  source their read-modify-write of `totalPoints` for one user can interleave and lose an
  update. The balance invariant is proved for requests run one after another only.
- `createdAt` stamps on rows, history entries and users are not modelled, and neither is
  `@PrePersist`. The generated row and history ids are implicit in their position.
- `CheckinTransactionService.CheckinTx`: `countByUserIdAndMonth(...).intValue()` is taken as
  exact, as is `maxOrder + 1`. Neither can reach 2^31 rows.
- `CheckinTransactionService.CheckinTx`: a reward index past the schedule is modelled as the
  failure `RewardIndexOutOfBounds`, raised before any write. In the source this is the
  ArrayIndexOutOfBoundsException that rolls the transaction back. A negative index, which
  only stored orders below 0 could produce, is the same failure.
- The status query's `Collectors.toMap` throws on duplicate dates. `GetCheckinStatusForCurrentMonth`
  excludes that case by requiring the unique constraint, which the database enforces.
- `CheckinService.AssembleStatusList` holds the loops of `getCheckinStatusForCurrentMonth` over
  plain parameters. `GetCheckinStatusForCurrentMonth` runs the two queries and calls it.
- The password encoder is a parameter. `createUser` takes its output.
- `entity/User.java` is not part of this model. The user record's fields come from the
  builder calls in `UserServiceImpl`.
- Logging is not modelled. `getPointsHistory` (paging) is not modelled. Controllers, DTO
  validation and authentication are not modelled. The positivity of a deduction amount,
  which request validation enforces, is a precondition of the deduction functions.
- Before `init` has run, `CheckinConfig.pointsSequence` is the empty sequence; in the source
  it is null.
- Character handling is ASCII only. `Integer.parseInt` also accepts non-ASCII Unicode
  digits, and the parser model treats them as invalid.
- Dates are year/month/day triples with a valid month and day. The year is unbounded, where
  `LocalDate` limits it to ±999,999,999. Times are nanoseconds of the day.
