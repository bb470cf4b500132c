/** The shared cache (Redis through RedisTemplate) and the per-key locks (Redisson RLock),
    reduced to what the services observe: a map of keys to entries, and a map of lock keys
    to the caller holding them (a key that is absent is free). Whether `tryLock` obtains the
    lock within its wait, or its wait is interrupted, is decided by the environment and
    passed in as a `LockAttempt`. */
module Coordination {
  import opened Ledger

  datatype CacheEntry = CacheEntry(value: string, ttlSeconds: int)

  /** The thread on whose behalf a request runs. */
  type Caller = int

  /** How the wait of `tryLock` ends: the lock is granted if it is free, the wait times out,
      or the waiting thread is interrupted. */
  datatype LockAttempt = Grant | Timeout | Interrupt

  datatype LockOutcome = Acquired | NotAcquired | Interrupted

  /** `tryLock`: a granted attempt takes a free lock; a lock held by anyone is not taken,
      since in a sequential run nobody releases it during the wait. */
  function TryLock(holders: map<string, Caller>, key: string, caller: Caller, attempt: LockAttempt): (r: (LockOutcome, map<string, Caller>))
    ensures r.0 == Acquired <==> attempt == Grant && key !in holders
    ensures r.0 == Interrupted <==> attempt == Interrupt
    ensures r.0 == Acquired ==> r.1 == holders[key := caller]
    ensures r.0 != Acquired ==> r.1 == holders
  {
    match attempt
    case Interrupt => (Interrupted, holders)
    case Timeout => (NotAcquired, holders)
    case Grant => if key in holders then (NotAcquired, holders) else (Acquired, holders[key := caller])
  }

  /** The whole shared state a request can see. */
  datatype World = World(ledger: LedgerState, cache: map<string, CacheEntry>, locks: map<string, Caller>)

  class Cache {
    var entries: map<string, CacheEntry>

    constructor ()
      ensures entries == map[]
    {
      entries := map[];
    }

    /** `redisTemplate.hasKey`. */
    method HasKey(key: string) returns (b: bool)
      ensures b <==> key in entries
    {
      b := key in entries;
    }

    /** `opsForValue().set(key, value, ttl, SECONDS)`; the expiry itself is not modelled. */
    method Set(key: string, value: string, ttlSeconds: int)
      modifies this
      ensures entries == old(entries)[key := CacheEntry(value, ttlSeconds)]
    {
      entries := entries[key := CacheEntry(value, ttlSeconds)];
    }
  }

  class LockTable {
    var holders: map<string, Caller>

    constructor ()
      ensures holders == map[]
    {
      holders := map[];
    }

    method TryLockKey(key: string, caller: Caller, attempt: LockAttempt) returns (outcome: LockOutcome)
      modifies this
      ensures (outcome, holders) == TryLock(old(holders), key, caller, attempt)
    {
      var r := TryLock(holders, key, caller, attempt);
      outcome := r.0;
      holders := r.1;
    }

    /** `isHeldByCurrentThread`. */
    method IsHeldBy(key: string, caller: Caller) returns (b: bool)
      ensures b <==> key in holders && holders[key] == caller
    {
      b := key in holders && holders[key] == caller;
    }

    /** `unlock`, which only the holder may call. */
    method Unlock(key: string, caller: Caller)
      requires key in holders && holders[key] == caller
      modifies this
      ensures holders == old(holders) - {key}
    {
      holders := holders - {key};
    }
  }
}
