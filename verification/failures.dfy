/** The failures the services raise. Every business failure is a `BusinessException`
    whose message the client sees; `RewardIndexOutOfBounds` stands for the
    ArrayIndexOutOfBoundsException that the unchecked reward lookup can raise, and
    `UserIdNotFound` for the RuntimeException of the profile queries. */
module Failures {
  import opened Decimal

  datatype Failure =
    | OutsideWindow
    | AlreadyCheckedIn
    | MonthlyLimitReached(maxPerMonth: int)
    | UserNotFound
    | LockUnavailable
    | CheckinInterrupted
    | DeductionInterrupted
    | InsufficientPoints(currentPoints: int)
    | UsernameExists
    | UserIdNotFound(userId: int)
    | RewardIndexOutOfBounds(index: int, length: int)

  /** The exception message. */
  function Message(f: Failure): string {
    match f
    case OutsideWindow => "Check-in is only allowed between 9:00-11:00 or 19:00-21:00"
    case AlreadyCheckedIn => "You have already checked in today"
    case MonthlyLimitReached(max) => "Maximum " + Dec(max) + " check-ins per month reached"
    case UserNotFound => "User not found"
    case LockUnavailable => "Unable to acquire lock. Please try again."
    case CheckinInterrupted => "Check-in process was interrupted"
    case DeductionInterrupted => "Points deduction process was interrupted"
    case InsufficientPoints(current) => "Insufficient points. Current points: " + Dec(current)
    case UsernameExists => "Username already exists"
    case UserIdNotFound(id) => "User not found with id: " + Dec(id)
    case RewardIndexOutOfBounds(index, length) =>
      "Index " + Dec(index) + " out of bounds for length " + Dec(length)
  }

  /** Strips a common prefix. */
  lemma SamePrefix(p: string, a: string, b: string)
    requires p + a == p + b
    ensures a == b
  {
    assert a == (p + a)[|p|..];
    assert b == (p + b)[|p|..];
  }

  /** Strips a common suffix. */
  lemma SameSuffix(a: string, b: string, q: string)
    requires a + q == b + q
    ensures a == b
  {
    assert a == (a + q)[..|a|];
    assert b == (b + q)[..|b|];
  }

  /** The number a business message reports is that of the failure: two failures of the same
      kind with the same message carry the same number. */
  lemma MessageCarriesNumbers(f: Failure, g: Failure)
    requires Message(f) == Message(g)
    ensures f.MonthlyLimitReached? && g.MonthlyLimitReached? ==> f == g
    ensures f.InsufficientPoints? && g.InsufficientPoints? ==> f == g
    ensures f.UserIdNotFound? && g.UserIdNotFound? ==> f == g
  {
    if f.MonthlyLimitReached? && g.MonthlyLimitReached? {
      var a, b := f.maxPerMonth, g.maxPerMonth;
      SameSuffix("Maximum " + Dec(a), "Maximum " + Dec(b), " check-ins per month reached");
      SamePrefix("Maximum ", Dec(a), Dec(b));
      DecInjective(a, b);
    } else if f.InsufficientPoints? && g.InsufficientPoints? {
      SamePrefix("Insufficient points. Current points: ", Dec(f.currentPoints), Dec(g.currentPoints));
      DecInjective(f.currentPoints, g.currentPoints);
    } else if f.UserIdNotFound? && g.UserIdNotFound? {
      SamePrefix("User not found with id: ", Dec(f.userId), Dec(g.userId));
      DecInjective(f.userId, g.userId);
    }
  }
}
