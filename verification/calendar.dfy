/** Java's `LocalDate` and `LocalTime` as far as the check-in core uses them: calendar dates
    with their year and month, their chronological order and ISO-8601 text, and times of
    day at nanosecond precision. */
module Calendar {
  import opened Decimal

  datatype Date = Date(year: int, month: int, day: int)

  predicate IsLeapYear(y: int) {
    y % 4 == 0 && (y % 100 != 0 || y % 400 == 0)
  }

  function DaysInMonth(y: int, m: int): (n: int)
    requires 1 <= m <= 12
    ensures 28 <= n <= 31
  {
    if m == 2 then (if IsLeapYear(y) then 29 else 28)
    else if m == 4 || m == 6 || m == 9 || m == 11 then 30
    else 31
  }

  /** A date that `LocalDate` can hold (proleptic Gregorian calendar). */
  predicate ValidDate(d: Date) {
    1 <= d.month <= 12 && 1 <= d.day <= DaysInMonth(d.year, d.month)
  }

  /** `a.isBefore(b)`: strictly earlier, comparing year, then month, then day. */
  predicate Before(a: Date, b: Date) {
    a.year < b.year
    || (a.year == b.year && (a.month < b.month || (a.month == b.month && a.day < b.day)))
  }

  lemma BeforeIsStrictTotal(a: Date, b: Date, c: Date)
    ensures !Before(a, a)
    ensures a != b ==> Before(a, b) || Before(b, a)
    ensures Before(a, b) && Before(b, c) ==> Before(a, c)
  {
  }

  /** Two-digit zero-padded text, as `MM` and `dd` print. */
  function Pad2(n: int): (s: string)
    requires 0 <= n < 100
    ensures |s| == 2 && AllDigits(s)
  {
    [DigitChar(n / 10), DigitChar(n % 10)]
  }

  /** Four-digit zero-padded text. */
  function Pad4(n: int): (s: string)
    requires 0 <= n < 10000
    ensures |s| == 4 && AllDigits(s)
  {
    Pad2(n / 100) + Pad2(n % 100)
  }

  lemma Pad2Injective(a: int, b: int)
    requires 0 <= a < 100 && 0 <= b < 100
    requires Pad2(a) == Pad2(b)
    ensures a == b
  {
    assert DigitValue(Pad2(a)[0]) == a / 10 && DigitValue(Pad2(a)[1]) == a % 10;
  }

  lemma Pad4Injective(a: int, b: int)
    requires 0 <= a < 10000 && 0 <= b < 10000
    requires Pad4(a) == Pad4(b)
    ensures a == b
  {
    assert Pad4(a)[..2] == Pad2(a / 100) && Pad4(b)[..2] == Pad2(b / 100);
    assert Pad4(a)[2..] == Pad2(a % 100) && Pad4(b)[2..] == Pad2(b % 100);
    Pad2Injective(a / 100, b / 100);
    Pad2Injective(a % 100, b % 100);
  }

  /** The year field of ISO_LOCAL_DATE: at least four digits, zero padded, with a sign
      only when negative or longer than four digits ('+' then). */
  function YearText(y: int): string {
    if y > 9999 then "+" + Digits(y)
    else if y >= 0 then Pad4(y)
    else if y >= -9999 then "-" + Pad4(-y)
    else "-" + Digits(-y)
  }

  lemma {:induction false} LongDigits(n: nat)
    requires n > 9999
    ensures |Digits(n)| >= 5
  {
    var n1 := n / 10;
    var n2 := n1 / 10;
    var n3 := n2 / 10;
    assert |Digits(n)| == |Digits(n1)| + 1;
    assert |Digits(n1)| == |Digits(n2)| + 1;
    assert |Digits(n2)| == |Digits(n3)| + 1;
    assert n3 >= 10;
  }

  lemma {:induction false} DigitsInjective(a: nat, b: nat)
    requires Digits(a) == Digits(b)
    ensures a == b
  {
    ValueOfDigits(a);
    ValueOfDigits(b);
  }

  /** The first character of the year field tells which of the four forms it has. */
  lemma YearTextForm(y: int)
    ensures |YearText(y)| >= 4
    ensures YearText(y)[0] == '+' <==> y > 9999
    ensures YearText(y)[0] == '-' <==> y < 0
    ensures y > 9999 ==> YearText(y)[1..] == Digits(y)
    ensures 0 <= y <= 9999 ==> YearText(y) == Pad4(y)
    ensures -9999 <= y < 0 ==> YearText(y)[1..] == Pad4(-y) && |YearText(y)| == 5
    ensures y < -9999 ==> YearText(y)[1..] == Digits(-y) && |YearText(y)| >= 6
  {
    var s := YearText(y);
    if y > 9999 {
      LongDigits(y);
      assert s[1..] == Digits(y);
    } else if y >= 0 {
      assert IsDigit(s[0]);
    } else if y >= -9999 {
      assert s[1..] == Pad4(-y);
    } else {
      LongDigits(-y);
      assert s[1..] == Digits(-y);
    }
  }

  lemma YearTextInjective(a: int, b: int)
    requires YearText(a) == YearText(b)
    ensures a == b
  {
    var s := YearText(a);
    YearTextForm(a);
    YearTextForm(b);
    if a > 9999 {
      assert b > 9999 && Digits(a) == s[1..] == Digits(b);
      DigitsInjective(a, b);
    } else if a >= 0 {
      assert 0 <= b <= 9999 && Pad4(a) == s == Pad4(b);
      Pad4Injective(a, b);
    } else if a >= -9999 {
      assert -9999 <= b < 0 && Pad4(-a) == s[1..] == Pad4(-b);
      Pad4Injective(-a, -b);
    } else {
      assert b < -9999 && Digits(-a) == s[1..] == Digits(-b);
      DigitsInjective(-a, -b);
    }
  }

  /** `date.format(DateTimeFormatter.ISO_DATE)` for a `LocalDate`, e.g. "2024-03-05". */
  function IsoDate(d: Date): (s: string)
    requires ValidDate(d)
  {
    YearText(d.year) + "-" + Pad2(d.month) + "-" + Pad2(d.day)
  }

  /** Different dates never print alike. */
  lemma {:induction false} IsoDateInjective(d1: Date, d2: Date)
    requires ValidDate(d1) && ValidDate(d2)
    requires IsoDate(d1) == IsoDate(d2)
    ensures d1 == d2
  {
    var s := IsoDate(d1);
    var y1, y2 := YearText(d1.year), YearText(d2.year);
    var n := |y1|;
    assert |y2| == n;
    assert s[..n] == y1 && IsoDate(d2)[..n] == y2;
    YearTextInjective(d1.year, d2.year);
    assert s[n + 1..n + 3] == Pad2(d1.month) && IsoDate(d2)[n + 1..n + 3] == Pad2(d2.month);
    Pad2Injective(d1.month, d2.month);
    assert s[n + 4..] == Pad2(d1.day) && IsoDate(d2)[n + 4..] == Pad2(d2.day);
    Pad2Injective(d1.day, d2.day);
  }

  const NanosPerSecond: int := 1_000_000_000
  const SecondsPerDay: int := 86_400
  const NanosPerDay: int := SecondsPerDay * NanosPerSecond

  /** A `LocalTime`, as its nanosecond of the day. */
  type Time = t: int | 0 <= t < NanosPerDay

  /** `LocalTime.of(hour, minute)`. */
  function TimeOf(hour: int, minute: int): Time
    requires 0 <= hour < 24 && 0 <= minute < 60
  {
    (hour * 60 + minute) * 60 * NanosPerSecond
  }
}
