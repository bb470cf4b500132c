/** Decimal text of integers: Java's `%d` formatting and `Integer.parseInt(s)` in radix 10. */
module Decimal {
  import Int32
  import opened Wrappers

  predicate IsDigit(c: char) {
    '0' <= c <= '9'
  }

  predicate AllDigits(s: string) {
    forall i :: 0 <= i < |s| ==> IsDigit(s[i])
  }

  function DigitChar(d: nat): (c: char)
    requires d < 10
    ensures IsDigit(c)
  {
    ('0' as int + d) as char
  }

  function DigitValue(c: char): (d: nat)
    requires IsDigit(c)
    ensures d < 10 && DigitChar(d) == c
  {
    c as int - '0' as int
  }

  /** The decimal digits of `n`, most significant first, without leading zeros. */
  function Digits(n: nat): (s: string)
    ensures |s| >= 1 && AllDigits(s)
    decreases n
  {
    if n < 10 then [DigitChar(n)] else Digits(n / 10) + [DigitChar(n % 10)]
  }

  /** The number a non-empty run of decimal digits denotes (leading zeros allowed). */
  function ValueOf(s: string): nat
    requires AllDigits(s)
  {
    if |s| == 0 then 0 else ValueOf(s[..|s| - 1]) * 10 + DigitValue(s[|s| - 1])
  }

  lemma {:induction false} ValueOfDigits(n: nat)
    ensures ValueOf(Digits(n)) == n
    decreases n
  {
    var s := Digits(n);
    if n >= 10 {
      ValueOfDigits(n / 10);
      assert s[..|s| - 1] == Digits(n / 10);
    }
  }

  /** Java's `%d` (and `Long.toString`) of `n`. */
  function Dec(n: int): (s: string)
    ensures |s| >= 1
  {
    if n < 0 then "-" + Digits(-n) else Digits(n)
  }

  /** `Dec` writes a minus sign exactly for negative numbers, then digits only. */
  lemma DecShape(n: int)
    ensures ',' !in Dec(n) && ':' !in Dec(n) && ' ' !in Dec(n)
    ensures Dec(n)[0] > ' ' && IsDigit(Dec(n)[|Dec(n)| - 1])
    ensures Dec(n)[0] == '-' <==> n < 0
  {
  }

  /** The digits after the optional minus sign are those of the magnitude. */
  lemma DecMagnitude(n: int)
    ensures n < 0 ==> Dec(n)[1..] == Digits(-n)
    ensures n >= 0 ==> Dec(n) == Digits(n)
  {
    if n < 0 {
      assert Dec(n) == "-" + Digits(-n);
    }
  }

  /** `Dec` never maps two integers to the same text. */
  lemma DecInjective(a: int, b: int)
    requires Dec(a) == Dec(b)
    ensures a == b
  {
    DecShape(a);
    DecShape(b);
    DecMagnitude(a);
    DecMagnitude(b);
    var ma: nat := if a < 0 then -a else a;
    var mb: nat := if b < 0 then -b else b;
    assert Digits(ma) == Digits(mb);
    ValueOfDigits(ma);
    ValueOfDigits(mb);
  }

  /** The text after an optional leading '-' or '+'. */
  function Unsigned(s: string): (body: string)
    ensures |body| <= |s|
  {
    if |s| > 0 && (s[0] == '-' || s[0] == '+') then s[1..] else s
  }

  /** The number that a sign and a run of digits denote. */
  function SignedValue(s: string): int
    requires |s| >= 1 && AllDigits(Unsigned(s))
  {
    var magnitude: int := ValueOf(Unsigned(s));
    if s[0] == '-' then -magnitude else magnitude
  }

  /** `Integer.parseInt(s)`: an optional ASCII sign followed by at least one ASCII digit,
      whose value must fit in an `int`; anything else is a NumberFormatException (None). */
  function ParseInt(s: string): (r: Option<int>)
    ensures r.Some? <==>
      |Unsigned(s)| >= 1 && AllDigits(Unsigned(s)) && Int32.InRange(SignedValue(s))
    ensures r.Some? ==> r.value == SignedValue(s) && Int32.InRange(r.value)
  {
    if |s| == 0 then None
    else
      var signed := s[0] == '-' || s[0] == '+';
      var body := if signed then s[1..] else s;
      if |body| == 0 || !AllDigits(body) then None
      else
        var magnitude: int := ValueOf(body);
        var v := if s[0] == '-' then -magnitude else magnitude;
        if Int32.InRange(v) then Some(v) else None
  }

  /** Parsing the decimal text of any `int` gives it back. */
  lemma ParseIntDec(n: int)
    requires Int32.InRange(n)
    ensures ParseInt(Dec(n)) == Some(n)
  {
    DecShape(n);
    DecMagnitude(n);
    if n < 0 {
      ValueOfDigits(-n);
    } else {
      assert IsDigit(Digits(n)[0]);
      ValueOfDigits(n);
    }
  }

  /** Numbers outside the `int` range, on either side, are rejected, as Integer.parseInt
      rejects them. */
  lemma {:induction false} ParseIntRejectsOverflow(n: int)
    requires !Int32.InRange(n)
    ensures ParseInt(Dec(n)) == None
  {
    DecShape(n);
    DecMagnitude(n);
    if n < 0 {
      ValueOfDigits(-n);
    } else {
      ValueOfDigits(n);
    }
  }

  /** Two texts joined at a separator that the first parts do not contain split back. */
  lemma SplitAtSeparator(a: string, b: string, c: string, d: string, sep: char)
    requires sep !in a && sep !in c
    requires a + [sep] + b == c + [sep] + d
    ensures a == c && b == d
  {
    var s := a + [sep] + b;
    assert s == c + [sep] + d;
    assert s[|a|] == sep && s[|c|] == sep;
    assert forall k :: 0 <= k < |a| ==> s[k] == a[k];
    assert forall k :: 0 <= k < |c| ==> s[k] == c[k];
    assert |a| == |c|;
    assert a == s[..|a|] && c == s[..|c|];
    assert b == s[|a| + 1..] && d == s[|c| + 1..];
  }
}
