/** Java's 32-bit `int`: its range and the two's-complement wrap-around of its arithmetic. */
module Int32 {

  const Min: int := -0x8000_0000
  const Max: int := 0x7fff_ffff
  const Modulus: int := 0x1_0000_0000

  predicate InRange(x: int) {
    Min <= x <= Max
  }

  /** The value Java's `int` arithmetic yields for the mathematical result `x`. */
  function Wrap(x: int): (r: int)
    ensures InRange(r)
    ensures (x - r) % Modulus == 0
  {
    (x - Min) % Modulus + Min
  }

  /** Two `int` values that agree modulo 2^32 are the same value. */
  lemma {:induction false} CongruentInRange(p: int, q: int)
    requires InRange(p) && InRange(q)
    requires (p - q) % Modulus == 0
    ensures p == q
  {
  }

  /** Wrapping leaves values that fit in an `int` as they are. */
  lemma {:induction false} WrapInRange(x: int)
    requires InRange(x)
    ensures Wrap(x) == x
  {
    CongruentInRange(Wrap(x), x);
  }

  /** Adding to a wrapped value and wrapping again is the same as wrapping the exact sum:
      an `int` accumulator always holds the exact total modulo 2^32. */
  lemma {:induction false} WrapAdd(a: int, b: int)
    ensures Wrap(Wrap(a) + b) == Wrap(a + b)
  {
    var p, q := Wrap(Wrap(a) + b), Wrap(a + b);
    assert (Wrap(a) + b - p) % Modulus == 0;
    assert (a - Wrap(a)) % Modulus == 0;
    assert (a + b - q) % Modulus == 0;
    assert (p - q) % Modulus == 0;
    CongruentInRange(p, q);
  }
}
