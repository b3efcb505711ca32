/** Divisibility on unbounded integers and Euclid's algorithm as the
    program runs it: on absolute values, replacing (a, b) by (b, a mod b)
    until b is zero. */
module Euclid {

  function Abs(a: int): nat {
    if a < 0 then -a else a
  }

  /** `d` divides `n`; the only multiple of 0 is 0. */
  predicate Divides(d: nat, n: int) {
    if d == 0 then n == 0 else n % d == 0
  }

  /** The only multiple of a positive `d` in [0, d) is 0. */
  lemma SmallMultiple(d: int, k: int)
    requires d > 0 && 0 <= d * k < d
    ensures k == 0
  {
  }

  lemma MultipleMod(d: int, m: int)
    requires d > 0
    ensures (d * m) % d == 0
  {
    var q, r := (d * m) / d, (d * m) % d;
    assert d * (m - q) == r;
    SmallMultiple(d, m - q);
  }

  /** Divisors of `x` and `y` divide every combination `x + k*y`. */
  lemma DividesLinear(d: nat, x: int, y: int, k: int)
    requires Divides(d, x) && Divides(d, y)
    ensures Divides(d, x + k * y)
  {
    if d > 0 {
      var p, q := x / d, y / d;
      assert x == d * p;
      assert y == d * q;
      assert x + k * y == d * (p + k * q);
      MultipleMod(d, p + k * q);
    }
  }

  /** A number, its absolute value and its negation have the same divisors,
      and `|n|` is one of them. */
  lemma AbsDivisors(n: int)
    ensures Divides(Abs(n), n)
    ensures forall d: nat :: Divides(d, Abs(n)) <==> Divides(d, n)
  {
    if n != 0 {
      MultipleMod(Abs(n), if n < 0 then -1 else 1);
    }
    forall d: nat
      ensures Divides(d, Abs(n)) <==> Divides(d, n)
    {
      if Divides(d, n) {
        DividesLinear(d, n, n, -2);
      }
      if Divides(d, Abs(n)) {
        DividesLinear(d, Abs(n), Abs(n), -2);
      }
    }
  }

  /** One step of Euclid keeps the set of common divisors. */
  lemma EuclidStep(a: int, b: int)
    requires b > 0
    ensures forall d: nat :: Divides(d, a) && Divides(d, b) <==> Divides(d, b) && Divides(d, a % b)
  {
    forall d: nat
      ensures Divides(d, a) && Divides(d, b) <==> Divides(d, b) && Divides(d, a % b)
    {
      if Divides(d, a) && Divides(d, b) {
        assert a % b == a + -(a / b) * b;
        DividesLinear(d, a, b, -(a / b));
      }
      if Divides(d, b) && Divides(d, a % b) {
        assert a == a % b + (a / b) * b;
        DividesLinear(d, a % b, b, a / b);
      }
    }
  }

  /** A divisor of a non-zero number is at most its absolute value. */
  lemma DivisorBound(d: nat, n: int)
    requires n != 0 && Divides(d, n)
    ensures 0 < d <= Abs(n)
  {
  }

  /** `gcd(a, b)`: the loop of the program, as the tail recursion it is. The
      result divides both arguments, every common divisor divides it, and it
      is zero only when both arguments are. */
  function Gcd(a: int, b: int): (g: nat)
    ensures Divides(g, a) && Divides(g, b)
    ensures forall d: nat :: Divides(d, a) && Divides(d, b) ==> Divides(d, g)
    ensures g == 0 <==> a == 0 && b == 0
    ensures b == 0 ==> g == Abs(a)
    decreases Abs(b)
  {
    AbsDivisors(a);
    AbsDivisors(b);
    if b == 0 then
      Abs(a)
    else
      EuclidStep(Abs(a), Abs(b));
      Gcd(Abs(b), Abs(a) % Abs(b))
  }

  /** The gcd is greatest in the ordinary sense as well: no common divisor of
      two numbers that are not both zero exceeds it. */
  lemma GcdIsGreatest(a: int, b: int, d: nat)
    requires a != 0 || b != 0
    requires Divides(d, a) && Divides(d, b)
    ensures d <= Gcd(a, b)
  {
    DivisorBound(d, Gcd(a, b));
  }
}
