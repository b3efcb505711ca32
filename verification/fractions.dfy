/** The rational accumulator of the interpolation: a pair (num, den) of
    unbounded integers. The denominator is never sign-normalised, and it is
    zero once a repeated abscissa has been met. Its value as a rational number
    is `Q(num, den)`. */
module Fractions {
  import opened Results
  import opened Euclid

  /** The rational value of `n/d`. */
  function Q(n: int, d: int): real
    requires d != 0
  {
    n as real / d as real
  }

  /** `Q(n, d)` is the one real that `d` multiplies to `n`. */
  lemma QChar(n: int, d: int, x: real)
    requires d != 0
    ensures Q(n, d) * d as real == n as real
    ensures x * d as real == n as real ==> x == Q(n, d)
  {
  }

  lemma QMul(n1: int, d1: int, n2: int, d2: int)
    requires d1 != 0 && d2 != 0
    ensures d1 * d2 != 0
    ensures Q(n1 * n2, d1 * d2) == Q(n1, d1) * Q(n2, d2)
  {
  }

  lemma QAdd(n1: int, d1: int, n2: int, d2: int)
    requires d1 != 0 && d2 != 0
    ensures d1 * d2 != 0
    ensures Q(n1 * d2 + n2 * d1, d1 * d2) == Q(n1, d1) + Q(n2, d2)
  {
  }

  /** Dividing numerator and denominator by the same non-zero factor keeps the value. */
  lemma QCancel(n: int, d: int, g: int)
    requires d != 0 && g != 0
    ensures d * g != 0
    ensures Q(n * g, d * g) == Q(n, d)
  {
  }

  lemma QNeg(n: int, d: int)
    requires d != 0
    ensures Q(-n, d) == -Q(n, d) && Q(n, -d) == -Q(n, d) && Q(-n, -d) == Q(n, d)
  {
  }

  /** Rounding toward zero of a real number. */
  function TruncReal(x: real): (t: int)
    ensures 0.0 <= x ==> t as real <= x < t as real + 1.0
    ensures x < 0.0 ==> t as real - 1.0 < x <= t as real
  {
    if 0.0 <= x then x.Floor else -((-x).Floor)
  }

  predicate IsInteger(x: real) {
    x.Floor as real == x
  }

  /** Rounding an integer-valued real toward zero gives it back. */
  lemma TruncOfInteger(x: real)
    requires IsInteger(x)
    ensures TruncReal(x) as real == x
  {
    var m := x.Floor;
    if x < 0.0 {
      assert -x == (-m) as real;
      FloorUnique(-x, -m);
    }
  }

  /** Rounding toward zero commutes with negation. */
  lemma TruncNeg(y: real)
    requires 0.0 <= y
    ensures TruncReal(-y) == -TruncReal(y)
  {
  }

  /** JS BigInt division `a / b`: the quotient truncated toward zero. The
      divisor must be non-zero; the program never divides by a zero it has
      not ruled out, except through a zero gcd (see `Reduce`). */
  function TruncDiv(a: int, b: int): (q: int)
    requires b != 0
    ensures q == TruncReal(Q(a, b))
    ensures Divides(Abs(b), a) ==> q * b == a
  {
    var m := Abs(a) / Abs(b);
    TruncDivIsTruncReal(a, b, m);
    if (a < 0) == (b < 0) then m else -m
  }

  lemma TruncDivIsTruncReal(a: int, b: int, m: int)
    requires b != 0 && m == Abs(a) / Abs(b)
    ensures TruncReal(Q(a, b)) == (if (a < 0) == (b < 0) then m else -m)
    ensures Divides(Abs(b), a) ==> (if (a < 0) == (b < 0) then m else -m) * b == a
  {
    var A: int, B: int := Abs(a), Abs(b);
    var y := Q(A, B);
    FloorOfQuotient(A, B);
    assert 0.0 <= y;
    if (a < 0) == (b < 0) {
      QSigns(a, b, y);
      assert Q(a, b) == y;
    } else {
      QSigns(a, b, y);
      assert Q(a, b) == -y;
      TruncNeg(y);
    }
    if Divides(B, a) {
      AbsDivisors(a);
      assert A == m * B;
    }
  }

  /** `a/b` is `|a|/|b|` up to sign. */
  lemma QSigns(a: int, b: int, y: real)
    requires b != 0 && y == Q(Abs(a), Abs(b))
    ensures (a < 0) == (b < 0) ==> Q(a, b) == y
    ensures (a < 0) != (b < 0) ==> Q(a, b) == -y
  {
    QNeg(Abs(a), Abs(b));
  }

  /** For non-negative operands, the truncated real quotient is the integer quotient. */
  lemma FloorOfQuotient(A: nat, B: nat)
    requires B > 0
    ensures TruncReal(Q(A, B)) == A / B
  {
    var m := A / B;
    assert m * B <= A < m * B + B;
    QuotientBounds(A, B, m);
    FloorUnique(Q(A, B), m);
  }

  lemma QuotientBounds(A: int, B: int, m: int)
    requires B > 0 && m * B <= A < m * B + B
    ensures m as real <= Q(A, B) < m as real + 1.0
  {
    QChar(A, B, Q(A, B));
    CastMul(m, B);
    BetweenMultiples(Q(A, B), B as real, A as real, m as real);
  }

  /** If x·c lies in [m·c, m·c + c) for a positive c, then x lies in [m, m + 1). */
  lemma BetweenMultiples(x: real, c: real, a: real, m: real)
    requires c > 0.0 && x * c == a && m * c <= a < m * c + c
    ensures m <= x < m + 1.0
  {
    assert (m + 1.0) * c == m * c + c;
    RealCancel(m, x, c);
    RealCancel(x, m + 1.0, c);
  }

  lemma CastMul(a: int, b: int)
    ensures (a * b) as real == a as real * b as real
  {
  }

  lemma FloorUnique(x: real, m: int)
    requires 0.0 <= x && m as real <= x < m as real + 1.0
    ensures TruncReal(x) == m
  {
  }

  lemma RealCancel(x: real, y: real, c: real)
    requires c > 0.0
    ensures x * c <= y * c ==> x <= y
    ensures x * c < y * c ==> x < y
  {
  }

  /** solve.js lines 50-51: the sum of two fractions by cross-multiplication. */
  function AddFrac(n1: int, d1: int, n2: int, d2: int): (r: (int, int))
    ensures d1 != 0 && d2 != 0 ==> r.1 != 0 && Q(r.0, r.1) == Q(n1, d1) + Q(n2, d2)
    ensures d1 == 0 || d2 == 0 <==> r.1 == 0
  {
    var sum := (n1 * d2 + n2 * d1, d1 * d2);
    if d1 != 0 && d2 != 0 then QAdd(n1, d1, n2, d2); sum else sum
  }

  /** solve.js lines 52-54: divide both parts by their gcd. A zero gcd (both parts
      zero) makes BigInt division throw. Otherwise the fraction keeps its
      value, its denominator keeps its sign, and the result is in lowest
      terms whenever the denominator is non-zero. */
  function Reduce(n: int, d: int): (r: Result<(int, int)>)
    ensures r.Failure? <==> n == 0 && d == 0
    ensures r.Failure? ==> r.error == DivisionByZero
    ensures r.Success? ==> r.value.0 * Gcd(n, d) == n && r.value.1 * Gcd(n, d) == d
    ensures r.Success? ==> r.value.0 * d == n * r.value.1
    ensures r.Success? ==> (d < 0 <==> r.value.1 < 0) && (d == 0 <==> r.value.1 == 0)
    ensures r.Success? && d != 0 ==> Q(r.value.0, r.value.1) == Q(n, d)
    ensures r.Success? && d != 0 ==> Gcd(r.value.0, r.value.1) == 1
  {
    var g := Gcd(n, d);
    if g == 0 then
      Failure(DivisionByZero)
    else
      var n', d' := TruncDiv(n, g), TruncDiv(d, g);
      ReduceFacts(n, d, g, n', d');
      Success((n', d'))
  }

  lemma ReduceFacts(n: int, d: int, g: nat, n': int, d': int)
    requires g == Gcd(n, d) && g != 0
    requires n' * g == n && d' * g == d
    ensures n' * d == n * d'
    ensures d < 0 <==> d' < 0
    ensures d == 0 <==> d' == 0
    ensures d != 0 ==> Q(n', d') == Q(n, d)
    ensures d != 0 ==> Gcd(n', d') == 1
  {
    ScaledPair(n', d', g);
    if d != 0 {
      QCancel(n', d', g);
      LowestTerms(n, d, g, n', d');
    }
  }

  /** Facts about `(n'*g, d'*g)` for a positive factor `g`. */
  lemma ScaledPair(n': int, d': int, g: int)
    requires g > 0
    ensures n' * (d' * g) == (n' * g) * d'
    ensures d' * g < 0 <==> d' < 0
    ensures d' * g == 0 <==> d' == 0
  {
  }

  /** Dividing by the gcd leaves no common factor. */
  lemma LowestTerms(n: int, d: int, g: nat, n': int, d': int)
    requires g == Gcd(n, d) && g != 0 && d != 0
    requires n' * g == n && d' * g == d
    ensures Gcd(n', d') == 1
  {
    assert d' != 0;
    var h := Gcd(n', d');
    assert h > 0 && Divides(h, n') && Divides(h, d');
    MultipleScales(h, g, n');
    MultipleScales(h, g, d');
    var hg := h * g;
    assert Divides(hg, n) && Divides(hg, d);
    assert Divides(hg, g);
    DivisorBound(hg, g);
    UnitFactor(h, g);
  }

  lemma UnitFactor(h: nat, g: nat)
    requires h > 0 && g > 0 && h * g <= g
    ensures h == 1
  {
  }

  /** If `h` divides `m`, then `h*g` divides `m*g`. */
  lemma MultipleScales(h: nat, g: nat, m: int)
    requires h > 0 && g > 0 && Divides(h, m)
    ensures Divides(h * g, m * g)
  {
  }

  /** Reduction leaves a negative denominator negative: -2/-4 becomes -1/-2,
      not 1/2. */
  lemma NegativeDenominatorKept()
    ensures Reduce(-2, -4) == Success((-1, -2))
  {
    assert Gcd(-2, -4) == Gcd(4, 2) == Gcd(2, 0) == 2;
  }
}
