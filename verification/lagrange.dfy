/** `lagrangeAtZero(shares, k)`: the value at x = 0 of the polynomial
    through the first k shares, computed with an exact, gcd-reduced running
    fraction and finished with a truncating BigInt division. */
module Lagrange {
  import opened Results
  import opened Euclid
  import opened Fractions

  /** A share (x, y). */
  type Point = (int, int)

  /** `shares.slice(0, k)`: the first k shares, or all of them when there
      are fewer; a negative k counts from the end. */
  function Select(shares: seq<Point>, k: int): (pts: seq<Point>)
    ensures pts <= shares
    ensures 0 <= k ==> |pts| == if k < |shares| then k else |shares|
    ensures k < 0 ==> |pts| == if |shares| + k < 0 then 0 else |shares| + k
  {
    if 0 <= k then
      (if k < |shares| then shares[..k] else shares)
    else
      (if |shares| + k < 0 then [] else shares[..|shares| + k])
  }

  /** No two selected shares have the same abscissa. */
  predicate DistinctX(pts: seq<Point>) {
    forall a, b :: 0 <= a < b < |pts| ==> pts[a].0 != pts[b].0
  }

  // ---------------------------------------------------------------------
  // The mathematical value: Lagrange's formula evaluated at 0, over reals.

  /** Π over j < m, j != i, of (0 - x_j) / (x_i - x_j). */
  ghost function Basis(pts: seq<Point>, i: nat, m: nat): real
    requires DistinctX(pts) && i < |pts| && m <= |pts|
  {
    if m == 0 then 1.0
    else if m - 1 == i then Basis(pts, i, m - 1)
    else Basis(pts, i, m - 1) * Q(-pts[m - 1].0, pts[i].0 - pts[m - 1].0)
  }

  /** Σ over t < n of y_t · L_t(0). */
  ghost function PartialSum(pts: seq<Point>, n: nat): real
    requires DistinctX(pts) && n <= |pts|
  {
    if n == 0 then 0.0
    else PartialSum(pts, n - 1) + pts[n - 1].1 as real * Basis(pts, n - 1, |pts|)
  }

  /** The interpolating polynomial's value at 0. */
  ghost function LagrangeValue(pts: seq<Point>): real
    requires DistinctX(pts)
  {
    PartialSum(pts, |pts|)
  }

  // ---------------------------------------------------------------------
  // The integer products the inner loop builds for term i.

  /** y_i · Π over j < m, j != i, of (-x_j). */
  ghost function TermNum(pts: seq<Point>, i: nat, m: nat): int
    requires i < |pts| && m <= |pts|
  {
    if m == 0 then pts[i].1
    else if m - 1 == i then TermNum(pts, i, m - 1)
    else TermNum(pts, i, m - 1) * -pts[m - 1].0
  }

  /** Π over j < m, j != i, of (x_i - x_j). */
  ghost function TermDen(pts: seq<Point>, i: nat, m: nat): int
    requires i < |pts| && m <= |pts|
  {
    if m == 0 then 1
    else if m - 1 == i then TermDen(pts, i, m - 1)
    else TermDen(pts, i, m - 1) * (pts[i].0 - pts[m - 1].0)
  }

  /** With distinct abscissae the integer term is y_i times the basis value. */
  lemma {:induction false} TermIsBasis(pts: seq<Point>, i: nat, m: nat)
    requires DistinctX(pts) && i < |pts| && m <= |pts|
    ensures TermDen(pts, i, m) != 0
    ensures Q(TermNum(pts, i, m), TermDen(pts, i, m)) == pts[i].1 as real * Basis(pts, i, m)
  {
    if m == 0 {
      QChar(pts[i].1, 1, pts[i].1 as real);
    } else {
      TermIsBasis(pts, i, m - 1);
      if m - 1 != i {
        var xi, xj := pts[i].0, pts[m - 1].0;
        if m - 1 < i { assert pts[m - 1].0 != pts[i].0; } else { assert pts[i].0 != pts[m - 1].0; }
        QMul(TermNum(pts, i, m - 1), TermDen(pts, i, m - 1), -xj, xi - xj);
      }
    }
  }

  /** The term denominator is zero exactly when some other selected share
      before position m has the same abscissa as share i. */
  lemma {:induction false} TermDenZero(pts: seq<Point>, i: nat, m: nat)
    requires i < |pts| && m <= |pts|
    ensures TermDen(pts, i, m) == 0 <==> exists j :: 0 <= j < m && j != i && pts[j].0 == pts[i].0
  {
    if m > 0 {
      TermDenZero(pts, i, m - 1);
      if m - 1 != i && pts[m - 1].0 == pts[i].0 {
        assert TermDen(pts, i, m) == 0;
      }
    }
  }

  /** Some share among the first n has its abscissa repeated elsewhere in
      the selection. */
  ghost predicate RepeatedAmongFirst(pts: seq<Point>, n: nat)
    requires n <= |pts|
  {
    exists t, j :: 0 <= t < n && 0 <= j < |pts| && j != t && pts[j].0 == pts[t].0
  }

  // ---------------------------------------------------------------------
  // The program.

  /** solve.js lines 39-48: the numerator and denominator of term i. The denominator
      is zero exactly when another selected share has the same abscissa;
      otherwise the fraction is y_i times the Lagrange basis value at 0. */
  method TermFraction(pts: seq<Point>, i: nat) returns (termNum: int, termDen: int)
    requires i < |pts|
    ensures termDen == 0 <==> exists j :: 0 <= j < |pts| && j != i && pts[j].0 == pts[i].0
    ensures DistinctX(pts) ==> termDen != 0 && Q(termNum, termDen) == pts[i].1 as real * Basis(pts, i, |pts|)
  {
    var xi := pts[i].0;
    termNum, termDen := pts[i].1, 1;
    var j := 0;
    while j < |pts|
      invariant 0 <= j <= |pts|
      invariant termNum == TermNum(pts, i, j) && termDen == TermDen(pts, i, j)
    {
      if i != j {
        var xj := pts[j].0;
        termNum := termNum * -xj;
        termDen := termDen * (xi - xj);
      }
      j := j + 1;
    }
    TermDenZero(pts, i, |pts|);
    if DistinctX(pts) {
      TermIsBasis(pts, i, |pts|);
    }
  }

  /** solve.js lines 50-54 preserve the loop invariant of `LagrangeAtZero`. */
  lemma AccumulateStep(pts: seq<Point>, i: nat, num: int, den: int, termNum: int, termDen: int, num': int, den': int)
    requires i < |pts|
    requires DistinctX(pts) ==> den != 0 && Q(num, den) == PartialSum(pts, i)
    requires RepeatedAmongFirst(pts, i) ==> den == 0
    requires termDen == 0 <==> exists j :: 0 <= j < |pts| && j != i && pts[j].0 == pts[i].0
    requires DistinctX(pts) ==> termDen != 0 && Q(termNum, termDen) == pts[i].1 as real * Basis(pts, i, |pts|)
    requires var sum := AddFrac(num, den, termNum, termDen); Reduce(sum.0, sum.1) == Success((num', den'))
    ensures DistinctX(pts) ==> den' != 0 && Q(num', den') == PartialSum(pts, i + 1) && Gcd(num', den') == 1
    ensures RepeatedAmongFirst(pts, i + 1) ==> den' == 0
  {
    var sum := AddFrac(num, den, termNum, termDen);
    if DistinctX(pts) {
      SumStep(pts, i, num, den, termNum, termDen);
    }
    if RepeatedAmongFirst(pts, i + 1) {
      RepeatExtends(pts, i);
      assert sum.1 == 0;
    }
  }

  /** With distinct abscissae, adding term i to the partial sum of the
      first i terms gives the partial sum of the first i+1. */
  lemma SumStep(pts: seq<Point>, i: nat, num: int, den: int, termNum: int, termDen: int)
    requires i < |pts| && DistinctX(pts)
    requires den != 0 && Q(num, den) == PartialSum(pts, i)
    requires termDen != 0 && Q(termNum, termDen) == pts[i].1 as real * Basis(pts, i, |pts|)
    ensures var sum := AddFrac(num, den, termNum, termDen); sum.1 != 0 && Q(sum.0, sum.1) == PartialSum(pts, i + 1)
  {
  }

  /** A repeat among the first i+1 shares is a repeat among the first i or
      a repeat of share i. */
  lemma RepeatExtends(pts: seq<Point>, i: nat)
    requires i < |pts| && RepeatedAmongFirst(pts, i + 1)
    ensures RepeatedAmongFirst(pts, i) || exists j :: 0 <= j < |pts| && j != i && pts[j].0 == pts[i].0
  {
  }

  /** A zero gcd in solve.js lines 52-54 can only come from a repeated abscissa. */
  lemma ReduceFailsOnlyOnRepeat(pts: seq<Point>, i: nat, num: int, den: int, termNum: int, termDen: int)
    requires i < |pts|
    requires DistinctX(pts) ==> den != 0
    requires DistinctX(pts) ==> termDen != 0
    requires var sum := AddFrac(num, den, termNum, termDen); Reduce(sum.0, sum.1).Failure?
    ensures !DistinctX(pts)
  {
  }

  /** solve.js lines 33-59. Fails exactly when two selected shares have the same
      abscissa, always on the zero gcd of line 53; otherwise returns the exact value at 0 rounded toward zero,
      which is the exact value itself whenever that is an integer. */
  method LagrangeAtZero(shares: seq<Point>, k: int) returns (r: Result<int>)
    ensures r.Failure? <==> !DistinctX(Select(shares, k))
    ensures r.Failure? ==> r.error == DivisionByZero
    ensures r.Success? ==> r.value == TruncReal(LagrangeValue(Select(shares, k)))
    ensures r.Success? && IsInteger(LagrangeValue(Select(shares, k))) ==>
      r.value as real == LagrangeValue(Select(shares, k))
  {
    var pts := Select(shares, k);
    var num, den := 0, 1;
    QChar(0, 1, 0.0);
    var i := 0;
    while i < |pts|
      invariant 0 <= i <= |pts|
      invariant DistinctX(pts) ==> den != 0 && Q(num, den) == PartialSum(pts, i)
      invariant RepeatedAmongFirst(pts, i) ==> den == 0
      invariant den != 0 ==> Gcd(num, den) == 1
      invariant den == 0 ==> RepeatedAmongFirst(pts, i) && DistinctX(pts[..i]) && num != 0
    {
      var termNum, termDen := TermFraction(pts, i);
      var sum := AddFrac(num, den, termNum, termDen);
      var reduced := Reduce(sum.0, sum.1);
      if reduced.Failure? {
        ReduceFailsOnlyOnRepeat(pts, i, num, den, termNum, termDen);
        return Failure(reduced.error);
      }
      AccumulateStep(pts, i, num, den, termNum, termDen, reduced.value.0, reduced.value.1);
      num, den := reduced.value.0, reduced.value.1;
      i := i + 1;
    }
    // solve.js line 57: with the last invariant at i = |pts|, den is never 0 here.
    assert pts[..|pts|] == pts;
    if den == 0 {
      return Failure(ZeroDenominator);
    }
    assert !RepeatedAmongFirst(pts, |pts|);
    r := Success(TruncDiv(num, den));
    if IsInteger(LagrangeValue(pts)) {
      TruncOfInteger(LagrangeValue(pts));
    }
  }

  // ---------------------------------------------------------------------
  // Properties and worked examples.

  /** Shares after the first k never reach the computation. */
  lemma LaterSharesIgnored(shares: seq<Point>, extra: seq<Point>, k: int)
    requires 0 <= k <= |shares|
    ensures Select(shares + extra, k) == Select(shares, k)
  {
  }

  /** With a single share the value at 0 is its ordinate. */
  lemma SingleShare(p: Point)
    ensures LagrangeValue([p]) == p.1 as real
  {
    assert Basis([p], 0, 1) == 1.0;
    assert PartialSum([p], 1) == PartialSum([p], 0) + p.1 as real * Basis([p], 0, 1);
  }

  /** The line y = 4x + 1 through (1, 5) and (2, 9) meets x = 0 at 1. */
  lemma LineExample()
    ensures LagrangeValue([(1, 5), (2, 9)]) == 1.0
    ensures TruncReal(LagrangeValue([(1, 5), (2, 9)])) == 1
  {
  }

  /** The parabola y = x² + 2x + 3 through (1, 6), (2, 11) and (3, 18)
      meets x = 0 at 3. */
  lemma QuadraticExample()
    ensures LagrangeValue([(1, 6), (2, 11), (3, 18)]) == 3.0
  {
  }

  /** Shares that no integer polynomial of degree 1 passes through: the
      exact value is 1/2 or -1/2, and the result is rounded toward zero to 0
      in both cases, not rejected and not floored. */
  lemma NonIntegerExamples()
    ensures LagrangeValue([(1, 1), (3, 2)]) == 0.5
    ensures TruncReal(LagrangeValue([(1, 1), (3, 2)])) == 0
    ensures LagrangeValue([(1, -1), (3, -2)]) == -0.5
    ensures TruncReal(LagrangeValue([(1, -1), (3, -2)])) == 0
  {
  }

  /** Two selected shares at x = 2: the call fails. */
  lemma DuplicateExample()
    ensures !DistinctX(Select([(2, 7), (2, 11)], 2))
  {
    var pts := Select([(2, 7), (2, 11)], 2);
    assert pts == [(2, 7), (2, 11)];
    assert pts[0].0 == pts[1].0;
  }

  /** The call itself on the line through (1, 5) and (2, 9) returns 1. */
  method LineCall() returns (r: Result<int>)
    ensures r == Success(1)
  {
    LineExample();
    r := LagrangeAtZero([(1, 5), (2, 9)], 2);
  }

  /** The call itself on two shares at x = 2 fails. */
  method DuplicateCall() returns (r: Result<int>)
    ensures r.Failure?
  {
    DuplicateExample();
    r := LagrangeAtZero([(2, 7), (2, 11)], 2);
  }
}
