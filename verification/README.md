# Exact Lagrange interpolation at zero — a Dafny model of `solve.js`

`solve.js` recovers the secret of a threshold secret-sharing scheme. It
decodes each share's y-value from a digit string in base 2..36 into a BigInt.
Then it evaluates, at x = 0, the polynomial through the first k shares using
Lagrange's formula. The arithmetic is exact: a running fraction `num/den` of
BigInts, cut down by the gcd after every term, and finished with one BigInt
division.

This project models three functions: `toBigInt`, `gcd` and `lagrangeAtZero`.
Each BigInt is a Dafny `int`. A thrown error becomes a `Failure` tag of
`Results.Result`, and there is one tag per throw site.

- `results.dfy`: module `Results` holds the failure tags and the result type.
- `digits.dfy`: module `Digits` is `toBigInt`. It is a left fold over the
  string. `Positional` is an independent reference: the sum of digit × base^position.
- `euclid.dfy`: module `Euclid` defines divisibility, `gcd` as Euclid's
  recursion on absolute values, and its divisibility properties.
- `fractions.dfy`: module `Fractions` covers the accumulator arithmetic.
  `Q(n, d)` is the real value of a pair. `AddFrac` is the cross-multiplied
  sum. `Reduce` is the gcd reduction. `TruncDiv` is BigInt `/`, which
  truncates toward zero, unlike Dafny's Euclidean `/`.
- `lagrange.dfy`: module `Lagrange` states Lagrange's formula at 0 over the
  reals (`Basis`, `PartialSum`, `LagrangeValue`). It models the program's
  loops as methods. Their invariants tie `num/den` to the partial sum of
  the terms handled so far.

The main result is the contract of `Lagrange.LagrangeAtZero`. The call fails
exactly when two selected shares have the same x. Otherwise it returns the
exact value at 0, rounded toward zero. That is the exact value whenever the
exact value is an integer.

### Behaviour worth knowing

- An empty digit string decodes to 0.
- The accumulator's denominator keeps its sign. `Reduce(-2, -4)` gives
  `-1/-2` (`Fractions.NegativeDenominatorKept`).
- A non-integer final value is not reported. The final BigInt division
  rounds it toward zero: 1/2 and -1/2 both give 0 (`Lagrange.NonIntegerExamples`).
- Repeated abscissae are not detected when a term is built. The first
  share of a repeated pair makes the denominator 0. If its term numerator
  is 0 as well (its y is 0, or another selected share has x = 0), the call
  fails at that step. Otherwise the numerator becomes ±1, and the partner
  later produces 0/0. Either way the call fails on the BigInt division by
  a zero gcd (`DivisionByZero`, solve.js:53). The final zero-denominator
  check at solve.js:57 is never reached: after the loop the denominator is
  never 0.
- The threshold k is not clamped or checked. A k larger than the number of
  shares silently uses all shares. A negative k drops shares from the end,
  because that is what `slice(0, k)` does.

## Model

| member | source | states |
|---|---|---|
| `Digits.ToBigInt` | solve.js:4-19 | decoding succeeds exactly when every character, lowercased, is in 0-9a-z with a value below the base; the result is then the positional value Σ digit·base^position and is below base^length; the empty string gives 0 |
| `Digits.PositionalSnoc` | solve.js:16 | the fold step `result*base + v` agrees with positional notation: appending a digit multiplies the value by the base and adds the digit |
| `Digits.FailureNamesFirstRejected` | solve.js:9-15 | a failed decode reports the first rejected character, as an unknown character when it is outside the alphabet and as a too-large digit otherwise |
| `Digits.CaseInsensitive` | solve.js:5 | decoding a lowercased string gives the same result, success or failure, as decoding the original |
| `Digits.Lower` | solve.js:5 | lowercasing maps the ASCII capitals to their lowercase letters and the Kelvin sign U+212A to 'k', leaves every other character alone, and leaves no ASCII capital or Kelvin sign behind |
| `Digits.LowerString` | solve.js:5 | the lowercased string has the same length; each ASCII capital becomes its lowercase letter and each Kelvin sign U+212A becomes 'k', at the same position; no capital or Kelvin sign is left, and every other character stays in place |
| `Digits.Rejection` | solve.js:10-15 | a rejected character is reported as an unknown character exactly when its lowercase is not in the alphabet, and otherwise as a digit whose alphabet position is at least the base; the report names the character as `Digits.Lower` lowercases it |
| `Digits.KelvinSignExample` | solve.js:5-16 | the Kelvin sign U+212A lowercases to 'k' and decodes to 20 in base 36 |
| `Digits.DigitValue` | solve.js:6-10 | the digit value of a character is its position in the alphabet `0123456789abcdefghijklmnopqrstuvwxyz`, and there is none for a character not in it |
| `Digits.HexExample` | solve.js:4-19 | "ff" and "FF" in base 16 decode to 255 |
| `Digits.BinaryExample` | solve.js:4-19 | "1010" in base 2 decodes to 10 |
| `Digits.Base36Example` | solve.js:4-19 | "z" in base 36 decodes to 35 |
| `Digits.RejectionExamples` | solve.js:10-15 | "g" in base 16 fails as a too-large digit; "1.5" fails on the unknown character '.' |
| `Euclid.Gcd` | solve.js:22-31 | the result is non-negative and divides both arguments, every common divisor divides it, it is 0 exactly when both arguments are 0, and gcd(a, 0) = abs(a) |
| `Euclid.EuclidStep` | solve.js:25-29 | replacing (a, b) by (b, a mod b) keeps the set of common divisors |
| `Euclid.AbsDivisors` | solve.js:23-24 | taking absolute values does not change the divisors; abs(n) divides n |
| `Euclid.GcdIsGreatest` | solve.js:22-31 | no common divisor of two numbers that are not both 0 exceeds their gcd |
| `Fractions.AddFrac` | solve.js:50-51 | the cross-multiplied sum has the value of the sum of the two fractions, and its denominator is 0 exactly when one of the two denominators is |
| `Fractions.Reduce` | solve.js:52-54 | dividing by the gcd fails exactly when both parts are 0; otherwise both parts are divided exactly by the gcd, the value is unchanged, the denominator's sign and zeroness are kept, and a non-zero denominator leaves the pair in lowest terms |
| `Fractions.LowestTerms` | solve.js:52-54 | after division by their gcd, numerator and denominator have gcd 1 |
| `Fractions.NegativeDenominatorKept` | solve.js:52-54 | -2/-4 reduces to -1/-2: the sign is not moved to the numerator |
| `Fractions.TruncDiv` | solve.js:58 | BigInt division is the real quotient rounded toward zero, and it is exact when the divisor divides the dividend |
| `Lagrange.Select` | solve.js:34 | the selected shares are a prefix of the shares: min(k, n) of them for k ≥ 0, and n + k of them (at least 0) for negative k |
| `Lagrange.LaterSharesIgnored` | solve.js:34 | shares after the first k never reach the computation |
| `Lagrange.TermFraction` | solve.js:39-48 | the term's denominator is 0 exactly when another selected share has the same x; with distinct x's, the term is y_i · Π_{j≠i} (−x_j)/(x_i − x_j) |
| `Lagrange.TermIsBasis` | solve.js:40-48 | with distinct x's, the integer products built by the inner loop have the value y_i times the Lagrange basis value at 0 |
| `Lagrange.TermDenZero` | solve.js:43-48 | the product of differences is 0 exactly when some other share has the same x |
| `Lagrange.SumStep` | solve.js:50-51 | adding term i to a fraction worth the sum of the first i terms gives a fraction worth the sum of the first i+1 terms |
| `Lagrange.AccumulateStep` | solve.js:50-54 | one iteration keeps the invariant: with distinct x's, `den ≠ 0`, `num/den` equals the partial Lagrange sum, and gcd(num, den) = 1; after a repeated x, `den` is 0 |
| `Lagrange.ReduceFailsOnlyOnRepeat` | solve.js:52-53 | a zero gcd (division by zero) can only happen when two selected shares have the same x |
| `Lagrange.LagrangeAtZero` | solve.js:33-59 | fails exactly when two selected shares share an x, and then always with the division by a zero gcd at line 53, never at the zero-denominator check of line 57; otherwise returns the exact Lagrange value at 0 rounded toward zero, which is the exact value when that is an integer |
| `Lagrange.SingleShare` | solve.js:38-55 | with one share the value at 0 is its y |
| `Lagrange.LineExample` | solve.js:33-59 | (1, 5), (2, 9): the value at 0 is 1, and it truncates to 1 |
| `Lagrange.LineCall` | solve.js:33-59 | the call on (1, 5), (2, 9) with k = 2 returns 1 |
| `Lagrange.DuplicateCall` | solve.js:43-57 | the call on (2, 7), (2, 11) with k = 2 fails |
| `Lagrange.QuadraticExample` | solve.js:33-59 | (1, 6), (2, 11), (3, 18): the value at 0 is 3 |
| `Lagrange.NonIntegerExamples` | solve.js:58 | (1, 1), (3, 2) has exact value 1/2 and (1, −1), (3, −2) has −1/2; both are rounded toward zero to 0 |
| `Lagrange.DuplicateExample` | solve.js:43-57 | (2, 7), (2, 11) with k = 2 repeat an x, so the call fails |

## Left out

- `processFile` (solve.js:61-86) is left out. It covers file reading, JSON
  parsing, labels converted with `BigInt(key)`, bases with `parseInt`, and
  console output. These are I/O and library parsing with no arithmetic of
  their own.
- The command-line loop over file names and its existence check
  (solve.js:89-100) is left out; it is I/O.
- Error message texts are left out. Only the kind of failure is kept, plus
  the character a decoding error names.
- Order invariance is not proved. Permuting the selected shares does not
  change the exact value, since the sum commutes. The gcd-reduced
  intermediate fractions, however, depend on the order.
- Interpolation is not proved. `LagrangeValue` is Lagrange's formula itself.
  That it equals p(0) for every polynomial p of degree below k through the
  shares is a theorem the model does not prove.
- `Digits.ToBigInt`: requires 2 ≤ base ≤ 36. The source never checks the
  base. Other bases, and a `NaN` base from `parseInt`, are not modelled.
- `Digits.Lower`: `toLowerCase` is modelled one character at a time. It
  covers the ASCII capitals and the Kelvin sign U+212A, the only characters
  whose lowercase is in the alphabet 0-9a-z. Every other character is kept
  as it is. It is rejected either way, because neither it nor its lowercase
  is in the alphabet. U+0130 is the exception: JavaScript lowercases it to
  the two characters "i" and U+0307. The source may then report a too-large
  'i' where the model reports the unknown U+0130.
- `Digits.FailureNamesFirstRejected`, `Digits.Rejection`: the character
  named in the error is lowercased only for ASCII capitals and the Kelvin
  sign. For any other character with a lowercase form, such as 'À', the
  source names the lowercase ('à') and the model names the character as
  written. The kind and position of the rejection are the same, except
  for U+0130 (see `Digits.Lower`).
- `Lagrange.LagrangeAtZero`: k is an unbounded integer. A JavaScript
  number k that is fractional, `NaN` or infinite is not modelled. Shares
  whose coordinates are not BigInts are not modelled either; mixing types
  throws `TypeError` in the source.
