/** Failure values of the interpolation core. The program reports every
    failure by throwing; here each throw site becomes one `Error` tag and a
    call either succeeds with a value or fails with the tag of the first throw
    it reaches. Message texts are not modelled. */
module Results {

  datatype Error =
    | InvalidCharacter(c: char)        // a character outside 0-9a-z (lowercased as far as modelled)
    | InvalidDigit(c: char, base: int) // a digit whose value is not below the base
    | DivisionByZero                   // BigInt division by a zero gcd
    | ZeroDenominator                  // the final denominator-zero check; no input reaches it

  datatype Result<+T> = Success(value: T) | Failure(error: Error) {

    predicate IsFailure() {
      Failure?
    }

    function PropagateFailure<U>(): Result<U>
      requires Failure?
    {
      Failure(error)
    }

    function Extract(): T
      requires Success?
    {
      value
    }
  }
}
