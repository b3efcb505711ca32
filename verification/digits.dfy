/** `toBigInt(value, base)`: a digit string in base 2..36 read as an
    unbounded non-negative integer. The string is lowercased, each character
    is looked up in the alphabet 0-9a-z, and the digits are folded left to
    right as `result * base + digit`, starting from 0. */
module Digits {
  import opened Results

  const Alphabet: string := "0123456789abcdefghijklmnopqrstuvwxyz"

  /** The character at position `i` of the alphabet. */
  function AlphabetChar(i: nat): char
    requires i < 36
  {
    if i < 10 then ('0' as int + i) as char else ('a' as int + i - 10) as char
  }

  lemma AlphabetLayout()
    ensures |Alphabet| == 36
    ensures forall i :: 0 <= i < 36 ==> Alphabet[i] == AlphabetChar(i)
  {
  }

  /** Lowercasing of one character, as far as it can matter here: the ASCII
      capitals, and the Kelvin sign U+212A, whose lowercase is ASCII 'k'.
      Every other character is left alone; the non-ASCII ones are outside
      the alphabet whether lowercased or not. */
  function Lower(c: char): (l: char)
    ensures 'A' <= c <= 'Z' ==> l as int == c as int + 32
    ensures c == '\U{212A}' ==> l == 'k'
    ensures !('A' <= c <= 'Z') && c != '\U{212A}' ==> l == c
    ensures !('A' <= l <= 'Z') && l != '\U{212A}'
  {
    if 'A' <= c <= 'Z' then (c as int - 'A' as int + 'a' as int) as char
    else if c == '\U{212A}' then 'k'
    else c
  }

  lemma LowerIdempotent(c: char)
    ensures Lower(Lower(c)) == Lower(c)
  {
  }

  /** `toLowerCase` on a whole string: each capital becomes its lowercase
      letter, no capital is left behind, and every other character stays
      where it is. */
  function LowerString(s: string): (t: string)
    ensures |t| == |s|
    ensures forall i :: 0 <= i < |s| && 'A' <= s[i] <= 'Z' ==> t[i] as int == s[i] as int + 32
    ensures forall i :: 0 <= i < |s| && s[i] == '\U{212A}' ==> t[i] == 'k'
    ensures forall i :: 0 <= i < |t| ==> !('A' <= t[i] <= 'Z') && t[i] != '\U{212A}'
    ensures forall i :: 0 <= i < |s| && !('A' <= s[i] <= 'Z') && s[i] != '\U{212A}' ==> t[i] == s[i]
  {
    seq(|s|, i requires 0 <= i < |s| => Lower(s[i]))
  }

  /** Where a character was found in the alphabet, if anywhere. */
  datatype Lookup = Absent | At(index: nat)

  /** `chars.indexOf(c)`: the position of `c` in the alphabet, if it occurs. */
  function DigitValue(c: char): (v: Lookup)
    ensures v.At? ==> v.index < |Alphabet| && Alphabet[v.index] == c
    ensures v.Absent? ==> forall i :: 0 <= i < |Alphabet| ==> Alphabet[i] != c
  {
    AlphabetLayout();
    if '0' <= c <= '9' then At(c as int - '0' as int)
    else if 'a' <= c <= 'z' then At(c as int - 'a' as int + 10)
    else Absent
  }

  /** `c` is accepted in base `base`: after lowercasing it is in the
      alphabet and its value is below the base. */
  predicate IsDigit(c: char, base: int) {
    DigitValue(Lower(c)).At? && DigitValue(Lower(c)).index < base
  }

  predicate AllDigits(s: string, base: int) {
    forall i :: 0 <= i < |s| ==> IsDigit(s[i], base)
  }

  function Digit(c: char, base: int): nat
    requires IsDigit(c, base)
  {
    DigitValue(Lower(c)).index
  }

  function Pow(b: nat, e: nat): nat {
    if e == 0 then 1 else b * Pow(b, e - 1)
  }

  /** The positional value of a digit string: the digit at position i
      weighs base^(|s|-1-i). */
  ghost function Positional(s: string, base: int): nat
    requires 2 <= base && AllDigits(s, base)
  {
    if |s| == 0 then 0 else Digit(s[0], base) * Pow(base, |s| - 1) + Positional(s[1..], base)
  }

  /** The error `toBigInt` throws on a rejected character: an unknown
      character when its lowercase is not in the alphabet, and otherwise a
      digit too large for the base. */
  function Rejection(c: char, base: int): (e: Error)
    requires !IsDigit(c, base)
    ensures e.InvalidCharacter? <==> forall i :: 0 <= i < |Alphabet| ==> Alphabet[i] != Lower(c)
    ensures e.InvalidCharacter? ==> e.c == Lower(c)
    ensures e.InvalidDigit? ==> e.c == Lower(c) && e.base == base
    ensures e.InvalidDigit? ==> exists v :: 0 <= v < |Alphabet| && base <= v && Alphabet[v] == e.c
  {
    if DigitValue(Lower(c)).Absent? then InvalidCharacter(Lower(c)) else InvalidDigit(Lower(c), base)
  }

  /** One step of the decoding loop for a character `c`, already lowercased:
      reject it, or fold its value into `acc`. */
  function Extend(acc: nat, c: char, base: int): Result<nat> {
    match DigitValue(c)
    case Absent => Failure(InvalidCharacter(c))
    case At(v) =>
      if v >= base then Failure(InvalidDigit(c, base)) else Success(acc * base + v)
  }

  /** solve.js lines 4-19. The empty string is read as 0. The call succeeds exactly
      when every character is a digit of the base, and then returns the
      positional value, which is below base^|value|. */
  function ToBigInt(value: string, base: int): (r: Result<nat>)
    requires 2 <= base <= 36
    ensures r.Success? <==> AllDigits(value, base)
    ensures r.Success? ==> r.value == Positional(value, base)
    ensures r.Success? ==> r.value < Pow(base, |value|)
    ensures |value| == 0 ==> r == Success(0)
    decreases |value|
  {
    if |value| == 0 then Success(0)
    else
      var init, last := value[..|value| - 1], value[|value| - 1];
      assert value == init + [last];
      var acc :- ToBigInt(init, base);
      var r := Extend(acc, Lower(last), base);
      if r.Success? then
        PositionalSnoc(init, last, base);
        DigitStep(acc, DigitValue(Lower(last)).index, base, |init|);
        r
      else r
  }

  /** Appending a digit multiplies the value by the base and adds the digit. */
  lemma {:induction false} PositionalSnoc(s: string, c: char, base: int)
    requires 2 <= base && AllDigits(s, base) && IsDigit(c, base)
    ensures AllDigits(s + [c], base)
    ensures Positional(s + [c], base) == Positional(s, base) * base + Digit(c, base)
    decreases |s|
  {
    if |s| > 0 {
      var t := s + [c];
      assert t[1..] == s[1..] + [c];
      PositionalSnoc(s[1..], c, base);
      var d, p, w := Digit(s[0], base), Positional(s[1..], base), Pow(base, |s| - 1);
      assert t[0] == s[0];
      assert Positional(t, base) == d * Pow(base, |s|) + (p * base + Digit(c, base));
      assert Positional(s, base) == d * w + p;
      assert Pow(base, |s|) == base * w;
      Distribute(d, w, p, base);
    }
  }

  lemma Distribute(d: int, w: int, p: int, b: int)
    ensures d * (b * w) + p * b == (d * w + p) * b
  {
  }

  lemma DigitStep(acc: nat, v: nat, base: nat, n: nat)
    requires acc < Pow(base, n) && v < base
    ensures acc * base + v < Pow(base, n + 1)
  {
    assert acc * base <= (Pow(base, n) - 1) * base;
  }

  /** A failed call reports the first rejected character (lowercased), as
      an unknown character when it is outside the alphabet and as a digit
      too large for the base otherwise. */
  lemma {:induction false} FailureNamesFirstRejected(value: string, base: int)
    requires 2 <= base <= 36
    ensures ToBigInt(value, base).Failure? ==>
      exists i :: 0 <= i < |value| && !IsDigit(value[i], base)
        && (forall j :: 0 <= j < i ==> IsDigit(value[j], base))
        && ToBigInt(value, base).error == Rejection(value[i], base)
    decreases |value|
  {
    if |value| > 0 && ToBigInt(value, base).Failure? {
      var init := value[..|value| - 1];
      FailureNamesFirstRejected(init, base);
      if ToBigInt(init, base).Failure? {
        var i :| 0 <= i < |init| && !IsDigit(init[i], base)
          && (forall j :: 0 <= j < i ==> IsDigit(init[j], base))
          && ToBigInt(init, base).error == Rejection(init[i], base);
        assert value[i] == init[i];
        assert forall j :: 0 <= j < i ==> value[j] == init[j];
      } else {
        var i := |value| - 1;
        assert forall j :: 0 <= j < i ==> value[j] == init[j];
        assert !IsDigit(value[i], base);
      }
    }
  }

  /** `toBigInt` lowercases its input first, so lowercasing beforehand
      changes nothing: the decoder is case-insensitive. */
  lemma {:induction false} CaseInsensitive(value: string, base: int)
    requires 2 <= base <= 36
    ensures ToBigInt(LowerString(value), base) == ToBigInt(value, base)
    decreases |value|
  {
    if |value| > 0 {
      var lowered := LowerString(value);
      var init := value[..|value| - 1];
      assert lowered[..|lowered| - 1] == LowerString(init);
      CaseInsensitive(init, base);
      LowerIdempotent(value[|value| - 1]);
      SameStep(lowered, value, base);
    }
  }

  /** A non-empty decode is fixed by the decode of all but the last
      character and by the lowercase of the last. */
  lemma SameStep(a: string, b: string, base: int)
    requires 2 <= base <= 36 && |a| == |b| > 0
    requires ToBigInt(a[..|a| - 1], base) == ToBigInt(b[..|b| - 1], base)
    requires Lower(a[|a| - 1]) == Lower(b[|b| - 1])
    ensures ToBigInt(a, base) == ToBigInt(b, base)
  {
  }

  /** Worked examples: hexadecimal, upper case, binary and base 36. */
  lemma HexExample()
    ensures ToBigInt("ff", 16) == Success(255)
    ensures ToBigInt("FF", 16) == Success(255)
  {
  }

  lemma BinaryExample()
    ensures ToBigInt("1010", 2) == Success(10)
  {
  }

  lemma Base36Example()
    ensures ToBigInt("z", 36) == Success(35)
  {
  }

  /** The Kelvin sign lowercases to 'k', which is the digit 20 in base 36. */
  lemma KelvinSignExample()
    ensures ToBigInt("\U{212A}", 36) == Success(20)
  {
  }

  /** Worked rejections: a digit too large for the base, and a character
      outside the alphabet. */
  lemma RejectionExamples()
    ensures ToBigInt("g", 16) == Failure(InvalidDigit('g', 16))
    ensures ToBigInt("1.5", 10) == Failure(InvalidCharacter('.'))
  {
  }
}
