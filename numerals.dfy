/**
 * Decimal numerals: how an integer is written by an output stream
 * (operator<< on std::stringstream) and how std::stoul reads an unsigned
 * integer back.
 */
module Numerals {
  import opened Results

  /** ULONG_MAX + 1 on the LP64 platforms the project targets. */
  const ULongModulus: nat := 0x1_0000_0000_0000_0000

  predicate IsDigit(c: char) {
    '0' <= c <= '9'
  }

  function DigitChar(d: nat): (c: char)
    requires d < 10
    ensures IsDigit(c)
  {
    "0123456789"[d]
  }

  function DigitValue(c: char): (d: nat)
    requires IsDigit(c)
    ensures d < 10 && DigitChar(d) == c
  {
    (c as int - '0' as int) as nat
  }

  predicate AllDigits(s: string) {
    forall k :: 0 <= k < |s| ==> IsDigit(s[k])
  }

  /** The decimal form of a natural number, most significant digit first,
      without leading zeros. */
  function Decimal(n: nat): (s: string)
    ensures |s| >= 1 && AllDigits(s)
    ensures s[0] == '0' ==> n == 0
  {
    if n < 10 then [DigitChar(n)] else Decimal(n / 10) + [DigitChar(n % 10)]
  }

  /** The decimal form of a signed integer, as operator<< writes it. */
  function SignedDecimal(i: int): (s: string)
    ensures |s| >= 1 && (forall k :: 0 <= k < |s| ==> IsDigit(s[k]) || s[k] == '-')
    ensures s[0] == '-' <==> i < 0
  {
    if i < 0 then "-" + Decimal(-i) else Decimal(i)
  }

  /** The value of a string of decimal digits. */
  function DigitsValue(s: string): nat
    requires AllDigits(s)
  {
    if s == [] then 0 else DigitsValue(s[..|s| - 1]) * 10 + DigitValue(s[|s| - 1])
  }

  lemma {:induction false} DecimalRoundTrip(n: nat)
    ensures DigitsValue(Decimal(n)) == n
  {
    if n >= 10 {
      DecimalRoundTrip(n / 10);
      var s := Decimal(n);
      assert s[..|s| - 1] == Decimal(n / 10);
    }
  }

  lemma {:induction false} SignedDecimalInjective(i: int, j: int)
    requires SignedDecimal(i) == SignedDecimal(j)
    ensures i == j
  {
    DecimalRoundTrip(if i < 0 then -i else i);
    DecimalRoundTrip(if j < 0 then -j else j);
    if i < 0 && j < 0 {
      assert Decimal(-i) == SignedDecimal(i)[1..];
    }
  }

  /** The characters std::isspace accepts in the "C" locale. */
  predicate IsSpace(c: char) {
    c == ' ' || c == '\t' || c == '\n' || c == '\U{B}' || c == '\U{C}' || c == '\r'
  }

  /** The length of the longest run of characters at the front of `s` that satisfy `p`. */
  function LeadingRun(s: string, p: char -> bool): (n: nat)
    ensures n <= |s|
    ensures forall k :: 0 <= k < n ==> p(s[k])
    ensures n < |s| ==> !p(s[n])
  {
    if s == [] || !p(s[0]) then 0 else 1 + LeadingRun(s[1..], p)
  }

  /** The exceptions std::stoul throws. */
  datatype StoulError = InvalidArgument | OutOfRange

  /** The run of digits at the front of `s` as an unsigned long: no digit
      throws invalid_argument, a value above ULONG_MAX throws out_of_range,
      and whatever follows the run is ignored. */
  function ReadMagnitude(s: string): (r: Result<nat, StoulError>)
    ensures r.Success? ==> r.value < ULongModulus
  {
    var digits := s[..LeadingRun(s, IsDigit)];
    if digits == [] then Failure(InvalidArgument)
    else if DigitsValue(digits) >= ULongModulus then Failure(OutOfRange)
    else Success(DigitsValue(digits))
  }

  /**
   * std::stoul(text) in base 10: leading white space is skipped, one optional
   * '+' or '-' sign is read, then the longest run of digits; whatever follows
   * is ignored. No digit at all throws invalid_argument, a magnitude above
   * ULONG_MAX throws out_of_range, and a '-' sign negates the magnitude
   * modulo 2^64 (strtoul's unsigned negation).
   */
  function Stoul(text: string): (r: Result<nat, StoulError>)
    ensures r.Success? ==> r.value < ULongModulus
  {
    var rest := text[LeadingRun(text, IsSpace)..];
    if |rest| > 0 && rest[0] == '-' then
      match ReadMagnitude(rest[1..])
      case Success(magnitude) => Success((ULongModulus - magnitude) % ULongModulus)
      case Failure(e) => Failure(e)
    else if |rest| > 0 && rest[0] == '+' then ReadMagnitude(rest[1..])
    else ReadMagnitude(rest)
  }

  lemma {:induction false} DigitsPrefix(digits: string, tail: string)
    requires AllDigits(digits)
    requires tail == [] || !IsDigit(tail[0])
    ensures LeadingRun(digits + tail, IsDigit) == |digits|
  {
    if digits != [] {
      assert (digits + tail)[1..] == digits[1..] + tail;
      DigitsPrefix(digits[1..], tail);
    } else {
      assert digits + tail == tail;
    }
  }

  /** A run of digits followed by no further digit is read whole. */
  lemma ReadsDigitRun(digits: string, tail: string)
    requires digits != [] && AllDigits(digits)
    requires tail == [] || !IsDigit(tail[0])
    ensures ReadMagnitude(digits + tail)
      == if DigitsValue(digits) >= ULongModulus then Failure(OutOfRange) else Success(DigitsValue(digits))
  {
    DigitsPrefix(digits, tail);
    assert (digits + tail)[..|digits|] == digits;
  }

  /** A text that starts with a digit is read from its first character. */
  lemma StoulFromDigit(text: string)
    requires text != [] && IsDigit(text[0])
    ensures Stoul(text) == ReadMagnitude(text)
  {
    assert !IsSpace(text[0]);
    assert text[LeadingRun(text, IsSpace)..] == text;
  }

  /** stoul reads back what Decimal writes, for every value an unsigned long holds. */
  lemma StoulReadsDecimal(n: nat, tail: string)
    requires n < ULongModulus
    requires tail == [] || !IsDigit(tail[0])
    ensures Stoul(Decimal(n) + tail) == Success(n)
  {
    StoulFromDigit(Decimal(n) + tail);
    ReadsDigitRun(Decimal(n), tail);
    DecimalRoundTrip(n);
  }

  /** A text that does not start (after white space and a sign) with a digit is rejected. */
  lemma StoulRejectsNonNumeric(text: string)
    requires text != [] && !IsDigit(text[0]) && !IsSpace(text[0]) && text[0] != '+' && text[0] != '-'
    ensures Stoul(text) == Failure(InvalidArgument)
  {
  }

  /** A magnitude above ULONG_MAX throws out_of_range. */
  lemma StoulOutOfRange(digits: string, tail: string)
    requires digits != [] && AllDigits(digits) && DigitsValue(digits) >= ULongModulus
    requires tail == [] || !IsDigit(tail[0])
    ensures Stoul(digits + tail) == Failure(OutOfRange)
  {
    StoulFromDigit(digits + tail);
    ReadsDigitRun(digits, tail);
  }

  /** A text that starts with '-' is read as the negated magnitude of what
      follows the sign. */
  lemma StoulMinus(text: string)
    requires text != [] && text[0] == '-'
    ensures ReadMagnitude(text[1..]).Failure? ==> Stoul(text) == ReadMagnitude(text[1..])
    ensures ReadMagnitude(text[1..]).Success? ==>
      Stoul(text) == Success((ULongModulus - ReadMagnitude(text[1..]).value) % ULongModulus)
  {
    assert !IsSpace(text[0]);
    assert text[LeadingRun(text, IsSpace)..] == text;
  }

  /** A '-' sign negates the magnitude modulo 2^64: a non-zero magnitude m
      reads as 2^64 - m. */
  lemma StoulNegates(text: string, m: nat)
    requires text != [] && text[0] == '-'
    requires ReadMagnitude(text[1..]) == Success(m) && 0 < m
    ensures Stoul(text) == Success(ULongModulus - m)
  {
    StoulMinus(text);
    BelowModulusIsOwnRemainder(ULongModulus - m);
  }

  /** "-1" reads as ULONG_MAX. */
  lemma MinusOneIsULongMax()
    ensures Stoul("-1") == Success(ULongModulus - 1)
  {
    ReadsDigitRun("1", []);
    assert "-1"[1..] == "1" + [];
    StoulNegates("-1", 1);
  }

  lemma BelowModulusIsOwnRemainder(x: nat)
    requires x < ULongModulus
    ensures x % ULongModulus == x
  {
  }

  /** Leading white space is skipped. */
  lemma StoulSkipsSpace(text: string)
    requires text != [] && IsSpace(text[0])
    ensures Stoul(text) == Stoul(text[1..])
  {
    var n := LeadingRun(text, IsSpace);
    assert n == 1 + LeadingRun(text[1..], IsSpace);
    assert text[n..] == text[1..][n - 1..];
  }
}
