/** The stateless checks the item applies to its identifiers and currency:
    the ISNI format, the ISBN-10 format and weighted mod-11 checksum, and the
    three-letter currency code. */
module Validators {
  import opened CharClasses
  import opened Results

  const IsniLength := 16
  const IsbnLength := 10
  const CurrencyLength := 3

  /** A character an ISBN or an ISNI may hold: a digit or a capital `X`,
      wherever it stands. */
  predicate IsIdentifierChar(c: char) {
    c == 'X' || IsDigit(c)
  }

  /** ISNI format check: the characters first, then the length. There is no
      check character. */
  function ValidateIsni(isni: string): (r: bool)
    ensures r <==> |isni| == IsniLength && forall i :: 0 <= i < |isni| ==> IsIdentifierChar(isni[i])
  {
    All(isni, IsIdentifierChar) && |isni| == IsniLength
  }

  /** ISBN-10 format check: the characters first, then the length. */
  function ValidateIsbnFormat(isbn: string): (r: bool)
    ensures r <==> |isbn| == IsbnLength && forall i :: 0 <= i < |isbn| ==> IsIdentifierChar(isbn[i])
  {
    All(isbn, IsIdentifierChar) && |isbn| == IsbnLength
  }

  /** What one character contributes to the checksum before weighting: ten
      for `X`, its numeric value for a digit, nothing for anything else. */
  function CharValue(c: char): (v: int)
    ensures 0 <= v <= 10
    ensures v == 10 <==> c == 'X'
    ensures IsDigit(c) ==> v == DigitValue(c)
    ensures !IsIdentifierChar(c) ==> v == 0
  {
    if c == 'X' then 10 else if IsDigit(c) then DigitValue(c) else 0
  }

  /** The weight of position `i` (counted from 0): ten for the leftmost
      character down to one for the tenth. */
  function Weight(i: int): int {
    IsbnLength - i
  }

  /** The weighted sum of the first `n` characters of `s`. */
  function WeightedSum(s: string, n: nat): (r: int)
    requires n <= IsbnLength && n <= |s|
    ensures 0 <= r
  {
    if n == 0 then 0 else WeightedSum(s, n - 1) + Weight(n - 1) * CharValue(s[n - 1])
  }

  /** The checksum test, over the first ten characters. */
  predicate ValidateIsbnChecksum(isbn: string)
    requires |isbn| >= IsbnLength
  {
    WeightedSum(isbn, IsbnLength) % 11 == 0
  }

  /** The ISBN test construction applies: format, and only then checksum. */
  predicate IsValidIsbn(isbn: string) {
    ValidateIsbnFormat(isbn) && ValidateIsbnChecksum(isbn)
  }

  /** The checksum as the item computes it: one pass over the first ten
      characters, accumulating weight times value. */
  method ComputeIsbnChecksum(isbn: string) returns (ok: bool)
    requires |isbn| >= IsbnLength
    ensures ok == ValidateIsbnChecksum(isbn)
  {
    var checksum := 0;
    for i := 0 to 10
      invariant checksum == WeightedSum(isbn, i)
    {
      if isbn[i] == 'X' {
        checksum := checksum + 10 * (10 - i);
      } else if IsDigit(isbn[i]) {
        checksum := checksum + DigitValue(isbn[i]) * (10 - i);
      }
    }
    ok := checksum % 11 == 0;
  }

  /** Currency code check: exactly three letters, no casing enforced. */
  predicate CurrencyValid(currency: string)
    ensures CurrencyValid(currency) <==> |currency| == CurrencyLength
                                         && forall i :: 0 <= i < |currency| ==> IsLetter(currency[i])
  {
    !(|currency| != CurrencyLength || !All(currency, IsLetter))
  }

  /** The exception the currency check raises, if any: a null code is
      dereferenced, a malformed one is reported against `parameterName`. */
  function ThrowExceptionIfCurrencyIsNotValid(currency: NString, parameterName: string): (r: Option<Error>)
    ensures r == None <==> currency.Some? && |currency.value| == CurrencyLength
                           && forall i :: 0 <= i < CurrencyLength ==> IsLetter(currency.value[i])
    ensures currency == None ==> r == Some(NullFault)
    ensures currency.Some? && r.Some? ==> r == Some(ArgumentException(parameterName))
  {
    match currency
    case None => Some(NullFault)
    case Some(c) => if !CurrencyValid(c) then Some(ArgumentException(parameterName)) else None
  }
}
