/** The character classes the validators rely on, and the `All` fold over a
    string that the item's checks are written with. */
module CharClasses {

  /** A decimal digit. Restricted to the ASCII digits `0`..`9`. */
  predicate IsDigit(c: char) {
    '0' <= c <= '9'
  }

  /** The numeric value of a decimal digit. */
  function DigitValue(c: char): (v: int)
    requires IsDigit(c)
    ensures 0 <= v <= 9
  {
    c as int - '0' as int
  }

  /** The digit whose numeric value is `v`. */
  function DigitChar(v: int): (c: char)
    requires 0 <= v <= 9
    ensures IsDigit(c) && DigitValue(c) == v
  {
    ('0' as int + v) as char
  }

  /** A letter. Restricted to the ASCII letters, either case. */
  predicate IsLetter(c: char) {
    'A' <= c <= 'Z' || 'a' <= c <= 'z'
  }

  /** A white-space character: the control characters TAB to CR, NEL, and the
      space, line and paragraph separators of the Unicode character database. */
  predicate IsWhiteSpace(c: char) {
    || '\t' <= c <= '\r'
    || c == ' ' || c == '\U{85}' || c == '\U{A0}' || c == '\U{1680}'
    || '\U{2000}' <= c <= '\U{200A}'
    || c == '\U{2028}' || c == '\U{2029}' || c == '\U{202F}'
    || c == '\U{205F}' || c == '\U{3000}'
  }

  /** Whether `p` holds of every character of `s`, scanning from the left. */
  function All(s: string, p: char -> bool): (r: bool)
    ensures r <==> forall i :: 0 <= i < |s| ==> p(s[i])
  {
    if |s| == 0 then true else p(s[0]) && All(s[1..], p)
  }
}
