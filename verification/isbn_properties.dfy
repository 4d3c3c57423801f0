/** What the ISBN-10 check accepts: worked examples; `X` at any position,
    unlike ISBN-10 itself, which allows `X` only as the check character; the
    check character that completes a nine-character prefix; and the errors the
    mod-11 checksum is guaranteed to catch. */
module IsbnProperties {
  import opened CharClasses
  import opened Validators

  /** The weighted sum of the first `n` characters depends on nothing else. */
  lemma {:induction false} WeightedSumOfPrefix(s: string, t: string, n: nat)
    requires n <= IsbnLength && n <= |s| && n <= |t|
    requires s[..n] == t[..n]
    ensures WeightedSum(s, n) == WeightedSum(t, n)
  {
    if n > 0 {
      assert s[..n - 1] == s[..n][..n - 1] == t[..n][..n - 1] == t[..n - 1];
      assert s[n - 1] == s[..n][n - 1] == t[..n][n - 1] == t[n - 1];
      WeightedSumOfPrefix(s, t, n - 1);
    }
  }

  /** The example ISBN-10 "0306406152" has weighted sum 132 = 12 * 11 and is
      accepted. */
  lemma KnownIsbnAccepted()
    ensures WeightedSum("0306406152", IsbnLength) == 132
    ensures IsValidIsbn("0306406152")
  {
    var s := "0306406152";
    assert WeightedSum(s, 5) == 0 * 10 + 3 * 9 + 0 * 8 + 6 * 7 + 4 * 6;
    assert WeightedSum(s, 10) == WeightedSum(s, 5) + 0 * 5 + 6 * 4 + 1 * 3 + 5 * 2 + 2 * 1;
    assert ValidateIsbnFormat(s);
  }

  /** Changing its last digit to 3 gives sum 133, which is rejected. */
  lemma KnownIsbnRejected()
    ensures WeightedSum("0306406153", IsbnLength) == 133
    ensures ValidateIsbnFormat("0306406153") && !IsValidIsbn("0306406153")
  {
  }

  /** `X` is weighted ten at every position, not only at the check position:
      "X00000000X" (sum 10 * 10 + 1 * 10 = 110) is accepted. */
  lemma XAcceptedAtAnyPosition()
    ensures IsValidIsbn("X00000000X")
    ensures WeightedSum("X00000000X", IsbnLength) == 110
  {
    assert ValidateIsbnFormat("X00000000X");
  }

  /** On the characters an ISBN may hold, the checksum value identifies the
      character. */
  lemma CharValueInjective(a: char, b: char)
    requires IsIdentifierChar(a) && IsIdentifierChar(b)
    requires CharValue(a) == CharValue(b)
    ensures a == b
  {
    if a != 'X' && b != 'X' {
      assert a as int - '0' as int == b as int - '0' as int;
    }
  }

  /** The character that makes `prefix + [c]` pass the checksum: the value
      that brings the weighted sum of the prefix up to a multiple of eleven,
      written `X` when that value is ten. */
  function CheckCharacter(prefix: string): (c: char)
    requires |prefix| == IsbnLength - 1
    ensures IsIdentifierChar(c)
    ensures (WeightedSum(prefix, IsbnLength - 1) + CharValue(c)) % 11 == 0
  {
    var v := (11 - WeightedSum(prefix, IsbnLength - 1) % 11) % 11;
    if v == 10 then 'X' else DigitChar(v)
  }

  /** Appending a character adds its value, at weight one, to the sum of the
      nine-character prefix. */
  lemma WeightedSumOfCompletion(prefix: string, c: char)
    requires |prefix| == IsbnLength - 1
    ensures WeightedSum(prefix + [c], IsbnLength) == WeightedSum(prefix, IsbnLength - 1) + CharValue(c)
  {
    var s := prefix + [c];
    assert s[..IsbnLength - 1] == prefix[..IsbnLength - 1];
    WeightedSumOfPrefix(s, prefix, IsbnLength - 1);
    assert s[IsbnLength - 1] == c;
  }

  /** A well-formed nine-character prefix completed with its check character
      is an ISBN the item accepts. */
  lemma CompletedIsbnIsValid(prefix: string)
    requires |prefix| == IsbnLength - 1
    requires forall i :: 0 <= i < |prefix| ==> IsIdentifierChar(prefix[i])
    ensures IsValidIsbn(prefix + [CheckCharacter(prefix)])
  {
    var c := CheckCharacter(prefix);
    var s := prefix + [c];
    assert forall i :: 0 <= i < |s| ==> IsIdentifierChar(s[i]) by {
      forall i | 0 <= i < |s|
        ensures IsIdentifierChar(s[i])
      {
        if i < |prefix| {
          assert s[i] == prefix[i];
        }
      }
    }
    WeightedSumOfCompletion(prefix, c);
  }

  /** The check character is the only digit or `X` that completes a prefix
      into a string passing the checksum. */
  lemma CheckCharacterUnique(prefix: string, c: char)
    requires |prefix| == IsbnLength - 1
    requires IsIdentifierChar(c)
    ensures ValidateIsbnChecksum(prefix + [c]) <==> c == CheckCharacter(prefix)
  {
    WeightedSumOfCompletion(prefix, c);
    var d := CheckCharacter(prefix);
    var s := WeightedSum(prefix, IsbnLength - 1);
    if (s + CharValue(c)) % 11 == 0 {
      DifferenceOfMultiples(s + CharValue(c), s + CharValue(d));
      assert (CharValue(c) - CharValue(d)) % 11 == 0;
      assert CharValue(c) == CharValue(d);
      CharValueInjective(c, d);
    }
  }

  /** Two strings that agree everywhere except at position `k` have weighted
      sums that differ by the weight of `k` times the difference of values. */
  lemma {:induction false} WeightedSumOfSubstitution(s: string, t: string, k: nat, n: nat)
    requires n <= IsbnLength && |s| == |t| && n <= |s|
    requires forall i :: 0 <= i < |s| && i != k ==> s[i] == t[i]
    ensures WeightedSum(s, n) - WeightedSum(t, n)
            == if k < n then Weight(k) * (CharValue(s[k]) - CharValue(t[k])) else 0
  {
    if n > 0 {
      var j := n - 1;
      WeightedSumOfSubstitution(s, t, k, j);
      if j == k {
        var w, a, b := Weight(j), CharValue(s[j]), CharValue(t[j]);
        assert w * a - w * b == w * (a - b);
      } else {
        assert s[j] == t[j];
      }
    }
  }

  /** The inverse of a weight modulo eleven, which exists because eleven is
      prime. */
  function InverseModEleven(w: int): (v: int)
    requires 1 <= w <= 10
    ensures 1 <= v <= 10 && (w * v) % 11 == 1
  {
    if w == 1 then 1 else if w == 2 then 6 else if w == 3 then 4
    else if w == 4 then 3 else if w == 5 then 9 else if w == 6 then 2
    else if w == 7 then 8 else if w == 8 then 7 else if w == 9 then 5 else 10
  }

  /** Eleven divides a weight times `d` only when it divides `d`: multiplying
      by the weight's inverse leaves `d` plus a multiple of eleven. */
  lemma WeightCancels(w: int, d: int)
    requires 1 <= w <= 10
    ensures (w * d) % 11 == 0 ==> d % 11 == 0
  {
    if (w * d) % 11 == 0 {
      var v := InverseModEleven(w);
      var q, m := (w * d) / 11, (w * v) / 11;
      CancelByInverse(w, d, v, q, m);
    }
  }

  /** The algebra behind `WeightCancels`: if `w * d == 11 * q` and
      `w * v == 11 * m + 1`, then `d` is a multiple of eleven. */
  lemma CancelByInverse(w: int, d: int, v: int, q: int, m: int)
    requires w * d == 11 * q && w * v == 11 * m + 1
    ensures d == 11 * (v * q - m * d)
  {
    calc {
      d;
      (w * v - 11 * m) * d;
      { assert (w * v - 11 * m) * d == v * (w * d) - 11 * (m * d); }
      v * (w * d) - 11 * (m * d);
      v * (11 * q) - 11 * (m * d);
      11 * (v * q - m * d);
    }
  }

  /** A weight 1..10 times a non-zero value difference in -10..10 is never a
      multiple of eleven. */
  lemma NonZeroProductModEleven(w: int, d: int)
    requires 1 <= w <= 10 && -10 <= d <= 10 && d != 0
    ensures (w * d) % 11 != 0
  {
    WeightCancels(w, d);
  }

  /** The checksum detects every single-character error: two well-formed
      ISBNs that differ at exactly one position cannot both pass it. */
  lemma SingleSubstitutionDetected(s: string, t: string, k: nat)
    requires ValidateIsbnFormat(s) && ValidateIsbnFormat(t)
    requires k < IsbnLength && s[k] != t[k]
    requires forall i :: 0 <= i < IsbnLength && i != k ==> s[i] == t[i]
    ensures !(ValidateIsbnChecksum(s) && ValidateIsbnChecksum(t))
  {
    var w, d := Weight(k), CharValue(s[k]) - CharValue(t[k]);
    WeightedSumOfSubstitution(s, t, k, IsbnLength);
    assert WeightedSum(s, IsbnLength) - WeightedSum(t, IsbnLength) == w * d;
    assert d != 0 by {
      if d == 0 {
        CharValueInjective(s[k], t[k]);
      }
    }
    NonZeroProductModEleven(w, d);
    DifferenceOfMultiples(WeightedSum(s, IsbnLength), WeightedSum(t, IsbnLength));
  }

  /** The difference of two multiples of eleven is a multiple of eleven. */
  lemma DifferenceOfMultiples(a: int, b: int)
    ensures a % 11 == 0 && b % 11 == 0 ==> (a - b) % 11 == 0
  {
    if a % 11 == 0 && b % 11 == 0 {
      assert a == 11 * (a / 11) && b == 11 * (b / 11);
      assert a - b == 11 * (a / 11 - b / 11);
    }
  }
}
