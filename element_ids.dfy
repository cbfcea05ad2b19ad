/**
 * Element ids derived from a rubric row's ordinal, such as
 * `"dropdown-select-" + count` in JavaScript: the ordinal is written in decimal
 * after a fixed prefix. Distinct ordinals give distinct ids.
 */
module ElementIds {

  function DigitChar(d: nat): char
    requires d < 10
  {
    (48 + d) as char
  }

  ghost predicate IsDigits(s: string)
  {
    forall i :: 0 <= i < |s| ==> '0' <= s[i] <= '9'
  }

  /** The decimal form JavaScript gives a non-negative integer when it is appended to a string: no leading zero. */
  function NatToString(n: nat): (s: string)
    ensures |s| >= 1 && IsDigits(s)
    ensures s[0] == '0' ==> n == 0
  {
    if n < 10 then [DigitChar(n)] else NatToString(n / 10) + [DigitChar(n % 10)]
  }

  /** The number a string of decimal digits denotes; the inverse of NatToString. */
  function DecimalValue(s: string): nat
    requires IsDigits(s)
  {
    if s == [] then 0 else DecimalValue(s[..|s| - 1]) * 10 + (s[|s| - 1] as int - 48)
  }

  /** Reading back the decimal form of `n` gives `n`. */
  lemma {:induction false} DecimalRoundTrip(n: nat)
    ensures DecimalValue(NatToString(n)) == n
  {
    if n >= 10 {
      DecimalRoundTrip(n / 10);
      var s := NatToString(n);
      assert s[..|s| - 1] == NatToString(n / 10);
    }
  }

  /** The id of the element of kind `prefix` in the row with ordinal `n`. */
  function ElementId(prefix: string, n: nat): string
  {
    prefix + NatToString(n)
  }

  /** Rows with different ordinals never share an element id. */
  lemma ElementIdsDistinct(prefix: string, a: nat, b: nat)
    requires a != b
    ensures ElementId(prefix, a) != ElementId(prefix, b)
  {
    if ElementId(prefix, a) == ElementId(prefix, b) {
      assert NatToString(a) == ElementId(prefix, a)[|prefix|..];
      assert NatToString(b) == ElementId(prefix, b)[|prefix|..];
      DecimalRoundTrip(a);
      DecimalRoundTrip(b);
    }
  }
}
