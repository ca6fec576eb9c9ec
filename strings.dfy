/**
 * The two orders the publication filter sorts by, over plain strings:
 * lexicographic order on character codes (standing in for `localeCompare`)
 * and the value of a decimal digit string (standing in for `Number`).
 */
module Strings {
  import opened Wrappers

  /** `a` comes strictly before `b` in lexicographic order on character codes. */
  predicate LexLess(a: string, b: string)
  {
    if a == [] then b != []
    else if b == [] then false
    else if a[0] != b[0] then a[0] < b[0]
    else LexLess(a[1..], b[1..])
  }

  lemma {:induction false} LexLessIrreflexive(a: string)
    ensures !LexLess(a, a)
  {
    if a != [] {
      LexLessIrreflexive(a[1..]);
    }
  }

  lemma {:induction false} LexLessTransitive(a: string, b: string, c: string)
    requires LexLess(a, b) && LexLess(b, c)
    ensures LexLess(a, c)
  {
    if a != [] && b != [] && c != [] && a[0] == b[0] && b[0] == c[0] {
      LexLessTransitive(a[1..], b[1..], c[1..]);
    }
  }

  /** Any two different strings are ordered one way or the other. */
  lemma {:induction false} LexLessTotal(a: string, b: string)
    requires a != b
    ensures LexLess(a, b) || LexLess(b, a)
  {
    if a != [] && b != [] && a[0] == b[0] {
      assert a == [a[0]] + a[1..] && b == [b[0]] + b[1..];
      LexLessTotal(a[1..], b[1..]);
    }
  }

  predicate IsDigit(c: char)
  {
    '0' <= c <= '9'
  }

  /** A non-empty string of decimal digits. */
  predicate IsDigits(s: string)
  {
    |s| > 0 && forall i :: 0 <= i < |s| ==> IsDigit(s[i])
  }

  /**
   * A digit string of at most 15 digits: `Number` converts it to a double
   * exactly, since every such value is below 2^53.
   */
  predicate IsExactDigits(s: string)
  {
    IsDigits(s) && |s| <= 15
  }

  /** An exactly representable digit string written without leading zeros, as years are. */
  predicate IsCanonical(s: string)
  {
    IsExactDigits(s) && (s[0] != '0' || |s| == 1)
  }

  function DigitValue(c: char): (d: nat)
    requires IsDigit(c)
    ensures d < 10
  {
    c as int - '0' as int
  }

  /** The value of a string of decimal digits, most significant digit first. */
  function DecimalValue(s: string): nat
    requires forall i :: 0 <= i < |s| ==> IsDigit(s[i])
  {
    if s == [] then 0 else 10 * DecimalValue(s[..|s| - 1]) + DigitValue(s[|s| - 1])
  }

  /** `Number(s)` for the strings the model parses: `None` stands for `NaN`. */
  function NumberOf(s: string): (n: Option<nat>)
    ensures n.Some? <==> IsDigits(s)
  {
    if IsDigits(s) then Some(DecimalValue(s)) else None
  }

  lemma {:induction false} LeadingDigitPositive(s: string)
    requires IsDigits(s) && s[0] != '0'
    ensures DecimalValue(s) >= 1
  {
    if |s| > 1 {
      LeadingDigitPositive(s[..|s| - 1]);
    }
  }

  /** Two canonical digit strings with the same value are the same string. */
  lemma {:induction false} CanonicalInjective(s: string, t: string)
    requires IsCanonical(s) && IsCanonical(t)
    requires DecimalValue(s) == DecimalValue(t)
    ensures s == t
    decreases |s|
  {
    var ps, pt := s[..|s| - 1], t[..|t| - 1];
    assert s[|s| - 1] == t[|t| - 1];
    if |s| == 1 && |t| == 1 {
    } else if |s| == 1 {
      LeadingDigitPositive(pt);
      assert false;
    } else if |t| == 1 {
      LeadingDigitPositive(ps);
      assert false;
    } else {
      CanonicalInjective(ps, pt);
      assert s == ps + [s[|s| - 1]] && t == pt + [t[|t| - 1]];
    }
  }
}
