/**
 The numeric format rule of the number field.

 The field carries the HTML `pattern` attribute `[-]?[0-9]*[.,]?[0-9]+`. The HTML
 Living Standard (section 4.10.5.3.6, "The pattern attribute") matches that
 expression against the WHOLE value, as if written `^(?:[-]?[0-9]*[.,]?[0-9]+)$`,
 and never reports a mismatch for the empty value. This module states that rule
 twice: once as a reference predicate that follows the four pieces of the
 expression, and once as a hand-written recognizer; a lemma shows they agree.

 The rule is modelled as it stood when the attribute was compiled with the `u`
 flag of ECMA-262. The current standard compiles it with the `v` flag, where a
 bare `-` inside a character class is a syntax error: `[-]` then fails to
 compile, the element has no pattern regular expression, and no value is ever
 a mismatch. That variant is not modelled here.
 */
module NumberPattern {

  predicate IsDigit(c: char) {
    '0' <= c <= '9'
  }

  /** The decimal separators the pattern admits, `[.,]`. */
  predicate IsSeparator(c: char) {
    c == '.' || c == ','
  }

  /** Every character of s[lo..hi] is a decimal digit. */
  predicate DigitsIn(s: string, lo: nat, hi: nat)
    requires lo <= hi <= |s|
  {
    forall n :: lo <= n < hi ==> IsDigit(s[n])
  }

  /**
   s is cut at i, j and k into s[..i], s[i..j], s[j..k] and s[k..], which match
   `[-]?`, `[0-9]*`, `[.,]?` and `[0-9]+` in that order.
   */
  ghost predicate Split(s: string, i: int, j: int, k: int) {
    && 0 <= i <= j <= k < |s|
    && (i == 0 || (i == 1 && s[0] == '-'))
    && DigitsIn(s, i, j)
    && (k == j || (k == j + 1 && IsSeparator(s[j])))
    && DigitsIn(s, k, |s|)
  }

  /** The whole of s matches the pattern: reference definition. */
  ghost predicate MatchesPattern(s: string) {
    exists i, j, k :: Split(s, i, j, k)
  }

  /** Length of the optional leading minus sign. */
  function SignLength(s: string): (n: nat)
    ensures n <= |s|
  {
    if |s| > 0 && s[0] == '-' then 1 else 0
  }

  /** End of the longest run of digits that starts at `from`. */
  function DigitRunEnd(s: string, from: nat): (r: nat)
    requires from <= |s|
    ensures from <= r <= |s|
    ensures DigitsIn(s, from, r)
    ensures r < |s| ==> !IsDigit(s[r])
    decreases |s| - from
  {
    if from < |s| && IsDigit(s[from]) then DigitRunEnd(s, from + 1) else from
  }

  /**
   Hand-written recognizer: skip an optional '-', read the longest run of digits,
   then either stop at the end of the input (having read at least one digit) or
   read one separator followed by a non-empty run of digits that reaches the end.
   */
  function Recognize(s: string): bool {
    var i := SignLength(s);
    var j := DigitRunEnd(s, i);
    if j < |s| && IsSeparator(s[j]) then
      j + 1 < |s| && DigitRunEnd(s, j + 1) == |s|
    else
      i < j && j == |s|
  }

  /** The recognizer accepts exactly the values that match the pattern. */
  lemma RecognizeMatchesPattern(s: string)
    ensures Recognize(s) <==> MatchesPattern(s)
  {
    var i := SignLength(s);
    var j := DigitRunEnd(s, i);
    if Recognize(s) {
      if j < |s| && IsSeparator(s[j]) {
        assert Split(s, i, j, j + 1);
      } else {
        assert Split(s, i, j - 1, j - 1);
      }
    }
    if MatchesPattern(s) {
      var i', j', k' :| Split(s, i', j', k');
      // The first character is '-' exactly when the sign piece is used: no
      // other piece admits a '-'.
      assert i' == i by {
        if i' == 0 {
          if 0 < j' {
            assert IsDigit(s[0]);
          } else if j' < k' {
            assert IsSeparator(s[0]);
          } else {
            assert IsDigit(s[0]);
          }
        }
      }
      // The greedy digit run cannot stop before j' ...
      assert j' <= j;
      if k' == j' {
        // ... and, without a separator, it reaches the end.
        assert DigitsIn(s, i, |s|) by {
          forall n | i <= n < |s|
            ensures IsDigit(s[n])
          {
            if n >= j' {
              assert IsDigit(s[n]);
            }
          }
        }
        assert j == |s|;
      } else {
        // ... and it stops exactly at the separator.
        assert j == j';
        var k := DigitRunEnd(s, j + 1);
        assert k == |s|;
      }
    }
  }

  /**
   The browser's `validity.patternMismatch` for the field's value: true when the
   value is non-empty and does not match the pattern.
   */
  function PatternMismatch(value: string): (r: bool)
    ensures r <==> value != [] && !MatchesPattern(value)
  {
    RecognizeMatchesPattern(value);
    value != [] && !Recognize(value)
  }

  /** The acceptance table of the field's format rule. */
  lemma PatternExamples()
    ensures MatchesPattern("123") && MatchesPattern("-12") && MatchesPattern("12.5")
    ensures MatchesPattern("1,5") && MatchesPattern("-.5")
    ensures !MatchesPattern("12,") && !MatchesPattern("-") && !MatchesPattern("12.5.6")
    ensures !MatchesPattern("") && !PatternMismatch("")
    ensures PatternMismatch("12a") && !PatternMismatch("12.5")
  {
    assert Split("123", 0, 0, 0);
    assert Split("-12", 1, 1, 1);
    assert Split("12.5", 0, 2, 3);
    assert Split("1,5", 0, 1, 2);
    assert Split("-.5", 1, 1, 2);
    RecognizeMatchesPattern("12,");
    assert DigitRunEnd("12,", 0) == 2;
    RecognizeMatchesPattern("-");
    RecognizeMatchesPattern("12.5.6");
    assert DigitRunEnd("12.5.6", 0) == 2;
    assert DigitRunEnd("12.5.6", 3) == 4;
    RecognizeMatchesPattern("12a");
    assert DigitRunEnd("12a", 0) == 2;
  }
}
