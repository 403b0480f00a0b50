/**
 * `isNumber` of assemble.c: whether `sscanf(string, "%d", &i)` converts one
 * integer. The `%d` conversion skips leading white space (the C `isspace`
 * set, which unlike the field separators also holds vertical tab and form
 * feed), accepts one optional sign, and succeeds when at least one decimal
 * digit follows. Whatever comes after the first digit does not matter, so
 * "12abc" is a number. The string ends at its first NUL, which is neither
 * white space, a sign nor a digit.
 */
module Numbers {
  import opened Lines

  /** `isspace` in the C locale. */
  predicate IsCSpace(c: char) {
    c == ' ' || c == '\t' || c == '\n' || c == '\U{B}' || c == '\U{C}' || c == '\r'
  }

  predicate IsDigit(c: char) {
    '0' <= c <= '9'
  }

  predicate IsSign(c: char) {
    c == '+' || c == '-'
  }

  predicate AllSpace(s: String) {
    forall k | 0 <= k < |s| :: IsCSpace(s[k])
  }

  /** The first character at or after `i` that is not white space. */
  function SpaceEnd(s: String, i: nat): (j: nat)
    requires i <= |s|
    ensures i <= j <= |s|
    ensures forall k | i <= k < j :: IsCSpace(s[k])
    ensures j < |s| ==> !IsCSpace(s[j])
    decreases |s| - i
  {
    if i == |s| || !IsCSpace(s[i]) then i else SpaceEnd(s, i + 1)
  }

  /** The first digit of a number starts at `j`: only white space and at most one sign come before it. */
  predicate DigitsStartAt(s: String, j: nat) {
    && j < |s| && IsDigit(s[j])
    && (AllSpace(s[..j]) || (j > 0 && IsSign(s[j - 1]) && AllSpace(s[..j - 1])))
  }

  /**
   * `isNumber`: `sscanf` returns 1 exactly when, after the white space and
   * an optional sign, a digit is found.
   */
  function IsNumber(s: String): (b: bool)
    ensures b <==> exists j: nat :: DigitsStartAt(s, j)
  {
    var i := SpaceEnd(s, 0);
    var j := if i < |s| && IsSign(s[i]) then i + 1 else i;
    var b := j < |s| && IsDigit(s[j]);
    if b then
      assert DigitsStartAt(s, j) by {
        if j == i {
          assert AllSpace(s[..j]);
        } else {
          assert AllSpace(s[..j - 1]);
        }
      }
      b
    else
      NoDigitStart(s, i, j);
      b
  }

  /**
   * When the character after the white space and the optional sign is not a
   * digit, no position can start the digits.
   */
  lemma NoDigitStart(s: String, i: nat, j: nat)
    requires i == SpaceEnd(s, 0)
    requires j == if i < |s| && IsSign(s[i]) then i + 1 else i
    requires !(j < |s| && IsDigit(s[j]))
    ensures forall j': nat :: !DigitsStartAt(s, j')
  {
    forall j': nat | DigitsStartAt(s, j')
      ensures false
    {
      DigitsStartUnique(s, j');
    }
  }

  /** The digits can start at one place only: right after the leading white space and the optional sign. */
  lemma DigitsStartUnique(s: String, j: nat)
    requires DigitsStartAt(s, j)
    ensures var i := SpaceEnd(s, 0); j == if i < |s| && IsSign(s[i]) then i + 1 else i
  {
    var i := SpaceEnd(s, 0);
    if AllSpace(s[..j]) {
      forall k | 0 <= k < j
        ensures IsCSpace(s[k])
      {
        assert s[..j][k] == s[k];
      }
      assert i == j;
    } else {
      forall k | 0 <= k < j - 1
        ensures IsCSpace(s[k])
      {
        assert s[..j - 1][k] == s[k];
      }
      assert i == j - 1;
    }
  }

  /** Trailing characters after the first digit do not matter; white space, a lone sign or nothing is not a number. */
  lemma IsNumberExamples()
    ensures IsNumber("12") && IsNumber("-5") && IsNumber(" \t+7") && IsNumber("12abc") && IsNumber("\U{B}3")
    ensures !IsNumber("") && !IsNumber("  ") && !IsNumber("-") && !IsNumber("+-1") && !IsNumber("- 1") && !IsNumber("start")
  {
  }
}
