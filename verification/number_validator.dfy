/**
 * `NumberValidator.NumberValidation`: the text-input handler of numeric text boxes.  It marks
 * the input event handled, which rejects the typed text, exactly when the regular expression
 * `[^0-9]+` matches somewhere in that text.
 */
module NumberValidator {

  /** A character of the class `0-9`: the ASCII digits, by code point. */
  predicate IsAsciiDigit(c: char)
  {
    '0' <= c <= '9'
  }

  /**
   * `Regex.IsMatch` for the pattern `[^0-9]+`: some non-empty run `text[i..j]` is made of
   * characters outside the class.
   */
  predicate MatchesNonDigitRun(text: string)
  {
    exists i, j :: 0 <= i < j <= |text| && NonDigitRun(text, i, j)
  }

  predicate NonDigitRun(text: string, i: int, j: int)
    requires 0 <= i <= j <= |text|
  {
    forall k :: i <= k < j ==> !IsAsciiDigit(text[k])
  }

  /** The value `NumberValidation` writes to `e.Handled`: the text holds a character other than an ASCII digit. */
  function NumberValidation(text: string): (handled: bool)
    ensures handled <==> exists k :: 0 <= k < |text| && !IsAsciiDigit(text[k])
  {
    if MatchesNonDigitRun(text) then
      var i, j :| 0 <= i < j <= |text| && NonDigitRun(text, i, j);
      assert !IsAsciiDigit(text[i]);
      true
    else
      assert forall k :: 0 <= k < |text| ==> IsAsciiDigit(text[k]) by {
        forall k | 0 <= k < |text|
          ensures IsAsciiDigit(text[k])
        {
          if !IsAsciiDigit(text[k]) {
            assert NonDigitRun(text, k, k + 1);
          }
        }
      }
      false
  }

  /** Empty text is let through. */
  lemma EmptyIsLetThrough()
    ensures !NumberValidation("")
  {
  }

  /** Rejection of a concatenation: one of the two parts is rejected. */
  lemma {:induction false} HandledOfConcatenation(a: string, b: string)
    ensures NumberValidation(a + b) == (NumberValidation(a) || NumberValidation(b))
  {
    if NumberValidation(a) {
      var k :| 0 <= k < |a| && !IsAsciiDigit(a[k]);
      assert (a + b)[k] == a[k];
    }
    if NumberValidation(b) {
      var k :| 0 <= k < |b| && !IsAsciiDigit(b[k]);
      assert (a + b)[|a| + k] == b[k];
    }
    if NumberValidation(a + b) {
      var k :| 0 <= k < |a + b| && !IsAsciiDigit((a + b)[k]);
      if k < |a| {
        assert a[k] == (a + b)[k];
      } else {
        assert b[k - |a|] == (a + b)[k];
      }
    }
  }

  /** A digit of another script, such as ARABIC-INDIC DIGIT THREE, is not in the class `0-9`. */
  lemma OtherScriptDigitIsRejected()
    ensures NumberValidation("12٣")
  {
    assert !IsAsciiDigit("12٣"[2]);
  }
}
