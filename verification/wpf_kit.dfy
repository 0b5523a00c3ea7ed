/**
 * `WPFKit.NumberValidation`: the same handler, kept in the WPF toolkit class with the same
 * regular expression.
 */
module WPFKit {
  import NumberValidator

  /** The value `WPFKit.NumberValidation` writes to `e.Handled`; it agrees with `NumberValidator`. */
  function NumberValidation(text: string): (handled: bool)
    ensures handled == NumberValidator.NumberValidation(text)
    ensures handled <==> exists k :: 0 <= k < |text| && !NumberValidator.IsAsciiDigit(text[k])
  {
    NumberValidator.MatchesNonDigitRun(text)
  }
}
