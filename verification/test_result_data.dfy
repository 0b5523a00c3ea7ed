/**
 * `TestResultData`: the record of one check shown in the test result windows.  A fact test
 * carries its verdict as given; a list test compares the number of results it obtained with
 * the number it required.
 */
module TestResults {
  import opened Wrappers

  /**
   * The get-only properties.  A list property or the description that the constructor in
   * use does not assign stays null (`None`); an unassigned count stays 0.
   */
  datatype TestResultData = TestResultData(
    isFactTest: bool,
    testName: string,
    actualResults: Option<seq<string>>,
    testNumber: nat,
    requiredResults: Option<seq<string>>,
    correctNumber: nat,
    isCorrect: bool,
    description: Option<string>)

  /**
   * What every record built by a constructor satisfies: a fact test has no lists and zero
   * counts; a list test has both lists, counts equal to their lengths, no description, and
   * passes exactly when the two counts agree.
   */
  ghost predicate Consistent(r: TestResultData)
  {
    if r.isFactTest then
      && r.actualResults.None? && r.requiredResults.None?
      && r.testNumber == 0 && r.correctNumber == 0 && r.description.Some?
    else
      && r.actualResults.Some? && r.requiredResults.Some? && r.description.None?
      && r.testNumber == |r.actualResults.value| && r.correctNumber == |r.requiredResults.value|
      && (r.isCorrect <==> r.testNumber == r.correctNumber)
  }

  /** The constructor for a test with one fact: the name, verdict and description as given. */
  function FactResult(testName: string, isCorrect: bool, description: string): (r: TestResultData)
    ensures Consistent(r)
    ensures r.isFactTest && r.testName == testName && r.isCorrect == isCorrect && r.description == Some(description)
  {
    TestResultData(true, testName, None, 0, None, 0, isCorrect, Some(description))
  }

  /**
   * The constructor for a test comparing lists: both lists are kept, the counts are their
   * lengths, and the test passes when the counts are equal.
   */
  function ListResult(testName: string, actualResults: seq<string>, requiredResults: seq<string>): (r: TestResultData)
    ensures Consistent(r)
    ensures !r.isFactTest && r.testName == testName
    ensures r.actualResults == Some(actualResults) && r.requiredResults == Some(requiredResults)
    ensures r.isCorrect <==> |actualResults| == |requiredResults|
  {
    var testNumber := |actualResults|;
    var correctNumber := |requiredResults|;
    TestResultData(false, testName, Some(actualResults), testNumber, Some(requiredResults), correctNumber,
                   if correctNumber == testNumber then true else false, None)
  }

  /** The verdict of a list test depends on the lengths of the lists only, never on their contents. */
  lemma VerdictIgnoresContents(testName: string, actual: seq<string>, required: seq<string>,
                               actual': seq<string>, required': seq<string>)
    requires |actual| == |actual'| && |required| == |required'|
    ensures ListResult(testName, actual, required).isCorrect == ListResult(testName, actual', required').isCorrect
  {
  }

  /** So a list test whose results differ from those required still passes when the counts match. */
  lemma DifferentContentsPass()
    ensures ListResult("walls", ["Wall 1"], ["Wall 2"]).isCorrect
  {
  }
}
