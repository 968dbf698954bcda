/** The failure report a run raises when Then sentences fail (StoryTestExceptionImpl):
    the first failure's sentence, expected and actual text, and how many failed. */
module Reports {
  import opened Sentences

  datatype Report = Report(failCount: nat, firstSentence: Sentence, firstExpected: string, firstActual: string)

  /** The report made at the first failure: one failure, recorded with its details. */
  function NewReport(sentence: Sentence, expected: string, actual: string): (r: Report)
    ensures r.failCount == 1
    ensures r.firstSentence == sentence && r.firstExpected == expected && r.firstActual == actual
  {
    Report(1, sentence, expected, actual)
  }

  /** incFailCount: one more failure; the first failure's details stay as they are. */
  function IncFailCount(r: Report): (r': Report)
    ensures r'.failCount == r.failCount + 1
    ensures r'.firstSentence == r.firstSentence && r'.firstExpected == r.firstExpected
    ensures r'.firstActual == r.firstActual
  {
    r.(failCount := r.failCount + 1)
  }

  /** getStoryExpected: the expected value of the first failed Then sentence. */
  function StoryExpected(r: Report): (expected: string) {
    r.firstExpected
  }

  /** getTestResult: the actual value of the first failed Then sentence. */
  function TestResult(r: Report): (actual: string) {
    r.firstActual
  }

  /** getNumFail: the number of failed Then sentences. */
  function NumFail(r: Report): (n: nat) {
    r.failCount
  }

  /** The report after n failures: made at the first, incremented at each later one. */
  function AfterFailures(sentence: Sentence, expected: string, actual: string, n: nat): (report: Report)
    requires n >= 1
  {
    if n == 1 then NewReport(sentence, expected, actual)
    else IncFailCount(AfterFailures(sentence, expected, actual, n - 1))
  }

  /** The getters read back what the constructor was given, and go on doing so whatever
      number of increments follow; the count is exactly the number of failures, so never 0. */
  lemma {:induction false} GettersAfterFailures(sentence: Sentence, expected: string, actual: string, n: nat)
    requires n >= 1
    ensures NumFail(AfterFailures(sentence, expected, actual, n)) == n
    ensures StoryExpected(AfterFailures(sentence, expected, actual, n)) == expected
    ensures TestResult(AfterFailures(sentence, expected, actual, n)) == actual
    ensures AfterFailures(sentence, expected, actual, n).firstSentence == sentence
  {
    if n > 1 {
      GettersAfterFailures(sentence, expected, actual, n - 1);
    }
  }

  /** Increments commute with nothing but the count: k increments add exactly k. */
  function IncTimes(r: Report, k: nat): (r': Report) {
    if k == 0 then r else IncFailCount(IncTimes(r, k - 1))
  }

  lemma {:induction false} IncTimesCount(r: Report, k: nat)
    ensures IncTimes(r, k) == r.(failCount := r.failCount + k)
  {
    if k > 0 {
      IncTimesCount(r, k - 1);
    }
  }
}
