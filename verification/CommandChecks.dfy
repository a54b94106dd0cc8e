/** Authoritative post-run checks, run in order until the first one that does
    not pass (`ferric-bench/src/verify.rs`). */
module CommandChecks {
  datatype CheckStatus = Passed | ModelFailure | InfrastructureError

  datatype CheckResult = CheckResult(name: string, status: CheckStatus)

  /** What launching the check with a given index would report. */
  type Grader = nat -> CheckStatus

  /** Results of the checks from index `from` on: each passing check is
      followed by the next, the first failing one ends the sequence. */
  function ResultsFrom(names: seq<string>, grade: Grader, from: nat): seq<CheckResult>
    requires from <= |names|
    decreases |names| - from
  {
    if from == |names| then []
    else if grade(from) == Passed then [CheckResult(names[from], Passed)] + ResultsFrom(names, grade, from + 1)
    else [CheckResult(names[from], grade(from))]
  }

  /** One result per check from `from` on, up to and including the first that
      does not pass. */
  ghost predicate StopsAtFirstFailure(names: seq<string>, grade: Grader, from: nat, results: seq<CheckResult>)
    requires from <= |names|
  {
    && |results| <= |names| - from
    && (forall i | 0 <= i < |results| :: results[i] == CheckResult(names[from + i], grade(from + i)))
    && (forall i | 0 <= i < |results| - 1 :: results[i].status == Passed)
    && (|results| < |names| - from ==> results != [] && results[|results| - 1].status != Passed)
  }

  lemma {:induction false} ResultsFromShape(names: seq<string>, grade: Grader, from: nat)
    requires from <= |names|
    ensures StopsAtFirstFailure(names, grade, from, ResultsFrom(names, grade, from))
    decreases |names| - from
  {
    if from < |names| {
      ResultsFromShape(names, grade, from + 1);
    }
  }

  predicate AllPassed(results: seq<CheckResult>) {
    forall i | 0 <= i < |results| :: results[i].status == Passed
  }

  predicate AnyInfrastructureError(results: seq<CheckResult>) {
    exists i | 0 <= i < |results| :: results[i].status == InfrastructureError
  }

  method VerifyCommandChecks(names: seq<string>, grade: Grader) returns (results: seq<CheckResult>)
    ensures results == ResultsFrom(names, grade, 0)
  {
    results := [];
    for n := 0 to |names|
      invariant ResultsFrom(names, grade, 0) == results + ResultsFrom(names, grade, n)
    {
      var result := CheckResult(names[n], grade(n));
      results := results + [result];
      if result.status != Passed {
        return;
      }
    }
  }

  lemma PassingResults(names: seq<string>, grade: Grader, results: seq<CheckResult>)
    requires StopsAtFirstFailure(names, grade, 0, results)
    ensures AllPassed(results) <==> forall i | 0 <= i < |names| :: grade(i) == Passed
    ensures AllPassed(results) ==>
      |results| == |names| && forall i | 0 <= i < |names| :: results[i] == CheckResult(names[i], Passed)
  {
    assert forall i | 0 <= i < |results| :: results[i] == CheckResult(names[0 + i], grade(0 + i));
    if AllPassed(results) {
      forall i | 0 <= i < |names| ensures grade(i) == Passed {
        assert results[i].status == Passed;
      }
    }
  }

  /** A passing verdict is never drawn from a prefix: if every recorded result
      passed, every configured check ran and passed. */
  lemma PassingMeansEveryCheckRan(names: seq<string>, grade: Grader)
    ensures AllPassed(ResultsFrom(names, grade, 0))
            <==> forall i | 0 <= i < |names| :: grade(i) == Passed
    ensures AllPassed(ResultsFrom(names, grade, 0)) ==>
              && |ResultsFrom(names, grade, 0)| == |names|
              && forall i | 0 <= i < |names| :: ResultsFrom(names, grade, 0)[i] == CheckResult(names[i], Passed)
  {
    ResultsFromShape(names, grade, 0);
    PassingResults(names, grade, ResultsFrom(names, grade, 0));
  }
}
