/** The TestNG retry analyzers: each failed test asks `retry`, which says
    yes while fewer than `maxRetryCount` retries have been granted, counting
    and announcing each one. Two copies exist: the one in the retry package
    prints its notice and says nothing when it gives up; the one in the
    tests package logs its notice and logs a last line when it gives up. */
module RetryAnalyzer {
  import opened Wrappers

  /** `maxRetryCount`. */
  const MaxRetryCount: int := 2

  /** Which copy of the class. */
  datatype Variant = RetryPackage | TestsPackage

  /** What a call announces: the retry it grants, numbered from 1, or that
      the test failed after the given number of attempts. */
  datatype Notice =
    | Retrying(testName: string, attempt: int)
    | GaveUp(testName: string, attempts: int)

  /** The outcome of one call of `retry`: the answer, the analyzer's
      `retryCount` afterwards, and the notice printed or logged, if any. */
  datatype Step = Step(retry: bool, count: int, notice: Option<Notice>)

  /** `retry(result)` on an analyzer whose `retryCount` is `count`, for a
      test named `testName`. */
  function Retry(variant: Variant, count: int, testName: string): (r: Step)
    ensures r.retry <==> count < MaxRetryCount
    ensures 0 <= count <= MaxRetryCount ==> 0 <= r.count <= MaxRetryCount
    ensures r.retry ==> r.count == count + 1 && r.notice == Some(Retrying(testName, r.count))
    ensures !r.retry ==> r.count == count
  {
    if count < MaxRetryCount then Step(true, count + 1, Some(Retrying(testName, count + 1)))
    else
      match variant
      case RetryPackage => Step(false, count, None)
      case TestsPackage => Step(false, count, Some(GaveUp(testName, count)))
  }

  /** Successive calls on one analyzer, starting from `retryCount` =
      `count`, one per failed test result named in `names`. */
  function Replay(variant: Variant, count: int, names: seq<string>): (r: seq<Step>)
    ensures |r| == |names|
    decreases |names|
  {
    if |names| == 0 then []
    else
      var step := Retry(variant, count, names[0]);
      [step] + Replay(variant, step.count, names[1..])
  }

  function Min(a: int, b: int): int {
    if a <= b then a else b
  }

  /** From a count within bounds, call `i` is granted exactly when
      `count + i` is below the maximum, the count then stays at the maximum,
      each granted retry announces the attempt it starts, and a refusal
      reports the maximum as the number of attempts (in the tests package)
      or says nothing (in the retry package). */
  lemma {:induction false} ReplayFrom(variant: Variant, count: int, names: seq<string>)
    requires 0 <= count <= MaxRetryCount
    ensures var r := Replay(variant, count, names);
      forall i :: 0 <= i < |r| ==>
        && (r[i].retry <==> count + i < MaxRetryCount)
        && r[i].count == Min(count + i + 1, MaxRetryCount)
        && (r[i].retry ==> r[i].notice == Some(Retrying(names[i], count + i + 1)))
        && (!r[i].retry ==>
              r[i].notice == (if variant == RetryPackage then None else Some(GaveUp(names[i], MaxRetryCount))))
    decreases |names|
  {
    if |names| > 0 {
      var step := Retry(variant, count, names[0]);
      ReplayFrom(variant, step.count, names[1..]);
      var r := Replay(variant, count, names);
      var rest := Replay(variant, step.count, names[1..]);
      assert r == [step] + rest;
      forall i | 1 <= i < |r|
        ensures (r[i].retry <==> count + i < MaxRetryCount)
        ensures r[i].count == Min(count + i + 1, MaxRetryCount)
        ensures r[i].retry ==> r[i].notice == Some(Retrying(names[i], count + i + 1))
        ensures !r[i].retry ==>
              r[i].notice == (if variant == RetryPackage then None else Some(GaveUp(names[i], MaxRetryCount)))
      {
        assert r[i] == rest[i - 1] && names[i] == names[1..][i - 1];
      }
    }
  }

  /** On a fresh analyzer exactly the first `min(k, maxRetryCount)` of `k`
      calls return true, the `i`-th of them announcing attempt `i`, and
      `retryCount` never leaves 0..maxRetryCount. */
  lemma FreshAnalyzer(variant: Variant, names: seq<string>)
    ensures var r := Replay(variant, 0, names);
      && (forall i :: 0 <= i < |r| ==> (r[i].retry <==> i < Min(|names|, MaxRetryCount)))
      && (forall i :: 0 <= i < |r| && r[i].retry ==> r[i].notice == Some(Retrying(names[i], i + 1)))
      && (forall i :: 0 <= i < |r| ==> 0 <= r[i].count <= MaxRetryCount)
  {
    ReplayFrom(variant, 0, names);
  }
}
