/** The batch runner: the attempt loop for one bug pair under the static or
    adaptive retry policy, the summary row it writes, and the loop over the
    rows of the pair table. Docker is an oracle that says, for each attempt,
    what its commands printed. */
module Batch {
  import opened Wrappers
  import opened Text
  import opened Numbers
  import opened Stats
  import opened Columns

  datatype Mode = Static | Adaptive

  /** The command-line settings that steer the attempt loop. */
  datatype Config = Config(mode: Mode, maxRetries: int, cpuThreshold: real, memThreshold: real)

  /** What Docker reports for one attempt: `docker wait` (return code and
      output), the output of the `docker inspect` fallback, the failure type
      found in the container's log, and the `docker stats` polls (return
      code and output of each) made while the container ran. */
  datatype Run = Run(waitCode: int, waitOut: string, inspectOut: string,
                     failureType: string, polls: seq<(int, string)>)

  /** The entry kept in `attempts_meta` for one attempt; the log file name
      is left out. */
  datatype AttemptRecord = AttemptRecord(attempt: nat, exitCode: int, failureType: string, metrics: Metrics)

  /** One row of the results table. */
  datatype Summary = Summary(pairId: string, image: Option<string>, mode: Mode, attemptsTotal: int,
                             success: bool, finalFailure: string, metrics: Metrics,
                             attempts: seq<AttemptRecord>)

  // ---------------------------------------------------------------------
  // One attempt
  // ---------------------------------------------------------------------

  /** The exit code of the container: the output of `docker wait` when that
      succeeded and printed only digits, otherwise the output of `docker
      inspect` read as an integer, otherwise -1. */
  function ExitCode(run: Run): (code: int)
    ensures run.waitCode == 0 && |Strip(run.waitOut)| > 0 && AllDigits(Strip(run.waitOut)) ==>
      code == DigitsValue(Strip(run.waitOut))
    ensures !(run.waitCode == 0 && |Strip(run.waitOut)| > 0 && AllDigits(Strip(run.waitOut))) ==>
      code == PyInt(Strip(run.inspectOut)).GetOr(-1)
  {
    var waited := Strip(run.waitOut);
    if run.waitCode == 0 && |waited| > 0 && AllDigits(waited) then DigitsValue(waited)
    else
      match PyInt(Strip(run.inspectOut))
      case Some(n) => n
      case None => -1
  }

  /** `docker wait` printing a number gives that number as the exit code. */
  lemma ExitCodeOfWait(n: nat, inspectOut: string, failureType: string, polls: seq<(int, string)>)
    ensures ExitCode(Run(0, NatToString(n), inspectOut, failureType, polls)) == n
  {
    var s := NatToString(n);
    TrimOfTrimmed(s, IsSpace);
  }

  /** A failed `docker wait` leaves the code `docker inspect` printed. */
  lemma ExitCodeOfInspect(waitCode: int, waitOut: string, i: int, failureType: string, polls: seq<(int, string)>)
    requires waitCode != 0
    ensures ExitCode(Run(waitCode, waitOut, IntToString(i), failureType, polls)) == i
  {
    var s := IntToString(i);
    assert forall k :: 0 <= k < |s| ==> !IsSpace(s[k]);
    TrimOfTrimmed(s, IsSpace);
    PyIntOfString(i);
  }

  /** The record of attempt number `attempt`, as the loop body builds it
      from what Docker reports. */
  function Record(attempt: nat, docker: nat -> Run): (rec: AttemptRecord)
    ensures rec.attempt == attempt && rec.exitCode == ExitCode(docker(attempt))
    ensures rec.failureType == docker(attempt).failureType
    ensures rec.metrics == Aggregate(CollectSamples(PollOutcomes(docker(attempt).polls)))
  {
    var run := docker(attempt);
    AttemptRecord(attempt, ExitCode(run), run.failureType,
                  Aggregate(CollectSamples(PollOutcomes(run.polls))))
  }

  /** An attempt's peaks are taken over the readings of its polls up to the
      first poll whose memory text raises, or of all polls when none does. */
  lemma RecordReadsPolls(attempt: nat, docker: nat -> Run, k: nat)
    requires var outcomes := PollOutcomes(docker(attempt).polls);
      && k <= |outcomes|
      && (forall j :: 0 <= j < k ==> outcomes[j].Ok?)
      && (k < |outcomes| ==> outcomes[k].Raised?)
    ensures Record(attempt, docker).metrics == Aggregate(Readings(PollOutcomes(docker(attempt).polls)[..k]))
  {
    CollectSamplesComplete(PollOutcomes(docker(attempt).polls), k);
  }

  /** The record of every attempt a pair could make. */
  function Records(docker: nat -> Run): nat -> AttemptRecord {
    (n: nat) => Record(n, docker)
  }

  /** `final_failure_reason` after a failed attempt: the failure type found
      in the log, or the exit code when none was found. */
  function FailureReason(rec: AttemptRecord): (reason: string)
    ensures reason != ""
    ensures rec.failureType != "" ==> reason == rec.failureType
    ensures rec.failureType == "" ==> reason == "exit_code_" + IntToString(rec.exitCode)
  {
    if rec.failureType != "" then rec.failureType else "exit_code_" + IntToString(rec.exitCode)
  }

  // ---------------------------------------------------------------------
  // The retry policy
  // ---------------------------------------------------------------------

  /** The adaptive policy's CPU test: no reading, or a peak within the threshold. */
  predicate CpuOk(cfg: Config, m: Metrics) {
    m.maxCpu.None? || m.maxCpu.value <= cfg.cpuThreshold
  }

  /** The adaptive policy's memory test: no figure, or enough available memory. */
  predicate MemOk(cfg: Config, m: Metrics) {
    m.avail.None? || m.avail.value >= cfg.memThreshold
  }

  /** Whether a failed attempt is followed by another one: retries must be
      left, and under the adaptive policy the attempt's metrics must pass. */
  predicate RetryAllowed(cfg: Config, attempt: nat, m: Metrics) {
    attempt < cfg.maxRetries && (cfg.mode == Static || (CpuOk(cfg, m) && MemOk(cfg, m)))
  }

  /** The attempts made from attempt number `attempt` on, where `runs(n)`
      is the record attempt n would produce: the k-th is attempt
      `attempt + k`, every one but the last failed and was allowed a retry,
      and the last one succeeded or was refused one. */
  function AttemptsFrom(cfg: Config, runs: nat -> AttemptRecord, attempt: nat): (r: seq<AttemptRecord>)
    requires attempt <= cfg.maxRetries
    ensures 1 <= |r| <= cfg.maxRetries - attempt + 1
    ensures forall k :: 0 <= k < |r| ==> r[k] == runs(attempt + k)
    ensures forall k :: 0 <= k < |r| - 1 ==> r[k].exitCode != 0 && RetryAllowed(cfg, attempt + k, r[k].metrics)
    ensures r[|r| - 1].exitCode == 0 || !RetryAllowed(cfg, attempt + |r| - 1, r[|r| - 1].metrics)
    decreases cfg.maxRetries - attempt
  {
    var rec := runs(attempt);
    if rec.exitCode == 0 || !RetryAllowed(cfg, attempt, rec.metrics) then [rec]
    else
      var rest := AttemptsFrom(cfg, runs, attempt + 1);
      assert forall k :: 1 <= k < |rest| + 1 ==> ([rec] + rest)[k] == rest[k - 1];
      [rec] + rest
  }

  /** Only the last attempt made can have exited with 0. */
  lemma SuccessIsLast(cfg: Config, runs: nat -> AttemptRecord, attempt: nat)
    requires attempt <= cfg.maxRetries
    ensures var r := AttemptsFrom(cfg, runs, attempt);
      (exists k :: 0 <= k < |r| && r[k].exitCode == 0) <==> r[|r| - 1].exitCode == 0
  {
    var r := AttemptsFrom(cfg, runs, attempt);
    if r[|r| - 1].exitCode == 0 {
      assert 0 <= |r| - 1 < |r|;
    }
  }

  /** The summary row of one pair whose attempt n would produce `runs(n)`,
      or None when `max_retries` is negative: then no attempt runs and
      building the row fails on the unset peak figures, so the row is never
      written. The row counts the attempts made, reports success exactly
      when some attempt exited with 0 (which can only be the last), carries
      the last attempt's figures, and has an empty failure reason exactly on
      success. */
  function Summarize(pairId: string, image: Option<string>, cfg: Config, runs: nat -> AttemptRecord): (r: Option<Summary>)
    ensures r.None? <==> cfg.maxRetries < 0
    ensures r.Some? ==>
      var s := r.value;
      && s.pairId == pairId && s.image == image && s.mode == cfg.mode
      && s.attempts == AttemptsFrom(cfg, runs, 0)
      && 1 <= s.attemptsTotal == |s.attempts| <= cfg.maxRetries + 1
      && (s.success <==> exists k :: 0 <= k < |s.attempts| && s.attempts[k].exitCode == 0)
      && (s.success <==> s.finalFailure == "")
      && (!s.success ==> s.finalFailure == FailureReason(s.attempts[|s.attempts| - 1]))
      && s.metrics == s.attempts[|s.attempts| - 1].metrics
  {
    if cfg.maxRetries < 0 then None
    else
      var meta := AttemptsFrom(cfg, runs, 0);
      var last := meta[|meta| - 1];
      var success := last.exitCode == 0;
      SuccessIsLast(cfg, runs, 0);
      Some(Summary(pairId, image, cfg.mode, |meta|, success,
                   if success then "" else FailureReason(last), last.metrics, meta))
  }

  /** `xs` is a complete run of attempts from attempt number `attempt` on:
      each is the record its attempt produces, each but the last failed and
      was allowed a retry, and the last succeeded or was refused one. */
  ghost predicate IsAttemptRun(cfg: Config, runs: nat -> AttemptRecord, attempt: nat, xs: seq<AttemptRecord>) {
    && |xs| >= 1
    && (forall k :: 0 <= k < |xs| ==> xs[k] == runs(attempt + k))
    && (forall k :: 0 <= k < |xs| - 1 ==> xs[k].exitCode != 0 && RetryAllowed(cfg, attempt + k, xs[k].metrics))
    && (xs[|xs| - 1].exitCode == 0 || !RetryAllowed(cfg, attempt + |xs| - 1, xs[|xs| - 1].metrics))
  }

  /** A complete run of more than one attempt goes on with a complete run
      from the next attempt. */
  lemma RunTail(cfg: Config, runs: nat -> AttemptRecord, attempt: nat, xs: seq<AttemptRecord>)
    requires IsAttemptRun(cfg, runs, attempt, xs) && |xs| > 1
    ensures attempt + 1 <= cfg.maxRetries && IsAttemptRun(cfg, runs, attempt + 1, xs[1..])
  {
    assert RetryAllowed(cfg, attempt + 0, xs[0].metrics);
    forall k | 0 <= k < |xs[1..]| ensures xs[1..][k] == runs(attempt + 1 + k) {
      assert xs[1..][k] == xs[k + 1];
    }
    forall k | 0 <= k < |xs[1..]| - 1
      ensures xs[1..][k].exitCode != 0 && RetryAllowed(cfg, attempt + 1 + k, xs[1..][k].metrics)
    {
      assert xs[1..][k] == xs[k + 1];
    }
  }

  /** `AttemptsFrom` is the only complete run of attempts. */
  lemma {:induction false} AttemptRunUnique(cfg: Config, runs: nat -> AttemptRecord, attempt: nat, xs: seq<AttemptRecord>)
    requires attempt <= cfg.maxRetries
    ensures IsAttemptRun(cfg, runs, attempt, xs) <==> xs == AttemptsFrom(cfg, runs, attempt)
    decreases |xs|
  {
    if IsAttemptRun(cfg, runs, attempt, xs) {
      assert xs[0] == runs(attempt + 0);
      if |xs| > 1 {
        RunTail(cfg, runs, attempt, xs);
        AttemptRunUnique(cfg, runs, attempt + 1, xs[1..]);
        assert xs == [xs[0]] + xs[1..];
      } else {
        assert xs == [runs(attempt)];
      }
    }
  }

  /** The row built from a complete run of attempts. */
  lemma SummarizeRun(pairId: string, image: Option<string>, cfg: Config, runs: nat -> AttemptRecord, xs: seq<AttemptRecord>)
    requires cfg.maxRetries >= 0 && IsAttemptRun(cfg, runs, 0, xs)
    ensures var last := xs[|xs| - 1];
      Summarize(pairId, image, cfg, runs) == Some(Summary(pairId, image, cfg.mode, |xs|, last.exitCode == 0,
        if last.exitCode == 0 then "" else FailureReason(last), last.metrics, xs))
  {
    AttemptRunUnique(cfg, runs, 0, xs);
  }

  /** The attempt loop of `run_pair` as written, with its `break` and
      `continue`, and `attempts_total` computed from the loop counter the
      way the row does; `runs(n)` is what attempt n yields (for a pair run
      against Docker, `Records(docker)`). It produces exactly the row
      `Summarize` describes. */
  method RunPair(pairId: string, image: Option<string>, cfg: Config, runs: nat -> AttemptRecord) returns (r: Option<Summary>)
    ensures r == Summarize(pairId, image, cfg, runs)
  {
    var attempt: nat := 0;
    var success := false;
    var finalFailure := "";
    var meta: seq<AttemptRecord> := [];
    var metrics: Option<Metrics> := None;
    while attempt <= cfg.maxRetries && !success
      invariant attempt <= cfg.maxRetries || attempt == 0
      invariant !success && |meta| == attempt
      invariant metrics.None? <==> attempt == 0
      invariant forall k :: 0 <= k < |meta| ==>
        meta[k] == runs(k) && meta[k].exitCode != 0 && RetryAllowed(cfg, k, meta[k].metrics)
      decreases cfg.maxRetries - attempt
    {
      var rec := runs(attempt);
      meta := meta + [rec];
      metrics := Some(rec.metrics);
      if rec.exitCode == 0 {
        success := true;
        finalFailure := "";
        break;
      } else {
        finalFailure := FailureReason(rec);
        if attempt < cfg.maxRetries {
          var doRetry := cfg.mode == Static || (CpuOk(cfg, rec.metrics) && MemOk(cfg, rec.metrics));
          if doRetry {
            attempt := attempt + 1;
            continue;
          } else {
            break;
          }
        } else {
          break;
        }
      }
    }
    if metrics.None? {
      return None;
    }
    assert IsAttemptRun(cfg, runs, 0, meta);
    SummarizeRun(pairId, image, cfg, runs, meta);
    return Some(Summary(pairId, image, cfg.mode, attempt + (if success then 1 else 1), success, finalFailure,
                        metrics.value, meta));
  }

  // ---------------------------------------------------------------------
  // How the two policies relate
  // ---------------------------------------------------------------------

  /** The adaptive policy makes an initial run of the attempts the static
      policy makes with the same settings: it can only stop earlier. */
  lemma {:induction false} AdaptiveIsPrefixOfStatic(cfg: Config, runs: nat -> AttemptRecord, attempt: nat)
    requires attempt <= cfg.maxRetries
    ensures var adaptive := AttemptsFrom(cfg.(mode := Adaptive), runs, attempt);
      var fixed := AttemptsFrom(cfg.(mode := Static), runs, attempt);
      |adaptive| <= |fixed| && adaptive == fixed[..|adaptive|]
    decreases cfg.maxRetries - attempt
  {
    var rec := runs(attempt);
    if rec.exitCode != 0 && RetryAllowed(cfg.(mode := Adaptive), attempt, rec.metrics) {
      AdaptiveIsPrefixOfStatic(cfg, runs, attempt + 1);
      var a := AttemptsFrom(cfg.(mode := Adaptive), runs, attempt + 1);
      var s := AttemptsFrom(cfg.(mode := Static), runs, attempt + 1);
      assert ([rec] + s)[..|a| + 1] == [rec] + s[..|a|];
    }
  }

  /** Under the static policy, a pair whose every run fails gets exactly
      `max_retries + 1` attempts. */
  lemma {:induction false} StaticExhaustsRetries(cfg: Config, runs: nat -> AttemptRecord, attempt: nat)
    requires cfg.mode == Static && attempt <= cfg.maxRetries
    requires forall n: nat :: n <= cfg.maxRetries ==> runs(n).exitCode != 0
    ensures |AttemptsFrom(cfg, runs, attempt)| == cfg.maxRetries - attempt + 1
    decreases cfg.maxRetries - attempt
  {
    if attempt < cfg.maxRetries {
      StaticExhaustsRetries(cfg, runs, attempt + 1);
    }
  }

  /** Under either policy, a pair whose first run succeeds gets one attempt
      and succeeds; one whose runs all fail never succeeds. */
  lemma SuccessFollowsRuns(pairId: string, image: Option<string>, cfg: Config, runs: nat -> AttemptRecord)
    requires cfg.maxRetries >= 0
    ensures runs(0).exitCode == 0 ==>
      Summarize(pairId, image, cfg, runs).value.success && Summarize(pairId, image, cfg, runs).value.attemptsTotal == 1
    ensures (forall n: nat :: n <= cfg.maxRetries ==> runs(n).exitCode != 0) ==>
      !Summarize(pairId, image, cfg, runs).value.success
  {
    var meta := AttemptsFrom(cfg, runs, 0);
    if forall n: nat :: n <= cfg.maxRetries ==> runs(n).exitCode != 0 {
      forall k | 0 <= k < |meta| ensures meta[k].exitCode != 0 {
        assert meta[k] == runs(k);
      }
    }
  }

  /** For a pair run against Docker, `attempts_meta` numbers its attempts
      0, 1, …, n - 1, and `attempts_total` is n. */
  lemma AttemptsNumbered(pairId: string, image: Option<string>, cfg: Config, docker: nat -> Run)
    requires cfg.maxRetries >= 0
    ensures var s := Summarize(pairId, image, cfg, Records(docker)).value;
      && s.attemptsTotal == |s.attempts|
      && forall k :: 0 <= k < |s.attempts| ==> s.attempts[k].attempt == k
  {
    var s := Summarize(pairId, image, cfg, Records(docker)).value;
    forall k | 0 <= k < |s.attempts| ensures s.attempts[k].attempt == k {
      assert s.attempts[k] == Records(docker)(k);
    }
  }

  // ---------------------------------------------------------------------
  // The rows of the pair table
  // ---------------------------------------------------------------------

  /** `row.get(column)`, with no column meaning no value. */
  function Cell(row: map<string, string>, column: Option<string>): (r: Option<string>)
    ensures r.Some? <==> column.Some? && column.value in row
    ensures r.Some? ==> r.value == row[column.value]
  {
    if column.Some? && column.value in row then Some(row[column.value]) else None
  }

  /** The first eight characters of a fresh identifier. */
  function ShortId(uuid: string): (r: string)
    ensures |r| == if |uuid| < 8 then |uuid| else 8
    ensures r == uuid[..|r|]
  {
    if |uuid| <= 8 then uuid else uuid[..8]
  }

  /** The pair identifier of a row: the identifier column's value when it is
      non-empty, else the `pair_id` value when non-empty, else the first
      eight characters of a fresh identifier. */
  function PairId(row: map<string, string>, idColumn: Option<string>, uuid: string): (r: string)
    ensures Truthy(Cell(row, idColumn)) ==> r == row[idColumn.value]
    ensures !Truthy(Cell(row, idColumn)) && Truthy(Cell(row, Some("pair_id"))) ==> r == row["pair_id"]
    ensures !Truthy(Cell(row, idColumn)) && !Truthy(Cell(row, Some("pair_id"))) ==> r == ShortId(uuid)
  {
    var byId := Cell(row, idColumn);
    var byPairId := Cell(row, Some("pair_id"));
    if Truthy(byId) then byId.value
    else if Truthy(byPairId) then byPairId.value
    else ShortId(uuid)
  }

  /** The rows written for a table: one per row, in row order, each for the
      row's own identifier and image and its own Docker runs; none at all
      when `max_retries` is negative, since every row then fails and is
      skipped. `docker(i)` reports the runs of row `i` and `uuid(i)` is
      the fresh identifier drawn for it. */
  function RunBatch(rows: seq<map<string, string>>, columns: Columns, cfg: Config,
                    docker: nat -> nat -> Run, uuid: nat -> string): (r: seq<Summary>)
    ensures cfg.maxRetries < 0 ==> r == []
    ensures cfg.maxRetries >= 0 ==> |r| == |rows| && forall i :: 0 <= i < |rows| ==>
      Some(r[i]) == Summarize(PairId(rows[i], columns.id, uuid(i)), Cell(rows[i], Some(columns.image)), cfg, Records(docker(i)))
  {
    if cfg.maxRetries < 0 then []
    else
      seq(|rows|, i requires 0 <= i < |rows| =>
        Summarize(PairId(rows[i], columns.id, uuid(i)), Cell(rows[i], Some(columns.image)), cfg, Records(docker(i))).value)
  }
}
