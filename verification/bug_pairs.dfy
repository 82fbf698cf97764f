/** `run_retry_test`: each BugSwarm pair's buggy snippet is run up to three
    times; every attempt appends a line to the retry log, a failed attempt
    also appends its error output, and a pair that fails all three attempts
    gets a closing "MAX RETRIES REACHED" line. */
module BugPairs {
  import opened Wrappers
  import opened Text
  import opened Numbers
  import opened RetryLog

  /** `max_attempts`. */
  const MaxAttempts: nat := 3

  /** What running the snippet once gives: the return code and the text on
      standard error. */
  datatype Outcome = Outcome(returnCode: int, stderr: string)

  /** One line of the retry log, before it is written out. */
  datatype LogLine =
    | AttemptLine(timestamp: string, pairId: string, attempt: nat, passed: bool)
    | ErrorLine(timestamp: string, stderr: string)
    | MaxRetriesLine(timestamp: string, pairId: string)

  /** The status word of an attempt. */
  function Verdict(passed: bool): string {
    if passed then "PASS" else "FAIL"
  }

  /** The text of a log line, as the runner formats it: the timestamp,
      " INFO ", and the line's message. */
  function Render(line: LogLine): string {
    line.timestamp + " INFO " + Message(line)
  }

  /** The message a log line carries after " INFO ". */
  function Message(line: LogLine): string {
    match line
    case AttemptLine(_, id, attempt, passed) =>
      "Pair " + id + " | Attempt " + NatToString(attempt) + " | " + Verdict(passed)
    case ErrorLine(_, stderr) => "Error: " + stderr
    case MaxRetriesLine(_, id) => "Pair " + id + " | MAX RETRIES REACHED"
  }

  /** The lines the runner appends for a pair from attempt `attempt` on,
      where `run(a)` is the outcome of attempt `a` and `clock(a)` the
      timestamp taken right after it. */
  function Transcript(pairId: string, run: nat -> Outcome, clock: nat -> string, attempt: nat): seq<LogLine>
    requires 1 <= attempt <= MaxAttempts
    decreases MaxAttempts - attempt
  {
    var ts := clock(attempt);
    if run(attempt).returnCode == 0 then [AttemptLine(ts, pairId, attempt, true)]
    else
      [AttemptLine(ts, pairId, attempt, false), ErrorLine(ts, run(attempt).stderr)]
      + if attempt == MaxAttempts then [MaxRetriesLine(ts, pairId)]
        else Transcript(pairId, run, clock, attempt + 1)
  }

  /** `run_retry_test`, with the snippet's runs and the clock as oracles. */
  method RunRetryTest(pairId: string, run: nat -> Outcome, clock: nat -> string) returns (log: seq<LogLine>)
    ensures log == Transcript(pairId, run, clock, 1)
  {
    log := [];
    for attempt: nat := 1 to MaxAttempts + 1
      invariant attempt <= MaxAttempts ==> log + Transcript(pairId, run, clock, attempt) == Transcript(pairId, run, clock, 1)
      invariant attempt == MaxAttempts + 1 ==> log == Transcript(pairId, run, clock, 1)
    {
      var result := run(attempt);
      var timestamp := clock(attempt);
      if result.returnCode == 0 {
        log := log + [AttemptLine(timestamp, pairId, attempt, true)];
        break;
      } else {
        log := log + [AttemptLine(timestamp, pairId, attempt, false), ErrorLine(timestamp, result.stderr)];
      }
      if attempt == MaxAttempts {
        log := log + [MaxRetriesLine(timestamp, pairId)];
      }
    }
  }

  // ---------------------------------------------------------------------
  // The shape of a pair's transcript
  // ---------------------------------------------------------------------

  predicate IsAttempt(line: LogLine) { line.AttemptLine? }
  predicate IsPass(line: LogLine) { line.AttemptLine? && line.passed }
  predicate IsFail(line: LogLine) { line.AttemptLine? && !line.passed }

  /** The lines of `log` that satisfy `keep`, in order. */
  function Filter(log: seq<LogLine>, keep: LogLine -> bool): (r: seq<LogLine>)
  {
    if |log| == 0 then []
    else Filter(log[..|log| - 1], keep) + (if keep(log[|log| - 1]) then [log[|log| - 1]] else [])
  }

  lemma {:induction false} FilterAppend(a: seq<LogLine>, b: seq<LogLine>, keep: LogLine -> bool)
    ensures Filter(a + b, keep) == Filter(a, keep) + Filter(b, keep)
  {
    if |b| == 0 {
      assert a + b == a;
    } else {
      FilterAppend(a, b[..|b| - 1], keep);
      assert (a + b)[..|a + b| - 1] == a + b[..|b| - 1];
    }
  }

  lemma FilterOne(line: LogLine, keep: LogLine -> bool)
    ensures Filter([line], keep) == if keep(line) then [line] else []
  {
    assert [line][..0] == [];
  }

  lemma FilterCons(a: LogLine, e: LogLine, rest: seq<LogLine>, keep: LogLine -> bool)
    requires !keep(e)
    ensures Filter([a, e] + rest, keep) == (if keep(a) then [a] else []) + Filter(rest, keep)
  {
    assert [a, e] + rest == [a] + ([e] + rest);
    FilterAppend([a], [e] + rest, keep);
    FilterAppend([e], rest, keep);
    FilterOne(a, keep);
    FilterOne(e, keep);
  }

  /** The number of lines of `log` that satisfy `keep`. */
  function CountIf(log: seq<LogLine>, keep: LogLine -> bool): nat {
    if |log| == 0 then 0
    else CountIf(log[..|log| - 1], keep) + (if keep(log[|log| - 1]) then 1 else 0)
  }

  lemma {:induction false} CountIfAppend(a: seq<LogLine>, b: seq<LogLine>, keep: LogLine -> bool)
    ensures CountIf(a + b, keep) == CountIf(a, keep) + CountIf(b, keep)
  {
    if |b| == 0 {
      assert a + b == a;
    } else {
      CountIfAppend(a, b[..|b| - 1], keep);
      assert (a + b)[..|a + b| - 1] == a + b[..|b| - 1];
    }
  }

  lemma {:induction false} CountIsFilterLength(log: seq<LogLine>, keep: LogLine -> bool)
    ensures CountIf(log, keep) == |Filter(log, keep)|
  {
    if |log| > 0 {
      CountIsFilterLength(log[..|log| - 1], keep);
    }
  }

  /** Every attempt line is a pass or a fail. */
  lemma {:induction false} PassesPlusFails(log: seq<LogLine>)
    ensures CountIf(log, IsPass) + CountIf(log, IsFail) == CountIf(log, IsAttempt)
  {
    if |log| > 0 {
      PassesPlusFails(log[..|log| - 1]);
    }
  }

  lemma CountCons(a: LogLine, e: LogLine, rest: seq<LogLine>, keep: LogLine -> bool)
    requires !keep(e)
    ensures CountIf([a, e] + rest, keep) == (if keep(a) then 1 else 0) + CountIf(rest, keep)
  {
    CountIfAppend([a, e], rest, keep);
    assert [a, e][..1] == [a] && [a][..0] == [];
    assert CountIf([a], keep) == if keep(a) then 1 else 0;
  }

  /** What the attempt lines of a transcript from attempt `attempt` on look
      like: numbered consecutively from `attempt`, at most up to
      `max_attempts`; each says PASS exactly when its run returned 0; every
      one but the last failed, and they stop short of `max_attempts` only at
      a pass. */
  ghost predicate AttemptsShape(pairId: string, run: nat -> Outcome, clock: nat -> string, attempt: nat, atts: seq<LogLine>) {
    && 1 <= |atts| <= MaxAttempts - attempt + 1
    && (forall j :: 0 <= j < |atts| ==>
          atts[j] == AttemptLine(clock(attempt + j), pairId, attempt + j, run(attempt + j).returnCode == 0))
    && (forall j :: 0 <= j < |atts| - 1 ==> !atts[j].passed)
    && (|atts| < MaxAttempts - attempt + 1 ==> atts[|atts| - 1].passed)
  }

  lemma ShapeCons(pairId: string, run: nat -> Outcome, clock: nat -> string, attempt: nat, later: seq<LogLine>)
    requires 1 <= attempt < MaxAttempts && run(attempt).returnCode != 0
    requires AttemptsShape(pairId, run, clock, attempt + 1, later)
    ensures AttemptsShape(pairId, run, clock, attempt, [AttemptLine(clock(attempt), pairId, attempt, false)] + later)
  {
    var atts := [AttemptLine(clock(attempt), pairId, attempt, false)] + later;
    forall j | 1 <= j < |atts|
      ensures atts[j] == AttemptLine(clock(attempt + j), pairId, attempt + j, run(attempt + j).returnCode == 0)
    {
      assert atts[j] == later[j - 1];
      assert attempt + 1 + (j - 1) == attempt + j;
    }
  }

  lemma ShapeOne(pairId: string, run: nat -> Outcome, clock: nat -> string, attempt: nat)
    requires 1 <= attempt <= MaxAttempts
    requires run(attempt).returnCode == 0 || attempt == MaxAttempts
    ensures AttemptsShape(pairId, run, clock, attempt, [AttemptLine(clock(attempt), pairId, attempt, run(attempt).returnCode == 0)])
  {
    assert attempt + 0 == attempt;
  }

  /** The attempt lines of a transcript have the shape above. */
  lemma {:induction false} TranscriptAttempts(pairId: string, run: nat -> Outcome, clock: nat -> string, attempt: nat)
    requires 1 <= attempt <= MaxAttempts
    ensures AttemptsShape(pairId, run, clock, attempt, Filter(Transcript(pairId, run, clock, attempt), IsAttempt))
    decreases MaxAttempts - attempt
  {
    var t := Transcript(pairId, run, clock, attempt);
    var ts := clock(attempt);
    var a := AttemptLine(ts, pairId, attempt, run(attempt).returnCode == 0);
    if run(attempt).returnCode == 0 {
      FilterOne(a, IsAttempt);
      assert Filter(t, IsAttempt) == [a];
      ShapeOne(pairId, run, clock, attempt);
    } else {
      var e := ErrorLine(ts, run(attempt).stderr);
      if attempt == MaxAttempts {
        var m := MaxRetriesLine(ts, pairId);
        assert t == [a, e] + [m];
        FilterCons(a, e, [m], IsAttempt);
        FilterOne(m, IsAttempt);
        assert Filter(t, IsAttempt) == [a];
        ShapeOne(pairId, run, clock, attempt);
      } else {
        var rest := Transcript(pairId, run, clock, attempt + 1);
        assert t == [a, e] + rest;
        FilterCons(a, e, rest, IsAttempt);
        TranscriptAttempts(pairId, run, clock, attempt + 1);
        ShapeCons(pairId, run, clock, attempt, Filter(rest, IsAttempt));
      }
    }
  }

  /** A passing attempt line is the last line written for the pair. */
  lemma {:induction false} PassIsLast(pairId: string, run: nat -> Outcome, clock: nat -> string, attempt: nat)
    requires 1 <= attempt <= MaxAttempts
    ensures var t := Transcript(pairId, run, clock, attempt);
      forall k :: 0 <= k < |t| && IsPass(t[k]) ==> k == |t| - 1
    decreases MaxAttempts - attempt
  {
    if run(attempt).returnCode != 0 && attempt < MaxAttempts {
      PassIsLast(pairId, run, clock, attempt + 1);
    }
  }

  /** Every FAIL line is followed by the error output of the same attempt,
      stamped with the same time. */
  lemma {:induction false} FailThenError(pairId: string, run: nat -> Outcome, clock: nat -> string, attempt: nat)
    requires 1 <= attempt <= MaxAttempts
    ensures var t := Transcript(pairId, run, clock, attempt);
      forall k :: 0 <= k < |t| && IsFail(t[k]) ==>
        k + 1 < |t| && t[k + 1] == ErrorLine(t[k].timestamp, run(t[k].attempt).stderr)
    decreases MaxAttempts - attempt
  {
    if run(attempt).returnCode != 0 && attempt < MaxAttempts {
      FailThenError(pairId, run, clock, attempt + 1);
    }
  }

  /** Whether some run from attempt `attempt` to `max_attempts` returns 0. */
  ghost predicate SomePassFrom(run: nat -> Outcome, attempt: nat) {
    exists b :: attempt <= b <= MaxAttempts && run(b).returnCode == 0
  }

  lemma SomePassStep(run: nat -> Outcome, attempt: nat)
    requires 1 <= attempt < MaxAttempts && run(attempt).returnCode != 0
    ensures SomePassFrom(run, attempt) <==> SomePassFrom(run, attempt + 1)
  {
    if SomePassFrom(run, attempt) {
      var b :| attempt <= b <= MaxAttempts && run(b).returnCode == 0;
      assert attempt + 1 <= b;
    }
  }

  lemma SomePassAtLast(run: nat -> Outcome)
    ensures SomePassFrom(run, MaxAttempts) <==> run(MaxAttempts).returnCode == 0
  {
    if run(MaxAttempts).returnCode == 0 {
      assert MaxAttempts <= MaxAttempts <= MaxAttempts;
    }
  }

  /** The "MAX RETRIES REACHED" line can only be the last line; it is there
      exactly when every attempt from `attempt` to `max_attempts` failed, and
      then carries the last attempt's timestamp. */
  lemma {:induction false} MaxRetriesLast(pairId: string, run: nat -> Outcome, clock: nat -> string, attempt: nat)
    requires 1 <= attempt <= MaxAttempts
    ensures var t := Transcript(pairId, run, clock, attempt);
      && |t| > 0
      && (forall k :: 0 <= k < |t| - 1 ==> !t[k].MaxRetriesLine?)
      && (t[|t| - 1].MaxRetriesLine? <==> !SomePassFrom(run, attempt))
      && (t[|t| - 1].MaxRetriesLine? ==> t[|t| - 1] == MaxRetriesLine(clock(MaxAttempts), pairId))
    decreases MaxAttempts - attempt
  {
    var t := Transcript(pairId, run, clock, attempt);
    var ts := clock(attempt);
    if run(attempt).returnCode == 0 {
      assert t == [AttemptLine(ts, pairId, attempt, true)];
      assert attempt <= attempt <= MaxAttempts && run(attempt).returnCode == 0;
    } else if attempt == MaxAttempts {
      assert t == [AttemptLine(ts, pairId, attempt, false), ErrorLine(ts, run(attempt).stderr), MaxRetriesLine(ts, pairId)];
      SomePassAtLast(run);
    } else {
      var rest := Transcript(pairId, run, clock, attempt + 1);
      var head := [AttemptLine(ts, pairId, attempt, false), ErrorLine(ts, run(attempt).stderr)];
      assert t == head + rest;
      MaxRetriesLast(pairId, run, clock, attempt + 1);
      SomePassStep(run, attempt);
      assert t[|t| - 1] == rest[|rest| - 1];
      forall k | 0 <= k < |t| - 1 ensures !t[k].MaxRetriesLine? {
        if k >= 2 {
          assert t[k] == rest[k - 2];
        }
      }
    }
  }

  /** The "MAX RETRIES REACHED" line is written exactly when all
      `max_attempts` attempts failed; it is then the last line and carries
      the last attempt's timestamp. */
  lemma MaxRetriesIffAllFailed(pairId: string, run: nat -> Outcome, clock: nat -> string)
    ensures var t := Transcript(pairId, run, clock, 1);
      && ((exists k :: 0 <= k < |t| && t[k].MaxRetriesLine?) <==> forall b :: 1 <= b <= MaxAttempts ==> run(b).returnCode != 0)
      && (forall k :: 0 <= k < |t| && t[k].MaxRetriesLine? ==> k == |t| - 1 && t[k] == MaxRetriesLine(clock(MaxAttempts), pairId))
  {
    MaxRetriesLast(pairId, run, clock, 1);
    var t := Transcript(pairId, run, clock, 1);
    assert t[|t| - 1].MaxRetriesLine? ==> exists k :: 0 <= k < |t| && t[k].MaxRetriesLine?;
  }

  /** At most one attempt passes, and one does exactly when some run from
      attempt `attempt` on returns 0. */
  lemma {:induction false} TranscriptPasses(pairId: string, run: nat -> Outcome, clock: nat -> string, attempt: nat)
    requires 1 <= attempt <= MaxAttempts
    ensures CountIf(Transcript(pairId, run, clock, attempt), IsPass) == if SomePassFrom(run, attempt) then 1 else 0
    decreases MaxAttempts - attempt
  {
    var t := Transcript(pairId, run, clock, attempt);
    var ts := clock(attempt);
    var a := AttemptLine(ts, pairId, attempt, run(attempt).returnCode == 0);
    if run(attempt).returnCode == 0 {
      assert t == [a];
      assert [a][..0] == [];
    } else {
      var e := ErrorLine(ts, run(attempt).stderr);
      if attempt == MaxAttempts {
        var m := MaxRetriesLine(ts, pairId);
        assert t == [a, e] + [m];
        CountCons(a, e, [m], IsPass);
        assert [m][..0] == [];
        SomePassAtLast(run);
      } else {
        var rest := Transcript(pairId, run, clock, attempt + 1);
        assert t == [a, e] + rest;
        CountCons(a, e, rest, IsPass);
        TranscriptPasses(pairId, run, clock, attempt + 1);
        SomePassStep(run, attempt);
      }
    }
  }

  /** Every line of the transcript is readable when the timestamps and the
      error output are. */
  lemma {:induction false} TranscriptReadable(pairId: string, run: nat -> Outcome, clock: nat -> string, attempt: nat)
    requires 1 <= attempt <= MaxAttempts
    requires |pairId| > 0 && AllDigits(pairId)
    requires forall b :: attempt <= b <= MaxAttempts ==>
      |clock(b)| > 0 && !IsSpace(clock(b)[0]) && 'P' !in clock(b) && 'P' !in run(b).stderr
    ensures var t := Transcript(pairId, run, clock, attempt);
      forall k :: 0 <= k < |t| ==> Readable(t[k])
    decreases MaxAttempts - attempt
  {
    if run(attempt).returnCode != 0 && attempt < MaxAttempts {
      TranscriptReadable(pairId, run, clock, attempt + 1);
    }
  }

  // ---------------------------------------------------------------------
  // Reading the log back
  // ---------------------------------------------------------------------

  /** What a log line needs for the retry-log counter to read it as it was
      meant: the timestamp does not start with white space and holds no 'P'
      (the `%Y-%m-%d %H:%M:%S` format meets both), the pair id is a number,
      and error output holds no 'P'. */
  predicate Readable(line: LogLine) {
    && |line.timestamp| > 0 && !IsSpace(line.timestamp[0]) && 'P' !in line.timestamp
    && match line
       case AttemptLine(_, id, _, _) => |id| > 0 && AllDigits(id)
       case ErrorLine(_, stderr) => 'P' !in stderr
       case MaxRetriesLine(_, id) => |id| > 0 && AllDigits(id)
  }

  /** The status word an attempt line carries; other lines carry none. */
  function StatusWritten(line: LogLine): Option<string> {
    if line.AttemptLine? then Some(Verdict(line.passed)) else None
  }

  /** A stamped line starts with its timestamp, holds no 'P' up to its
      message, and ends as the message does. */
  lemma Stamped(ts: string, msg: string)
    requires |ts| > 0 && 'P' !in ts
    ensures var s := ts + " INFO " + msg;
      && |s| > 0 && s[0] == ts[0]
      && (|msg| > 0 ==> s[|s| - 1] == msg[|msg| - 1])
      && (forall j :: 0 <= j < |ts| + 6 ==> s[j] != 'P')
      && s[|ts| + 6..] == msg
  {
    var s := ts + " INFO " + msg;
    assert forall j :: 0 <= j < |ts| ==> s[j] == ts[j];
    assert forall j :: |ts| <= j < |ts| + 6 ==> s[j] == " INFO "[j - |ts|];
  }

  /** Where the attempt report starts on a rendered attempt line, and that
      the line neither starts nor ends with white space. */
  lemma AttemptLineText(line: LogLine) returns (p: nat)
    requires line.AttemptLine? && Readable(line)
    ensures var s := Render(line);
      && p <= |s| && |s| > 0 && !IsSpace(s[0]) && !IsSpace(s[|s| - 1])
      && (forall j :: 0 <= j < p ==> s[j] != 'P')
      && s[p..] == "Pair " + line.pairId + " | Attempt " + NatToString(line.attempt) + " | " + Verdict(line.passed) + ""
  {
    var word := Verdict(line.passed);
    var msg := Message(line);
    Stamped(line.timestamp, msg);
    assert msg[|msg| - 1] == word[3];
    assert msg + "" == msg;
    p := |line.timestamp| + 6;
  }

  lemma AttemptLineRead(line: LogLine)
    requires line.AttemptLine? && Readable(line)
    ensures LineStatus(Render(line)) == StatusWritten(line)
  {
    var p := AttemptLineText(line);
    StatusWordsAreWords();
    MatchWritten(line.pairId, line.attempt, Verdict(line.passed), "");
    NoReportWithoutP(Render(line), 0, p);
    ReadAt(Render(line), p, Verdict(line.passed));
  }

  lemma ErrorLineRead(line: LogLine)
    requires line.ErrorLine? && Readable(line)
    ensures LineStatus(Render(line)) == StatusWritten(line)
  {
    var s := Render(line);
    assert forall j :: 0 <= j < |s| ==> s[j] != 'P' by {
      assert s == line.timestamp + " INFO " + "Error: " + line.stderr;
    }
    StripKeepsAbsent(s, 'P');
    NoMatchWithoutP(Strip(s));
  }

  /** Past its leading 'P', the "MAX RETRIES REACHED" report of a numeric
      pair holds no 'P'. */
  lemma MaxReportOneP(pairId: string)
    requires AllDigits(pairId)
    ensures var report := "Pair " + pairId + " | MAX RETRIES REACHED";
      forall j :: 1 <= j < |report| ==> report[j] != 'P'
  {
    var tail := " | MAX RETRIES REACHED";
    var report := "Pair " + pairId + tail;
    forall j | 1 <= j < |report| ensures report[j] != 'P' {
      if j < 5 {
        assert report[j] == "Pair "[j];
      } else if j < 5 + |pairId| {
        assert report[j] == pairId[j - 5];
      } else {
        assert report[j] == tail[j - 5 - |pairId|];
      }
    }
  }

  lemma MaxRetriesLineRead(line: LogLine)
    requires line.MaxRetriesLine? && Readable(line)
    ensures LineStatus(Render(line)) == StatusWritten(line)
  {
    var ts := line.timestamp;
    var report := Message(line);
    var s := Render(line);
    var p := |ts| + 6;
    Stamped(ts, report);
    assert report[|report| - 1] == 'D';
    StripUnchanged(s);
    MaxReportOneP(line.pairId);
    assert forall j :: p < j < |s| ==> s[j] != 'P' by {
      assert forall j :: p < j < |s| ==> s[j] == report[j - p];
    }
    MaxRetriesNotMatched(line.pairId);
    NotFoundAround(s, p);
  }

  /** The retry-log counter reads back from every readable line the status
      the runner wrote on it: PASS or FAIL on an attempt line, nothing on an
      error line or on the "MAX RETRIES REACHED" line. */
  lemma RenderedStatus(line: LogLine)
    requires Readable(line)
    ensures LineStatus(Render(line)) == StatusWritten(line)
  {
    match line
    case AttemptLine(_, _, _, _) => AttemptLineRead(line);
    case ErrorLine(_, _) => ErrorLineRead(line);
    case MaxRetriesLine(_, _) => MaxRetriesLineRead(line);
  }

  /** The log lines as written out, one string per line. */
  function Rendered(log: seq<LogLine>): (r: seq<string>)
    ensures |r| == |log| && forall k :: 0 <= k < |log| ==> r[k] == Render(log[k])
  {
    seq(|log|, k requires 0 <= k < |log| => Render(log[k]))
  }

  lemma UpperOfStatusWords()
    ensures Upper("PASS") == "PASS" && Upper("FAIL") == "FAIL"
  {
    assert Upper("PASS") == "PASS";
    assert Upper("FAIL") == "FAIL";
  }

  /** The status written on a line is found exactly on attempt lines, and
      says PASS exactly on passes and FAIL exactly on fails. */
  lemma StatusWrittenSays(line: LogLine)
    ensures StatusWritten(line).Some? <==> IsAttempt(line)
    ensures Says(StatusWritten(line), "PASS") <==> IsPass(line)
    ensures Says(StatusWritten(line), "FAIL") <==> IsFail(line)
  {
    UpperOfStatusWords();
  }

  /** Counting the written lines with a reader that gets each line's status
      right gives the number of attempt lines, of passes and of fails. */
  lemma CountsOfLog(log: seq<LogLine>, status: string -> Option<string>)
    requires forall k :: 0 <= k < |log| ==> status(Render(log[k])) == StatusWritten(log[k])
    ensures Reports(Rendered(log), status) == CountIf(log, IsAttempt)
    ensures Reported(Rendered(log), status, "PASS") == CountIf(log, IsPass)
    ensures Reported(Rendered(log), status, "FAIL") == CountIf(log, IsFail)
  {
    CountsOfLines(Rendered(log), log, status);
  }

  /** The counts over lines on each of which the reader finds the status
      written on the matching log line. */
  lemma {:induction false} CountsOfLines(lines: seq<string>, log: seq<LogLine>, status: string -> Option<string>)
    requires |lines| == |log|
    requires forall k :: 0 <= k < |log| ==> status(lines[k]) == StatusWritten(log[k])
    ensures Reports(lines, status) == CountIf(log, IsAttempt)
    ensures Reported(lines, status, "PASS") == CountIf(log, IsPass)
    ensures Reported(lines, status, "FAIL") == CountIf(log, IsFail)
  {
    if |log| > 0 {
      var n := |log| - 1;
      CountsOfLines(lines[..n], log[..n], status);
      StatusWrittenSays(log[n]);
    }
  }

  /** Feeding one pair's transcript to the retry-log counter: it counts one
      report per attempt made, one pass when some attempt passed and none
      otherwise, and every other attempt as a fail. */
  lemma TranscriptReadBack(pairId: string, run: nat -> Outcome, clock: nat -> string)
    requires |pairId| > 0 && AllDigits(pairId)
    requires forall b :: 1 <= b <= MaxAttempts ==>
      |clock(b)| > 0 && !IsSpace(clock(b)[0]) && 'P' !in clock(b) && 'P' !in run(b).stderr
    ensures var t := Transcript(pairId, run, clock, 1);
      var passed := if SomePassFrom(run, 1) then 1 else 0;
      && Reports(Rendered(t), LineStatus) == |Filter(t, IsAttempt)|
      && Reported(Rendered(t), LineStatus, "PASS") == passed
      && Reported(Rendered(t), LineStatus, "FAIL") == |Filter(t, IsAttempt)| - passed
  {
    var t := Transcript(pairId, run, clock, 1);
    TranscriptReadable(pairId, run, clock, 1);
    forall k | 0 <= k < |t| ensures LineStatus(Render(t[k])) == StatusWritten(t[k]) {
      RenderedStatus(t[k]);
    }
    CountsOfLog(t, LineStatus);
    TranscriptPasses(pairId, run, clock, 1);
    PassesPlusFails(t);
    CountIsFilterLength(t, IsAttempt);
  }
}
