/** The retry-log counter: every line that contains an attempt report
    "Pair <digits> | Attempt <digits> | <word>" counts as one attempt, and
    the word, upper-cased, decides whether it counts as a pass or a fail. */
module RetryLog {
  import opened Wrappers
  import opened Text
  import opened Numbers

  /** The pattern class `\w`, restricted to ASCII. */
  predicate IsWordChar(c: char) {
    'a' <= c <= 'z' || 'A' <= c <= 'Z' || IsDigit(c) || c == '_'
  }

  /** The length of the longest run of `keep` characters at the front of
      `t`: how far a greedy repetition of the class reaches. */
  function RunLength(t: string, keep: char -> bool): (n: nat)
    ensures n <= |t|
  {
    if |t| > 0 && keep(t[0]) then 1 + RunLength(t[1..], keep) else 0
  }

  /** What is left of `t` once the literal `lit` is matched at its front, or
      None when `t` does not start with `lit`. */
  function After(lit: string, t: string): (r: Option<string>)
    ensures r.Some? ==> |lit| <= |t| && t[..|lit|] == lit && r.value == t[|lit|..]
  {
    if |lit| == 0 then Some(t)
    else if |t| > 0 && t[0] == lit[0] then
      var r := After(lit[1..], t[1..]);
      assert r.Some? ==> t[..|lit|] == [t[0]] + t[1..][..|lit| - 1];
      r
    else None
  }

  /** The attempt-report pattern matched at the very start of `t`: the word
      it captures, or None when it does not match there. The digit runs and
      the word are taken as long as they go, as the pattern's greedy
      repetitions do. */
  function MatchAttempt(t: string): (r: Option<string>)
    ensures r.Some? ==> |t| > 0 && t[0] == 'P'
  {
    match After("Pair ", t)
    case Some(rest) => AfterPair(rest)
    case None => None
  }

  /** The pattern after "Pair ": a pair number, then " | Attempt ". */
  function AfterPair(t: string): Option<string> {
    var pair := RunLength(t, IsDigit);
    if pair == 0 then None
    else
      match After(" | Attempt ", t[pair..])
      case Some(rest) => AfterAttempt(rest)
      case None => None
  }

  /** The pattern after " | Attempt ": an attempt number, then " | ". */
  function AfterAttempt(t: string): Option<string> {
    var attempt := RunLength(t, IsDigit);
    if attempt == 0 then None
    else
      match After(" | ", t[attempt..])
      case Some(rest) => StatusWord(rest)
      case None => None
  }

  /** The captured status: the longest non-empty run of word characters. */
  function StatusWord(t: string): Option<string> {
    var word := RunLength(t, IsWordChar);
    if word == 0 then None else Some(t[..word])
  }

  /** The run a greedy repetition takes: every character in it is kept, and
      the character after it, if any, is not. */
  lemma {:induction false} RunSpan(t: string, keep: char -> bool)
    ensures forall i :: 0 <= i < RunLength(t, keep) ==> keep(t[i])
    ensures RunLength(t, keep) < |t| ==> !keep(t[RunLength(t, keep)])
  {
    if |t| > 0 && keep(t[0]) {
      RunSpan(t[1..], keep);
      assert forall i :: 1 <= i < |t| ==> t[i] == t[1..][i - 1];
    }
  }

  /** A captured status is a non-empty run of word characters that the
      text after it does not continue. */
  lemma StatusShape(t: string) returns (word: string, rest: string)
    requires StatusWord(t).Some?
    ensures word == StatusWord(t).value && t == word + rest
    ensures |word| > 0 && forall i :: 0 <= i < |word| ==> IsWordChar(word[i])
    ensures |rest| == 0 || !IsWordChar(rest[0])
  {
    var w := RunLength(t, IsWordChar);
    RunSpan(t, IsWordChar);
    word, rest := t[..w], t[w..];
  }

  /** A digit run followed by the literal `lit`, as the pattern's middle
      parts match it. */
  lemma DigitsThen(t: string, lit: string) returns (digits: string, after: string)
    requires RunLength(t, IsDigit) > 0 && After(lit, t[RunLength(t, IsDigit)..]).Some?
    ensures |digits| > 0 && AllDigits(digits)
    ensures after == After(lit, t[RunLength(t, IsDigit)..]).value
    ensures t == digits + (lit + after)
  {
    var n := RunLength(t, IsDigit);
    RunSpan(t, IsDigit);
    digits, after := t[..n], After(lit, t[n..]).value;
    AfterSplit(lit, t[n..]);
    assert t == digits + t[n..];
  }

  /** Text the pattern matches after "Pair <digits> | Attempt ": the
      attempt number, " | " and the status. */
  lemma AfterAttemptShape(t: string) returns (attempt: string, word: string, rest: string)
    requires AfterAttempt(t).Some?
    ensures |attempt| > 0 && AllDigits(attempt)
    ensures word == AfterAttempt(t).value
    ensures |word| > 0 && forall i :: 0 <= i < |word| ==> IsWordChar(word[i])
    ensures |rest| == 0 || !IsWordChar(rest[0])
    ensures t == attempt + (" | " + (word + rest))
  {
    var t3;
    attempt, t3 := DigitsThen(t, " | ");
    word, rest := StatusShape(t3);
  }

  /** Text the pattern matches after "Pair ": the pair number, " | Attempt "
      and the rest of the report. */
  lemma AfterPairShape(t: string) returns (pair: string, attempt: string, word: string, rest: string)
    requires AfterPair(t).Some?
    ensures |pair| > 0 && AllDigits(pair) && |attempt| > 0 && AllDigits(attempt)
    ensures word == AfterPair(t).value
    ensures |word| > 0 && forall i :: 0 <= i < |word| ==> IsWordChar(word[i])
    ensures |rest| == 0 || !IsWordChar(rest[0])
    ensures t == pair + (" | Attempt " + (attempt + (" | " + (word + rest))))
  {
    var t2;
    pair, t2 := DigitsThen(t, " | Attempt ");
    attempt, word, rest := AfterAttemptShape(t2);
  }

  /** Concatenation regrouped to the left, for the shape lemmas. */
  lemma Regroup(a: string, b: string, c: string, d: string, e: string, f: string, g: string)
    ensures a + (b + (c + (d + (e + (f + g))))) == a + b + c + d + e + f + g
  {
  }

  /** Every match of the attempt-report pattern has its shape: "Pair ", a
      run of digits, " | Attempt ", a run of digits, " | ", the captured
      word, and then text that does not continue the word. */
  lemma MatchShape(t: string) returns (pair: string, attempt: string, word: string, rest: string)
    requires MatchAttempt(t).Some?
    ensures |pair| > 0 && AllDigits(pair) && |attempt| > 0 && AllDigits(attempt)
    ensures word == MatchAttempt(t).value
    ensures |word| > 0 && forall i :: 0 <= i < |word| ==> IsWordChar(word[i])
    ensures |rest| == 0 || !IsWordChar(rest[0])
    ensures t == "Pair " + pair + " | Attempt " + attempt + " | " + word + rest
  {
    var t1 := After("Pair ", t).value;
    assert MatchAttempt(t) == AfterPair(t1);
    pair, attempt, word, rest := AfterPairShape(t1);
    assert t == "Pair " + t1 by {
      AfterSplit("Pair ", t);
    }
    Regroup("Pair ", pair, " | Attempt ", attempt, " | ", word, rest);
  }

  /** Text a literal was matched at is the literal and what is left. */
  lemma AfterSplit(lit: string, t: string)
    requires After(lit, t).Some?
    ensures t == lit + After(lit, t).value
  {
    assert t == t[..|lit|] + t[|lit|..];
  }

  /** A run of `keep` characters followed by one that is not is exactly as
      long as the run. */
  lemma {:induction false} RunOfConcat(a: string, b: string, keep: char -> bool)
    requires forall i :: 0 <= i < |a| ==> keep(a[i])
    requires |b| == 0 || !keep(b[0])
    ensures RunLength(a + b, keep) == |a|
  {
    if |a| > 0 {
      assert (a + b)[1..] == a[1..] + b;
      RunOfConcat(a[1..], b, keep);
    } else {
      assert a + b == b;
    }
  }

  /** Matching a literal at the front of text that starts with it leaves
      the rest. */
  lemma {:induction false} AfterOfConcat(lit: string, rest: string)
    ensures After(lit, lit + rest) == Some(rest)
  {
    if |lit| > 0 {
      assert (lit + rest)[1..] == lit[1..] + rest;
      AfterOfConcat(lit[1..], rest);
    }
  }

  /** Text that departs from the literal at position `k` does not match it. */
  lemma {:induction false} AfterMismatch(lit: string, t: string, k: nat)
    requires k < |lit| && k < |t|
    requires t[..k] == lit[..k] && t[k] != lit[k]
    ensures After(lit, t) == None
  {
    if k > 0 {
      assert t[0] == t[..k][0];
      assert t[1..][..k - 1] == t[..k][1..] && lit[1..][..k - 1] == lit[..k][1..];
      AfterMismatch(lit[1..], t[1..], k - 1);
    }
  }

  /** `re.search`: the match that starts leftmost, from position `i` on. */
  function SearchFrom(s: string, i: nat): (r: Option<string>)
    requires i <= |s|
    decreases |s| - i
  {
    match MatchAttempt(s[i..])
    case Some(w) => Some(w)
    case None => if i == |s| then None else SearchFrom(s, i + 1)
  }

  /** The word of the first attempt report in `s`, if there is one. */
  function AttemptStatus(s: string): Option<string> {
    SearchFrom(s, 0)
  }

  /** Positions at which no report starts are skipped by the search. */
  lemma {:induction false} SearchSkips(s: string, i: nat, k: nat)
    requires i <= k <= |s|
    requires forall j :: i <= j < k ==> MatchAttempt(s[j..]).None?
    ensures SearchFrom(s, i) == SearchFrom(s, k)
    decreases k - i
  {
    if i < k {
      SearchSkips(s, i + 1, k);
    }
  }

  /** A position that does not hold 'P' starts no report. */
  lemma NoReportWithoutP(s: string, i: nat, k: nat)
    requires i <= k <= |s|
    requires forall j :: i <= j < k ==> s[j] != 'P'
    ensures forall j :: i <= j < k ==> MatchAttempt(s[j..]).None?
  {
    forall j | i <= j < k ensures MatchAttempt(s[j..]).None? {
      assert s[j..][0] == s[j];
    }
  }

  /** From a position on which no 'P' follows, the search finds nothing. */
  lemma NoMatchAfter(s: string, i: nat)
    requires i <= |s|
    requires forall j :: i <= j < |s| ==> s[j] != 'P'
    ensures SearchFrom(s, i) == None
  {
    NoReportWithoutP(s, i, |s|);
    SearchSkips(s, i, |s|);
    assert s[|s|..] == [];
  }

  /** A report starting at `p`, with none starting before it, is the one found. */
  lemma FoundAt(s: string, p: nat, word: string)
    requires p <= |s| && forall j :: 0 <= j < p ==> MatchAttempt(s[j..]).None?
    requires MatchAttempt(s[p..]) == Some(word)
    ensures AttemptStatus(s) == Some(word)
  {
    SearchSkips(s, 0, p);
  }

  /** No report is found when the only 'P' is at `p` and no report starts
      there. */
  lemma NotFoundAround(s: string, p: nat)
    requires p < |s|
    requires forall j :: 0 <= j < |s| && j != p ==> s[j] != 'P'
    requires MatchAttempt(s[p..]) == None
    ensures AttemptStatus(s) == None
  {
    NoReportWithoutP(s, 0, p);
    SearchSkips(s, 0, p);
    NoMatchAfter(s, p + 1);
  }

  /** Text with no 'P' holds no attempt report. */
  lemma NoMatchWithoutP(s: string)
    requires 'P' !in s
    ensures AttemptStatus(s) == None
  {
    NoMatchAfter(s, 0);
  }

  /** The two status words the runner writes are runs of word characters. */
  lemma StatusWordsAreWords()
    ensures forall i :: 0 <= i < 4 ==> IsWordChar("PASS"[i]) && IsWordChar("FAIL"[i])
  {
  }

  lemma StatusWordOf(status: string, rest: string)
    requires |status| > 0 && forall i :: 0 <= i < |status| ==> IsWordChar(status[i])
    requires |rest| == 0 || !IsWordChar(rest[0])
    ensures StatusWord(status + rest) == Some(status)
  {
    RunOfConcat(status, rest, IsWordChar);
    assert (status + rest)[..|status|] == status;
  }

  lemma AfterAttemptOf(digits: string, status: string, rest: string)
    requires |digits| > 0 && AllDigits(digits)
    requires |status| > 0 && forall i :: 0 <= i < |status| ==> IsWordChar(status[i])
    requires |rest| == 0 || !IsWordChar(rest[0])
    ensures AfterAttempt(digits + " | " + status + rest) == Some(status)
  {
    var tail := status + rest;
    var t := digits + (" | " + tail);
    assert digits + " | " + status + rest == t;
    RunOfConcat(digits, " | " + tail, IsDigit);
    assert t[|digits|..] == " | " + tail;
    AfterOfConcat(" | ", tail);
    StatusWordOf(status, rest);
  }

  lemma AfterPairOf(pairId: string, digits: string, status: string, rest: string)
    requires |pairId| > 0 && AllDigits(pairId)
    requires |digits| > 0 && AllDigits(digits)
    requires |status| > 0 && forall i :: 0 <= i < |status| ==> IsWordChar(status[i])
    requires |rest| == 0 || !IsWordChar(rest[0])
    ensures AfterPair(pairId + " | Attempt " + digits + " | " + status + rest) == Some(status)
  {
    var tail := digits + " | " + status + rest;
    var t := pairId + (" | Attempt " + tail);
    assert pairId + " | Attempt " + digits + " | " + status + rest == t;
    RunOfConcat(pairId, " | Attempt " + tail, IsDigit);
    assert t[|pairId|..] == " | Attempt " + tail;
    AfterOfConcat(" | Attempt ", tail);
    AfterAttemptOf(digits, status, rest);
  }

  /** Text starting "Pair " is matched by what follows it. */
  lemma MatchAttemptOfPair(t: string)
    ensures MatchAttempt("Pair " + t) == AfterPair(t)
  {
    AfterOfConcat("Pair ", t);
  }

  lemma PrependTwo(a: string, b: string, c: string)
    ensures a + b + c == a + (b + c)
  {
  }

  lemma PrependSix(a: string, b: string, c: string, d: string, e: string, f: string, g: string)
    ensures a + b + c + d + e + f + g == a + (b + c + d + e + f + g)
  {
  }

  /** The attempt-report pattern finds an attempt line written by the runner:
      its word is the status written. */
  lemma MatchWritten(pairId: string, attempt: nat, status: string, rest: string)
    requires |pairId| > 0 && AllDigits(pairId)
    requires |status| > 0 && forall i :: 0 <= i < |status| ==> IsWordChar(status[i])
    requires |rest| == 0 || !IsWordChar(rest[0])
    ensures MatchAttempt("Pair " + pairId + " | Attempt " + NatToString(attempt) + " | " + status + rest) == Some(status)
  {
    var digits := NatToString(attempt);
    var tail := pairId + " | Attempt " + digits + " | " + status + rest;
    PrependSix("Pair ", pairId, " | Attempt ", digits, " | ", status, rest);
    MatchAttemptOfPair(tail);
    AfterPairOf(pairId, digits, status, rest);
  }

  lemma MaxTailNotAttempt()
    ensures After(" | Attempt ", " | MAX RETRIES REACHED") == None
  {
    var tail := " | MAX RETRIES REACHED";
    assert tail[..3] == " | " == " | Attempt "[..3];
    AfterMismatch(" | Attempt ", tail, 3);
  }

  lemma AfterPairOfMax(pairId: string)
    requires |pairId| > 0 && AllDigits(pairId)
    ensures AfterPair(pairId + " | MAX RETRIES REACHED") == None
  {
    var tail := " | MAX RETRIES REACHED";
    var t := pairId + tail;
    RunOfConcat(pairId, tail, IsDigit);
    assert t[|pairId|..] == tail;
    MaxTailNotAttempt();
  }

  /** The "MAX RETRIES REACHED" line the runner writes for a numeric pair is
      not an attempt report. */
  lemma MaxRetriesNotMatched(pairId: string)
    requires |pairId| > 0 && AllDigits(pairId)
    ensures MatchAttempt("Pair " + pairId + " | MAX RETRIES REACHED") == None
  {
    var t1 := pairId + " | MAX RETRIES REACHED";
    PrependTwo("Pair ", pairId, " | MAX RETRIES REACHED");
    MatchAttemptOfPair(t1);
    AfterPairOfMax(pairId);
  }

  // ---------------------------------------------------------------------
  // Counting
  // ---------------------------------------------------------------------

  /** The attempt report a line of the log holds, once stripped. */
  function LineStatus(line: string): Option<string> {
    AttemptStatus(Strip(line))
  }

  /** A line that neither starts nor ends with white space, with a report
      at `p` and none starting before it, reports that report's word. */
  lemma ReadAt(line: string, p: nat, word: string)
    requires |line| > 0 && !IsSpace(line[0]) && !IsSpace(line[|line| - 1])
    requires p <= |line| && forall j :: 0 <= j < p ==> MatchAttempt(line[j..]).None?
    requires MatchAttempt(line[p..]) == Some(word)
    ensures LineStatus(line) == Some(word)
  {
    StripUnchanged(line);
    FoundAt(line, p, word);
  }

  /** Whether a reported word, upper-cased, is `word`. */
  predicate Says(found: Option<string>, word: string) {
    found.Some? && Upper(found.value) == word
  }

  /** The number of lines on which `status` finds a report. */
  function Reports(lines: seq<string>, status: string -> Option<string>): nat {
    if |lines| == 0 then 0
    else Reports(lines[..|lines| - 1], status) + (if status(lines[|lines| - 1]).Some? then 1 else 0)
  }

  /** The number of lines on which `status` finds a report saying `word`. */
  function Reported(lines: seq<string>, status: string -> Option<string>, word: string): nat {
    if |lines| == 0 then 0
    else Reported(lines[..|lines| - 1], status, word) + (if Says(status(lines[|lines| - 1]), word) then 1 else 0)
  }

  lemma CountStep(lines: seq<string>, status: string -> Option<string>, i: nat)
    requires i < |lines|
    ensures Reports(lines[..i + 1], status) == Reports(lines[..i], status) + (if status(lines[i]).Some? then 1 else 0)
    ensures forall word :: Reported(lines[..i + 1], status, word) == Reported(lines[..i], status, word) + (if Says(status(lines[i]), word) then 1 else 0)
  {
    assert lines[..i + 1][..i] == lines[..i];
  }

  /** The counting loop of `parse_retry_log`, for any way `status` of finding
      the report on a line: the number of reports, of passes and of fails,
      with passes and fails never exceeding the reports. */
  method Tally(lines: seq<string>, status: string -> Option<string>) returns (total: nat, passes: nat, fails: nat)
    ensures total == Reports(lines, status)
    ensures passes == Reported(lines, status, "PASS")
    ensures fails == Reported(lines, status, "FAIL")
    ensures passes + fails <= total
  {
    total, passes, fails := 0, 0, 0;
    var i := 0;
    while i < |lines|
      invariant 0 <= i <= |lines|
      invariant total == Reports(lines[..i], status)
      invariant passes == Reported(lines[..i], status, "PASS")
      invariant fails == Reported(lines[..i], status, "FAIL")
      invariant passes + fails <= total
    {
      CountStep(lines, status, i);
      var found := status(lines[i]);
      if found.Some? {
        total := total + 1;
        var word := found.value;
        if Upper(word) == "PASS" {
          passes := passes + 1;
        } else if Upper(word) == "FAIL" {
          fails := fails + 1;
        }
      }
      i := i + 1;
    }
    assert lines[..|lines|] == lines;
  }

  /** `parse_retry_log` over the lines of the file: every stripped line in
      which the attempt-report pattern is found counts once, as a pass or a
      fail when its word says so. */
  method ParseRetryLog(lines: seq<string>) returns (total: nat, passes: nat, fails: nat)
    ensures total == Reports(lines, LineStatus)
    ensures passes == Reported(lines, LineStatus, "PASS")
    ensures fails == Reported(lines, LineStatus, "FAIL")
    ensures passes + fails <= total
  {
    total, passes, fails := Tally(lines, LineStatus);
  }

  /** A line without a report leaves every count unchanged. */
  lemma UnmatchedLineIgnored(lines: seq<string>, status: string -> Option<string>, line: string)
    requires status(line).None?
    ensures Reports(lines + [line], status) == Reports(lines, status)
    ensures forall word :: Reported(lines + [line], status, word) == Reported(lines, status, word)
  {
    assert (lines + [line])[..|lines|] == lines;
  }

  /** The counts of a log are the sums of the counts of its parts. */
  lemma {:induction false} CountsAppend(a: seq<string>, b: seq<string>, status: string -> Option<string>, word: string)
    ensures Reports(a + b, status) == Reports(a, status) + Reports(b, status)
    ensures Reported(a + b, status, word) == Reported(a, status, word) + Reported(b, status, word)
  {
    if |b| > 0 {
      CountsAppend(a, b[..|b| - 1], status, word);
      assert (a + b)[..|a + b| - 1] == a + b[..|b| - 1];
    } else {
      assert a + b == a;
    }
  }

  /** Passes and fails are separate reports: they never add up to more than
      the reports found. */
  lemma {:induction false} PassesAndFailsBounded(lines: seq<string>, status: string -> Option<string>)
    ensures Reported(lines, status, "PASS") + Reported(lines, status, "FAIL") <= Reports(lines, status)
  {
    if |lines| > 0 {
      PassesAndFailsBounded(lines[..|lines| - 1], status);
    }
  }

  // ---------------------------------------------------------------------
  // The success rate
  // ---------------------------------------------------------------------

  /** The success rate in percent, before rounding: passes over passes plus
      fails, with the denominator raised to 1 when there are neither. */
  function SuccessRate(passes: nat, fails: nat): (rate: real)
    ensures 0.0 <= rate <= 100.0
    ensures rate == 0.0 <==> passes == 0
    ensures passes > 0 && fails == 0 ==> rate == 100.0
    ensures passes + fails > 0 ==> rate * (passes + fails) as real == 100.0 * passes as real
  {
    var denominator := if passes + fails > 1 then passes + fails else 1;
    var share := passes as real / denominator as real;
    ShareOf(passes, denominator);
    share * 100.0
  }

  /** A count's share of a larger positive count lies in 0..1, is 0 only
      for a zero count and 1 only for the whole, and scales back to the count. */
  lemma ShareOf(part: nat, whole: nat)
    requires 1 <= whole && part <= whole
    ensures var share := part as real / whole as real;
      && 0.0 <= share <= 1.0
      && (share == 0.0 <==> part == 0)
      && (share == 1.0 <==> part == whole)
      && share * whole as real == part as real
  {
  }
}
