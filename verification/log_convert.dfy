/** The test-log converter: each line of a retry log is classified by three
    patterns (a test finished, a retry notice, an after-method final
    result), turned into at most one entry, and the entries of all files
    are then filtered, de-duplicated and normalised. The pattern searches
    themselves are inputs. */
module LogConvert {
  import opened Wrappers

  /** The groups of a "Test '…' finished | Final Status: … | Total Duration:
      … ms (after … attempts)" match. */
  datatype FinishedGroups = FinishedGroups(timestamp: string, testName: string, status: string,
                                           durationMs: nat, attempts: nat)

  /** The groups of a "Retrying test '…' | Status: … | Attempt: n/m |
      Duration: … ms" match. */
  datatype RetryGroups = RetryGroups(timestamp: string, testName: string, status: string,
                                     attempt: nat, attemptTotal: nat, durationMs: nat)

  /** The groups of a "Final Result | Test: … | Status: …" match. */
  datatype FinalGroups = FinalGroups(timestamp: string, testName: string, status: string)

  /** What each of the three patterns finds in one line, searched on its own. */
  datatype Searches = Searches(finished: Option<FinishedGroups>, retry: Option<RetryGroups>,
                               final: Option<FinalGroups>)

  /** A line as the converter reads it. */
  datatype Line = Finished(finished: FinishedGroups) | Retry(retry: RetryGroups)
                | FinalResult(final: FinalGroups) | Other

  /** The classification the converter applies: a finished match wins over
      a retry match, which wins over a final-result match. */
  function Classify(s: Searches): (l: Line)
    ensures l.Finished? <==> s.finished.Some?
    ensures l.Retry? <==> s.finished.None? && s.retry.Some?
    ensures l.FinalResult? <==> s.finished.None? && s.retry.None? && s.final.Some?
    ensures l.Finished? ==> l.finished == s.finished.value
    ensures l.Retry? ==> l.retry == s.retry.value
    ensures l.FinalResult? ==> l.final == s.final.value
  {
    if s.finished.Some? then Finished(s.finished.value)
    else if s.retry.Some? then Retry(s.retry.value)
    else if s.final.Some? then FinalResult(s.final.value)
    else Other
  }

  function ClassifyAll(searches: seq<Searches>): (lines: seq<Line>)
    ensures |lines| == |searches|
    ensures forall k :: 0 <= k < |searches| ==> lines[k] == Classify(searches[k])
  {
    seq(|searches|, k requires 0 <= k < |searches| => Classify(searches[k]))
  }

  // ---------------------------------------------------------------------
  // One file
  // ---------------------------------------------------------------------

  /** One entry of a parsed file. `entryType` is absent except on retry
      notices; `durationMs` is absent on final results. */
  datatype Entry = Entry(source: string, lineNo: nat, timestamp: string, testName: string, status: string,
                         retries: nat, durationMs: Option<nat>, entryType: Option<string>)

  /** The attempt count a line reports for `name`, if it reports one. */
  function AttemptsReported(line: Line, name: string): Option<nat> {
    match line
    case Finished(g) => if g.testName == name then Some(g.attempts) else None
    case Retry(g) => if g.testName == name then Some(g.attempt) else None
    case _ => None
  }

  /** The largest attempt count `lines` report for `name`, or 0 when none
      reports one. */
  function MaxSeen(lines: seq<Line>, name: string): (m: nat)
    ensures forall k :: 0 <= k < |lines| && AttemptsReported(lines[k], name).Some? ==>
      AttemptsReported(lines[k], name).value <= m
    ensures m == 0 || exists k :: 0 <= k < |lines| && AttemptsReported(lines[k], name) == Some(m)
  {
    if |lines| == 0 then 0
    else
      var before := MaxSeen(lines[..|lines| - 1], name);
      assert forall k :: 0 <= k < |lines| - 1 ==> lines[..|lines| - 1][k] == lines[k];
      match AttemptsReported(lines[|lines| - 1], name)
      case None => before
      case Some(n) => if n > before then n else before
  }

  /** The entry of line number `lineNo` (counting from 1), given the lines
      before it; None for a line none of the patterns matched. */
  function EntryFor(source: string, lineNo: nat, line: Line, before: seq<Line>): Option<Entry> {
    match line
    case Finished(g) =>
      Some(Entry(source, lineNo, g.timestamp, g.testName, g.status, g.attempts, Some(g.durationMs), None))
    case Retry(g) =>
      Some(Entry(source, lineNo, g.timestamp, g.testName, g.status, g.attempt, Some(g.durationMs), Some("retry_notify")))
    case FinalResult(g) =>
      Some(Entry(source, lineNo, g.timestamp, g.testName, g.status, MaxSeen(before, g.testName), None, None))
    case Other => None
  }

  /** The entries of a file: those of its lines in line order. */
  function Expected(source: string, lines: seq<Line>): seq<Entry> {
    if |lines| == 0 then []
    else
      var n := |lines|;
      match EntryFor(source, n, lines[n - 1], lines[..n - 1])
      case None => Expected(source, lines[..n - 1])
      case Some(e) => Expected(source, lines[..n - 1]) + [e]
  }

  /** `attempts.get(name, 0)`. */
  function Get(attempts: map<string, nat>, name: string): nat {
    if name in attempts then attempts[name] else 0
  }

  /** `parse_file` as written: one pass over the lines with a map from test
      name to the largest attempt count seen so far. */
  method ParseFile(source: string, searches: seq<Searches>) returns (entries: seq<Entry>)
    ensures entries == Expected(source, ClassifyAll(searches))
  {
    ghost var lines := ClassifyAll(searches);
    entries := [];
    var attempts: map<string, nat> := map[];
    var i := 0;
    while i < |searches|
      invariant 0 <= i <= |searches|
      invariant entries == Expected(source, lines[..i])
      invariant forall name :: Get(attempts, name) == MaxSeen(lines[..i], name)
    {
      var e, next := ReadLine(source, i + 1, searches[i], attempts, lines[..i]);
      MaxSeenNext(lines, i);
      ExpectedNext(source, lines, i);
      if e.Some? {
        entries := entries + [e.value];
      }
      attempts := next;
      i := i + 1;
    }
    assert lines[..|searches|] == lines;
  }

  /** The body of the loop in `parse_file` for one line: the three searches
      tried in order, the entry made from the first that matched, and the
      largest-count map updated from a finished or retry match. */
  method ReadLine(source: string, lineNo: nat, s: Searches, attempts: map<string, nat>, ghost before: seq<Line>)
    returns (e: Option<Entry>, next: map<string, nat>)
    requires forall name :: Get(attempts, name) == MaxSeen(before, name)
    ensures e == EntryFor(source, lineNo, Classify(s), before)
    ensures forall name :: Get(next, name) == Raise(Get(attempts, name), AttemptsReported(Classify(s), name))
  {
    if s.finished.Some? {
      var g := s.finished.value;
      e := Some(Entry(source, lineNo, g.timestamp, g.testName, g.status, g.attempts, Some(g.durationMs), None));
      RaiseStored(attempts, g.testName, g.attempts);
      next := attempts[g.testName := if Get(attempts, g.testName) >= g.attempts then Get(attempts, g.testName) else g.attempts];
      return;
    }
    if s.retry.Some? {
      var g := s.retry.value;
      RaiseStored(attempts, g.testName, g.attempt);
      next := attempts[g.testName := if Get(attempts, g.testName) >= g.attempt then Get(attempts, g.testName) else g.attempt];
      e := Some(Entry(source, lineNo, g.timestamp, g.testName, g.status, g.attempt, Some(g.durationMs), Some("retry_notify")));
      return;
    }
    next := attempts;
    if s.final.Some? {
      var g := s.final.value;
      e := Some(Entry(source, lineNo, g.timestamp, g.testName, g.status, Get(attempts, g.testName), None, None));
      return;
    }
    e := None;
  }

  /** Reading one more line adds that line's entry, if any, to the entries
      of the lines before it. */
  lemma ExpectedNext(source: string, lines: seq<Line>, i: nat)
    requires i < |lines|
    ensures Expected(source, lines[..i + 1]) ==
      match EntryFor(source, i + 1, lines[i], lines[..i])
      case None => Expected(source, lines[..i])
      case Some(e) => Expected(source, lines[..i]) + [e]
  {
    assert lines[..i + 1][..i] == lines[..i];
  }

  /** The larger of a count so far and the count a line reports, if any. */
  function Raise(m: nat, reported: Option<nat>): nat {
    match reported
    case None => m
    case Some(n) => if n > m then n else m
  }

  /** Storing the larger of the stored count and `n` under `key` raises
      that key's count by `n` and leaves every other key alone. */
  lemma RaiseStored(attempts: map<string, nat>, key: string, n: nat)
    ensures var stored := attempts[key := if Get(attempts, key) >= n then Get(attempts, key) else n];
      forall name :: Get(stored, name) == Raise(Get(attempts, name), if name == key then Some(n) else None)
  {
  }

  /** Reading one more line raises each test's largest count by what the
      line reports for it. */
  lemma MaxSeenNext(lines: seq<Line>, i: nat)
    requires i < |lines|
    ensures forall name :: MaxSeen(lines[..i + 1], name) == Raise(MaxSeen(lines[..i], name), AttemptsReported(lines[i], name))
  {
    assert lines[..i + 1][..i] == lines[..i];
  }

  /** The largest attempt count seen for a test never decreases as the file
      is read. */
  lemma {:induction false} MaxSeenMonotone(lines: seq<Line>, name: string, i: nat, j: nat)
    requires i <= j <= |lines|
    ensures MaxSeen(lines[..i], name) <= MaxSeen(lines[..j], name)
    decreases j - i
  {
    if i < j {
      MaxSeenMonotone(lines, name, i, j - 1);
      assert lines[..j][..j - 1] == lines[..j - 1];
    }
  }

  /** How the last line extends the entries of the lines before it. */
  lemma ExpectedStep(source: string, lines: seq<Line>)
    requires |lines| > 0
    ensures var n := |lines|;
      var e := EntryFor(source, n, lines[n - 1], lines[..n - 1]);
      && (e.Some? <==> !lines[n - 1].Other?)
      && (e.Some? ==> e.value.lineNo == n && Expected(source, lines) == Expected(source, lines[..n - 1]) + [e.value])
      && (e.None? ==> Expected(source, lines) == Expected(source, lines[..n - 1]))
  {
  }

  /** A file's entries carry line numbers within the file, in strictly
      increasing order. */
  lemma {:induction false} ExpectedLineNumbers(source: string, lines: seq<Line>)
    ensures var es := Expected(source, lines);
      && (forall k :: 0 <= k < |es| ==> 1 <= es[k].lineNo <= |lines|)
      && (forall k, l :: 0 <= k < l < |es| ==> es[k].lineNo < es[l].lineNo)
  {
    if |lines| > 0 {
      var n := |lines|;
      ExpectedLineNumbers(source, lines[..n - 1]);
      ExpectedStep(source, lines);
    }
  }

  /** Each entry of a file is the entry of the line its number names. */
  lemma {:induction false} ExpectedEntries(source: string, lines: seq<Line>)
    ensures var es := Expected(source, lines);
      forall k :: 0 <= k < |es| ==>
        && 1 <= es[k].lineNo <= |lines|
        && EntryFor(source, es[k].lineNo, lines[es[k].lineNo - 1], lines[..es[k].lineNo - 1]) == Some(es[k])
  {
    if |lines| > 0 {
      var n := |lines|;
      var prefix := lines[..n - 1];
      ExpectedEntries(source, prefix);
      ExpectedStep(source, lines);
      var ps := Expected(source, prefix);
      forall k | 0 <= k < |ps|
        ensures 1 <= ps[k].lineNo <= n
        ensures EntryFor(source, ps[k].lineNo, lines[ps[k].lineNo - 1], lines[..ps[k].lineNo - 1]) == Some(ps[k])
      {
        var m := ps[k].lineNo;
        assert prefix[m - 1] == lines[m - 1];
        assert prefix[..m - 1] == lines[..m - 1];
      }
    }
  }

  /** Every line one of the patterns matched has an entry. */
  lemma {:induction false} ExpectedComplete(source: string, lines: seq<Line>)
    ensures var es := Expected(source, lines);
      forall n :: 0 <= n < |lines| && !lines[n].Other? ==> exists k :: 0 <= k < |es| && es[k].lineNo == n + 1
  {
    if |lines| > 0 {
      var n := |lines|;
      var prefix := lines[..n - 1];
      ExpectedComplete(source, prefix);
      ExpectedStep(source, lines);
      var es := Expected(source, lines);
      var ps := Expected(source, prefix);
      assert forall m :: 0 <= m < n - 1 ==> prefix[m] == lines[m];
      assert forall k :: 0 <= k < |ps| ==> es[k] == ps[k];
      if !lines[n - 1].Other? {
        assert es[|ps|].lineNo == n;
      }
    }
  }

  /** A final-result entry reports the largest attempt count seen for its
      test earlier in the same file, or 0; a retry notice reports its
      attempt number; a finished entry its attempt count and duration. */
  lemma EntryKinds(source: string, lines: seq<Line>)
    ensures var es := Expected(source, lines);
      forall k :: 0 <= k < |es| && 1 <= es[k].lineNo <= |lines| ==>
        var line := lines[es[k].lineNo - 1];
        && (line.FinalResult? ==>
              es[k].retries == MaxSeen(lines[..es[k].lineNo - 1], es[k].testName)
              && es[k].durationMs.None? && es[k].entryType.None?)
        && (line.Retry? ==>
              es[k].retries == line.retry.attempt && es[k].entryType == Some("retry_notify"))
        && (line.Finished? ==>
              es[k].retries == line.finished.attempts
              && es[k].durationMs == Some(line.finished.durationMs) && es[k].entryType.None?)
  {
    ExpectedEntries(source, lines);
  }

  // ---------------------------------------------------------------------
  // Normalising the entries of all files
  // ---------------------------------------------------------------------

  /** An entry as `normalize_and_save` sees it: a dictionary whose keys may
      be missing (None). */
  datatype RawEntry = RawEntry(source: Option<string>, lineNo: Option<nat>, timestamp: Option<string>,
                               testName: Option<string>, status: Option<string>, retries: Option<int>,
                               durationMs: Option<int>, entryType: Option<string>)

  /** The de-duplication key. */
  datatype Key = Key(source: Option<string>, lineNo: Option<nat>, testName: Option<string>,
                     status: Option<string>, retries: Option<int>)

  /** A normalised entry. */
  datatype Output = Output(source: Option<string>, lineNo: Option<nat>, timestamp: Option<string>,
                           testName: string, status: string, retries: int, durationMs: Option<int>,
                           entryType: string)

  function KeyOf(e: RawEntry): Key {
    Key(e.source, e.lineNo, e.testName, e.status, e.retries)
  }

  /** Entries without a test name or a status are dropped. */
  predicate Named(e: RawEntry) {
    e.testName.Some? && e.status.Some?
  }

  /** A parsed entry as a dictionary. */
  function Raw(e: Entry): (r: RawEntry)
    ensures Named(r)
    ensures r.source == Some(e.source) && r.lineNo == Some(e.lineNo) && r.timestamp == Some(e.timestamp)
    ensures r.testName == Some(e.testName) && r.status == Some(e.status) && r.retries == Some(e.retries as int)
    ensures r.durationMs.Some? <==> e.durationMs.Some?
    ensures e.durationMs.Some? ==> r.durationMs.value == e.durationMs.value as int
    ensures r.entryType == e.entryType
  {
    RawEntry(Some(e.source), Some(e.lineNo), Some(e.timestamp), Some(e.testName), Some(e.status),
             Some(e.retries), if e.durationMs.Some? then Some(e.durationMs.value) else None, e.entryType)
  }

  function Raws(es: seq<Entry>): (r: seq<RawEntry>)
    ensures |r| == |es| && forall k :: 0 <= k < |es| ==> r[k] == Raw(es[k])
  {
    seq(|es|, k requires 0 <= k < |es| => Raw(es[k]))
  }

  /** The keys of a list of entries. */
  function KeysOf(es: seq<RawEntry>): (ks: set<Key>)
    ensures forall i :: 0 <= i < |es| ==> KeyOf(es[i]) in ks
  {
    if |es| == 0 then {}
    else
      var n := |es|;
      var before := KeysOf(es[..n - 1]);
      assert forall i :: 0 <= i < n - 1 ==> es[..n - 1][i] == es[i];
      before + {KeyOf(es[n - 1])}
  }

  /** Every key of a list of entries is the key of one of them. */
  lemma {:induction false} KeysOfWitness(es: seq<RawEntry>, k: Key)
    requires k in KeysOf(es)
    ensures exists i :: 0 <= i < |es| && KeyOf(es[i]) == k
  {
    var n := |es|;
    var prefix := es[..n - 1];
    if k == KeyOf(es[n - 1]) {
      assert KeyOf(es[n - 1]) == k;
    } else {
      KeysOfWitness(prefix, k);
      var i :| 0 <= i < |prefix| && KeyOf(prefix[i]) == k;
      assert es[i] == prefix[i];
    }
  }

  /** A key no entry has is not among the keys. */
  lemma {:induction false} KeysOfOnly(es: seq<RawEntry>, k: Key)
    requires forall i :: 0 <= i < |es| ==> KeyOf(es[i]) != k
    ensures k !in KeysOf(es)
  {
    if |es| > 0 {
      var prefix := es[..|es| - 1];
      assert forall i :: 0 <= i < |prefix| ==> prefix[i] == es[i];
      KeysOfOnly(prefix, k);
    }
  }

  /** The entries kept: in input order, every named entry whose key no
      earlier named entry has. */
  function Kept(es: seq<RawEntry>): (r: seq<RawEntry>)
    ensures |r| <= |es|
    ensures forall i :: 0 <= i < |r| ==> Named(r[i])
  {
    if |es| == 0 then []
    else
      var n := |es|;
      var before := Kept(es[..n - 1]);
      if Named(es[n - 1]) && KeyOf(es[n - 1]) !in KeysOf(before) then before + [es[n - 1]] else before
  }

  lemma KeysOfAppend(es: seq<RawEntry>, e: RawEntry)
    ensures KeysOf(es + [e]) == KeysOf(es) + {KeyOf(e)}
  {
    assert (es + [e])[..|es|] == es;
  }

  lemma KeptStep(es: seq<RawEntry>)
    requires |es| > 0
    ensures var n := |es|; var before := Kept(es[..n - 1]);
      Kept(es) == if Named(es[n - 1]) && KeyOf(es[n - 1]) !in KeysOf(before) then before + [es[n - 1]] else before
  {
  }

  /** No two kept entries share a key. */
  lemma {:induction false} KeptKeysDistinct(es: seq<RawEntry>)
    ensures var r := Kept(es);
      forall i, j :: 0 <= i < j < |r| ==> KeyOf(r[i]) != KeyOf(r[j])
  {
    if |es| > 0 {
      var n := |es|;
      var before := Kept(es[..n - 1]);
      KeptKeysDistinct(es[..n - 1]);
      KeptStep(es);
      var r := Kept(es);
      assert forall i :: 0 <= i < |before| ==> r[i] == before[i];
    }
  }

  /** Every named entry's key survives de-duplication. */
  lemma {:induction false} KeptCovers(es: seq<RawEntry>)
    ensures forall i :: 0 <= i < |es| && Named(es[i]) ==> KeyOf(es[i]) in KeysOf(Kept(es))
  {
    if |es| > 0 {
      var n := |es|;
      var prefix := es[..n - 1];
      KeptCovers(prefix);
      var before := Kept(prefix);
      var after := Kept(es);
      assert forall i :: 0 <= i < |before| ==> after[i] == before[i];
      forall i | 0 <= i < n - 1 && Named(es[i]) ensures KeyOf(es[i]) in KeysOf(after) {
        assert es[i] == prefix[i];
        KeysOfWitness(before, KeyOf(es[i]));
        var j :| 0 <= j < |before| && KeyOf(before[j]) == KeyOf(es[i]);
        assert KeyOf(after[j]) == KeyOf(es[i]);
      }
    }
  }

  /** Kept entries sit at strictly increasing positions of the input: the
      input order is preserved. */
  lemma {:induction false} KeptInOrder(es: seq<RawEntry>) returns (idx: seq<nat>)
    ensures |idx| == |Kept(es)|
    ensures forall k :: 0 <= k < |idx| ==> idx[k] < |es| && Kept(es)[k] == es[idx[k]]
    ensures forall k, l :: 0 <= k < l < |idx| ==> idx[k] < idx[l]
  {
    if |es| == 0 {
      idx := [];
    } else {
      var n := |es|;
      var prefix := es[..n - 1];
      var before := Kept(prefix);
      var old_idx := KeptInOrder(prefix);
      assert Positions(old_idx, before, prefix);
      PositionsExtend(es, before, old_idx);
      KeptStep(es);
      if Named(es[n - 1]) && KeyOf(es[n - 1]) !in KeysOf(before) {
        idx := old_idx + [n - 1];
      } else {
        idx := old_idx;
      }
      assert Positions(idx, Kept(es), es);
    }
  }

  /** `r` is the sub-sequence of `es` at the strictly increasing positions `idx`. */
  ghost predicate Positions<T>(idx: seq<nat>, r: seq<T>, es: seq<T>) {
    && |idx| == |r|
    && (forall k :: 0 <= k < |idx| ==> idx[k] < |es| && r[k] == es[idx[k]])
    && (forall k, l :: 0 <= k < l < |idx| ==> idx[k] < idx[l])
  }

  /** Positions in all but the last element stay positions in the whole,
      and the last position can be added after them. */
  lemma PositionsExtend<T>(es: seq<T>, r: seq<T>, idx: seq<nat>)
    requires |es| > 0 && Positions(idx, r, es[..|es| - 1])
    ensures Positions(idx, r, es)
    ensures Positions(idx + [|es| - 1], r + [es[|es| - 1]], es)
  {
    var n := |es|;
    var idx', r' := idx + [n - 1], r + [es[n - 1]];
    forall k | 0 <= k < |idx| ensures idx[k] < n && r[k] == es[idx[k]] {
      assert es[..n - 1][idx[k]] == es[idx[k]];
    }
    forall k | 0 <= k < |idx'| ensures idx'[k] < n && r'[k] == es[idx'[k]] {
      if k < |idx| { assert idx'[k] == idx[k] && r'[k] == r[k]; }
    }
    forall k, l | 0 <= k < l < |idx'| ensures idx'[k] < idx'[l] {
      assert idx'[k] == idx[k];
      if l < |idx| { assert idx'[l] == idx[l]; }
    }
  }

  /** No named entry before position `i` has the key of entry `i`. */
  predicate FirstWithKey(es: seq<RawEntry>, i: nat)
    requires i < |es|
  {
    forall j :: 0 <= j < i && Named(es[j]) ==> KeyOf(es[j]) != KeyOf(es[i])
  }

  /** A named entry whose key no earlier named entry has is kept. */
  lemma {:induction false} KeptFirst(es: seq<RawEntry>, i: nat)
    requires i < |es| && Named(es[i]) && FirstWithKey(es, i)
    ensures es[i] in Kept(es)
  {
    var n := |es|;
    var prefix := es[..n - 1];
    var before := Kept(prefix);
    if i < n - 1 {
      assert prefix[i] == es[i];
      assert FirstWithKey(prefix, i) by {
        assert forall j :: 0 <= j <= i ==> es[j] == prefix[j];
      }
      KeptFirst(prefix, i);
      KeptStep(es);
    } else {
      assert KeyOf(es[n - 1]) !in KeysOf(before) by {
        KeysOfKept(prefix);
        assert forall j :: 0 <= j < n - 1 ==> es[j] == prefix[j];
      }
      KeptStep(es);
    }
  }

  /** Every key among the kept entries is the key of some named input entry. */
  lemma {:induction false} KeysOfKept(es: seq<RawEntry>)
    ensures forall k :: k in KeysOf(Kept(es)) ==> exists j :: 0 <= j < |es| && Named(es[j]) && KeyOf(es[j]) == k
  {
    var idx := KeptInOrder(es);
    forall k | k in KeysOf(Kept(es)) ensures exists j :: 0 <= j < |es| && Named(es[j]) && KeyOf(es[j]) == k {
      KeysOfWitness(Kept(es), k);
      var m :| 0 <= m < |Kept(es)| && KeyOf(Kept(es)[m]) == k;
      assert Named(es[idx[m]]) && KeyOf(es[idx[m]]) == k;
    }
  }

  /** A list of named entries with pairwise different keys is kept whole. */
  lemma {:induction false} KeptDistinct(es: seq<RawEntry>)
    requires forall i :: 0 <= i < |es| ==> Named(es[i])
    requires forall i, j :: 0 <= i < j < |es| ==> KeyOf(es[i]) != KeyOf(es[j])
    ensures Kept(es) == es
  {
    if |es| > 0 {
      var n := |es|;
      var prefix := es[..n - 1];
      assert forall i :: 0 <= i < n - 1 ==> prefix[i] == es[i];
      KeptDistinct(prefix);
      forall i | 0 <= i < n - 1 ensures KeyOf(prefix[i]) != KeyOf(es[n - 1]) {
        assert prefix[i] == es[i];
      }
      KeysOfOnly(prefix, KeyOf(es[n - 1]));
      assert es == prefix + [es[n - 1]];
    }
  }

  /** Normalising the entries of one parsed file drops none of them: their
      line numbers, hence their keys, are all different. */
  lemma ParsedFileKeptWhole(source: string, lines: seq<Line>)
    ensures Kept(Raws(Expected(source, lines))) == Raws(Expected(source, lines))
  {
    ExpectedLineNumbers(source, lines);
    var es := Expected(source, lines);
    var rs := Raws(es);
    forall i, j | 0 <= i < j < |rs| ensures KeyOf(rs[i]) != KeyOf(rs[j]) {
      assert rs[i] == Raw(es[i]) && rs[j] == Raw(es[j]);
      assert KeyOf(rs[i]).lineNo != KeyOf(rs[j]).lineNo;
    }
    KeptDistinct(rs);
  }

  /** The timestamp written out: absent or empty stays absent; otherwise
      the ISO form when `iso` can read it, and the text unchanged when it
      cannot. `iso` stands for reading "%Y-%m-%d %H:%M:%S,%f" and printing
      the ISO form, with None for text it rejects. */
  function IsoTimestamp(ts: Option<string>, iso: string -> Option<string>): (r: Option<string>)
    ensures ts.None? || ts == Some("") ==> r.None?
    ensures ts.Some? && ts.value != "" && iso(ts.value).Some? ==> r == iso(ts.value)
    ensures ts.Some? && ts.value != "" && iso(ts.value).None? ==> r == ts
  {
    if ts.Some? && ts.value != "" then
      match iso(ts.value)
      case Some(formatted) => Some(formatted)
      case None => Some(ts.value)
    else None
  }

  /** The normalised form of a named entry: missing retries become 0 and a
      missing entry type becomes "final_or_detected"; the other fields are
      carried over. */
  function NormalizeEntry(e: RawEntry, iso: string -> Option<string>): (o: Output)
    requires Named(e)
    ensures o.testName == e.testName.value && o.status == e.status.value
    ensures o.source == e.source && o.lineNo == e.lineNo && o.durationMs == e.durationMs
    ensures o.retries == e.retries.GetOr(0)
    ensures o.entryType == e.entryType.GetOr("final_or_detected")
    ensures o.timestamp == IsoTimestamp(e.timestamp, iso)
  {
    Output(e.source, e.lineNo, IsoTimestamp(e.timestamp, iso), e.testName.value, e.status.value,
           e.retries.GetOr(0), e.durationMs, e.entryType.GetOr("final_or_detected"))
  }

  function NormalizeAll(es: seq<RawEntry>, iso: string -> Option<string>): (os: seq<Output>)
    requires forall i :: 0 <= i < |es| ==> Named(es[i])
    ensures |os| == |es| && forall k :: 0 <= k < |es| ==> os[k] == NormalizeEntry(es[k], iso)
  {
    seq(|es|, k requires 0 <= k < |es| => NormalizeEntry(es[k], iso))
  }

  lemma NormalizeAllAppend(es: seq<RawEntry>, e: RawEntry, iso: string -> Option<string>)
    requires forall i :: 0 <= i < |es| ==> Named(es[i])
    requires Named(e)
    ensures NormalizeAll(es + [e], iso) == NormalizeAll(es, iso) + [NormalizeEntry(e, iso)]
  {
  }

  /** `normalize_and_save` without the file write: one pass with the set of
      keys seen so far. */
  method NormalizeEntries(entries: seq<RawEntry>, iso: string -> Option<string>) returns (output: seq<Output>)
    ensures output == NormalizeAll(Kept(entries), iso)
    ensures |output| <= |entries|
  {
    output := [];
    var seen: set<Key> := {};
    ghost var kept: seq<RawEntry> := [];
    var i := 0;
    while i < |entries|
      invariant 0 <= i <= |entries|
      invariant kept == Kept(entries[..i])
      invariant seen == KeysOf(kept)
      invariant output == NormalizeAll(kept, iso)
    {
      var e := entries[i];
      KeptStep(entries[..i + 1]);
      assert entries[..i + 1][..i] == entries[..i];
      assert entries[..i + 1][i] == e;
      if !Named(e) {
        i := i + 1;
        continue;
      }
      var key := KeyOf(e);
      if key in seen {
        i := i + 1;
        continue;
      }
      KeysOfAppend(kept, e);
      NormalizeAllAppend(kept, e, iso);
      kept := kept + [e];
      seen := seen + {key};
      output := output + [NormalizeEntry(e, iso)];
      i := i + 1;
    }
    assert entries[..|entries|] == entries;
  }
}
