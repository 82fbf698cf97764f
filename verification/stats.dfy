/** The container-metrics helpers of the batch runner: reading the memory and
    CPU columns of one `docker stats` line, collecting a sampler's readings,
    and reducing the readings of one attempt to its peak figures. */
module Stats {
  import opened Wrappers
  import opened Text
  import opened Numbers

  // ---------------------------------------------------------------------
  // Memory quantities such as "123.4MiB"
  // ---------------------------------------------------------------------

  /** The units the quantity pattern can match: an optional k/m/g/t
      prefix, an optional i, then b. */
  datatype UnitPrefix = NoPrefix | Kilo | Mega | Giga | Tera
  datatype Unit = Unit(prefix: UnitPrefix, binary: bool)

  /** The lower-cased text of a unit, as `m.group(2).lower()` yields it. */
  function Spelling(u: Unit): string {
    match u.prefix
    case NoPrefix => if u.binary then "ib" else "b"
    case Kilo => if u.binary then "kib" else "kb"
    case Mega => if u.binary then "mib" else "mb"
    case Giga => if u.binary then "gib" else "gb"
    case Tera => if u.binary then "tib" else "tb"
  }

  function PrefixOf(c: char): UnitPrefix {
    if c == 'k' then Kilo
    else if c == 'm' then Mega
    else if c == 'g' then Giga
    else if c == 't' then Tera
    else NoPrefix
  }

  const UnitPrefixes: set<char> := {'k', 'm', 'g', 't'}

  /** What the pattern `([\d\.]+)\s*([KMGT]?i?B)` (case-insensitive) captures
      when it matches at the start of a string. */
  datatype Quantity = Quantity(number: string, unit: Unit)

  /** The case-insensitive pattern match anchored at the start of `s`. The
      number is the longest run of digits and points, the spaces after it
      are skipped, and the unit takes each optional letter when present. */
  function MatchQuantity(s: string): (r: Option<Quantity>)
    ensures r.Some? ==> 0 < |r.value.number| <= |s| && r.value.number == s[..|r.value.number|]
    ensures r.Some? ==> forall i :: 0 <= i < |r.value.number| ==> IsNumberChar(r.value.number[i])
  {
    var number := Span(s, IsNumberChar);
    if |number| == 0 then None
    else
      match UnitAt(TrimLeft(s[|number|..], IsSpace))
      case Some(unit) => Some(Quantity(number, unit))
      case None => None
  }

  /** The unit group matched at the start of `rest`: an optional prefix
      letter, an optional i, then b, in either case. */
  function UnitAt(rest: string): Option<Unit> {
    var p := if |rest| > 0 && LowerChar(rest[0]) in UnitPrefixes then 1 else 0;
    var i := if |rest| > p && LowerChar(rest[p]) == 'i' then 1 else 0;
    if |rest| > p + i && LowerChar(rest[p + i]) == 'b' then
      Some(Unit(if p == 1 then PrefixOf(LowerChar(rest[0])) else NoPrefix, i == 1))
    else None
  }

  /** How many bytes one of each unit stands for, reading k, m, g and t as
      powers of 1024 with or without the i. */
  function BytesPerUnit(u: Unit): nat {
    match u.prefix
    case NoPrefix => 1
    case Kilo => 1024
    case Mega => 1024 * 1024
    case Giga => 1024 * 1024 * 1024
    case Tera => 1024 * 1024 * 1024 * 1024
  }

  /** A quantity of `v` units expressed in mebibytes. */
  function Mebibytes(v: real, u: Unit): real {
    v * BytesPerUnit(u) as real / 1048576.0
  }

  /** The unit conversion as the runner writes it. A plain byte count ("b",
      or the stray "ib") falls through to the last branch and is returned
      unchanged, as if it were already in megabytes. */
  function ScaleAsWritten(v: real, unit: string): real {
    if EndsWith(unit, "kb") then v / 1024.0
    else if EndsWith(unit, "kib") then v / 1024.0
    else if EndsWith(unit, "mb") || EndsWith(unit, "mib") then v
    else if EndsWith(unit, "gb") || EndsWith(unit, "gib") then v * 1024.0
    else if EndsWith(unit, "tb") || EndsWith(unit, "tib") then v * 1024.0 * 1024.0
    else v
  }

  /** The unit conversion with the byte branch converting to megabytes. */
  function Scale(v: real, unit: string): real {
    if EndsWith(unit, "kb") then v / 1024.0
    else if EndsWith(unit, "kib") then v / 1024.0
    else if EndsWith(unit, "mb") || EndsWith(unit, "mib") then v
    else if EndsWith(unit, "gb") || EndsWith(unit, "gib") then v * 1024.0
    else if EndsWith(unit, "tb") || EndsWith(unit, "tib") then v * 1024.0 * 1024.0
    else v / (1024.0 * 1024.0)
  }

  /** Which suffixes the conversion tests a unit's spelling has: exactly
      its own prefix letter followed by "b" or "ib". */
  lemma SpellingEndings(u: Unit)
    ensures EndsWith(Spelling(u), "kb") <==> u == Unit(Kilo, false)
    ensures EndsWith(Spelling(u), "kib") <==> u == Unit(Kilo, true)
    ensures EndsWith(Spelling(u), "mb") <==> u == Unit(Mega, false)
    ensures EndsWith(Spelling(u), "mib") <==> u == Unit(Mega, true)
    ensures EndsWith(Spelling(u), "gb") <==> u == Unit(Giga, false)
    ensures EndsWith(Spelling(u), "gib") <==> u == Unit(Giga, true)
    ensures EndsWith(Spelling(u), "tb") <==> u == Unit(Tera, false)
    ensures EndsWith(Spelling(u), "tib") <==> u == Unit(Tera, true)
  {
    ByteEnding(u, Kilo, 'k');
    ByteEnding(u, Mega, 'm');
    ByteEnding(u, Giga, 'g');
    ByteEnding(u, Tera, 't');
    BinaryEnding(u, Kilo, 'k');
    BinaryEnding(u, Mega, 'm');
    BinaryEnding(u, Giga, 'g');
    BinaryEnding(u, Tera, 't');
  }

  /** The letter a prefix is spelled with. */
  function Letter(p: UnitPrefix): (c: char)
    requires p != NoPrefix
    ensures c != 'i'
  {
    match p
    case Kilo => 'k'
    case Mega => 'm'
    case Giga => 'g'
    case Tera => 't'
  }

  /** Every spelling ends in "b", preceded by "i" for a binary unit, and
      starts with the prefix letter when there is a prefix. */
  lemma SpellingShape(u: Unit)
    ensures |Spelling(u)| == (if u.prefix == NoPrefix then 0 else 1) + (if u.binary then 2 else 1)
    ensures Spelling(u)[|Spelling(u)| - 1] == 'b'
    ensures u.binary ==> Spelling(u)[|Spelling(u)| - 2] == 'i'
    ensures u.prefix != NoPrefix ==> Spelling(u)[0] == Letter(u.prefix)
  {
    match u.prefix
    case NoPrefix =>
    case Kilo =>
    case Mega =>
    case Giga =>
    case Tera =>
  }

  lemma ByteEnding(u: Unit, p: UnitPrefix, c: char)
    requires p != NoPrefix && c == Letter(p)
    ensures EndsWith(Spelling(u), [c, 'b']) <==> u == Unit(p, false)
  {
    var sp := Spelling(u);
    SpellingShape(u);
    EndsWithTwo(sp, [c, 'b']);
    if EndsWith(sp, [c, 'b']) {
      assert !u.binary && u.prefix != NoPrefix;
      LetterDistinct(u.prefix, p);
    }
  }

  /** Different prefixes are spelled with different letters. */
  lemma LetterDistinct(p: UnitPrefix, q: UnitPrefix)
    requires p != NoPrefix && q != NoPrefix && Letter(p) == Letter(q)
    ensures p == q
  {
  }

  lemma BinaryEnding(u: Unit, p: UnitPrefix, c: char)
    requires p != NoPrefix && c == Letter(p)
    ensures EndsWith(Spelling(u), [c, 'i', 'b']) <==> u == Unit(p, true)
  {
    var sp := Spelling(u);
    SpellingShape(u);
    EndsWithThree(sp, [c, 'i', 'b']);
    if EndsWith(sp, [c, 'i', 'b']) {
      assert u.binary && u.prefix != NoPrefix;
      LetterDistinct(u.prefix, p);
    }
  }

  /** A two-letter suffix test compares the last two characters. */
  lemma EndsWithTwo(s: string, suffix: string)
    requires |suffix| == 2
    ensures EndsWith(s, suffix) <==> |s| >= 2 && s[|s| - 2] == suffix[0] && s[|s| - 1] == suffix[1]
  {
    EndsWithChars(s, suffix);
  }

  /** A three-letter suffix test compares the last three characters. */
  lemma EndsWithThree(s: string, suffix: string)
    requires |suffix| == 3
    ensures EndsWith(s, suffix) <==>
      |s| >= 3 && s[|s| - 3] == suffix[0] && s[|s| - 2] == suffix[1] && s[|s| - 1] == suffix[2]
  {
    EndsWithChars(s, suffix);
  }

  lemma EndsWithChars(s: string, suffix: string)
    ensures EndsWith(s, suffix) <==>
      |suffix| <= |s| && forall i :: 0 <= i < |suffix| ==> s[|s| - |suffix| + i] == suffix[i]
  {
    if |suffix| <= |s| && forall i :: 0 <= i < |suffix| ==> s[|s| - |suffix| + i] == suffix[i] {
      assert s[|s| - |suffix|..] == suffix;
    }
  }

  /** The as-written conversion per unit: megabytes stay, gigabytes and
      terabytes are multiplied by 1024 and 1024 squared, kilobytes divided by
      1024, and a unit without a prefix is returned unchanged. */
  function MegabytesAsWritten(v: real, u: Unit): real {
    match u.prefix
    case NoPrefix => v
    case Kilo => v / 1024.0
    case Mega => v
    case Giga => v * 1024.0
    case Tera => v * 1024.0 * 1024.0
  }

  /** The as-written suffix tests pick, for every spelling of a unit, the
      entry of the table above. */
  lemma ScaleAsWrittenTable(v: real, u: Unit)
    ensures ScaleAsWritten(v, Spelling(u)) == MegabytesAsWritten(v, u)
  {
    SpellingEndings(u);
  }

  /** The corrected conversion turns every unit into mebibytes. */
  lemma ScaleIsMebibytes(v: real, u: Unit)
    ensures Scale(v, Spelling(u)) == Mebibytes(v, u)
  {
    if u.prefix == NoPrefix {
      ScaleAgreesAsWritten(v, u);
    } else {
      assert Scale(v, Spelling(u)) == MegabytesAsWritten(v, u) by {
        ScaleAgreesAsWritten(v, u);
        ScaleAsWrittenTable(v, u);
      }
      PrefixedMebibytes(v, u);
    }
  }

  /** For a unit with a prefix, the as-written table gives mebibytes. */
  lemma PrefixedMebibytes(v: real, u: Unit)
    requires u.prefix != NoPrefix
    ensures MegabytesAsWritten(v, u) == Mebibytes(v, u)
  {
    match u.prefix
    case Kilo => assert Mebibytes(v, u) == v * 1024.0 / 1048576.0;
    case Mega => assert Mebibytes(v, u) == v * 1048576.0 / 1048576.0;
    case Giga => assert Mebibytes(v, u) == v * 1073741824.0 / 1048576.0;
    case Tera => assert Mebibytes(v, u) == v * 1099511627776.0 / 1048576.0;
  }

  /** The two conversions differ only on units without a prefix. */
  lemma ScaleAgreesAsWritten(v: real, u: Unit)
    ensures u.prefix != NoPrefix ==> Scale(v, Spelling(u)) == ScaleAsWritten(v, Spelling(u))
    ensures u.prefix == NoPrefix ==> Scale(v, Spelling(u)) == v / (1024.0 * 1024.0)
  {
    SpellingEndings(u);
  }

  /** A byte count: the as-written conversion reports 100 bytes as 100
      megabytes, where the intended figure is 100 / 2^20. */
  lemma BytesReadAsMegabytes()
    ensures ScaleAsWritten(100.0, Spelling(Unit(NoPrefix, false))) == 100.0
    ensures Mebibytes(100.0, Unit(NoPrefix, false)) == 100.0 / 1048576.0
    ensures ScaleAsWritten(100.0, Spelling(Unit(NoPrefix, false))) != Mebibytes(100.0, Unit(NoPrefix, false))
  {
    SpellingEndings(Unit(NoPrefix, false));
  }

  /** `_to_mb` as written: no match gives None, a number group that `float`
      rejects (such as "1.2.3") raises, otherwise the converted value. */
  function ToMbAsWritten(s: string): (r: Result<Option<real>>)
    ensures MatchQuantity(Strip(s)).None? ==> r == Ok(None)
    ensures MatchQuantity(Strip(s)).Some? ==>
      var q := MatchQuantity(Strip(s)).value;
      match ParseDecimal(q.number)
      case None => r == Raised(ValueError) && !IsDecimalLiteral(q.number)
      case Some(v) => r == Ok(Some(MegabytesAsWritten(v, q.unit))) && IsDecimalLiteral(q.number)
  {
    match MatchQuantity(Strip(s))
    case None => Ok(None)
    case Some(q) =>
      DecimalLiteralDigits(q.number);
      // The number group holds no whitespace, so float's own stripping is idle.
      match ParseDecimal(q.number)
      case None => Raised(ValueError)
      case Some(v) =>
        ScaleAsWrittenTable(v, q.unit);
        Ok(Some(ScaleAsWritten(v, Spelling(q.unit))))
  }

  /** `_to_mb` with the byte unit corrected: the quantity in mebibytes, or
      the `ValueError` of a number group that is not a decimal literal. */
  function ToMb(s: string): (r: Result<Option<real>>)
    ensures MatchQuantity(Strip(s)).None? ==> r == Ok(None)
    ensures MatchQuantity(Strip(s)).Some? ==>
      var q := MatchQuantity(Strip(s)).value;
      match ParseDecimal(q.number)
      case None => r == Raised(ValueError) && !IsDecimalLiteral(q.number)
      case Some(v) => r == Ok(Some(Mebibytes(v, q.unit))) && IsDecimalLiteral(q.number)
  {
    match MatchQuantity(Strip(s))
    case None => Ok(None)
    case Some(q) =>
      DecimalLiteralDigits(q.number);
      match ParseDecimal(q.number)
      case None => Raised(ValueError)
      case Some(v) =>
        ScaleIsMebibytes(v, q.unit);
        Ok(Some(Scale(v, Spelling(q.unit))))
  }

  /** For text of digits and points, `float` accepts exactly the decimal literals. */
  lemma DecimalLiteralDigits(s: string)
    requires forall i :: 0 <= i < |s| ==> IsNumberChar(s[i])
    ensures ParseDecimal(s).Some? <==> IsDecimalLiteral(s)
  {
    if Count(s, '.') <= 1 {
      if |s| > Count(s, '.') {
        var i := DigitAt(s);
      } else {
        NoDigitAt(s);
      }
    }
  }

  lemma {:induction false} DigitAt(s: string) returns (k: nat)
    requires forall i :: 0 <= i < |s| ==> IsNumberChar(s[i])
    requires |s| > Count(s, '.')
    ensures k < |s| && IsDigit(s[k])
  {
    if s[0] != '.' {
      k := 0;
    } else {
      var j := DigitAt(s[1..]);
      k := j + 1;
    }
  }

  lemma {:induction false} NoDigitAt(s: string)
    requires forall i :: 0 <= i < |s| ==> IsNumberChar(s[i])
    requires |s| <= Count(s, '.')
    ensures forall i :: 0 <= i < |s| ==> !IsDigit(s[i])
  {
    CountBound(s, '.');
    if |s| > 0 {
      CountBound(s[1..], '.');
      NoDigitAt(s[1..]);
      assert forall i :: 1 <= i < |s| ==> s[i] == s[1..][i - 1];
    }
  }

  lemma {:induction false} CountBound(s: string, c: char)
    ensures Count(s, c) <= |s|
    ensures Count(s, c) == |s| ==> forall i :: 0 <= i < |s| ==> s[i] == c
  {
    if |s| > 0 {
      CountBound(s[1..], c);
      assert forall i :: 1 <= i < |s| ==> s[i] == s[1..][i - 1];
    }
  }

  // ---------------------------------------------------------------------
  // One line of `docker stats`: "12.34%|123.4MiB / 1.95GiB"
  // ---------------------------------------------------------------------

  /** Used and total memory of one reading, each None when unreadable. */
  datatype MemUsage = MemUsage(used: Option<real>, total: Option<real>)

  /** `parse_mem_str` over a given `_to_mb`: anything but exactly one '/'
      gives (None, None); otherwise both sides are converted, and a
      conversion that raises makes the whole call raise. */
  function ParseMemWith(s: string, toMb: string -> Result<Option<real>>): (r: Result<MemUsage>)
    ensures Count(s, '/') != 1 ==> r == Ok(MemUsage(None, None))
    ensures Count(s, '/') == 1 ==>
      var parts := Split(s, '/');
      && parts[0] + ['/'] + parts[1] == s
      && (r.Ok? <==> toMb(Strip(parts[0])).Ok? && toMb(Strip(parts[1])).Ok?)
      && (r.Ok? ==> r.value == MemUsage(toMb(Strip(parts[0])).value, toMb(Strip(parts[1])).value))
      && (r.Raised? ==> r.error == (if toMb(Strip(parts[0])).Raised? then toMb(Strip(parts[0])) else toMb(Strip(parts[1]))).error)
  {
    var parts := Split(s, '/');
    if |parts| != 2 then Ok(MemUsage(None, None))
    else
      assert parts[0] + ['/'] + parts[1] == s by {
        JoinSplit(s, '/');
        assert Join(parts[1..], '/') == parts[1];
      }
      match toMb(Strip(parts[0]))
      case Raised(e) => Raised(e)
      case Ok(used) =>
        match toMb(Strip(parts[1]))
        case Raised(e) => Raised(e)
        case Ok(total) => Ok(MemUsage(used, total))
  }

  /** `parse_mem_str` as the runner writes it, on the as-written `_to_mb`:
      the used and total figures are the two sides' as-written conversions. */
  function ParseMemStr(s: string): (r: Result<MemUsage>)
    ensures Count(s, '/') != 1 ==> r == Ok(MemUsage(None, None))
    ensures Count(s, '/') == 1 ==>
      var parts := Split(s, '/');
      && parts[0] + ['/'] + parts[1] == s
      && (r.Ok? <==> ToMbAsWritten(Strip(parts[0])).Ok? && ToMbAsWritten(Strip(parts[1])).Ok?)
      && (r.Ok? ==> r.value == MemUsage(ToMbAsWritten(Strip(parts[0])).value, ToMbAsWritten(Strip(parts[1])).value))
  {
    ParseMemWith(s, ToMbAsWritten)
  }

  /** `parse_mem_str` on the corrected `_to_mb`, which reads plain bytes as
      bytes: the used and total figures are in mebibytes. */
  function ParseMemStrCorrected(s: string): (r: Result<MemUsage>)
    ensures Count(s, '/') != 1 ==> r == Ok(MemUsage(None, None))
    ensures Count(s, '/') == 1 ==>
      var parts := Split(s, '/');
      && parts[0] + ['/'] + parts[1] == s
      && (r.Ok? <==> ToMb(Strip(parts[0])).Ok? && ToMb(Strip(parts[1])).Ok?)
      && (r.Ok? ==> r.value == MemUsage(ToMb(Strip(parts[0])).value, ToMb(Strip(parts[1])).value))
  {
    ParseMemWith(s, ToMb)
  }

  /** The two readings of a memory column agree on whether they raise, and
      agree on the figures whenever no side is written in plain bytes. */
  lemma ParseMemStrCorrectedAgrees(s: string)
    ensures ParseMemStr(s).Ok? <==> ParseMemStrCorrected(s).Ok?
    ensures Count(s, '/') == 1 ==>
      var parts := Split(s, '/');
      Prefixed(Strip(parts[0])) && Prefixed(Strip(parts[1])) ==> ParseMemStr(s) == ParseMemStrCorrected(s)
  {
    if Count(s, '/') == 1 {
      var parts := Split(s, '/');
      ToMbCorrectedAgrees(Strip(parts[0]));
      ToMbCorrectedAgrees(Strip(parts[1]));
    }
  }

  /** No quantity is read from `s`, or the quantity read has a unit prefix. */
  predicate Prefixed(s: string) {
    MatchQuantity(Strip(s)).Some? ==> MatchQuantity(Strip(s)).value.unit.prefix != NoPrefix
  }

  /** The two conversions of one side raise on the same text, and differ in
      value only for a quantity without a prefix. */
  lemma ToMbCorrectedAgrees(s: string)
    ensures ToMbAsWritten(s).Ok? <==> ToMb(s).Ok?
    ensures Prefixed(s) ==> ToMbAsWritten(s) == ToMb(s)
  {
    if MatchQuantity(Strip(s)).Some? {
      var q := MatchQuantity(Strip(s)).value;
      if ParseDecimal(q.number).Some? {
        var v := ParseDecimal(q.number).value;
        ScaleAgreesAsWritten(v, q.unit);
        ScaleAsWrittenTable(v, q.unit);
        ScaleIsMebibytes(v, q.unit);
      }
    }
  }

  lemma StripTwice(s: string)
    ensures Strip(Strip(s)) == Strip(s)
  {
    var t := Strip(s);
    TrimOfTrimmed(t, IsSpace);
  }

  /** Trimming text whose ends are already free of `drop` leaves it alone. */
  lemma TrimOfTrimmed(t: string, drop: char -> bool)
    requires |t| > 0 ==> !drop(t[0]) && !drop(t[|t| - 1])
    ensures Trim(t, drop) == t
  {
  }

  predicate IsPercent(c: char) {
    c == '%'
  }

  /** `parse_cpu_str`: strip spaces, then any '%' signs at either end, then
      `float`; text `float` rejects gives None. */
  function ParseCpuStr(s: string): Option<real> {
    PyFloat(Trim(Strip(s), IsPercent))
  }

  /** A percentage printed as digits and a per-cent sign reads back as its value. */
  lemma ParseCpuOfPercent(n: nat)
    ensures ParseCpuStr(NatToString(n) + "%") == Some(n as real)
  {
    PercentOfDigits(NatToString(n));
    ParseDecimalOfNat(n);
  }

  /** Digits followed by one '%' read as the digits alone. */
  lemma PercentOfDigits(digits: string)
    requires |digits| > 0 && AllDigits(digits)
    ensures ParseCpuStr(digits + "%") == ParseDecimal(digits)
  {
    PercentUnstripped(digits);
    PercentTrimmed(digits);
    DigitsUntrimmed(digits, IsSpace);
  }

  lemma PercentUnstripped(digits: string)
    requires |digits| > 0 && AllDigits(digits)
    ensures Strip(digits + "%") == digits + "%"
  {
    var s := digits + "%";
    DigitsUntrimmed(digits, IsSpace);
    assert s[0] == digits[0] && s[|s| - 1] == '%';
    TrimOfTrimmed(s, IsSpace);
  }

  lemma PercentTrimmed(digits: string)
    requires |digits| > 0 && AllDigits(digits)
    ensures Trim(digits + "%", IsPercent) == digits
  {
    DigitsUntrimmed(digits, IsPercent);
    TrimOneTrailing(digits, IsPercent, '%');
  }

  /** Trimming one `drop` character off text whose ends are kept leaves the text. */
  lemma TrimOneTrailing(t: string, drop: char -> bool, c: char)
    requires |t| > 0 && !drop(t[0]) && !drop(t[|t| - 1]) && drop(c)
    ensures Trim(t + [c], drop) == t
  {
    var s := t + [c];
    var r := Trim(s, drop);
    assert s[0] == t[0];
    assert LeadingCount(s, drop) == 0;
    assert |r| == |t|;
    assert r == s[..|t|];
  }

  /** Text of digits has no character from a set holding no digit at either end. */
  lemma DigitsUntrimmed(digits: string, drop: char -> bool)
    requires |digits| > 0 && AllDigits(digits)
    requires forall c :: drop(c) ==> !IsDigit(c)
    ensures !drop(digits[0]) && !drop(digits[|digits| - 1])
    ensures Trim(digits, drop) == digits
  {
    TrimOfTrimmed(digits, drop);
  }

  /** One reading of the sampler; `raw` text and timestamp are left out. */
  datatype Sample = Sample(cpu: Option<real>, used: Option<real>, total: Option<real>)

  /** What one `docker stats` call contributes: nothing when the command
      failed, printed only blanks, or printed no '|'; otherwise a sample built
      from the two sides, or the exception `parse_mem_str` raised. */
  function ParseStatsLine(returnCode: int, stdout: string): (r: Result<Option<Sample>>)
    ensures returnCode != 0 || Strip(stdout) == "" || '|' !in Strip(stdout) ==> r == Ok(None)
    ensures r.Ok? && r.value.Some? ==>
      var parts := SplitOnce(Strip(stdout), '|');
      && |parts| == 2
      && r.value.value.cpu == ParseCpuStr(parts[0])
      && ParseMemStr(Strip(parts[1])) == Ok(MemUsage(r.value.value.used, r.value.value.total))
    ensures returnCode == 0 && Strip(stdout) != "" && '|' in Strip(stdout) ==>
      var parts := SplitOnce(Strip(stdout), '|');
      && |parts| == 2
      && (r.Ok? <==> ParseMemStr(Strip(parts[1])).Ok?)
      && (r.Ok? ==> r.value.Some?)
      && (r.Raised? ==> r.error == ParseMemStr(Strip(parts[1])).error)
  {
    var out := Strip(stdout);
    if returnCode == 0 && out != "" then
      var parts := SplitOnce(out, '|');
      if |parts| == 2 then
        var cpu := ParseCpuStr(Strip(parts[0]));
        StripTwice(parts[0]);
        match ParseMemStr(Strip(parts[1]))
        case Raised(e) => Raised(e)
        case Ok(mem) => Ok(Some(Sample(cpu, mem.used, mem.total)))
      else Ok(None)
    else Ok(None)
  }

  /** The outcome of each poll of a sampler thread, in poll order; each
      poll is the pair (return code, printed text) of one `docker stats` call. */
  function PollOutcomes(polls: seq<(int, string)>): (r: seq<Result<Option<Sample>>>)
    ensures |r| == |polls|
    ensures forall k :: 0 <= k < |polls| ==> r[k] == ParseStatsLine(polls[k].0, polls[k].1)
  {
    seq(|polls|, k requires 0 <= k < |polls| => Poll(polls[k]))
  }

  /** The outcome of one poll. */
  function Poll(poll: (int, string)): Result<Option<Sample>> {
    ParseStatsLine(poll.0, poll.1)
  }

  /** A sampler thread's collection: the samples of successive polls in poll
      order, until a poll raises, which ends the thread and keeps what it had. */
  function CollectSamples(outcomes: seq<Result<Option<Sample>>>): (r: seq<Sample>)
    ensures |r| <= |outcomes|
  {
    if |outcomes| == 0 then []
    else
      match outcomes[0]
      case Raised(_) => []
      case Ok(None) => CollectSamples(outcomes[1..])
      case Ok(Some(sample)) => [sample] + CollectSamples(outcomes[1..])
  }

  /** Every collected sample is the reading of some poll, and no poll from
      the first one that raises onwards contributes. */
  lemma {:induction false} CollectSamplesSound(outcomes: seq<Result<Option<Sample>>>)
    ensures forall s :: s in CollectSamples(outcomes) ==> Ok(Some(s)) in outcomes
    ensures forall k :: 0 <= k < |outcomes| && outcomes[k].Raised? ==>
      CollectSamples(outcomes) == CollectSamples(outcomes[..k])
  {
    if |outcomes| > 0 {
      CollectSamplesSound(outcomes[1..]);
      forall k | 0 <= k < |outcomes| && outcomes[k].Raised?
        ensures CollectSamples(outcomes) == CollectSamples(outcomes[..k])
      {
        if k > 0 && outcomes[0].Ok? {
          assert outcomes[1..][k - 1] == outcomes[k];
          assert outcomes[..k][1..] == outcomes[1..][..k - 1];
        }
      }
    }
  }

  /** Polls that do not raise contribute their samples in order: collecting
      a run of such polls and then more polls is collecting each in turn. */
  lemma {:induction false} CollectSamplesAppend(a: seq<Result<Option<Sample>>>, b: seq<Result<Option<Sample>>>)
    requires forall k :: 0 <= k < |a| ==> a[k].Ok?
    ensures CollectSamples(a + b) == CollectSamples(a) + CollectSamples(b)
  {
    if |a| == 0 {
      assert a + b == b;
    } else {
      assert (a + b)[0] == a[0];
      assert (a + b)[1..] == a[1..] + b;
      CollectSamplesAppend(a[1..], b);
    }
  }

  /** The samples of polls that do not raise, in poll order. */
  function Readings(outcomes: seq<Result<Option<Sample>>>): (r: seq<Sample>)
    requires forall k :: 0 <= k < |outcomes| ==> outcomes[k].Ok?
  {
    if |outcomes| == 0 then []
    else if outcomes[|outcomes| - 1].value.Some?
    then Readings(outcomes[..|outcomes| - 1]) + [outcomes[|outcomes| - 1].value.value]
    else Readings(outcomes[..|outcomes| - 1])
  }

  /** The collection is exactly the readings of the polls before the first
      one that raises, in poll order: nothing before it is dropped. */
  lemma {:induction false} CollectSamplesComplete(outcomes: seq<Result<Option<Sample>>>, k: nat)
    requires k <= |outcomes|
    requires forall j :: 0 <= j < k ==> outcomes[j].Ok?
    requires k < |outcomes| ==> outcomes[k].Raised?
    ensures CollectSamples(outcomes) == Readings(outcomes[..k])
  {
    CollectSamplesSound(outcomes);
    var pre := outcomes[..k];
    assert CollectSamples(outcomes) == CollectSamples(pre) by {
      if k == |outcomes| {
        assert pre == outcomes;
      }
    }
    CollectReadings(pre);
  }

  /** On polls none of which raises, collecting is reading. */
  lemma {:induction false} CollectReadings(outcomes: seq<Result<Option<Sample>>>)
    requires forall k :: 0 <= k < |outcomes| ==> outcomes[k].Ok?
    ensures CollectSamples(outcomes) == Readings(outcomes)
  {
    if |outcomes| > 0 {
      var n := |outcomes| - 1;
      var init := outcomes[..n];
      CollectReadings(init);
      CollectSamplesAppend(init, [outcomes[n]]);
      assert init + [outcomes[n]] == outcomes;
    }
  }

  // ---------------------------------------------------------------------
  // Peak figures of one attempt
  // ---------------------------------------------------------------------

  /** The present values of a list of optional readings, in order. */
  function Present(xs: seq<Option<real>>): (r: seq<real>)
    ensures |r| <= |xs|
    ensures forall v :: v in r <==> Some(v) in xs
  {
    if |xs| == 0 then []
    else
      var rest := Present(xs[1..]);
      assert forall v :: Some(v) in xs <==> xs[0] == Some(v) || Some(v) in xs[1..];
      if xs[0].Some? then [xs[0].value] + rest else rest
  }

  /** Python's `max(vals) if vals else None`. */
  function MaxOf(vals: seq<real>): (r: Option<real>)
    ensures r.None? <==> |vals| == 0
    ensures r.Some? ==> r.value in vals && forall v :: v in vals ==> v <= r.value
  {
    if |vals| == 0 then None
    else
      match MaxOf(vals[1..])
      case None => Some(vals[0])
      case Some(m) =>
        assert forall v :: v in vals ==> v == vals[0] || v in vals[1..];
        Some(if vals[0] >= m then vals[0] else m)
  }

  /** The figures kept for an attempt; `avail` is total minus peak used. */
  datatype Metrics = Metrics(maxCpu: Option<real>, maxUsed: Option<real>, total: Option<real>, avail: Option<real>)

  /** `m` is the largest present reading of `xs`, or None when none is present. */
  ghost predicate IsPeak(xs: seq<Option<real>>, m: Option<real>) {
    && (m.None? <==> forall i :: 0 <= i < |xs| ==> xs[i].None?)
    && (m.Some? ==> exists i :: 0 <= i < |xs| && xs[i] == m)
    && (m.Some? ==> forall i :: 0 <= i < |xs| && xs[i].Some? ==> xs[i].value <= m.value)
  }

  /** `m` is the first present reading of `xs`, or None when none is present. */
  ghost predicate IsFirst(xs: seq<Option<real>>, m: Option<real>) {
    && (m.None? <==> forall i :: 0 <= i < |xs| ==> xs[i].None?)
    && (m.Some? ==> exists i :: 0 <= i < |xs| && xs[i] == m && forall j :: 0 <= j < i ==> xs[j].None?)
  }

  lemma PeakOfPresent(xs: seq<Option<real>>)
    ensures IsPeak(xs, MaxOf(Present(xs)))
  {
    var m := MaxOf(Present(xs));
    if m.Some? {
      assert Some(m.value) in xs;
      forall i | 0 <= i < |xs| && xs[i].Some? ensures xs[i].value <= m.value {
        assert xs[i].value in Present(xs);
      }
    } else {
      PresentHas(xs);
    }
  }

  /** Every present reading is among the present values. */
  lemma PresentHas(xs: seq<Option<real>>)
    ensures forall i :: 0 <= i < |xs| && xs[i].Some? ==> xs[i].value in Present(xs)
  {
    forall i | 0 <= i < |xs| && xs[i].Some? ensures xs[i].value in Present(xs) {
      assert xs[i] in xs;
    }
  }

  /** The CPU readings of the samples, in order. */
  function Cpus(samples: seq<Sample>): seq<Option<real>> {
    seq(|samples|, i requires 0 <= i < |samples| => samples[i].cpu)
  }

  /** The used-memory readings of the samples, in order. */
  function Useds(samples: seq<Sample>): seq<Option<real>> {
    seq(|samples|, i requires 0 <= i < |samples| => samples[i].used)
  }

  /** The total-memory readings of the samples, in order. */
  function Totals(samples: seq<Sample>): seq<Option<real>> {
    seq(|samples|, i requires 0 <= i < |samples| => samples[i].total)
  }

  /** The reduction of an attempt's samples: peak CPU and peak used memory
      over the samples that have them, the total memory of the first sample
      that has one, and the available memory when both of the latter exist. */
  function Aggregate(samples: seq<Sample>): (m: Metrics)
    ensures IsPeak(Cpus(samples), m.maxCpu)
    ensures IsPeak(Useds(samples), m.maxUsed)
    ensures IsFirst(Totals(samples), m.total)
    ensures m.avail.Some? <==> m.total.Some? && m.maxUsed.Some?
    ensures m.avail.Some? ==> m.avail.value == m.total.value - m.maxUsed.value
  {
    var maxCpu := MaxOf(Present(Cpus(samples)));
    var maxUsed := MaxOf(Present(Useds(samples)));
    var totals := Present(Totals(samples));
    var total := if |totals| > 0 then Some(totals[0]) else None;
    var avail := if total.Some? && maxUsed.Some? then Some(total.value - maxUsed.value) else None;
    PeakOfPresent(Cpus(samples));
    PeakOfPresent(Useds(samples));
    FirstPresent(Totals(samples));
    Metrics(maxCpu, maxUsed, total, avail)
  }

  /** The first present value is the value of the first index that has one. */
  lemma {:induction false} FirstPresent(xs: seq<Option<real>>)
    ensures IsFirst(xs, if |Present(xs)| > 0 then Some(Present(xs)[0]) else None)
  {
    if |Present(xs)| == 0 {
      PresentHas(xs);
    }
    if |xs| > 0 && xs[0].None? {
      FirstPresent(xs[1..]);
      if |Present(xs)| > 0 {
        var i :| 0 <= i < |xs[1..]| && xs[1..][i] == Some(Present(xs[1..])[0])
          && forall j :: 0 <= j < i ==> xs[1..][j].None?;
        assert xs[i + 1] == Some(Present(xs)[0]);
        assert forall j :: 0 <= j < i + 1 ==> xs[j].None? by {
          forall j | 0 <= j < i + 1 ensures xs[j].None? {
            if j > 0 { assert xs[j] == xs[1..][j - 1]; }
          }
        }
      }
    } else if |xs| > 0 {
      assert xs[0] == Some(Present(xs)[0]);
    }
  }
}
