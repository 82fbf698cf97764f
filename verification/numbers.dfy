/** Decimal text and numbers: Python's `str(int)` and `float(text)` on the
    unsigned decimal literals the scripts read. */
module Numbers {
  import opened Wrappers
  import opened Text

  predicate IsDigit(c: char) {
    '0' <= c <= '9'
  }

  predicate AllDigits(s: string) {
    forall i :: 0 <= i < |s| ==> IsDigit(s[i])
  }

  function DigitChar(d: nat): (c: char)
    requires d < 10
    ensures IsDigit(c) && c as int - '0' as int == d
  {
    ('0' as int + d) as char
  }

  /** The number a string of decimal digits denotes (0 for the empty string). */
  function DigitsValue(s: string): nat
    requires AllDigits(s)
  {
    if |s| == 0 then 0
    else DigitsValue(s[..|s| - 1]) * 10 + (s[|s| - 1] as int - '0' as int)
  }

  function Pow10(n: nat): (r: nat)
    ensures r >= 1
  {
    if n == 0 then 1 else 10 * Pow10(n - 1)
  }

  /** Python's `str(n)` for a natural number: shortest decimal digits. */
  function NatToString(n: nat): (r: string)
    ensures |r| >= 1 && AllDigits(r)
    ensures DigitsValue(r) == n
    ensures r[0] == '0' ==> r == "0"
  {
    if n < 10 then [DigitChar(n)]
    else
      var r := NatToString(n / 10) + [DigitChar(n % 10)];
      assert r[..|r| - 1] == NatToString(n / 10);
      r
  }

  /** Python's `str(i)` for any integer. */
  function IntToString(i: int): (r: string)
    ensures |r| >= 1
    ensures r[0] == '-' <==> i < 0
    ensures i < 0 ==> AllDigits(r[1..]) && DigitsValue(r[1..]) == -i
    ensures i >= 0 ==> AllDigits(r) && DigitsValue(r) == i
  {
    if i < 0 then "-" + NatToString(-i) else NatToString(i)
  }

  /** Python's `int(text)` on text without surrounding blanks: an optional
      sign followed by at least one decimal digit; anything else raises,
      shown as None. */
  function PyInt(s: string): (r: Option<int>)
    ensures r.Some? <==>
      (|s| > 0 && if s[0] == '+' || s[0] == '-' then |s| > 1 && AllDigits(s[1..]) else AllDigits(s))
  {
    if |s| > 0 && (s[0] == '+' || s[0] == '-') then
      var digits := s[1..];
      if |digits| > 0 && AllDigits(digits) then
        Some(if s[0] == '-' then -(DigitsValue(digits) as int) else DigitsValue(digits))
      else None
    else if |s| > 0 && AllDigits(s) then Some(DigitsValue(s))
    else None
  }

  /** `int(str(i)) == i`. */
  lemma PyIntOfString(i: int)
    ensures PyInt(IntToString(i)) == Some(i)
  {
    var s := IntToString(i);
    if i >= 0 {
      assert IsDigit(s[0]);
    }
  }

  /** The characters of the pattern class `[\d\.]`. */
  predicate IsNumberChar(c: char) {
    IsDigit(c) || c == '.'
  }

  /** The text is an unsigned decimal literal: digits with at most one point,
      and at least one digit ("7", "7.", ".5", "7.25"). */
  predicate IsDecimalLiteral(s: string) {
    && (forall i :: 0 <= i < |s| ==> IsNumberChar(s[i]))
    && Count(s, '.') <= 1
    && exists i :: 0 <= i < |s| && IsDigit(s[i])
  }

  /** Python's `float(s)` for text made of digits and points: the value of an
      unsigned decimal literal, and None where `float` raises. */
  function ParseDecimal(s: string): (r: Option<real>)
    ensures r.Some? <==> (forall i :: 0 <= i < |s| ==> IsNumberChar(s[i])) && Count(s, '.') <= 1 && |s| > Count(s, '.')
    ensures r.Some? ==> r.value >= 0.0
  {
    if exists i :: 0 <= i < |s| && !IsNumberChar(s[i]) then None
    else
      var parts := Split(s, '.');
      if |parts| == 1 then
        if |s| == 0 then None
        else
          assert s == Join(parts, '.') by { JoinSplit(s, '.'); }
          assert AllDigits(s);
          Some(DigitsValue(s) as real)
      else if |parts| == 2 then
        var whole, frac := parts[0], parts[1];
        assert s == whole + ['.'] + frac by {
          JoinSplit(s, '.');
          assert Join(parts[1..], '.') == frac;
        }
        assert AllDigits(whole) by {
          forall i | 0 <= i < |whole| ensures IsDigit(whole[i]) {
            assert whole[i] == s[i];
          }
        }
        assert AllDigits(frac) by {
          forall i | 0 <= i < |frac| ensures IsDigit(frac[i]) {
            assert frac[i] == s[|whole| + 1 + i];
          }
        }
        CountAppend(whole + ['.'], frac, '.');
        CountAppend(whole, ['.'], '.');
        if |whole| + |frac| == 0 then None
        else Some(PointValue(whole, frac))
      else None
  }

  /** The value of the digits `whole` and `frac` written around a point. */
  function PointValue(whole: string, frac: string): real
    requires AllDigits(whole) && AllDigits(frac)
  {
    DigitsValue(whole) as real + DigitsValue(frac) as real / Pow10(|frac|) as real
  }

  lemma {:induction false} CountAppend(a: string, b: string, c: char)
    ensures Count(a + b, c) == Count(a, c) + Count(b, c)
  {
    if |a| > 0 {
      assert (a + b)[1..] == a[1..] + b;
      CountAppend(a[1..], b, c);
    } else {
      assert a + b == b;
    }
  }

  /** Python's `float(s)` as far as the model follows it: surrounding
      whitespace is ignored, then the text must be an unsigned decimal literal. */
  function PyFloat(s: string): Option<real> {
    ParseDecimal(Strip(s))
  }

  /** Reading back the decimal text of a natural number gives the number. */
  lemma ParseDecimalOfNat(n: nat)
    ensures ParseDecimal(NatToString(n)) == Some(n as real)
  {
    var s := NatToString(n);
    assert forall i :: 0 <= i < |s| ==> IsNumberChar(s[i]) && s[i] != '.';
    assert '.' !in s;
    SplitWithout(s, '.');
    assert !(exists i :: 0 <= i < |s| && !IsNumberChar(s[i]));
  }

  /** Reading a literal with a point: its value is the number all its digits
      spell, scaled down by one power of ten per digit after the point
      ("7.25" is 725 / 100). */
  lemma ParseDecimalOfPoint(whole: string, frac: string)
    requires AllDigits(whole) && AllDigits(frac) && |whole| + |frac| > 0
    ensures ParseDecimal(whole + "." + frac)
         == Some(DigitsValue(whole + frac) as real / Pow10(|frac|) as real)
  {
    PointValueShift(whole, frac);
    assert ParseDecimal(whole + "." + frac) == Some(PointValue(whole, frac)) by {
      PointLiteral(whole, frac);
      ParseDecimalOfParts(whole + "." + frac, whole, frac);
    }
  }

  /** `float` of number text that splits at its one point into two digit runs. */
  lemma ParseDecimalOfParts(s: string, whole: string, frac: string)
    requires forall i :: 0 <= i < |s| ==> IsNumberChar(s[i])
    requires Split(s, '.') == [whole, frac]
    requires AllDigits(whole) && AllDigits(frac) && |whole| + |frac| > 0
    ensures ParseDecimal(s) == Some(PointValue(whole, frac))
  {
    assert !(exists i :: 0 <= i < |s| && !IsNumberChar(s[i]));
    var parts := Split(s, '.');
    assert |parts| == 2 && parts[0] == whole && parts[1] == frac;
    var r := ParseDecimal(s);
    assert r.Some?;
    assert r.value == PointValue(parts[0], parts[1]);
  }

  /** A literal with a point is made of number characters and splits at the point. */
  lemma PointLiteral(whole: string, frac: string)
    requires AllDigits(whole) && AllDigits(frac)
    ensures var s := whole + "." + frac;
      && (forall i :: 0 <= i < |s| ==> IsNumberChar(s[i]))
      && Split(s, '.') == [whole, frac]
  {
    var s := whole + "." + frac;
    forall i | 0 <= i < |s| ensures IsNumberChar(s[i]) {
      if i < |whole| { assert s[i] == whole[i]; }
      else if i > |whole| { assert s[i] == frac[i - |whole| - 1]; }
    }
    assert '.' !in whole && '.' !in frac by {
      assert forall i :: 0 <= i < |whole| ==> whole[i] != '.';
      assert forall i :: 0 <= i < |frac| ==> frac[i] != '.';
    }
    SplitAtPoint(whole, frac);
    SplitWithout(frac, '.');
  }

  /** The digits around a point, read as one number and scaled down. */
  lemma PointValueShift(whole: string, frac: string)
    requires AllDigits(whole) && AllDigits(frac)
    ensures AllDigits(whole + frac)
    ensures PointValue(whole, frac) == DigitsValue(whole + frac) as real / Pow10(|frac|) as real
  {
    DigitsValueAppend(whole, frac);
    ShiftDivide(DigitsValue(whole), DigitsValue(frac), Pow10(|frac|));
  }

  lemma ShiftDivide(x: nat, y: nat, p: nat)
    requires p >= 1
    ensures (x * p + y) as real / p as real == x as real + y as real / p as real
  {
    assert (x * p) as real == x as real * p as real;
  }

  /** Splitting at the first separator, when the text before it holds none. */
  lemma {:induction false} SplitAtPoint(a: string, b: string)
    requires '.' !in a
    ensures Split(a + "." + b, '.') == [a] + Split(b, '.')
  {
    var s := a + "." + b;
    if |a| == 0 {
      assert s[1..] == b;
    } else {
      assert s[1..] == a[1..] + "." + b;
      SplitAtPoint(a[1..], b);
      assert [a[0]] + a[1..] == a;
    }
  }

  lemma ShiftStep(x: int, p: int, y: int, d: int)
    ensures (x * p + y) * 10 + d == x * (p * 10) + (y * 10 + d)
  {
  }

  /** Appending digits shifts the value left by their count. */
  lemma {:induction false} DigitsValueAppend(a: string, b: string)
    requires AllDigits(a) && AllDigits(b)
    ensures AllDigits(a + b)
    ensures DigitsValue(a + b) == DigitsValue(a) * Pow10(|b|) + DigitsValue(b)
  {
    assert AllDigits(a + b) by {
      forall i | 0 <= i < |a + b| ensures IsDigit((a + b)[i]) {
        if i < |a| { assert (a + b)[i] == a[i]; } else { assert (a + b)[i] == b[i - |a|]; }
      }
    }
    if |b| == 0 {
      assert a + b == a;
    } else {
      var b' := b[..|b| - 1];
      var d := b[|b| - 1] as int - '0' as int;
      assert (a + b)[..|a + b| - 1] == a + b';
      assert (a + b)[|a + b| - 1] == b[|b| - 1];
      DigitsValueAppend(a, b');
      assert DigitsValue(a + b) == DigitsValue(a + b') * 10 + d;
      assert DigitsValue(b) == DigitsValue(b') * 10 + d;
      assert Pow10(|b|) == Pow10(|b'|) * 10;
      ShiftStep(DigitsValue(a), Pow10(|b'|), DigitsValue(b'), d);
    }
  }

  lemma {:induction false} CountZero(s: string, c: char)
    requires c !in s
    ensures Count(s, c) == 0
  {
    if |s| > 0 {
      assert c !in s[1..];
      CountZero(s[1..], c);
    }
  }

  lemma SplitWithout(s: string, c: char)
    requires c !in s
    ensures Split(s, c) == [s]
  {
    CountZero(s, c);
    JoinSplit(s, c);
  }
}
