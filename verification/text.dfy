/**
 Python 2 string primitives the tool relies on, restated over `seq<char>`:
 `str.strip()`, `str.split(sep)`, `sep.join(parts)`, `file.readline()`,
 `'%s' % n` on integers, and `float()` on the digit-and-dot strings the
 output scans can capture.
 */
module Text {
  import opened Wrappers

  // ---------------------------------------------------------------------
  // Whitespace and str.strip()
  // ---------------------------------------------------------------------

  /** The bytes Python 2's `str.isspace` (and so `strip()` and `\s`) accepts. */
  predicate IsSpace(c: char) {
    c == ' ' || c == '\t' || c == '\n' || c == '\r' || c == '\U{0B}' || c == '\U{0C}'
  }

  predicate AllSpace(s: string) {
    forall i :: 0 <= i < |s| ==> IsSpace(s[i])
  }

  /** No whitespace at either end: what `strip()` leaves behind. */
  predicate Trimmed(s: string) {
    |s| == 0 || (!IsSpace(s[0]) && !IsSpace(s[|s| - 1]))
  }

  function StripLeft(s: string): (r: string)
    ensures |r| <= |s| && r == s[|s| - |r|..]
    ensures |r| == 0 || !IsSpace(r[0])
    ensures AllSpace(s[..|s| - |r|])
  {
    if |s| > 0 && IsSpace(s[0]) then StripLeft(s[1..]) else s
  }

  function StripRight(s: string): (r: string)
    ensures |r| <= |s| && r == s[..|r|]
    ensures |r| == 0 || !IsSpace(r[|r| - 1])
    ensures AllSpace(s[|r|..])
  {
    if |s| > 0 && IsSpace(s[|s| - 1]) then StripRight(s[..|s| - 1]) else s
  }

  /** `s.strip()`: the leading and trailing whitespace runs removed. */
  function Strip(s: string): (r: string)
    ensures Trimmed(r)
  {
    var l := StripLeft(s);
    var r := StripRight(l);
    assert |r| > 0 ==> r[0] == l[0];
    r
  }

  /** What `strip()` keeps is one slice of `s`, starting at `i`, with only whitespace on either side of it. */
  lemma StripSlice(s: string) returns (i: nat)
    ensures i + |Strip(s)| <= |s| && Strip(s) == s[i..i + |Strip(s)|]
    ensures AllSpace(s[..i]) && AllSpace(s[i + |Strip(s)|..])
  {
    var l := StripLeft(s);
    var r := StripRight(l);
    assert Strip(s) == r;
    i := |s| - |l|;
    assert l == s[i..] && AllSpace(s[..i]);
    assert r == l[..|r|] && AllSpace(l[|r|..]);
    SuffixSlices(s, i, |r|);
    assert l[|r|..] == s[i + |r|..];
  }

  /** Slicing a suffix of `s` is slicing `s` itself, shifted by where the suffix starts. */
  lemma SuffixSlices(s: string, i: nat, k: nat)
    requires i + k <= |s|
    ensures s[i..][..k] == s[i..i + k] && s[i..][k..] == s[i + k..]
  {
  }

  /** `strip()` leaves a string without surrounding whitespace unchanged. */
  lemma StripTrimmed(s: string)
    requires Trimmed(s)
    ensures Strip(s) == s
  {
  }

  /** Trailing whitespace after a string whose last character is not whitespace is what `StripRight` removes. */
  lemma {:induction false} StripRightSpace(s: string, w: string)
    requires |s| == 0 || !IsSpace(s[|s| - 1])
    requires AllSpace(w)
    ensures StripRight(s + w) == s
    decreases |w|
  {
    if |w| > 0 {
      var w' := w[..|w| - 1];
      assert (s + w)[..|s + w| - 1] == s + w';
      assert IsSpace((s + w)[|s + w| - 1]) by { assert (s + w)[|s + w| - 1] == w[|w| - 1]; }
      StripRightSpace(s, w');
    } else {
      assert s + w == s;
    }
  }

  lemma {:induction false} StripLeftAllSpace(w: string)
    requires AllSpace(w)
    ensures StripLeft(w) == []
  {
    if |w| > 0 {
      StripLeftAllSpace(w[1..]);
    }
  }

  /** Appending whitespace to an already trimmed string is undone by `strip()`. */
  lemma StripTrailingSpace(s: string, w: string)
    requires Trimmed(s) && AllSpace(w)
    ensures Strip(s + w) == s
  {
    var t := s + w;
    if |s| == 0 {
      assert t == w;
      StripLeftAllSpace(w);
    } else {
      assert t[0] == s[0];
      assert StripLeft(t) == t;
      StripRightSpace(s, w);
    }
  }

  // ---------------------------------------------------------------------
  // Searching, str.split and str.join
  // ---------------------------------------------------------------------

  /** Position of the first occurrence of `c` in `s`. */
  function IndexOf(s: string, c: char): (i: nat)
    requires c in s
    ensures i < |s| && s[i] == c && c !in s[..i]
  {
    if s[0] == c then 0
    else
      var j := IndexOf(s[1..], c);
      assert s[..j + 1] == [s[0]] + s[1..][..j];
      j + 1
  }

  /** `s.split(sep)` for a one-character separator: never empty, `"".split(sep) == [""]`. */
  function Split(s: string, sep: char): (parts: seq<string>)
    ensures |parts| >= 1
    ensures forall k :: 0 <= k < |parts| ==> sep !in parts[k]
    ensures sep !in s <==> parts == [s]
    decreases |s|
  {
    if sep !in s then [s]
    else
      var i := IndexOf(s, sep);
      [s[..i]] + Split(s[i + 1..], sep)
  }

  /** `sep.join(parts)` for a one-character separator. */
  function Join(parts: seq<string>, sep: char): (s: string)
    ensures |parts| == 0 ==> s == ""
    ensures |parts| == 1 ==> s == parts[0]
  {
    if |parts| == 0 then ""
    else if |parts| == 1 then parts[0]
    else parts[0] + [sep] + Join(parts[1..], sep)
  }

  /** Splitting what was joined gives the parts back, provided there is at least one and none contains the separator. */
  lemma {:induction false} SplitJoin(parts: seq<string>, sep: char)
    requires |parts| >= 1
    requires forall k :: 0 <= k < |parts| ==> sep !in parts[k]
    ensures Split(Join(parts, sep), sep) == parts
  {
    if |parts| > 1 {
      SplitAfter(parts[0], sep, Join(parts[1..], sep));
      SplitJoin(parts[1..], sep);
      assert [parts[0]] + parts[1..] == parts;
    }
  }

  /** Splitting at the first separator: what precedes it is the first part. */
  lemma SplitAfter(a: string, sep: char, b: string)
    requires sep !in a
    ensures Split(a + [sep] + b, sep) == [a] + Split(b, sep)
  {
    var s := a + [sep] + b;
    assert s[|a|] == sep;
    IndexOfAfter(a, sep, b);
    assert s[..|a|] == a;
    assert s[|a| + 1..] == b;
  }

  /** The first separator in `a + [sep] + b` is the one after `a` when `a` has none. */
  lemma {:induction false} IndexOfAfter(a: string, sep: char, b: string)
    requires sep !in a
    ensures IndexOf(a + [sep] + b, sep) == |a|
  {
    if |a| > 0 {
      assert (a + [sep] + b)[1..] == a[1..] + [sep] + b;
      IndexOfAfter(a[1..], sep, b);
    }
  }

  /** Joining what was split gives the string back, whatever it contains. */
  lemma {:induction false} JoinSplit(s: string, sep: char)
    ensures Join(Split(s, sep), sep) == s
    decreases |s|
  {
    if sep in s {
      var i := IndexOf(s, sep);
      var tail := Split(s[i + 1..], sep);
      assert Split(s, sep) == [s[..i]] + tail;
      JoinCons(s[..i], tail, sep);
      JoinSplit(s[i + 1..], sep);
      Rejoin(s, i);
    }
  }

  /** A string is what precedes position `i`, the character there, and what follows. */
  lemma Rejoin(s: string, i: nat)
    requires i < |s|
    ensures s[..i] + [s[i]] + s[i + 1..] == s
  {
  }

  /** A list of two or more parts joins as its head, a separator, and the rest joined. */
  lemma JoinStep(parts: seq<string>, sep: char)
    requires |parts| >= 2
    ensures Join(parts, sep) == parts[0] + [sep] + Join(parts[1..], sep)
  {
  }

  /** Joining a head onto a non-empty list puts one separator between them. */
  lemma JoinCons(a: string, rest: seq<string>, sep: char)
    requires |rest| >= 1
    ensures Join([a] + rest, sep) == a + [sep] + Join(rest, sep)
  {
    assert ([a] + rest)[1..] == rest;
  }

  /** Python's `file.readline()`: the first line including its newline, and what a later `read()` returns. */
  function ReadLine(s: string): (r: (string, string))
    ensures r.0 + r.1 == s
    ensures '\n' in s ==> |r.0| > 0 && r.0[|r.0| - 1] == '\n' && '\n' !in r.0[..|r.0| - 1]
    ensures '\n' !in s ==> r == (s, "")
  {
    if '\n' in s then
      var i := IndexOf(s, '\n');
      assert s[..i + 1][..i] == s[..i];
      (s[..i + 1], s[i + 1..])
    else (s, "")
  }

  /** A value that fits on a line of its own and survives `strip()`: no newline, no surrounding whitespace. */
  predicate LineValue(s: string) {
    '\n' !in s && Trimmed(s)
  }

  /** A line without a newline, then a newline: `readline` returns exactly that much. */
  lemma ReadLineOf(a: string, b: string)
    requires '\n' !in a
    ensures ReadLine(a + "\n" + b) == (a + "\n", b)
  {
    IndexOfAfter(a, '\n', b);
    var s := a + "\n" + b;
    assert s[..|a| + 1] == a + "\n";
    assert s[|a| + 1..] == b;
  }

  // ---------------------------------------------------------------------
  // Decimal integers: '%s' % n
  // ---------------------------------------------------------------------

  predicate IsDigit(c: char) {
    '0' <= c <= '9'
  }

  predicate AllDigits(s: string) {
    forall i :: 0 <= i < |s| ==> IsDigit(s[i])
  }

  function DigitChar(d: nat): (c: char)
    requires d < 10
    ensures IsDigit(c)
  {
    ('0' as int + d) as char
  }

  function DigitValue(c: char): (d: nat)
    requires IsDigit(c)
    ensures d < 10
  {
    c as int - '0' as int
  }

  /** The number a run of decimal digits denotes (0 for the empty run). */
  function DigitsValue(s: string): nat
    requires AllDigits(s)
  {
    if |s| == 0 then 0 else 10 * DigitsValue(s[..|s| - 1]) + DigitValue(s[|s| - 1])
  }

  /** Python's decimal rendering of a natural number. */
  function NatToString(n: nat): (s: string)
    ensures |s| >= 1 && AllDigits(s)
    ensures DigitsValue(s) == n
    ensures |s| > 1 ==> s[0] != '0'
  {
    if n < 10 then [DigitChar(n)]
    else
      var p := NatToString(n / 10);
      var s := p + [DigitChar(n % 10)];
      assert s[..|s| - 1] == p;
      s
  }

  /** Python's `str(n)` / `'%s' % n` for an integer. */
  function IntToString(n: int): (s: string)
    ensures |s| >= 1 && ' ' !in s && '"' !in s
    ensures n >= 0 <==> s[0] != '-'
  {
    if n < 0 then "-" + NatToString(-n) else NatToString(n)
  }

  /** Reads an integer in the form `IntToString` writes. */
  function ParseInt(s: string): Option<int> {
    if |s| > 1 && s[0] == '-' && AllDigits(s[1..]) then Some(-(DigitsValue(s[1..]) as int))
    else if |s| > 0 && AllDigits(s) then Some(DigitsValue(s))
    else None
  }

  lemma IntRoundTrip(n: int)
    ensures ParseInt(IntToString(n)) == Some(n)
  {
    if n < 0 {
      assert IntToString(n)[1..] == NatToString(-n);
    }
  }

  // ---------------------------------------------------------------------
  // float() on a captured run of digits and dots
  // ---------------------------------------------------------------------

  predicate IsNumeralChar(c: char) {
    IsDigit(c) || c == '.'
  }

  predicate AllNumeralChars(s: string) {
    forall i :: 0 <= i < |s| ==> IsNumeralChar(s[i])
  }

  /** What Python's `float()` accepts among digit-and-dot strings: some digit, at most one dot. */
  predicate WellFormedNumeral(s: string) {
    && (exists i :: 0 <= i < |s| && IsDigit(s[i]))
    && (forall i, j :: 0 <= i < j < |s| && s[i] == '.' ==> s[j] != '.')
  }

  function Pow10(k: nat): (p: nat)
    ensures p >= 1
  {
    if k == 0 then 1 else 10 * Pow10(k - 1)
  }

  /**
   Python's `float(s)` for a string of digits and dots: `"12"`, `"1.5"`, `"5."` and `".5"`
   decode; `""`, `"."` and `"1.2.3"` raise ValueError, modelled as None.
   */
  function DecodeFloat(s: string): (r: Option<real>)
    requires AllNumeralChars(s)
    ensures r.Some? <==> WellFormedNumeral(s)
    ensures r.Some? ==> r.value >= 0.0
  {
    if '.' !in s then
      assert forall i :: 0 <= i < |s| ==> IsDigit(s[i]) by {
        forall i | 0 <= i < |s| ensures IsDigit(s[i]) { assert s[i] != '.'; }
      }
      if |s| > 0 then
        assert IsDigit(s[0]);
        Some(DigitsValue(s) as real)
      else None
    else
      var i := IndexOf(s, '.');
      var whole := s[..i];
      var frac := s[i + 1..];
      assert AllDigits(whole) by {
        forall k | 0 <= k < |whole| ensures IsDigit(whole[k]) { assert whole[k] == s[k] && s[k] != '.'; }
      }
      if '.' in frac then
        var j := IndexOf(frac, '.');
        assert s[i + 1 + j] == '.';
        None
      else if |whole| + |frac| == 0 then
        assert s == ".";
        None
      else
        assert AllDigits(frac) by {
          forall k | 0 <= k < |frac| ensures IsDigit(frac[k]) { assert frac[k] in frac; }
        }
        assert WellFormedNumeral(s) by {
          if |whole| > 0 { assert IsDigit(s[0]); } else { assert IsDigit(frac[0]) && frac[0] == s[i + 1]; }
          assert forall k :: 0 <= k < i ==> s[..i][k] == s[k];
          assert forall k :: i < k < |s| ==> s[k] == frac[k - i - 1];
        }
        var num := DigitsValue(frac) as real;
        var den := Pow10(|frac|) as real;
        assert num / den >= 0.0 by { assert num / den * den == num; }
        Some(DigitsValue(whole) as real + num / den)
  }

  /** A digit run denotes zero exactly when it consists of zeros. */
  lemma {:induction false} DigitsValueZero(s: string)
    requires AllDigits(s)
    ensures DigitsValue(s) == 0 <==> forall i :: 0 <= i < |s| ==> s[i] == '0'
  {
    if |s| > 0 {
      DigitsValueZero(s[..|s| - 1]);
      if DigitsValue(s) == 0 {
        forall i | 0 <= i < |s| ensures s[i] == '0' {
          if i < |s| - 1 { assert s[..|s| - 1][i] == s[i]; }
        }
      }
      var p := s[..|s| - 1];
      assert forall i :: 0 <= i < |p| ==> p[i] == s[i];
    }
  }

  predicate ZerosAndDots(s: string) {
    forall i :: 0 <= i < |s| ==> s[i] == '0' || s[i] == '.'
  }

  lemma ZerosAndDotsSplit(a: string, b: string)
    ensures ZerosAndDots(a + ['.'] + b) <==> ZerosAndDots(a) && ZerosAndDots(b)
  {
    var s := a + ['.'] + b;
    assert forall k :: 0 <= k < |a| ==> s[k] == a[k];
    assert forall k :: 0 <= k < |b| ==> s[|a| + 1 + k] == b[k];
  }

  lemma FractionZero(num: nat, den: nat)
    requires den >= 1
    ensures num as real / den as real == 0.0 <==> num == 0
  {
    assert (num as real / den as real) * den as real == num as real;
  }

  /** A well-formed numeral with a dot is digits, the dot, digits; `float()` weighs the second run by its length. */
  lemma NumeralParts(s: string) returns (whole: string, frac: string)
    requires AllNumeralChars(s) && WellFormedNumeral(s) && '.' in s
    ensures s == whole + ['.'] + frac
    ensures AllDigits(whole) && AllDigits(frac)
    ensures DecodeFloat(s) == Some(DigitsValue(whole) as real + DigitsValue(frac) as real / Pow10(|frac|) as real)
  {
    var i := IndexOf(s, '.');
    whole := s[..i];
    frac := s[i + 1..];
    assert '.' !in frac by {
      forall j | 0 <= j < |frac| ensures frac[j] != '.' {
        assert frac[j] == s[i + 1 + j];
      }
    }
    DigitsAround(s, i);
    assert s == whole + ['.'] + frac;
  }

  /** Around the only dot of a numeral there are digits alone. */
  lemma DigitsAround(s: string, i: nat)
    requires AllNumeralChars(s) && i < |s| && '.' !in s[..i] && '.' !in s[i + 1..]
    ensures AllDigits(s[..i]) && AllDigits(s[i + 1..])
  {
    var whole := s[..i];
    var frac := s[i + 1..];
    forall k | 0 <= k < |whole| ensures IsDigit(whole[k]) {
      assert whole[k] == s[k] && whole[k] in whole;
    }
    forall k | 0 <= k < |frac| ensures IsDigit(frac[k]) {
      assert frac[k] == s[i + 1 + k] && frac[k] in frac;
    }
  }

  /** `float(s) == 0.0` exactly when every digit of the numeral is a zero (`"0"`, `"0.000"`, `".0"`). */
  lemma DecodeFloatZero(s: string)
    requires AllNumeralChars(s) && WellFormedNumeral(s)
    ensures DecodeFloat(s).value == 0.0 <==> ZerosAndDots(s)
  {
    if '.' !in s {
      assert AllDigits(s) by {
        forall k | 0 <= k < |s| ensures IsDigit(s[k]) { assert s[k] in s; }
      }
      DigitRunZero(s);
    } else {
      var whole, frac := NumeralParts(s);
      DottedZero(whole, frac);
    }
  }

  /** A digit run is zero exactly when it holds nothing but zeros. */
  lemma DigitRunZero(s: string)
    requires AllDigits(s)
    ensures DigitsValue(s) == 0 <==> ZerosAndDots(s)
  {
    DigitsValueZero(s);
  }

  /** `whole.frac` denotes zero exactly when both runs are zeros. */
  lemma DottedZero(whole: string, frac: string)
    requires AllDigits(whole) && AllDigits(frac)
    ensures DigitsValue(whole) as real + DigitsValue(frac) as real / Pow10(|frac|) as real == 0.0
      <==> ZerosAndDots(whole + ['.'] + frac)
  {
    ValueZero(DigitsValue(whole), DigitsValue(frac), Pow10(|frac|));
    DigitRunZero(whole);
    DigitRunZero(frac);
    ZerosAndDotsSplit(whole, frac);
  }

  lemma ValueZero(w: nat, f: nat, d: nat)
    requires d >= 1
    ensures w as real + f as real / d as real == 0.0 <==> w == 0 && f == 0
  {
    FractionZero(f, d);
    assert f as real / d as real >= 0.0 by {
      assert (f as real / d as real) * d as real == f as real;
    }
  }

  /** `float()` of a run of digits, leading zeros included, is the number the digits denote. */
  lemma DecodeDigitRun(s: string)
    requires |s| > 0 && AllDigits(s)
    ensures DecodeFloat(s) == Some(DigitsValue(s) as real)
  {
    assert forall k :: 0 <= k < |s| ==> s[k] != '.';
  }

  /** The decimal text of `n` decodes to `n`. */
  lemma DecodeFloatOfNat(n: nat)
    ensures DecodeFloat(NatToString(n)) == Some(n as real)
  {
    DecodeDigitRun(NatToString(n));
  }
}
