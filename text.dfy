/** The string primitives of Python and JavaScript that the tide parsers and
    the page script rely on: character classes, strip and justify, `int()`,
    zero padding, whitespace splitting, substring tests and removal, and the
    code-point order in which both languages compare strings.

    Scans are written over indices into the string rather than over ever
    shorter slices of it. */
module Text {
  import opened Options

  /** Python's `str.isspace()`, which is also the class `\s` matches in a
      regular expression over `str`. */
  predicate IsSpace(c: char) {
    || c == ' ' || '\t' <= c <= '\r' || '\U{1C}' <= c <= '\U{1F}'
    || c == '\U{85}' || c == '\U{A0}' || c == '\U{1680}' || '\U{2000}' <= c <= '\U{200A}'
    || c == '\U{2028}' || c == '\U{2029}' || c == '\U{202F}' || c == '\U{205F}' || c == '\U{3000}'
  }

  predicate IsDigit(c: char) {
    '0' <= c <= '9'
  }

  lemma DigitNotSpace(c: char)
    requires IsDigit(c)
    ensures !IsSpace(c)
  {
  }

  predicate NoSpace(s: string) {
    forall i :: 0 <= i < |s| ==> !IsSpace(s[i])
  }

  predicate AllDigitChars(s: string) {
    forall i :: 0 <= i < |s| ==> IsDigit(s[i])
  }

  /** Python's `str.isdigit()`: at least one character, and every character a digit. */
  predicate IsDigits(s: string) {
    |s| > 0 && AllDigitChars(s)
  }

  function DigitValue(c: char): (d: nat)
    requires IsDigit(c)
    ensures d < 10
  {
    c as int - '0' as int
  }

  function DigitChar(d: nat): (c: char)
    requires d < 10
    ensures IsDigit(c) && DigitValue(c) == d
  {
    ('0' as int + d) as char
  }

  /** The value of a string of decimal digits, most significant digit first. */
  function DigitsValue(s: string): nat
    requires AllDigitChars(s)
  {
    if s == [] then 0 else 10 * DigitsValue(s[..|s| - 1]) + DigitValue(s[|s| - 1])
  }

  function Pow10(k: nat): (p: nat)
    ensures p >= 1
  {
    if k == 0 then 1 else 10 * Pow10(k - 1)
  }

  /** A digit string of length `k` is worth less than `10^k`. */
  lemma {:induction false} DigitsValueBound(s: string)
    requires AllDigitChars(s)
    ensures DigitsValue(s) < Pow10(|s|)
  {
    if s != [] {
      DigitsValueBound(s[..|s| - 1]);
    }
  }

  /** Decimal notation of a natural number, as JavaScript's `toString()` and
      Python's `str()` write it: no leading zero except for zero itself. */
  function NatToString(n: nat): (s: string)
    ensures IsDigits(s) && DigitsValue(s) == n
    ensures s[0] != '0' || s == "0"
    ensures |s| == 1 <==> n < 10
    ensures |s| == 2 <==> 10 <= n < 100
  {
    if n < 10 then [DigitChar(n)] else NatToString(n / 10) + [DigitChar(n % 10)]
  }

  /** Decimal notation of an integer: a minus sign before a negative one. */
  function IntToString(i: int): string {
    if i < 0 then "-" + NatToString(-i) else NatToString(i)
  }

  function Repeat(c: char, n: nat): (s: string)
    ensures |s| == n && forall i :: 0 <= i < n ==> s[i] == c
  {
    seq(n, _ => c)
  }

  /** JavaScript's `padStart(w, fill)` and, with a blank fill, Python's `rjust(w)`. */
  function PadLeft(s: string, w: nat, fill: char): (r: string)
    ensures |r| == if |s| >= w then |s| else w
    ensures r == Repeat(fill, |r| - |s|) + s
  {
    if |s| >= w then s else Repeat(fill, w - |s|) + s
  }

  function RJust(s: string, w: nat): string {
    PadLeft(s, w, ' ')
  }

  /** Python's `ljust(w)`. */
  function LJust(s: string, w: nat): (r: string)
    ensures |r| == if |s| >= w then |s| else w
    ensures r == s + Repeat(' ', |r| - |s|)
  {
    if |s| >= w then s else s + Repeat(' ', w - |s|)
  }

  /** Two-digit zero-padded decimal, as `n.toString().padStart(2, '0')` and
      Python's `f"{n:02d}"` write a number below 100. */
  function Pad2(n: nat): (s: string)
    requires n < 100
    ensures |s| == 2 && IsDigits(s) && DigitsValue(s) == n
  {
    PadLeft(NatToString(n), 2, '0')
  }

  /** Zeros before a digit string do not change its value. */
  lemma {:induction false} LeadingZeros(k: nat, s: string)
    requires AllDigitChars(s)
    ensures AllDigitChars(Repeat('0', k) + s)
    ensures DigitsValue(Repeat('0', k) + s) == DigitsValue(s)
    decreases |s|, k
  {
    var z := Repeat('0', k) + s;
    if s == [] {
      assert z == Repeat('0', k);
      if k > 0 {
        assert z[..|z| - 1] == Repeat('0', k - 1) + [];
        LeadingZeros(k - 1, []);
      }
    } else {
      assert z[..|z| - 1] == Repeat('0', k) + s[..|s| - 1];
      LeadingZeros(k, s[..|s| - 1]);
    }
  }

  /** A digit string of value zero is all zeros. */
  lemma {:induction false} ZeroDigits(s: string)
    requires AllDigitChars(s) && DigitsValue(s) == 0
    ensures s == Repeat('0', |s|)
  {
    if s != [] {
      ZeroDigits(s[..|s| - 1]);
      assert s == s[..|s| - 1] + [s[|s| - 1]];
    }
  }

  /** Zero-padding the decimal notation of a digit string's value back to
      the string's width gives the string back. */
  lemma {:induction false} PadDigitsValue(s: string)
    requires IsDigits(s)
    ensures PadLeft(NatToString(DigitsValue(s)), |s|, '0') == s
  {
    var p := s[..|s| - 1];
    var c := s[|s| - 1];
    assert s == p + [c];
    if p == [] || DigitsValue(p) == 0 {
      assert DigitsValue(s) == DigitValue(c);
      assert NatToString(DigitsValue(s)) == [c];
      ZeroDigits(p);
    } else {
      PadDigitsValue(p);
      var x := NatToString(DigitsValue(p));
      assert DigitsValue(s) / 10 == DigitsValue(p) && DigitsValue(s) % 10 == DigitValue(c);
      assert NatToString(DigitsValue(s)) == x + [c];
      assert Repeat('0', |s| - |x + [c]|) == Repeat('0', |p| - |x|);
    }
  }

  /** Python's `zfill(w)`: zeros on the left up to width `w`, kept behind a leading sign. */
  function ZFill(s: string, w: nat): (r: string)
    ensures |r| == if |s| >= w then |s| else w
  {
    if |s| >= w then s
    else if s != [] && (s[0] == '+' || s[0] == '-') then [s[0]] + Repeat('0', w - |s|) + s[1..]
    else Repeat('0', w - |s|) + s
  }

  /** The number of units of `10^-f` nearest to `v`, the larger one on a tie. */
  function RoundUnits(v: real, f: nat): (n: int)
    requires v >= 0.0
    ensures n >= 0
    ensures n as real - 0.5 <= v * Pow10(f) as real < n as real + 0.5
  {
    (v * Pow10(f) as real + 0.5).Floor
  }

  /** The value of two digit strings written one after the other. */
  lemma {:induction false} DigitsValueAppend(a: string, b: string)
    requires AllDigitChars(a) && AllDigitChars(b)
    ensures AllDigitChars(a + b)
    ensures DigitsValue(a + b) == DigitsValue(a) * Pow10(|b|) + DigitsValue(b)
  {
    if b == [] {
      assert a + b == a;
    } else {
      var b' := b[..|b| - 1];
      assert (a + b)[..|a + b| - 1] == a + b';
      DigitsValueAppend(a, b');
      var x, p, y, d := DigitsValue(a), Pow10(|b'|), DigitsValue(b'), DigitValue(b[|b| - 1]);
      assert DigitsValue(a + b) == 10 * DigitsValue(a + b') + d;
      assert DigitsValue(b) == 10 * y + d;
      assert Pow10(|b|) == 10 * p;
      ShiftDecimal(x, p);
    }
  }

  lemma ShiftDecimal(x: int, p: int)
    ensures x * (10 * p) == 10 * (x * p)
  {
  }

  lemma AppendedValue(a: string, b: string, n: nat)
    requires AllDigitChars(a) && AllDigitChars(b) && AllDigitChars(a + b)
    requires DigitsValue(a + b) == n
    ensures DigitsValue(a) * Pow10(|b|) + DigitsValue(b) == n
  {
    DigitsValueAppend(a, b);
  }

  /** The digits of `n`, zero-filled to more than `f` digits. */
  function UnitDigits(n: nat, f: nat): (m: string)
    ensures |m| > f && IsDigits(m) && DigitsValue(m) == n
  {
    var x := NatToString(n);
    LeadingZeros(|PadLeft(x, f + 1, '0')| - |x|, x);
    PadLeft(x, f + 1, '0')
  }

  /** The units `n` of `10^-f` in fixed-point notation: the digits of `n`
      with a point before the last `f` of them (no point when `f` is 0). */
  function FixedPoint(n: nat, f: nat): string {
    var m := UnitDigits(n, f);
    if f == 0 then m else m[..|m| - f] + "." + m[|m| - f..]
  }

  function Magnitude(x: real): (m: real)
    ensures m >= 0.0 && (m == x || m == -x)
  {
    if x < 0.0 then -x else x
  }

  /** JavaScript's `x.toFixed(f)` for a number below 10^21: a minus sign for a
      negative number, then its magnitude rounded to `f` places after the point. */
  function ToFixed(x: real, f: nat): string {
    (if x < 0.0 then "-" else "") + FixedPoint(RoundUnits(Magnitude(x), f), f)
  }

  /** Fixed-point text is whole digits, a point and exactly `f` further
      digits, and reads back as the units it was written from. */
  lemma FixedPointReadsBack(n: nat, f: nat) returns (whole: string, frac: string)
    requires 1 <= f
    ensures FixedPoint(n, f) == whole + "." + frac
    ensures IsDigits(whole) && IsDigits(frac) && |frac| == f
    ensures DigitsValue(whole) * Pow10(f) + DigitsValue(frac) == n
  {
    var m := UnitDigits(n, f);
    whole := m[..|m| - f];
    frac := m[|m| - f..];
    assert m == whole + frac;
    AppendedValue(whole, frac, n);
  }

  /** `toFixed(f)` writes a sign exactly for a negative number, then whole
      digits, a point and `f` further digits, which read back as the
      magnitude rounded to units of the last place. */
  lemma ToFixedReadsBack(x: real, f: nat) returns (sign: string, whole: string, frac: string)
    requires 1 <= f
    ensures ToFixed(x, f) == sign + whole + "." + frac
    ensures sign == (if x < 0.0 then "-" else "")
    ensures IsDigits(whole) && IsDigits(frac) && |frac| == f
    ensures DigitsValue(whole) * Pow10(f) + DigitsValue(frac) == RoundUnits(Magnitude(x), f)
  {
    var n := RoundUnits(Magnitude(x), f);
    sign := if x < 0.0 then "-" else "";
    whole, frac := FixedPointReadsBack(n, f);
    assert sign + (whole + "." + frac) == sign + whole + "." + frac;
  }

  /** The first index at or after `i` that does not hold whitespace. */
  function SkipBlanks(s: string, i: nat): (j: nat)
    requires i <= |s|
    ensures i <= j <= |s| && (j == |s| || !IsSpace(s[j]))
    ensures forall k :: i <= k < j ==> IsSpace(s[k])
    decreases |s| - i
  {
    if i < |s| && IsSpace(s[i]) then SkipBlanks(s, i + 1) else i
  }

  /** The end of `s[lo..hi]` once its trailing whitespace is dropped. */
  function TrimBlanks(s: string, lo: nat, hi: nat): (k: nat)
    requires lo <= hi <= |s|
    ensures lo <= k <= hi && (k == lo || !IsSpace(s[k - 1]))
    ensures forall m :: k <= m < hi ==> IsSpace(s[m])
  {
    if lo < hi && IsSpace(s[hi - 1]) then TrimBlanks(s, lo, hi - 1) else hi
  }

  /** Python's `strip()`: the infix left once whitespace is dropped at both ends. */
  function Strip(s: string): (r: string)
    ensures r == [] || (!IsSpace(r[0]) && !IsSpace(r[|r| - 1]))
  {
    var i := SkipBlanks(s, 0);
    s[i..TrimBlanks(s, i, |s|)]
  }

  /** The end of `s[..hi]` once its trailing carriage returns and line feeds are dropped. */
  function TrimNewlines(s: string, hi: nat): (k: nat)
    requires hi <= |s|
    ensures k <= hi && (k == 0 || (s[k - 1] != '\r' && s[k - 1] != '\n'))
    ensures forall m :: k <= m < hi ==> s[m] == '\r' || s[m] == '\n'
  {
    if 0 < hi && (s[hi - 1] == '\r' || s[hi - 1] == '\n') then TrimNewlines(s, hi - 1) else hi
  }

  /** Python's `rstrip('\r\n')`. */
  function RStripNewlines(s: string): (r: string)
    ensures r <= s
    ensures r == [] || (r[|r| - 1] != '\r' && r[|r| - 1] != '\n')
  {
    s[..TrimNewlines(s, |s|)]
  }

  /** Stripping a string that has no whitespace at either end changes nothing. */
  lemma StripUnpadded(s: string)
    requires s == [] || (!IsSpace(s[0]) && !IsSpace(s[|s| - 1]))
    ensures Strip(s) == s
  {
    assert SkipBlanks(s, 0) == 0;
    assert TrimBlanks(s, 0, |s|) == |s|;
  }

  /** Blanks put on the left by `rjust` are exactly what `strip` takes off again. */
  lemma StripRJust(s: string, w: nat)
    requires s != [] && !IsSpace(s[0]) && !IsSpace(s[|s| - 1])
    ensures Strip(RJust(s, w)) == s
  {
    var k := if |s| >= w then 0 else w - |s|;
    var t := Repeat(' ', k) + s;
    assert t == RJust(s, w);
    assert t[k] == s[0] && t[|t| - 1] == s[|s| - 1];
    StripBlankPrefix(t, k);
    assert t[k..] == s;
  }

  /** A string of `k` blanks and then a text that neither starts nor ends
      with whitespace strips to that text. */
  lemma StripBlankPrefix(t: string, k: nat)
    requires k < |t| && !IsSpace(t[k]) && !IsSpace(t[|t| - 1])
    requires forall i :: 0 <= i < k ==> IsSpace(t[i])
    ensures Strip(t) == t[k..]
  {
    assert SkipBlanks(t, 0) == k;
    assert TrimBlanks(t, k, |t|) == |t|;
  }

  /** Stripping twice is stripping once. */
  lemma StripIdempotent(s: string)
    ensures Strip(Strip(s)) == Strip(s)
  {
    StripUnpadded(Strip(s));
  }

  /** Strip drops only whitespace: every digit of the original is in the result. */
  lemma StripKeepsDigits(s: string, k: nat)
    requires k < |s| && IsDigit(s[k])
    ensures exists j :: 0 <= j < |Strip(s)| && IsDigit(Strip(s)[j])
  {
    var i := SkipBlanks(s, 0);
    var e := TrimBlanks(s, i, |s|);
    assert i <= k < e;
    assert Strip(s)[k - i] == s[k];
  }

  /** The body of a Python integer literal: digits, with single underscores
      allowed between two digits. */
  predicate IsDigitGroups(b: string) {
    && |b| > 0 && IsDigit(b[0]) && IsDigit(b[|b| - 1])
    && (forall i :: 0 <= i < |b| ==> IsDigit(b[i]) || b[i] == '_')
    && SingleUnderscores(b)
  }

  /** No two underscores stand next to each other. */
  predicate SingleUnderscores(b: string)
    decreases |b|
  {
    |b| < 2 || ((b[0] != '_' || b[1] != '_') && SingleUnderscores(b[1..]))
  }

  lemma DigitsAreDigitGroups(d: string)
    requires IsDigits(d)
    ensures IsDigitGroups(d)
  {
    var k := |d|;
    while k > 0
      invariant 0 <= k <= |d| && SingleUnderscores(d[k..])
    {
      assert d[k - 1..][1..] == d[k..];
      k := k - 1;
    }
    assert d[0..] == d;
  }

  function DropUnderscores(b: string): (d: string)
    requires forall i :: 0 <= i < |b| ==> IsDigit(b[i]) || b[i] == '_'
    ensures AllDigitChars(d)
  {
    if b == [] then []
    else if b[0] == '_' then DropUnderscores(b[1..])
    else [b[0]] + DropUnderscores(b[1..])
  }

  lemma DropUnderscoresOfDigits(d: string)
    requires AllDigitChars(d)
    ensures DropUnderscores(d) == d
  {
  }

  /** Python's `int(s)`: surrounding whitespace is ignored, an optional sign,
      then digit groups; anything else raises ValueError, modelled as None. */
  function PyInt(s: string): (r: Option<int>)
  {
    var t := Strip(s);
    if |t| > 0 && (t[0] == '+' || t[0] == '-') then
      var b := t[1..];
      if IsDigitGroups(b) then
        var v: int := DigitsValue(DropUnderscores(b));
        Some(if t[0] == '-' then -v else v)
      else None
    else if IsDigitGroups(t) then Some(DigitsValue(DropUnderscores(t)))
    else None
  }

  lemma PyIntOfDigits(d: string)
    requires IsDigits(d)
    ensures PyInt(d) == Some(DigitsValue(d))
  {
    DropUnderscoresOfDigits(d);
    DigitNotSpace(d[0]);
    DigitNotSpace(d[|d| - 1]);
    StripUnpadded(d);
    DigitsAreDigitGroups(d);
    assert d[0] != '+' && d[0] != '-';
  }

  lemma PyIntOfNegatedDigits(d: string)
    requires IsDigits(d)
    ensures PyInt("-" + d) == Some(0 - DigitsValue(d))
  {
    var m := "-" + d;
    assert m[1..] == d;
    assert Strip(m) == m by {
      assert m[|m| - 1] == d[|d| - 1];
      DigitNotSpace(d[|d| - 1]);
      StripUnpadded(m);
    }
    DigitsAreDigitGroups(d);
    PyIntOfMinus(m);
    DropUnderscoresOfDigits(d);
  }

  /** The minus branch of `int()` on an already stripped text. */
  lemma PyIntOfMinus(t: string)
    requires Strip(t) == t && |t| > 0 && t[0] == '-' && IsDigitGroups(t[1..])
    ensures PyInt(t) == Some(0 - DigitsValue(DropUnderscores(t[1..])))
  {
  }

  /** `int()` of a sign before digit groups: a minus negates the value of
      the groups and a plus keeps it. */
  lemma PyIntSign(b: string)
    requires IsDigitGroups(b)
    ensures PyInt(b).Some?
    ensures PyInt("+" + b) == PyInt(b)
    ensures PyInt("-" + b) == Some(0 - PyInt(b).value)
  {
    DigitNotSpace(b[0]);
    DigitNotSpace(b[|b| - 1]);
    StripUnpadded(b);
    assert b[0] != '+' && b[0] != '-';
    var v: int := DigitsValue(DropUnderscores(b));
    assert PyInt(b) == Some(v);
    var plus, minus := "+" + b, "-" + b;
    assert plus[1..] == b && minus[1..] == b;
    assert plus[|plus| - 1] == b[|b| - 1] && minus[|minus| - 1] == b[|b| - 1];
    StripUnpadded(plus);
    StripUnpadded(minus);
  }

  /** `int()` reads back what `str()` writes. */
  lemma PyIntOfIntToString(i: int)
    ensures PyInt(IntToString(i)) == Some(i)
  {
    if i < 0 {
      PyIntOfNegatedDigits(NatToString(-i));
    } else {
      PyIntOfDigits(NatToString(i));
    }
  }

  /** Whatever `int()` accepts holds a digit. */
  lemma PyIntNeedsDigit(s: string)
    requires PyInt(s).Some?
    ensures exists j :: 0 <= j < |s| && IsDigit(s[j])
  {
    var i := SkipBlanks(s, 0);
    var t := Strip(s);
    assert t == s[i..TrimBlanks(s, i, |s|)];
    if |t| > 0 && (t[0] == '+' || t[0] == '-') {
      assert IsDigit(t[1]) && s[i + 1] == t[1];
    } else {
      assert IsDigit(t[0]) && s[i] == t[0];
    }
  }

  /** The end of the run of digits that starts at `i`. */
  function DigitEnd(s: string, i: nat): (j: nat)
    requires i <= |s|
    ensures i <= j <= |s| && (j == |s| || !IsDigit(s[j]))
    ensures AllDigitChars(s[i..j])
    decreases |s| - i
  {
    if i < |s| && IsDigit(s[i]) then DigitEnd(s, i + 1) else i
  }

  /** The first match of the regular expression `-?\d+` at or after `i`, as an
      integer: from index 0, the first element of Python's
      `re.findall(r'-?\d+', s)` passed to `int`. */
  function FirstSignedIntFrom(s: string, i: nat): (r: Option<int>)
    requires i <= |s|
    decreases |s| - i
  {
    if i == |s| then None
    else if s[i] == '-' && i + 1 < |s| && IsDigit(s[i + 1]) then Some(0 - DigitsValue(s[i + 1..DigitEnd(s, i + 1)]))
    else if IsDigit(s[i]) then Some(DigitsValue(s[i..DigitEnd(s, i)]))
    else FirstSignedIntFrom(s, i + 1)
  }

  function FirstSignedInt(s: string): Option<int> {
    FirstSignedIntFrom(s, 0)
  }

  /** `-?\d+` matches at or after `i` exactly when a digit occurs there. */
  lemma {:induction false} FirstSignedIntFromFound(s: string, i: nat)
    requires i <= |s|
    ensures FirstSignedIntFrom(s, i).Some? <==> exists j :: i <= j < |s| && IsDigit(s[j])
    decreases |s| - i
  {
    if i < |s| {
      if s[i] == '-' && i + 1 < |s| && IsDigit(s[i + 1]) {
        assert IsDigit(s[i + 1]);
      } else if !IsDigit(s[i]) {
        FirstSignedIntFromFound(s, i + 1);
      }
    }
  }

  /** `-?\d+` matches somewhere exactly when the string holds a digit. */
  lemma FirstSignedIntFound(s: string)
    ensures FirstSignedInt(s).Some? <==> exists j :: 0 <= j < |s| && IsDigit(s[j])
  {
    FirstSignedIntFromFound(s, 0);
  }

  /** The end of the run of non-blank characters that starts at `i`. */
  function TokenEnd(s: string, i: nat): (j: nat)
    requires i <= |s|
    ensures i <= j <= |s| && (j == |s| || IsSpace(s[j]))
    ensures NoSpace(s[i..j])
    decreases |s| - i
  {
    if i < |s| && !IsSpace(s[i]) then TokenEnd(s, i + 1) else i
  }

  /** The whitespace-separated words of `s[i..]`. */
  function SplitFrom(s: string, i: nat): seq<string>
    requires i <= |s|
    decreases |s| - i
  {
    var b := SkipBlanks(s, i);
    if b == |s| then []
    else
      var e := TokenEnd(s, b);
      [s[b..e]] + SplitFrom(s, e)
  }

  /** Python's `str.split()` with no separator: the maximal runs of non-blank characters. */
  function Split(s: string): seq<string> {
    SplitFrom(s, 0)
  }

  /** Every part of a split is a non-empty run of non-blank characters. */
  lemma {:induction false} SplitFromParts(s: string, i: nat)
    requires i <= |s|
    ensures forall k :: 0 <= k < |SplitFrom(s, i)| ==> SplitFrom(s, i)[k] != [] && NoSpace(SplitFrom(s, i)[k])
    decreases |s| - i
  {
    var b := SkipBlanks(s, i);
    if b < |s| {
      SplitFromParts(s, TokenEnd(s, b));
    }
  }

  lemma SplitParts(s: string)
    ensures forall k :: 0 <= k < |Split(s)| ==> Split(s)[k] != [] && NoSpace(Split(s)[k])
  {
    SplitFromParts(s, 0);
  }

  /** The words separated by one blank each. */
  function JoinWords(ws: seq<string>): string {
    if |ws| == 0 then ""
    else if |ws| == 1 then ws[0]
    else ws[0] + " " + JoinWords(ws[1..])
  }

  lemma {:induction false} SkipBlanksShift(p: string, s: string, i: nat)
    requires i <= |s|
    ensures SkipBlanks(p + s, |p| + i) == |p| + SkipBlanks(s, i)
    decreases |s| - i
  {
    if i < |s| && IsSpace(s[i]) {
      assert (p + s)[|p| + i] == s[i];
      SkipBlanksShift(p, s, i + 1);
    } else if i < |s| {
      assert (p + s)[|p| + i] == s[i];
    }
  }

  lemma {:induction false} TokenEndShift(p: string, s: string, i: nat)
    requires i <= |s|
    ensures TokenEnd(p + s, |p| + i) == |p| + TokenEnd(s, i)
    decreases |s| - i
  {
    if i < |s| {
      assert (p + s)[|p| + i] == s[i];
      if !IsSpace(s[i]) {
        TokenEndShift(p, s, i + 1);
      }
    }
  }

  lemma SliceShift(p: string, s: string, b: nat, e: nat)
    requires b <= e <= |s|
    ensures (p + s)[|p| + b..|p| + e] == s[b..e]
  {
  }

  /** One step of the scan: the word found at `b..e`, then the rest. */
  lemma SplitFromStep(t: string, i: nat, b: nat, e: nat)
    requires i <= |t| && b < |t| && SkipBlanks(t, i) == b && TokenEnd(t, b) == e
    ensures SplitFrom(t, i) == [t[b..e]] + SplitFrom(t, e)
  {
  }

  /** Nothing but blanks from `i` on: no words. */
  lemma SplitFromEnd(t: string, i: nat)
    requires i <= |t| && SkipBlanks(t, i) == |t|
    ensures SplitFrom(t, i) == []
  {
  }

  /** One word of the scan is found at the same place, shifted, once text
      is placed before it. */
  lemma SplitFromShiftStep(p: string, s: string, i: nat, b: nat, e: nat)
    requires i <= b < |s| && SkipBlanks(s, i) == b && TokenEnd(s, b) == e
    requires SplitFrom(p + s, |p| + e) == SplitFrom(s, e)
    ensures SplitFrom(p + s, |p| + i) == SplitFrom(s, i)
  {
    var t := p + s;
    assert SplitFrom(t, |p| + i) == [t[|p| + b..|p| + e]] + SplitFrom(t, |p| + e) by {
      SkipBlanksShift(p, s, i);
      TokenEndShift(p, s, b);
      SplitFromStep(t, |p| + i, |p| + b, |p| + e);
    }
    SliceShift(p, s, b, e);
    SplitFromStep(s, i, b, e);
  }

  /** Splitting is unaffected by text placed before the scan position. */
  lemma {:induction false} SplitFromShift(p: string, s: string, i: nat)
    requires i <= |s|
    ensures SplitFrom(p + s, |p| + i) == SplitFrom(s, i)
    decreases |s| - i
  {
    var b := SkipBlanks(s, i);
    if b < |s| {
      var e := TokenEnd(s, b);
      SplitFromShift(p, s, e);
      SplitFromShiftStep(p, s, i, b, e);
    } else {
      SkipBlanksShift(p, s, i);
      SplitFromEnd(p + s, |p| + i);
      SplitFromEnd(s, i);
    }
  }

  lemma {:induction false} TokenEndOfWord(w: string, rest: string, i: nat)
    requires i <= |w| && NoSpace(w)
    requires rest == [] || IsSpace(rest[0])
    ensures TokenEnd(w + rest, i) == |w|
    decreases |w| - i
  {
    if i < |w| {
      assert (w + rest)[i] == w[i];
      TokenEndOfWord(w, rest, i + 1);
    } else if rest != [] {
      assert (w + rest)[i] == rest[0];
    }
  }

  /** A word followed by a blank or by nothing is split off first. */
  lemma SplitWord(w: string, rest: string)
    requires w != [] && NoSpace(w)
    requires rest == [] || IsSpace(rest[0])
    ensures Split(w + rest) == [w] + Split(rest)
  {
    var s := w + rest;
    assert s[0] == w[0];
    assert SkipBlanks(s, 0) == 0;
    TokenEndOfWord(w, rest, 0);
    assert s[0..|w|] == w;
    SplitFromShift(w, rest, 0);
  }

  lemma SplitAfterBlank(s: string)
    ensures Split(" " + s) == Split(s)
  {
    var t := " " + s;
    assert SkipBlanks(t, 0) == SkipBlanks(t, 1);
    SplitFromShift(" ", s, 0);
  }

  /** Splitting words joined by blanks gives back the words. */
  lemma {:induction false} SplitJoinWords(ws: seq<string>)
    requires forall k :: 0 <= k < |ws| ==> ws[k] != [] && NoSpace(ws[k])
    ensures Split(JoinWords(ws)) == ws
  {
    if |ws| == 1 {
      SplitWord(ws[0], "");
      assert ws[0] + "" == ws[0];
    } else if |ws| > 1 {
      var rest := " " + JoinWords(ws[1..]);
      assert JoinWords(ws) == ws[0] + rest;
      SplitWord(ws[0], rest);
      SplitAfterBlank(JoinWords(ws[1..]));
      SplitJoinWords(ws[1..]);
    }
  }

  /** Python's `p in s`: `p` occurs in `s` (the empty string occurs everywhere). */
  predicate Contains(s: string, p: string)
    decreases |s|
  {
    p <= s || (s != [] && Contains(s[1..], p))
  }

  /** Python's `s.replace(p, "")`: every occurrence of `p`, scanned left to
      right without overlap, removed. */
  function RemoveAll(s: string, p: string): string
    decreases |s|
  {
    if p == [] || s == [] then s
    else if p <= s then RemoveAll(s[|p|..], p)
    else [s[0]] + RemoveAll(s[1..], p)
  }

  /** A pattern that does not start with a digit is found after a digit
      string, and removing it leaves exactly the digits. */
  lemma {:induction false} RemoveAllAfterDigits(d: string, p: string)
    requires AllDigitChars(d) && p != [] && !IsDigit(p[0])
    ensures Contains(d + p, p) && RemoveAll(d + p, p) == d
  {
    if d == [] {
      assert d + p == p;
      assert p[|p|..] == [];
    } else {
      assert (d + p)[0] == d[0];
      assert !(p <= d + p);
      assert (d + p)[1..] == d[1..] + p;
      RemoveAllAfterDigits(d[1..], p);
    }
  }

  /** Python's and JavaScript's `<` on strings: lexicographic order of code points. */
  predicate StrLt(a: string, b: string)
    decreases |a|
  {
    b != [] && (a == [] || a[0] < b[0] || (a[0] == b[0] && StrLt(a[1..], b[1..])))
  }

  lemma {:induction false} StrLtIrreflexive(a: string)
    ensures !StrLt(a, a)
  {
    if a != [] {
      StrLtIrreflexive(a[1..]);
    }
  }

  lemma {:induction false} StrLtTransitive(a: string, b: string, c: string)
    requires StrLt(a, b) && StrLt(b, c)
    ensures StrLt(a, c)
  {
    if a != [] && a[0] == b[0] && b[0] == c[0] {
      StrLtTransitive(a[1..], b[1..], c[1..]);
    }
  }

  lemma {:induction false} StrLtTotal(a: string, b: string)
    ensures a == b || StrLt(a, b) || StrLt(b, a)
  {
    if a != [] && b != [] && a[0] == b[0] {
      StrLtTotal(a[1..], b[1..]);
      if a[1..] == b[1..] {
        assert a == [a[0]] + a[1..] && b == [b[0]] + b[1..];
      }
    }
  }
}
