/** The converter of the Japan Meteorological Agency's fixed-width tide
    tables (`parse_line` in tools/parse_jma_txt.py). A table line holds 24
    hourly heights in centimetres, three columns each, then the two-digit
    year, month and day and the two-character station code in columns
    73 to 80. When those columns do not hold a date, a regular expression
    anchored at the end of the line looks for the date and the station
    instead, and the text before it is taken for the heights.

    Characters are Unicode scalar values; the digits `\d` and `isdigit()`
    recognise are the ASCII ones. */
module JmaFixedWidth {
  import opened Options
  import opened Text

  const LINE_WIDTH := 80
  const HOURLY_WIDTH := 72
  const HOURS := 24

  /** The record `parse_line` returns: `"20YY-MM-DD"`, the station code and
      one height per hour, `None` where a column is blank or unreadable. */
  datatype ParsedDay = ParsedDay(date: string, station: string, hourly: seq<Option<int>>)

  /** The year, month, day and station fields as text. */
  datatype Groups = Groups(yy: string, mm: string, dd: string, station: string)

  /** The text the heights are read from, and the other fields. */
  datatype Fields = Fields(raw: string, groups: Groups)

  /** The line as `parse_line` first reshapes it: right-justified to 80
      columns, carriage returns and line feeds dropped from its end, then
      left-justified to 80 columns again. */
  function Normalize(line: string): (l: string)
    ensures |l| >= LINE_WIDTH
    ensures l[|l| - 1] != '\n' && l[|l| - 1] != '\r'
  {
    var padded := if |line| < LINE_WIDTH then RJust(line, LINE_WIDTH) else line;
    var trimmed := RStripNewlines(padded);
    if |trimmed| < LINE_WIDTH then LJust(trimmed, LINE_WIDTH) else trimmed
  }

  /** A line already 80 columns wide without a line break at its end is
      left as it is. */
  lemma NormalizeKeepsTableLine(line: string)
    requires |line| >= LINE_WIDTH && line[|line| - 1] != '\n' && line[|line| - 1] != '\r'
    ensures Normalize(line) == line
  {
    assert TrimNewlines(line, |line|) == |line|;
  }

  /** The heights are columns 1 to 72; the other fields are columns 73 to 80
      with surrounding whitespace stripped. */
  function FixedFields(l: string): (f: Fields)
    requires |l| >= LINE_WIDTH
    ensures |f.raw| == HOURLY_WIDTH
  {
    Fields(l[..72], Groups(Strip(l[72..74]), Strip(l[74..76]), Strip(l[76..78]), Strip(l[78..80])))
  }

  /** The class `[A-Z0-9]` of the station code. */
  predicate IsCodeChar(c: char) {
    'A' <= c <= 'Z' || IsDigit(c)
  }

  lemma CodeCharNotBlank(c: char)
    requires IsCodeChar(c)
    ensures !IsSpace(c) && c != '\n' && c != '\r'
  {
  }

  /** The groups of the match, starting at `k`, of the regular expression
      `(\d{2})\s+(\d{1,2})\s+(\d{1,2})([A-Z0-9]{2})$`. Each `\s+` takes the
      whole run of whitespace, since what follows it must be a digit; the
      month is a run of one or two digits; what is left after the second run
      of whitespace is the day and the code, three or four characters with
      the day as long as it can be. `$` is the end of the line: a
      normalised line never ends in a line feed. */
  function MatchAt(l: string, k: nat): Option<Groups>
    requires k <= |l|
  {
    if k + 2 <= |l| && IsDigit(l[k]) && IsDigit(l[k + 1]) then
      var s1 := SkipBlanks(l, k + 2);
      var e1 := DigitEnd(l, s1);
      var s2 := SkipBlanks(l, e1);
      var rest := l[s2..];
      if s1 == k + 2 || e1 == s1 || e1 - s1 > 2 || s2 == e1 then None
      else if |rest| == 4 && IsDigit(rest[0]) && IsDigit(rest[1]) && IsCodeChar(rest[2]) && IsCodeChar(rest[3]) then
        Some(Groups(l[k..k + 2], l[s1..e1], rest[..2], rest[2..]))
      else if |rest| == 3 && IsDigit(rest[0]) && IsCodeChar(rest[1]) && IsCodeChar(rest[2]) then
        Some(Groups(l[k..k + 2], l[s1..e1], rest[..1], rest[1..]))
      else None
    else None
  }

  /** `re.search`: the leftmost start, at or after `k`, where the pattern matches. */
  function SearchFrom(l: string, k: nat): (r: Option<nat>)
    requires k <= |l|
    ensures r.Some? ==> k <= r.value <= |l| && MatchAt(l, r.value).Some?
    ensures r.None? ==> forall j :: k <= j <= |l| ==> MatchAt(l, j).None?
    decreases |l| - k
  {
    if MatchAt(l, k).Some? then Some(k)
    else if k == |l| then None
    else SearchFrom(l, k + 1)
  }

  /** The fields `parse_line` reads: the fixed columns when the year, month
      and day there are all digit strings, otherwise the first match of the
      pattern with the text before it right-justified to 72 columns as the
      heights, otherwise none. */
  function Locate(l: string): (r: Option<Fields>)
    requires |l| >= LINE_WIDTH
    ensures r.Some? ==> |r.value.raw| >= HOURLY_WIDTH
  {
    if FixedDate(l) then Some(FixedFields(l))
    else
      var k := SearchFrom(l, 0);
      if k.None? then None else Some(Fields(RJust(l[..k.value], HOURLY_WIDTH), MatchAt(l, k.value).value))
  }

  /** One three-column height: blank is `None`, then `int()`, then the first
      `-?\d+` in it, then `None`. */
  function ChunkValue(chunk: string): Option<int> {
    var t := Strip(chunk);
    if t == "" then None
    else if PyInt(t).Some? then PyInt(t)
    else FirstSignedInt(t)
  }

  /** The heights of the first `n` hours of the text `raw`: hour `c` is read
      from columns `3c + 1` to `3c + 3`. */
  function Hourly(raw: string, n: nat): (h: seq<Option<int>>)
    requires n <= HOURS && |raw| >= HOURLY_WIDTH
  {
    seq(n, c requires 0 <= c < n => ChunkValue(raw[3 * c..3 * c + 3]))
  }

  predicate AllNone(h: seq<Option<int>>) {
    forall c :: 0 <= c < |h| ==> h[c].None?
  }

  /** Python's `f"{v:02d}"`: at least two characters, zeros after the sign. */
  function Format02(v: int): string {
    if v < 0 then "-" + NatToString(-v) else PadLeft(NatToString(v), 2, '0')
  }

  /** What `parse_line` returns for a line, `None` standing for Python's `None`. */
  function Parse(line: string): Option<ParsedDay> {
    var f := Locate(Normalize(line));
    if f.None? then None else Assemble(f.value, Hourly(f.value.raw, HOURS))
  }

  /** The record built from the located fields and the heights: none when
      every height is missing or a date field is not an integer. */
  function Assemble(f: Fields, hourly: seq<Option<int>>): Option<ParsedDay> {
    if AllNone(hourly) then None
    else
      var y, m, d := PyInt(f.groups.yy), PyInt(f.groups.mm), PyInt(f.groups.dd);
      if y.None? || m.None? || d.None? then None
      else Some(ParsedDay("20" + Format02(y.value) + "-" + Format02(m.value) + "-" + Format02(d.value),
                          f.groups.station, hourly))
  }

  /** `parse_line` step by step: reshape the line, read the fixed fields or
      fall back on the pattern, then read the heights three columns at a time. */
  method ParseLine(line: string) returns (r: Option<ParsedDay>)
    ensures r == Parse(line)
  {
    var l := line;
    if |l| < LINE_WIDTH {
      l := RJust(l, LINE_WIDTH);
    }
    l := RStripNewlines(l);
    if |l| < LINE_WIDTH {
      l := LJust(l, LINE_WIDTH);
    }
    assert l == Normalize(line);
    var raw := l[..72];
    var yy, mm, dd, station := Strip(l[72..74]), Strip(l[74..76]), Strip(l[76..78]), Strip(l[78..80]);
    if !(IsDigits(yy) && IsDigits(mm) && IsDigits(dd)) {
      var k := SearchFrom(l, 0);
      if k.None? {
        return None;
      }
      var f := MatchAt(l, k.value).value;
      yy, mm, dd, station := f.yy, f.mm, f.dd, f.station;
      raw := RJust(l[..k.value], HOURLY_WIDTH);
    }
    ghost var f := Locate(l).value;
    assert raw == f.raw && Groups(yy, mm, dd, station) == f.groups;
    var hourly := ReadHourly(raw);
    if AllNone(hourly) {
      return None;
    }
    var y, m, d := PyInt(yy), PyInt(mm), PyInt(dd);
    if y.None? || m.None? || d.None? {
      return None;
    }
    r := Some(ParsedDay("20" + Format02(y.value) + "-" + Format02(m.value) + "-" + Format02(d.value),
                        station, hourly));
  }

  /** The loop of `parse_line` over the 24 three-column heights. */
  method ReadHourly(raw: string) returns (hourly: seq<Option<int>>)
    requires |raw| >= HOURLY_WIDTH
    ensures hourly == Hourly(raw, HOURS)
  {
    hourly := [];
    var i := 0;
    ghost var n := 0;
    while i < HOURLY_WIDTH
      invariant 0 <= n <= HOURS && i == 3 * n && |hourly| == n
      invariant forall c :: 0 <= c < n ==> hourly[c] == ChunkValue(raw[3 * c..3 * c + 3])
    {
      hourly := hourly + [ChunkValue(raw[i..i + 3])];
      i, n := i + 3, n + 1;
    }
  }

  /** A height column is read exactly when it holds a digit somewhere: the
      `int()` and `-?\d+` readings both need one, and the second finds one
      wherever it is. */
  lemma ChunkValueNeedsDigit(chunk: string)
    ensures ChunkValue(chunk).Some? <==> exists j :: 0 <= j < |chunk| && IsDigit(chunk[j])
  {
    if ChunkValue(chunk).Some? {
      ChunkDigitOfValue(chunk);
    }
    if exists j :: 0 <= j < |chunk| && IsDigit(chunk[j]) {
      var j :| 0 <= j < |chunk| && IsDigit(chunk[j]);
      ChunkValueOfDigit(chunk, j);
    }
  }

  lemma ChunkDigitOfValue(chunk: string)
    requires ChunkValue(chunk).Some?
    ensures exists j :: 0 <= j < |chunk| && IsDigit(chunk[j])
  {
    var t := Strip(chunk);
    var i := SkipBlanks(chunk, 0);
    assert t == chunk[i..TrimBlanks(chunk, i, |chunk|)];
    if PyInt(t).Some? {
      PyIntNeedsDigit(t);
    } else {
      FirstSignedIntFound(t);
    }
    var j :| 0 <= j < |t| && IsDigit(t[j]);
    assert chunk[i + j] == t[j];
  }

  lemma ChunkValueOfDigit(chunk: string, j: nat)
    requires j < |chunk| && IsDigit(chunk[j])
    ensures ChunkValue(chunk).Some?
  {
    StripKeepsDigits(chunk, j);
    FirstSignedIntFound(Strip(chunk));
  }

  /** A height written right-justified in three columns, as the tables
      write it, is read back. */
  lemma ChunkValueOfColumn(h: int)
    requires -99 <= h <= 999
    ensures ChunkValue(RJust(IntToString(h), 3)) == Some(h)
  {
    var w := IntToString(h);
    var d := NatToString(if h < 0 then -h else h);
    assert w[|w| - 1] == d[|d| - 1];
    DigitNotSpace(d[|d| - 1]);
    if h >= 0 {
      DigitNotSpace(d[0]);
    }
    StripRJust(w, 3);
    PyIntOfIntToString(h);
  }

  /** The test on the fixed columns: year, month and day all digit strings. */
  predicate FixedDate(l: string)
    requires |l| >= LINE_WIDTH
  {
    var g := FixedFields(l).groups;
    IsDigits(g.yy) && IsDigits(g.mm) && IsDigits(g.dd)
  }

  /** Wherever the fields come from, year, month and day are strings of one
      or two digits. */
  lemma LocatedDigits(l: string)
    requires |l| >= LINE_WIDTH && Locate(l).Some?
    ensures var g := Locate(l).value.groups;
      && IsDigits(g.yy) && |g.yy| <= 2 && IsDigits(g.mm) && |g.mm| <= 2 && IsDigits(g.dd) && |g.dd| <= 2
  {
    if !FixedDate(l) {
      var k := SearchFrom(l, 0).value;
      MatchDigits(l, k);
    }
  }

  lemma MatchDigits(l: string, k: nat)
    requires k <= |l| && MatchAt(l, k).Some?
    ensures var g := MatchAt(l, k).value;
      && IsDigits(g.yy) && |g.yy| <= 2 && IsDigits(g.mm) && |g.mm| <= 2 && IsDigits(g.dd) && |g.dd| <= 2
  {
  }

  /** The date `parse_line` writes: `"20"`, then year, month and day each
      as two digits. */
  function DateText(y: nat, m: nat, d: nat): (s: string)
    requires y < 100 && m < 100 && d < 100
    ensures |s| == 10 && s[4] == '-' && s[7] == '-'
  {
    "20" + Pad2(y) + "-" + Pad2(m) + "-" + Pad2(d)
  }

  /** `parse_line` gives a record exactly when it finds the fields and at
      least one height: its `int()` on the year, month and day never fails.
      The record holds the located station, the 24 heights and the date
      `20YY-MM-DD` of the located digits, whatever the year. */
  lemma ParseOutcome(line: string)
    ensures var f := Locate(Normalize(line));
      Parse(line).Some? <==> f.Some? && !AllNone(Hourly(f.value.raw, HOURS))
    ensures Parse(line).Some? ==>
      var f := Locate(Normalize(line)).value;
      var g := f.groups;
      && IsDigits(g.yy) && IsDigits(g.mm) && IsDigits(g.dd)
      && DigitsValue(g.yy) < 100 && DigitsValue(g.mm) < 100 && DigitsValue(g.dd) < 100
      && Parse(line).value
         == ParsedDay(DateText(DigitsValue(g.yy), DigitsValue(g.mm), DigitsValue(g.dd)), g.station, Hourly(f.raw, HOURS))
  {
    var l := Normalize(line);
    if Locate(l).Some? {
      var f := Locate(l).value;
      LocatedDigits(l);
      AssembleOutcome(f, Hourly(f.raw, HOURS));
    }
  }

  lemma AssembleOutcome(f: Fields, hourly: seq<Option<int>>)
    requires var g := f.groups;
      && IsDigits(g.yy) && |g.yy| <= 2 && IsDigits(g.mm) && |g.mm| <= 2 && IsDigits(g.dd) && |g.dd| <= 2
    ensures var g := f.groups;
      && DigitsValue(g.yy) < 100 && DigitsValue(g.mm) < 100 && DigitsValue(g.dd) < 100
      && Assemble(f, hourly)
         == if AllNone(hourly) then None
            else Some(ParsedDay(DateText(DigitsValue(g.yy), DigitsValue(g.mm), DigitsValue(g.dd)), g.station, hourly))
  {
    TwoDigitsValue(f.groups.yy);
    TwoDigitsValue(f.groups.mm);
    TwoDigitsValue(f.groups.dd);
  }

  /** `int()` and `f"{v:02d}"` on a string of one or two digits. */
  lemma TwoDigitsValue(s: string)
    requires IsDigits(s) && |s| <= 2
    ensures DigitsValue(s) < 100 && PyInt(s) == Some(DigitsValue(s))
    ensures Format02(DigitsValue(s)) == Pad2(DigitsValue(s))
  {
    DigitsValueBound(s);
    PyIntOfDigits(s);
  }

  /** A height the tables can hold in three columns. */
  predicate Fits(h: int) {
    -99 <= h <= 999
  }

  lemma FitsWidth(h: int)
    requires Fits(h)
    ensures |IntToString(h)| <= 3
  {
    if h >= 100 {
      assert NatToString(h) == NatToString(h / 10) + [DigitChar(h % 10)];
    }
  }

  /** The concatenation of a sequence of strings, Python's `"".join`. */
  function Concat(ws: seq<string>): string {
    if ws == [] then [] else Concat(ws[..|ws| - 1]) + ws[|ws| - 1]
  }

  /** Joining three-character pieces puts piece `c` at columns `3c + 1` to `3c + 3`. */
  lemma {:induction false} ConcatSlices(ws: seq<string>)
    requires forall i :: 0 <= i < |ws| ==> |ws[i]| == 3
    ensures |Concat(ws)| == 3 * |ws|
    ensures forall c :: 0 <= c < |ws| ==> Concat(ws)[3 * c..3 * c + 3] == ws[c]
  {
    if ws != [] {
      var p := ws[..|ws| - 1];
      ConcatSlices(p);
      var a, w := Concat(p), ws[|ws| - 1];
      assert Concat(ws) == a + w;
      forall c | 0 <= c < |ws|
        ensures Concat(ws)[3 * c..3 * c + 3] == ws[c]
      {
        AppendedColumn(a, w, c);
        if c < |p| {
          assert ws[c] == p[c];
        }
      }
    }
  }

  /** Appending a three-column field keeps the earlier columns and adds itself. */
  lemma AppendedColumn(a: string, w: string, c: nat)
    requires |a| % 3 == 0 && |w| == 3 && 3 * c + 3 <= |a| + 3
    ensures (a + w)[3 * c..3 * c + 3] == if 3 * c < |a| then a[3 * c..3 * c + 3] else w
  {
  }

  /** Each height right-justified in three columns, as the tables write it. */
  function Cells(hs: seq<int>): seq<string> {
    seq(|hs|, i requires 0 <= i < |hs| => RJust(IntToString(hs[i]), 3))
  }

  /** The height columns of a table line. */
  function Columns(hs: seq<int>): string {
    Concat(Cells(hs))
  }

  lemma CellsWidth(hs: seq<int>)
    requires forall i :: 0 <= i < |hs| ==> Fits(hs[i])
    ensures forall i :: 0 <= i < |hs| ==> |Cells(hs)[i]| == 3
  {
    forall i | 0 <= i < |hs|
      ensures |Cells(hs)[i]| == 3
    {
      FitsWidth(hs[i]);
    }
  }

  lemma ColumnsSlices(hs: seq<int>)
    requires forall i :: 0 <= i < |hs| ==> Fits(hs[i])
    ensures |Columns(hs)| == 3 * |hs|
    ensures forall c :: 0 <= c < |hs| ==> Columns(hs)[3 * c..3 * c + 3] == Cells(hs)[c]
  {
    CellsWidth(hs);
    ConcatSlices(Cells(hs));
  }

  /** Each of the 24 columns of written heights reads back as its height. */
  lemma HourlyOfColumns(hs: seq<int>)
    requires |hs| == HOURS && forall i :: 0 <= i < |hs| ==> Fits(hs[i])
    ensures |Columns(hs)| == HOURLY_WIDTH
    ensures forall c :: 0 <= c < HOURS ==> Hourly(Columns(hs), HOURS)[c] == Some(hs[c])
  {
    ColumnsSlices(hs);
    forall c | 0 <= c < HOURS
      ensures Hourly(Columns(hs), HOURS)[c] == Some(hs[c])
    {
      assert Columns(hs)[3 * c..3 * c + 3] == Cells(hs)[c] == RJust(IntToString(hs[c]), 3);
      ColumnReads(Columns(hs), c, hs[c]);
    }
  }

  lemma ColumnReads(raw: string, c: nat, h: int)
    requires |raw| >= HOURLY_WIDTH && c < HOURS && Fits(h) && raw[3 * c..3 * c + 3] == RJust(IntToString(h), 3)
    ensures Hourly(raw, HOURS)[c] == Some(h)
  {
    ChunkValueOfColumn(h);
  }

  /** A line as the tables write it: the heights, then year, month and day
      right-justified in two columns each, then the station code. */
  function TableLine(hs: seq<int>, y: nat, m: nat, d: nat, station: string): string {
    Columns(hs) + RJust(NatToString(y), 2) + RJust(NatToString(m), 2) + RJust(NatToString(d), 2) + station
  }

  /** A number of one or two digits right-justified in two columns strips
      back to its decimal notation. */
  lemma StripField(n: nat)
    requires n < 100
    ensures |RJust(NatToString(n), 2)| == 2
    ensures Strip(RJust(NatToString(n), 2)) == NatToString(n) && IsDigits(NatToString(n))
  {
    var s := NatToString(n);
    DigitNotSpace(s[0]);
    DigitNotSpace(s[|s| - 1]);
    StripRJust(s, 2);
  }

  lemma FieldSlices(h: string, y: string, m: string, d: string, st: string)
    requires |h| == HOURLY_WIDTH && |y| == 2 && |m| == 2 && |d| == 2 && |st| == 2
    ensures var l := h + y + m + d + st;
      && |l| == LINE_WIDTH && l[..72] == h && l[72..74] == y && l[74..76] == m && l[76..78] == d && l[78..80] == st
      && l[|l| - 1] == st[1]
  {
  }

  /** On a line as the tables write it, the fixed columns hold the date. */
  lemma LocateTableLine(hs: seq<int>, y: nat, m: nat, d: nat, station: string)
    requires |hs| == HOURS && forall i :: 0 <= i < |hs| ==> Fits(hs[i])
    requires y < 100 && m < 100 && d < 100
    requires |station| == 2 && IsCodeChar(station[0]) && IsCodeChar(station[1])
    ensures var l := TableLine(hs, y, m, d, station);
      && |l| == LINE_WIDTH && Normalize(l) == l
      && Locate(l) == Some(Fields(Columns(hs), Groups(NatToString(y), NatToString(m), NatToString(d), station)))
  {
    ColumnsSlices(hs);
    StripField(y);
    StripField(m);
    StripField(d);
    CodeCharNotBlank(station[0]);
    CodeCharNotBlank(station[1]);
    StripUnpadded(station);
    var ys, ms, ds := RJust(NatToString(y), 2), RJust(NatToString(m), 2), RJust(NatToString(d), 2);
    LocateFixed(Columns(hs), ys, ms, ds, station);
    assert TableLine(hs, y, m, d, station) == Columns(hs) + ys + ms + ds + station;
  }

  /** The fields of an 80-column line whose year, month and day columns
      strip to digit strings are read from the fixed columns. */
  lemma LocateFixed(h: string, y: string, m: string, d: string, st: string)
    requires |h| == HOURLY_WIDTH && |y| == 2 && |m| == 2 && |d| == 2 && |st| == 2
    requires IsDigits(Strip(y)) && IsDigits(Strip(m)) && IsDigits(Strip(d)) && Strip(st) == st
    requires st[1] != '\n' && st[1] != '\r'
    ensures var l := h + y + m + d + st;
      && |l| == LINE_WIDTH && Normalize(l) == l
      && Locate(l) == Some(Fields(h, Groups(Strip(y), Strip(m), Strip(d), st)))
  {
    var l := h + y + m + d + st;
    FieldSlices(h, y, m, d, st);
    NormalizeKeepsTableLine(l);
  }

  /** What the tables write, `parse_line` reads back: the date `20YY-MM-DD`,
      the station and every height. */
  lemma ParseTableLine(hs: seq<int>, y: nat, m: nat, d: nat, station: string)
    requires |hs| == HOURS && forall i :: 0 <= i < |hs| ==> Fits(hs[i])
    requires y < 100 && m < 100 && d < 100
    requires |station| == 2 && IsCodeChar(station[0]) && IsCodeChar(station[1])
    ensures var r := Parse(TableLine(hs, y, m, d, station));
      && r.Some? && r.value.date == DateText(y, m, d) && r.value.station == station
      && |r.value.hourly| == HOURS && forall c :: 0 <= c < HOURS ==> r.value.hourly[c] == Some(hs[c])
  {
    var l := TableLine(hs, y, m, d, station);
    LocateTableLine(hs, y, m, d, station);
    HourlyOfColumns(hs);
    assert !AllNone(Hourly(Columns(hs), HOURS)) by {
      assert Hourly(Columns(hs), HOURS)[0].Some?;
    }
    ParseOutcome(l);
  }

  /** The positions a match at `k` passes through: the year ends at `k + 2`,
      blanks run to the month at `s1`, the month runs to `e1`, blanks run to
      the day and code at `s2`. */
  predicate MatchesThrough(l: string, k: nat, s1: nat, e1: nat, s2: nat) {
    && k + 2 < s1 < e1 <= s1 + 2 && e1 < s2 && s2 + 3 <= |l| <= s2 + 4
    && IsDigit(l[k + 1]) && IsSpace(l[s1 - 1]) && IsDigit(l[e1 - 1]) && IsSpace(l[s2 - 1]) && IsDigit(l[s2])
    && (|l| == s2 + 4 ==> IsDigit(l[s2 + 1]))
    && (forall j :: k + 2 <= j < s1 ==> IsSpace(l[j]))
    && (forall j :: s1 <= j < e1 ==> IsDigit(l[j]))
    && (forall j :: e1 <= j < s2 ==> IsSpace(l[j]))
  }

  lemma MatchShape(l: string, k: nat) returns (s1: nat, e1: nat, s2: nat)
    requires k <= |l| && MatchAt(l, k).Some?
    ensures MatchesThrough(l, k, s1, e1, s2)
  {
    s1 := SkipBlanks(l, k + 2);
    e1 := DigitEnd(l, s1);
    s2 := SkipBlanks(l, e1);
    assert AllDigitChars(l[s1..e1]);
    forall j | s1 <= j < e1
      ensures IsDigit(l[j])
    {
      assert l[j] == l[s1..e1][j - s1];
    }
  }

  /** The pattern matches a line at most at one place: it is anchored at the
      end, and each part is bounded by a change between digits and blanks,
      so which search start wins does not matter. */
  lemma MatchUnique(l: string, a: nat, b: nat)
    requires a <= |l| && b <= |l| && MatchAt(l, a).Some? && MatchAt(l, b).Some?
    ensures a == b
  {
    var s1a, e1a, s2a := MatchShape(l, a);
    var s1b, e1b, s2b := MatchShape(l, b);
    SameThrough(l, a, s1a, e1a, s2a, b, s1b, e1b, s2b);
  }

  lemma SameThrough(l: string, a: nat, s1a: nat, e1a: nat, s2a: nat, b: nat, s1b: nat, e1b: nat, s2b: nat)
    requires MatchesThrough(l, a, s1a, e1a, s2a) && MatchesThrough(l, b, s1b, e1b, s2b)
    ensures a == b
  {
    assert s2a == s2b;
    assert e1a == e1b;
    assert s1a == s1b;
  }

  /** The line `p + yy + " " + mm + " " + dd + st`, character by character. */
  lemma ShiftedLineChars(l: string, p: string, yy: string, mm: string, dd: string, st: string)
    requires |yy| == 2 && 1 <= |mm| <= 2 && |st| == 2
    requires l == p + yy + " " + mm + " " + dd + st
    ensures var k, e1 := |p|, |p| + 3 + |mm|;
      && l[k] == yy[0] && l[k + 1] == yy[1] && l[k + 2] == ' ' && l[k + 3] == mm[0] && l[e1 - 1] == mm[|mm| - 1]
      && l[e1] == ' ' && l[k..k + 2] == yy && l[k + 3..e1] == mm && l[e1 + 1..] == dd + st
      && l[..k] == p && l[|l| - 1] == st[1]
  {
  }

  /** A line whose end holds the year, the month and the day with one blank
      before the month and one before the day, then the station code,
      matches where its year begins, and the groups are those fields. */
  lemma MatchOfFields(l: string, p: string, yy: string, mm: string, dd: string, st: string)
    requires |yy| == 2 && IsDigits(yy) && 1 <= |mm| <= 2 && IsDigits(mm) && 1 <= |dd| <= 2 && IsDigits(dd)
    requires |st| == 2 && IsCodeChar(st[0]) && IsCodeChar(st[1])
    requires l == p + yy + " " + mm + " " + dd + st
    ensures MatchAt(l, |p|) == Some(Groups(yy, mm, dd, st))
  {
    var k := |p|;
    var e1 := k + 3 + |mm|;
    ShiftedLineChars(l, p, yy, mm, dd, st);
    assert SkipBlanks(l, k + 2) == k + 3 by {
      DigitNotSpace(l[k + 3]);
    }
    assert DigitEnd(l, k + 3) == e1 by {
      assert DigitEnd(l, e1) == e1;
      if |mm| == 2 {
        assert IsDigit(l[k + 4]);
        assert DigitEnd(l, k + 4) == e1;
      }
    }
    assert SkipBlanks(l, e1) == e1 + 1 by {
      assert l[e1 + 1] == dd[0];
      DigitNotSpace(dd[0]);
    }
    MatchAtParts(l, k, k + 3, e1, e1 + 1, yy, mm, dd, st);
  }

  /** The groups of a match, given where its parts begin and end. */
  lemma MatchAtParts(l: string, k: nat, s1: nat, e1: nat, s2: nat, yy: string, mm: string, dd: string, st: string)
    requires k + 2 < s1 < e1 <= s1 + 2 && e1 < s2 <= |l| && IsDigit(l[k]) && IsDigit(l[k + 1])
    requires SkipBlanks(l, k + 2) == s1 && DigitEnd(l, s1) == e1 && SkipBlanks(l, e1) == s2
    requires l[k..k + 2] == yy && l[s1..e1] == mm && l[s2..] == dd + st
    requires 1 <= |dd| <= 2 && IsDigits(dd) && |st| == 2 && IsCodeChar(st[0]) && IsCodeChar(st[1])
    ensures MatchAt(l, k) == Some(Groups(yy, mm, dd, st))
  {
    RestParts(dd, st);
  }

  /** The day and the code as the pattern's last two groups split them. */
  lemma RestParts(dd: string, st: string)
    requires 1 <= |dd| <= 2 && IsDigits(dd) && |st| == 2
    ensures var r := dd + st;
      && |r| == |dd| + 2 && r[0] == dd[0] && r[|dd|] == st[0] && r[|dd| + 1] == st[1]
      && r[..|dd|] == dd && r[|dd|..] == st
      && (|dd| == 2 ==> IsDigit(r[1]))
  {
  }

  /** When the fixed columns do not hold the date, a line ending in the year,
      the month, the day and the code, blank-separated as above, has its
      fields read from there and its heights from the text before them,
      right-justified to 72 columns. */
  lemma LocateShiftedLine(l: string, p: string, yy: string, mm: string, dd: string, st: string)
    requires |yy| == 2 && IsDigits(yy) && 1 <= |mm| <= 2 && IsDigits(mm) && 1 <= |dd| <= 2 && IsDigits(dd)
    requires |st| == 2 && IsCodeChar(st[0]) && IsCodeChar(st[1])
    requires l == p + yy + " " + mm + " " + dd + st && |l| >= LINE_WIDTH && !FixedDate(l)
    ensures Normalize(l) == l && Locate(l) == Some(Fields(RJust(p, HOURLY_WIDTH), Groups(yy, mm, dd, st)))
  {
    MatchOfFields(l, p, yy, mm, dd, st);
    ShiftedLineChars(l, p, yy, mm, dd, st);
    LocateFallback(l, |p|);
    NormalizeKeepsTableLine(l);
  }

  /** Without a date in the fixed columns, the fields come from the one place
      the pattern matches. */
  lemma LocateFallback(l: string, k: nat)
    requires |l| >= LINE_WIDTH && !FixedDate(l) && k <= |l| && MatchAt(l, k).Some?
    ensures Locate(l) == Some(Fields(RJust(l[..k], HOURLY_WIDTH), MatchAt(l, k).value))
  {
    var j := SearchFrom(l, 0);
    MatchUnique(l, j.value, k);
  }

  /** What `parse_line` then returns: no record when no height is readable,
      otherwise the date `20YY-MM-DD` of those fields, their station and the
      heights. */
  lemma ParseShiftedLine(l: string, p: string, yy: string, mm: string, dd: string, st: string)
    requires |yy| == 2 && IsDigits(yy) && 1 <= |mm| <= 2 && IsDigits(mm) && 1 <= |dd| <= 2 && IsDigits(dd)
    requires |st| == 2 && IsCodeChar(st[0]) && IsCodeChar(st[1])
    requires l == p + yy + " " + mm + " " + dd + st && |l| >= LINE_WIDTH && !FixedDate(l)
    ensures var hourly := Hourly(RJust(p, HOURLY_WIDTH), HOURS);
      && DigitsValue(yy) < 100 && DigitsValue(mm) < 100 && DigitsValue(dd) < 100
      && Parse(l) == if AllNone(hourly) then None
                     else Some(ParsedDay(DateText(DigitsValue(yy), DigitsValue(mm), DigitsValue(dd)), st, hourly))
  {
    LocateShiftedLine(l, p, yy, mm, dd, st);
    var f := Fields(RJust(p, HOURLY_WIDTH), Groups(yy, mm, dd, st));
    AssembleOutcome(f, Hourly(f.raw, HOURS));
  }
}
