/** The second reader of the Japan Meteorological Agency's tide tables
    (`parse_line` and the per-station loop of `main` in
    tools/fetch_jma_data.py). It splits a line into whitespace-separated
    words instead of columns: the first 24 words are the hourly heights,
    the last word is the day with the station code glued to it, and the
    words before it are the year and the month. A station's days are
    gathered into a map from date to heights in which a later line for the
    same date replaces an earlier one.

    As written, `parse_line` takes the year from the fourth word from the
    end and the month from the third, one word too far to the left: those
    are the last height and the year. `ParseTokens` is that reading;
    `ParseTokensFixed` takes the year and month from the third and second
    words from the end. The reader and the gathering loop take the reading
    as a parameter: `AsWritten` is the program as it runs, `Corrected` the
    program as intended. */
module JmaTokens {
  import opened Options
  import opened Text

  const HOURS := 24
  const MIN_WORDS := 26

  /** The record `parse_line` returns: the date `YYYY-MM-DD` and the heights. */
  datatype Day = Day(date: string, hours: seq<int>)

  /** `f` of every element, or none when `f` gives none for one of them. */
  function Traverse<T, U>(xs: seq<T>, f: T -> Option<U>): Option<seq<U>> {
    if xs == [] then Some([])
    else
      var init := Traverse(xs[..|xs| - 1], f);
      var v := f(xs[|xs| - 1]);
      if init.None? || v.None? then None else Some(init.value + [v.value])
  }

  /** There is a result exactly when `f` gives one for each element. */
  lemma {:induction false} TraverseDefined<T, U>(xs: seq<T>, f: T -> Option<U>)
    ensures Traverse(xs, f).Some? <==> forall i :: 0 <= i < |xs| ==> f(xs[i]).Some?
  {
    if xs != [] {
      var init := xs[..|xs| - 1];
      TraverseDefined(init, f);
      assert forall i :: 0 <= i < |init| ==> init[i] == xs[i];
    }
  }

  /** The result holds, in order, what `f` gives for each element. */
  lemma {:induction false} TraverseElements<T, U>(xs: seq<T>, f: T -> Option<U>)
    requires Traverse(xs, f).Some?
    ensures |Traverse(xs, f).value| == |xs|
    ensures forall i :: 0 <= i < |xs| ==> f(xs[i]) == Some(Traverse(xs, f).value[i])
  {
    if xs != [] {
      var init := xs[..|xs| - 1];
      TraverseElements(init, f);
      assert forall i :: 0 <= i < |init| ==> init[i] == xs[i];
    }
  }

  /** `int()` of every word, or none when one of them is not an integer. */
  function Ints(ws: seq<string>): Option<seq<int>> {
    Traverse(ws, PyInt)
  }

  /** The words are read exactly when each of them is an integer, and then
      the `i`-th integer is `int()` of the `i`-th word. */
  lemma IntsReadsEach(ws: seq<string>)
    ensures Ints(ws).Some? <==> forall i :: 0 <= i < |ws| ==> PyInt(ws[i]).Some?
    ensures Ints(ws).Some? ==> |Ints(ws).value| == |ws| && forall i :: 0 <= i < |ws| ==> PyInt(ws[i]) == Some(Ints(ws).value[i])
  {
    TraverseDefined(ws, PyInt);
    if Ints(ws).Some? {
      TraverseElements(ws, PyInt);
    }
  }

  /** The record read from the words of a line once the year and month words
      are chosen: the year word must be two characters long, the station code
      must occur in the last word and leave only digits when removed, and the
      first 24 words must be integers. Month and day are zero-filled to two
      characters. */
  function DayFrom(parts: seq<string>, code: string, yearWord: string, monthWord: string): Option<Day>
    requires |parts| >= MIN_WORDS
  {
    if |yearWord| != 2 then None
    else
      var last := parts[|parts| - 1];
      if !Contains(last, code) then None
      else
        var dayWord := RemoveAll(last, code);
        if !IsDigits(dayWord) then None
        else
          var hours := Ints(parts[..HOURS]);
          if hours.None? then None
          else Some(Day("20" + yearWord + "-" + ZFill(monthWord, 2) + "-" + ZFill(dayWord, 2), hours.value))
  }

  /** Which words `parse_line` takes for the year and the month. */
  datatype Reading = AsWritten | Corrected

  /** The position of the year word, counted from the end of the line; the
      month word follows it. */
  function YearFromEnd(rd: Reading): (k: nat)
    ensures 3 <= k <= 4
  {
    if rd.AsWritten? then 4 else 3
  }

  /** `parse_line` under a reading: fewer than 26 words give no record,
      otherwise the record of `DayFrom` with the chosen year and month words. */
  function ParseWords(line: string, code: string, rd: Reading): Option<Day> {
    var parts := Split(line);
    if |parts| < MIN_WORDS then None
    else
      var k := YearFromEnd(rd);
      DayFrom(parts, code, parts[|parts| - k], parts[|parts| - k + 1])
  }

  /** A line of at least 26 words is read by `DayFrom`. */
  lemma ParseWordsLong(line: string, code: string, rd: Reading)
    requires |Split(line)| >= MIN_WORDS
    ensures var parts, k := Split(line), YearFromEnd(rd);
            ParseWords(line, code, rd) == DayFrom(parts, code, parts[|parts| - k], parts[|parts| - k + 1])
  {
  }

  /** `parse_line` as written: the year is the fourth word from the end and
      the month the third. */
  function ParseTokens(line: string, code: string): Option<Day> {
    ParseWords(line, code, AsWritten)
  }

  /** `parse_line` with the year taken from the third word from the end and
      the month from the second, where a table line has them. */
  function ParseTokensFixed(line: string, code: string): Option<Day> {
    ParseWords(line, code, Corrected)
  }

  /** `parse_line` step by step under a reading: a line of fewer than 26
      words gives no record, otherwise the words are checked by `ReadDay`. */
  method ParseLine(line: string, code: string, rd: Reading) returns (r: Option<Day>)
    ensures r == ParseWords(line, code, rd)
  {
    var parts := Split(line);
    if |parts| < MIN_WORDS {
      return None;
    }
    var k := YearFromEnd(rd);
    ParseWordsLong(line, code, rd);
    r := ReadDay(parts, code, parts[|parts| - k], parts[|parts| - k + 1]);
  }

  /** The checks of `parse_line` once the line is split and the year and
      month words are chosen, in the order the source makes them, then the
      24 heights read one by one, any one that is not an integer giving no
      record. */
  method ReadDay(parts: seq<string>, code: string, yearShort: string, monthWord: string) returns (r: Option<Day>)
    requires |parts| >= MIN_WORDS
    ensures r == DayFrom(parts, code, yearShort, monthWord)
  {
    var last := parts[|parts| - 1];
    if |yearShort| != 2 {
      return None;
    }
    var year := "20" + yearShort;
    var month := ZFill(monthWord, 2);
    if !Contains(last, code) {
      return None;
    }
    var dayWord := RemoveAll(last, code);
    if !IsDigits(dayWord) {
      return None;
    }
    var day := ZFill(dayWord, 2);
    var dateText := year + "-" + month + "-" + day;
    var hours := ReadHours(parts);
    if hours.None? {
      return None;
    }
    r := Some(Day(dateText, hours.value));
  }

  /** The loop of `parse_line` over the first 24 words, `int()` of each; a
      word that is not an integer ends it with no record. */
  method ReadHours(parts: seq<string>) returns (r: Option<seq<int>>)
    requires |parts| >= HOURS
    ensures r == Ints(parts[..HOURS])
  {
    var hours: seq<int> := [];
    for i := 0 to HOURS
      invariant Ints(parts[..i]) == Some(hours)
    {
      assert parts[..i + 1][..i] == parts[..i];
      var v := PyInt(parts[i]);
      if v.None? {
        IntsNoneAfter(parts, i);
        return None;
      }
      hours := hours + [v.value];
    }
    return Some(hours);
  }

  /** A word that is not an integer spoils every longer run of words. */
  lemma IntsNoneAfter(parts: seq<string>, i: nat)
    requires i < HOURS <= |parts| && PyInt(parts[i]).None?
    ensures Ints(parts[..HOURS]).None?
  {
    IntsReadsEach(parts[..HOURS]);
    assert parts[..HOURS][i] == parts[i];
  }

  /** What `parse_line` accepts under a reading, and what it then returns:
      a line of at least 26 words whose year word has two characters, whose
      last word holds the station code and only digits besides it, and whose
      first 24 words are integers; the record holds those 24 integers and
      the date `20YY-MM-DD` of the year word, the zero-filled month word and
      the zero-filled day. */
  lemma ParseWordsOutcome(line: string, code: string, rd: Reading)
    ensures var parts, k := Split(line), YearFromEnd(rd);
      ParseWords(line, code, rd).Some? <==>
        && |parts| >= MIN_WORDS && |parts[|parts| - k]| == 2
        && Contains(parts[|parts| - 1], code) && IsDigits(RemoveAll(parts[|parts| - 1], code))
        && forall i :: 0 <= i < HOURS ==> PyInt(parts[i]).Some?
    ensures var parts, k := Split(line), YearFromEnd(rd);
      ParseWords(line, code, rd).Some? ==>
        var d := ParseWords(line, code, rd).value;
        && |d.hours| == HOURS && (forall i :: 0 <= i < HOURS ==> PyInt(parts[i]) == Some(d.hours[i]))
        && d.date == "20" + parts[|parts| - k] + "-" + ZFill(parts[|parts| - k + 1], 2) + "-" + ZFill(RemoveAll(parts[|parts| - 1], code), 2)
  {
    var parts := Split(line);
    if |parts| >= MIN_WORDS {
      IntsReadsEach(parts[..HOURS]);
      forall i | 0 <= i < HOURS
        ensures parts[..HOURS][i] == parts[i]
      {
      }
    }
  }

  /** `parse_line` as written accepts a line of at least 26 words whose
      fourth word from the end has two characters, whose last word holds the
      code and digits, and whose first 24 words are integers; the date is
      `"20"` and that word, then the zero-filled third word from the end,
      then the zero-filled day. */
  lemma ParseTokensOutcome(line: string, code: string)
    ensures var parts := Split(line);
      ParseTokens(line, code).Some? <==>
        && |parts| >= MIN_WORDS && |parts[|parts| - 4]| == 2
        && Contains(parts[|parts| - 1], code) && IsDigits(RemoveAll(parts[|parts| - 1], code))
        && forall i :: 0 <= i < HOURS ==> PyInt(parts[i]).Some?
    ensures var parts := Split(line);
      ParseTokens(line, code).Some? ==>
        var d := ParseTokens(line, code).value;
        && |d.hours| == HOURS && (forall i :: 0 <= i < HOURS ==> PyInt(parts[i]) == Some(d.hours[i]))
        && d.date == "20" + parts[|parts| - 4] + "-" + ZFill(parts[|parts| - 3], 2) + "-" + ZFill(RemoveAll(parts[|parts| - 1], code), 2)
  {
    assert YearFromEnd(AsWritten) == 4;
    assert ParseTokens(line, code) == ParseWords(line, code, AsWritten);
    ParseWordsOutcome(line, code, AsWritten);
  }

  /** The corrected reading accepts the same lines with the year word third
      from the end, and dates them with the third and second words. */
  lemma ParseTokensFixedOutcome(line: string, code: string)
    ensures var parts := Split(line);
      ParseTokensFixed(line, code).Some? <==>
        && |parts| >= MIN_WORDS && |parts[|parts| - 3]| == 2
        && Contains(parts[|parts| - 1], code) && IsDigits(RemoveAll(parts[|parts| - 1], code))
        && forall i :: 0 <= i < HOURS ==> PyInt(parts[i]).Some?
    ensures var parts := Split(line);
      ParseTokensFixed(line, code).Some? ==>
        var d := ParseTokensFixed(line, code).value;
        && |d.hours| == HOURS && (forall i :: 0 <= i < HOURS ==> PyInt(parts[i]) == Some(d.hours[i]))
        && d.date == "20" + parts[|parts| - 3] + "-" + ZFill(parts[|parts| - 2], 2) + "-" + ZFill(RemoveAll(parts[|parts| - 1], code), 2)
  {
    assert YearFromEnd(Corrected) == 3;
    assert ParseTokensFixed(line, code) == ParseWords(line, code, Corrected);
    ParseWordsOutcome(line, code, Corrected);
  }

  /** The words of a table line: the heights, the year, the month, and the
      day with the station code after it. */
  function TableWords(hs: seq<int>, yy: string, mm: string, dd: string, code: string): seq<string> {
    HeightWords(hs) + [yy, mm, dd + code]
  }

  /** Each height in decimal notation. */
  function HeightWords(hs: seq<int>): seq<string> {
    seq(|hs|, i requires 0 <= i < |hs| => IntToString(hs[i]))
  }

  /** A table line with one blank between words. */
  function TableLine(hs: seq<int>, yy: string, mm: string, dd: string, code: string): string {
    JoinWords(TableWords(hs, yy, mm, dd, code))
  }

  /** The conditions under which a table line is written the way `parse_line`
      expects: 24 heights, a two-digit year, digit strings for month and day,
      and a station code that has no blank and does not begin with a digit. */
  predicate WellFormed(hs: seq<int>, yy: string, mm: string, dd: string, code: string) {
    && |hs| == HOURS && |yy| == 2 && IsDigits(yy) && IsDigits(mm) && IsDigits(dd)
    && code != [] && NoSpace(code) && !IsDigit(code[0])
  }

  lemma IntToStringWord(i: int)
    ensures IntToString(i) != [] && NoSpace(IntToString(i))
  {
    var s := IntToString(i);
    forall k | 0 <= k < |s|
      ensures !IsSpace(s[k])
    {
      if i < 0 && k == 0 {
        assert s[k] == '-';
      } else {
        var d := NatToString(if i < 0 then -i else i);
        assert s[k] == d[if i < 0 then k - 1 else k];
      }
    }
  }

  /** A table line splits back into its words. */
  lemma SplitTableLine(hs: seq<int>, yy: string, mm: string, dd: string, code: string)
    requires WellFormed(hs, yy, mm, dd, code)
    ensures Split(TableLine(hs, yy, mm, dd, code)) == TableWords(hs, yy, mm, dd, code)
  {
    var ws := TableWords(hs, yy, mm, dd, code);
    forall k | 0 <= k < |ws|
      ensures ws[k] != [] && NoSpace(ws[k])
    {
      if k < |hs| {
        IntToStringWord(hs[k]);
      } else {
        DigitsNoSpace(yy);
        DigitsNoSpace(mm);
        DigitsNoSpace(dd);
        assert ws[|hs| + 2] == dd + code;
      }
    }
    SplitJoinWords(ws);
  }

  lemma DigitsNoSpace(d: string)
    requires AllDigitChars(d)
    ensures NoSpace(d)
  {
    forall k | 0 <= k < |d|
      ensures !IsSpace(d[k])
    {
      DigitNotSpace(d[k]);
    }
  }

  /** The heights of a table line read back as integers. */
  lemma {:induction false} IntsOfHeights(hs: seq<int>)
    ensures Ints(HeightWords(hs)) == Some(hs)
  {
    if hs != [] {
      var init, h := hs[..|hs| - 1], hs[|hs| - 1];
      assert init + [h] == hs;
      IntsOfHeights(init);
      assert HeightWords(hs)[..|hs| - 1] == HeightWords(init);
      PyIntOfIntToString(h);
    }
  }

  /** With the year and month taken where a table line has them, every table
      line reads back: the date `20YY-MM-DD` of its fields and its heights. */
  lemma ParseTokensFixedReadsTable(hs: seq<int>, yy: string, mm: string, dd: string, code: string)
    requires WellFormed(hs, yy, mm, dd, code)
    ensures ParseTokensFixed(TableLine(hs, yy, mm, dd, code), code)
            == Some(Day("20" + yy + "-" + ZFill(mm, 2) + "-" + ZFill(dd, 2), hs))
  {
    var parts := TableWords(hs, yy, mm, dd, code);
    SplitTableLine(hs, yy, mm, dd, code);
    RemoveAllAfterDigits(dd, code);
    assert parts[..HOURS] == HeightWords(hs);
    IntsOfHeights(hs);
  }

  /** As written, the same table line is read with the last height as its
      year and its year as the month: a last height of other than two
      characters loses the line, and otherwise the date is wrong. */
  lemma ParseTokensMisreadsTable(hs: seq<int>, yy: string, mm: string, dd: string, code: string)
    requires WellFormed(hs, yy, mm, dd, code)
    ensures ParseTokens(TableLine(hs, yy, mm, dd, code), code)
            == if |IntToString(hs[HOURS - 1])| != 2 then None
               else Some(Day("20" + IntToString(hs[HOURS - 1]) + "-" + ZFill(yy, 2) + "-" + ZFill(dd, 2), hs))
  {
    var parts := TableWords(hs, yy, mm, dd, code);
    SplitTableLine(hs, yy, mm, dd, code);
    RemoveAllAfterDigits(dd, code);
    assert parts[..HOURS] == HeightWords(hs);
    IntsOfHeights(hs);
  }

  /** The line of the source's own example, `... 19 26 1 5TK`: read as
      written it is dated 2019-26-05, where the table means 2026-01-05. */
  lemma ParseTokensExample(hs: seq<int>)
    requires |hs| == HOURS && hs[HOURS - 1] == 19
    ensures ParseTokens(TableLine(hs, "26", "1", "5", "TK"), "TK") == Some(Day("2019-26-05", hs))
    ensures ParseTokensFixed(TableLine(hs, "26", "1", "5", "TK"), "TK") == Some(Day("2026-01-05", hs))
  {
    assert WellFormed(hs, "26", "1", "5", "TK");
    ParseTokensMisreadsTable(hs, "26", "1", "5", "TK");
    ParseTokensFixedReadsTable(hs, "26", "1", "5", "TK");
    ExampleWords();
  }

  lemma ExampleWords()
    ensures IntToString(19) == "19" && ZFill("26", 2) == "26"
    ensures ZFill("1", 2) == "01" && ZFill("5", 2) == "05"
    ensures "20" + "19" + "-" + "26" + "-" + "05" == "2019-26-05"
    ensures "20" + "26" + "-" + "01" + "-" + "05" == "2026-01-05"
  {
    NineteenText();
    ZeroFilled('1');
    ZeroFilled('5');
  }

  lemma NineteenText()
    ensures IntToString(19) == "19"
  {
    assert NatToString(1) == "1";
    assert NatToString(19) == NatToString(1) + "9";
  }

  lemma ZeroFilled(c: char)
    requires IsDigit(c)
    ensures ZFill([c], 2) == ['0', c]
  {
    assert Repeat('0', 1) == "0";
  }

  /** What each line of a station's table reads as under a reading, in order. */
  function ReadAll(lines: seq<string>, code: string, rd: Reading): (rs: seq<Option<Day>>)
    ensures |rs| == |lines|
  {
    seq(|lines|, i requires 0 <= i < |lines| => ParseWords(lines[i], code, rd))
  }

  /** The days read, gathered under their dates, a later day for the same date
      replacing an earlier one. */
  function Merge(rs: seq<Option<Day>>): map<string, seq<int>> {
    if rs == [] then map[]
    else
      var days := Merge(rs[..|rs| - 1]);
      var last := rs[|rs| - 1];
      if last.None? then days else days[last.value.date := last.value.hours]
  }

  /** The days of a station: for each line that reads, its heights under its
      date. */
  function Collected(lines: seq<string>, code: string, rd: Reading): map<string, seq<int>> {
    Merge(ReadAll(lines, code, rd))
  }

  /** The loop of `main` over the lines of one station's table. */
  method CollectDays(lines: seq<string>, code: string, rd: Reading) returns (days: map<string, seq<int>>)
    ensures days == Collected(lines, code, rd)
  {
    days := map[];
    ghost var rs := ReadAll(lines, code, rd);
    for n := 0 to |lines|
      invariant days == Merge(rs[..n])
    {
      assert rs[..n + 1][..n] == rs[..n];
      var parsed := ParseLine(lines[n], code, rd);
      assert rs[..n + 1][n] == parsed;
      if parsed.Some? {
        days := days[parsed.value.date := parsed.value.hours];
      }
    }
    assert rs[..|lines|] == rs;
  }

  /** A date is kept exactly when some day read has that date. */
  lemma {:induction false} MergedDates(rs: seq<Option<Day>>, date: string)
    ensures date in Merge(rs) <==> exists i :: 0 <= i < |rs| && rs[i].Some? && rs[i].value.date == date
  {
    if rs != [] {
      var init := rs[..|rs| - 1];
      MergedDates(init, date);
      if exists i :: 0 <= i < |init| && init[i].Some? && init[i].value.date == date {
        var i :| 0 <= i < |init| && init[i].Some? && init[i].value.date == date;
        assert rs[i] == init[i];
      }
      if exists i :: 0 <= i < |rs| && rs[i].Some? && rs[i].value.date == date {
        var i :| 0 <= i < |rs| && rs[i].Some? && rs[i].value.date == date;
        if i < |init| {
          assert init[i] == rs[i];
        }
      }
    }
  }

  /** The heights kept for a date are those of the last day read with that
      date. */
  lemma {:induction false} MergedLatest(rs: seq<Option<Day>>, i: nat)
    requires i < |rs| && rs[i].Some?
    requires forall j :: i < j < |rs| && rs[j].Some? ==> rs[j].value.date != rs[i].value.date
    ensures rs[i].value.date in Merge(rs) && Merge(rs)[rs[i].value.date] == rs[i].value.hours
  {
    var init := rs[..|rs| - 1];
    if i < |rs| - 1 {
      forall j | i < j < |init| && init[j].Some?
        ensures init[j].value.date != init[i].value.date
      {
        assert init[j] == rs[j];
      }
      assert init[i] == rs[i];
      MergedLatest(init, i);
    }
  }
}
