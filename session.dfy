/** The page's state (`currentState` in script.js) and the handlers that
    change it: choosing a station, loading its tide table once, stepping the
    selected day within 2026, and what is drawn for the selected day. Also
    the two list helpers of the start-up code: the ordered list of
    prefectures and the label of a station in the station list.

    A station's `pref` is the empty string where the station list has no
    prefecture (JavaScript's falsy `pref`). Loading a tide table is a
    network fetch; here its result is a parameter, consulted only when the
    page actually fetches. */
module Session {
  import opened Options
  import opened Text
  import opened Calendar
  import opened Sorting
  import opened TideCurve
  import opened TidePhase

  datatype Station = Station(code: string, name: string, pref: string)

  /** One day of a station's tide table: the date `YYYY-MM-DD` and 24
      hourly heights in centimetres, `None` where the table has none. */
  datatype DayEntry = DayEntry(date: string, hourly: seq<Option<int>>)

  /** What a fetch of a station's tide table gives. */
  datatype LoadOutcome = Loaded(days: seq<DayEntry>) | LoadFailed

  /** What is drawn below the tide-type label. */
  datatype Body =
    | Blank                                   // no table loaded
    | DayMissing                              // the table has no such day
    | Chart(times: seq<string>, heights: seq<Option<real>>, peaks: seq<Peak>)

  /** The drawing for the selected day `date`, with its tide-type label. */
  datatype View = View(date: string, body: Body)
  {
    /** The text of the tide-type label above the chart. */
    function TideText(): string {
      TideTypeText(date)
    }
  }

  datatype Outcome = Shown(view: View) | LoadError

  /** The index of the first element satisfying `p`, as `find` and
      `findIndex` search. */
  function First<T>(s: seq<T>, p: T -> bool): (r: Option<nat>)
    ensures r.Some? ==> r.value < |s| && p(s[r.value])
                        && forall j :: 0 <= j < r.value ==> !p(s[j])
    ensures r.None? ==> forall j :: 0 <= j < |s| ==> !p(s[j])
  {
    if s == [] then None
    else if p(s[0]) then Some(0)
    else match First(s[1..], p)
      case None => None
      case Some(k) => Some(k + 1)
  }

  /** Centimetres to metres, a missing hour staying missing. */
  function ToMetres(hourly: seq<Option<int>>): (r: seq<Option<real>>)
    ensures |r| == |hourly|
    ensures forall i :: 0 <= i < |r| ==> (r[i].Some? <==> hourly[i].Some?)
    ensures forall i :: 0 <= i < |r| && r[i].Some? ==> r[i].value * 100.0 == hourly[i].value as real
  {
    if hourly == [] then []
    else
      [if hourly[0].Some? then Some(hourly[0].value as real / 100.0) else None]
      + ToMetres(hourly[1..])
  }

  /** The label of hour `i` of the day `dateStr`: `YYYY-MM-DDTHH:00`. */
  function HourLabel(dateStr: string, i: nat): string
    requires i < 100
  {
    dateStr + "T" + Pad2(i) + ":00"
  }

  /** The 24 hour labels of the day `dateStr`. */
  function HourLabels(dateStr: string): seq<string> {
    seq(LABELS, i requires 0 <= i < LABELS => HourLabel(dateStr, i))
  }

  /** What `renderCurrentData` draws for the day `dateStr` from the loaded
      table: nothing without a table, an error without an entry for the
      day, and otherwise the first entry for the day in metres, with the
      24 hour labels and the turning points found in it. */
  function DayBody(dateStr: string, loaded: Option<seq<DayEntry>>): (r: Body)
    ensures r.Blank? <==> loaded.None?
    ensures r.DayMissing? <==> loaded.Some? && forall j :: 0 <= j < |loaded.value| ==> loaded.value[j].date != dateStr
    ensures r.Chart? ==> exists j :: 0 <= j < |loaded.value| && loaded.value[j].date == dateStr
                                     && r.heights == ToMetres(loaded.value[j].hourly)
                                     && forall k :: 0 <= k < j ==> loaded.value[k].date != dateStr
    ensures r.Chart? ==> |r.times| == LABELS && r.peaks == Peaks(r.heights)
  {
    if loaded.None? then Blank
    else
      match First(loaded.value, (d: DayEntry) => d.date == dateStr)
      case None => DayMissing
      case Some(j) =>
        var heights := ToMetres(loaded.value[j].hourly);
        Chart(HourLabels(dateStr), heights, Peaks(heights))
  }

  /** The day `days` days after the date `s`, or `None` when `s` is not a
      date or that day is not in 2026. */
  function StepDay(s: string, days: int): (r: Option<Date>)
    ensures r.Some? ==> Valid(r.value) && r.value.year == 2026
  {
    match ParseIso(s)
    case None => None
    case Some(dt) =>
      var n := DayNumber(dt) + days;
      if YearOf(n) != 2026 then None else Some(FromDayNumber(n))
  }

  /** That day written `YYYY-MM-DD`, as `changeDate` stores it. */
  function StepDate(s: string, days: int): Option<string> {
    match StepDay(s, days)
    case None => None
    case Some(next) => Some(FormatIso(next))
  }

  /** The steps of `changeDate` on a date string: read it as a date, move
      the day number, refuse a year other than 2026 and write it back. */
  method NextDate(s: string, days: int) returns (next: Option<string>)
    ensures next == StepDate(s, days)
  {
    var parsed := ParseIso(s);
    if parsed.None? {
      return None;
    }
    var n := DayNumber(parsed.value) + days;
    if YearOf(n) != 2026 {
      return None;
    }
    next := Some(FormatIso(FromDayNumber(n)));
  }

  /** Stepping moves a date by exactly `days` days and stays in 2026; it is
      refused exactly for a non-date and for a day outside 2026. */
  lemma StepDayMoves(s: string, days: int)
    ensures StepDay(s, days).None? <==>
              ParseIso(s).None? || YearOf(DayNumber(ParseIso(s).value) + days) != 2026
    ensures StepDay(s, days).Some? ==>
              DayNumber(StepDay(s, days).value) == DayNumber(ParseIso(s).value) + days
  {
  }

  /** The stored text reads back as the day stepped to. */
  lemma StepDateReadsBack(s: string, days: int)
    ensures StepDate(s, days).None? <==> StepDay(s, days).None?
    ensures StepDate(s, days).Some? ==> ParseIso(StepDate(s, days).value) == StepDay(s, days)
  {
    if StepDay(s, days).Some? {
      ParseFormatIso(StepDay(s, days).value);
    }
  }

  /** The day shown when the page opens. The clock reads `utcMinute`
      minutes after 1970-01-01T00:00Z and the browser's zone is `offset`
      minutes ahead of UTC (540 in Japan). The test reads the local year but
      the text written is the UTC date; when the local year is not 2026 the
      page opens on 2026-01-01. */
  function InitialDate(utcMinute: int, offset: int): (r: string)
    requires -1440 < offset < 1440
    ensures ParseIso(r).Some?
    ensures YearOf(LocalDay(utcMinute, offset)) == 2026 ==>
              ParseIso(r).value == FromDayNumber(LocalDay(utcMinute, 0))
    ensures YearOf(LocalDay(utcMinute, offset)) != 2026 ==> ParseIso(r).value == Date(2026, 1, 1)
    ensures 0 <= offset ==> ParseIso(r).value.year == 2026 || ParseIso(r).value == Date(2025, 12, 31)
  {
    if YearOf(LocalDay(utcMinute, offset)) == 2026 then
      UtcDateNear(utcMinute, offset);
      ParseFormatIso(FromDayNumber(LocalDay(utcMinute, 0)));
      FormatIso(FromDayNumber(LocalDay(utcMinute, 0)))
    else
      NewYear();
      "2026-01-01"
  }

  /** While the local year is 2026 the UTC date lies in 2025, 2026 or 2027,
      and east of UTC it is a day of 2026 or 2025-12-31. */
  lemma UtcDateNear(utcMinute: int, offset: int)
    requires -1440 < offset < 1440 && YearOf(LocalDay(utcMinute, offset)) == 2026
    ensures 2025 <= FromDayNumber(LocalDay(utcMinute, 0)).year <= 2027
    ensures 0 <= offset ==>
              FromDayNumber(LocalDay(utcMinute, 0)).year == 2026 || FromDayNumber(LocalDay(utcMinute, 0)) == Date(2025, 12, 31)
  {
    ZoneDayNear(utcMinute, offset);
    NextTo2026(LocalDay(utcMinute, offset), LocalDay(utcMinute, 0));
  }

  /** Opened at 03:00 on 2026-01-01 in Japan, which is 18:00 on 2025-12-31
      in UTC, the page shows 2025-12-31. */
  lemma OpenedBeforeNine()
    ensures ParseIso(InitialDate(20453 * 1440 + 1080, 540)) == Some(Date(2025, 12, 31))
  {
    var u := 20453 * 1440 + 1080;
    assert LocalDay(u, 540) == DaysBeforeYear(2026);
    assert LocalDay(u, 0) == DaysBeforeYear(2026) - 1;
    YearLength(2025);
    YearLength(2026);
    YearUnique(LocalDay(u, 540), YearOf(LocalDay(u, 540)), 2026);
    YearUnique(LocalDay(u, 0), YearOf(LocalDay(u, 0)), 2025);
    LastDayOfYear(2025, LocalDay(u, 0));
  }

  lemma NewYear()
    ensures ParseIso("2026-01-01") == Some(Date(2026, 1, 1))
  {
  }

  /** `currentState`, without the chart object. */
  class Page {
    var location: Option<Station>
    var date: string
    var loadedData: Option<seq<DayEntry>>
    var lastLoadedCode: Option<string>
    var allStations: seq<Station>

    /** A table is loaded exactly when the code it was loaded for is
        recorded, and only ever for a chosen station. */
    ghost predicate Valid()
      reads this
    {
      && (loadedData.Some? <==> lastLoadedCode.Some?)
      && (loadedData.Some? ==> location.Some?)
    }

    /** The page after start-up has read the station list. */
    constructor(stations: seq<Station>, utcMinute: int, offset: int)
      requires -1440 < offset < 1440
      ensures Valid()
      ensures location == None && loadedData == None && lastLoadedCode == None
      ensures date == InitialDate(utcMinute, offset) && allStations == stations
    {
      location := None;
      date := InitialDate(utcMinute, offset);
      loadedData := None;
      lastLoadedCode := None;
      allStations := stations;
    }

    /** `renderCurrentData`: the tide-type label of the selected day, always
        updated, and the drawing for it. */
    function Current(): View
      reads this
    {
      View(date, DayBody(date, loadedData))
    }

    /** `fetchAndRender`: with no station chosen only the tide type is
        updated; a table is fetched only when the chosen station is not the
        one last loaded, and a failed fetch changes nothing. */
    method FetchAndRender(outcome: LoadOutcome) returns (r: Outcome)
      requires Valid()
      modifies this
      ensures Valid()
      ensures location == old(location) && date == old(date) && allStations == old(allStations)
      ensures old(location).None? ==>
                loadedData == old(loadedData) && lastLoadedCode == old(lastLoadedCode)
                && r == Shown(View(date, Blank))
      ensures old(location).Some? && old(lastLoadedCode) == Some(old(location).value.code) ==>
                loadedData == old(loadedData) && lastLoadedCode == old(lastLoadedCode)
                && r == Shown(Current())
      ensures old(location).Some? && old(lastLoadedCode) != Some(old(location).value.code) ==>
                if outcome.Loaded? then
                  loadedData == Some(outcome.days) && lastLoadedCode == Some(old(location).value.code)
                  && r == Shown(Current())
                else
                  loadedData == old(loadedData) && lastLoadedCode == old(lastLoadedCode)
                  && r == LoadError
    {
      if location.None? {
        r := Shown(View(date, Blank));
        return;
      }
      var code := location.value.code;
      if lastLoadedCode != Some(code) {
        if outcome.LoadFailed? {
          r := LoadError;
          return;
        }
        loadedData := Some(outcome.days);
        lastLoadedCode := Some(code);
      }
      r := Shown(Current());
    }

    /** `handleLocationChange`: an empty selection or an unknown code does
        nothing; otherwise the first station with the code becomes the
        chosen one and is fetched and drawn. */
    method HandleLocationChange(code: string, outcome: LoadOutcome) returns (r: Option<Outcome>)
      requires Valid()
      modifies this
      ensures Valid()
      ensures date == old(date) && allStations == old(allStations)
      ensures code == "" || First(allStations, (st: Station) => st.code == code).None? ==>
                r == None && location == old(location)
                && loadedData == old(loadedData) && lastLoadedCode == old(lastLoadedCode)
      ensures code != "" && First(allStations, (st: Station) => st.code == code).Some? ==>
                var st := allStations[First(allStations, (st: Station) => st.code == code).value];
                && location == Some(st) && r.Some?
                && (old(lastLoadedCode) == Some(code) || outcome.Loaded? ==> r.value == Shown(Current()))
                && (old(lastLoadedCode) == Some(code) ==>
                      loadedData == old(loadedData) && lastLoadedCode == old(lastLoadedCode))
                && (old(lastLoadedCode) != Some(code) && outcome.Loaded? ==>
                      loadedData == Some(outcome.days) && lastLoadedCode == Some(code))
                && (old(lastLoadedCode) != Some(code) && outcome.LoadFailed? ==>
                      r.value == LoadError && loadedData == old(loadedData)
                      && lastLoadedCode == old(lastLoadedCode))
    {
      if code == "" {
        return None;
      }
      var k := First(allStations, (st: Station) => st.code == code);
      if k.None? {
        return None;
      }
      location := Some(allStations[k.value]);
      var shown := FetchAndRender(outcome);
      r := Some(shown);
    }

    /** `changeDate`: the selected day moves by `days` days and is drawn,
        unless it is not a date or the new day falls outside 2026. */
    method ChangeDate(days: int) returns (r: Option<View>)
      requires Valid()
      modifies this
      ensures Valid()
      ensures location == old(location) && loadedData == old(loadedData)
      ensures lastLoadedCode == old(lastLoadedCode) && allStations == old(allStations)
      ensures date == StepDate(old(date), days).GetOr(old(date))
      ensures r == if StepDate(old(date), days).None? then None else Some(Current())
    {
      var next := NextDate(date, days);
      if next.None? {
        return None;
      }
      date := next.value;
      r := Some(Current());
    }
  }

  /** The ordered prefectures, north to south, with "その他" (other) last. */
  const PREFECTURE_ORDER: seq<string> := [
    "北海道", "青森", "岩手", "宮城", "秋田", "山形", "福島",
    "茨城", "栃木", "群馬", "埼玉", "千葉", "東京", "神奈川",
    "新潟", "富山", "石川", "福井", "山梨", "長野", "岐阜", "静岡", "愛知",
    "三重", "滋賀", "京都", "大阪", "兵庫", "奈良", "和歌山",
    "鳥取", "島根", "岡山", "広島", "山口",
    "徳島", "香川", "愛媛", "高知",
    "福岡", "佐賀", "長崎", "熊本", "大分", "宮崎", "鹿児島", "沖縄",
    "その他"
  ]

  /** A prefecture's place in the order, 999 for one not in it. */
  function Rank(p: string): (r: nat)
    ensures r == 999 <==> p !in PREFECTURE_ORDER
    ensures r != 999 ==> r < |PREFECTURE_ORDER| && PREFECTURE_ORDER[r] == p
  {
    match First(PREFECTURE_ORDER, (q: string) => q == p)
    case None => 999
    case Some(k) => k
  }

  /** The comparator of the prefecture sort, as "sorts no later than". */
  function RankLe(a: string, b: string): bool {
    Rank(a) <= Rank(b)
  }

  /** The prefecture a station is listed under. */
  function PrefKey(st: Station): string {
    if st.pref == "" then "その他" else st.pref
  }

  function PrefKeys(stations: seq<Station>): (r: seq<string>)
    ensures |r| == |stations|
    ensures forall i :: 0 <= i < |r| ==> r[i] == PrefKey(stations[i])
  {
    if stations == [] then [] else [PrefKey(stations[0])] + PrefKeys(stations[1..])
  }

  /** `[...new Set(s)]`: each value once, at its first occurrence. */
  function Distinct(s: seq<string>): (r: seq<string>)
    ensures NoDuplicates(r)
    ensures forall x :: x in r <==> x in s
  {
    if s == [] then []
    else
      var d := Distinct(s[..|s| - 1]);
      if s[|s| - 1] in d then d else d + [s[|s| - 1]]
  }

  /** `a` occurs in `s` before `b` first does. */
  predicate SeenBefore(s: seq<string>, a: string, b: string) {
    exists p :: 0 <= p < |s| && s[p] == a && b !in s[..p + 1]
  }

  /** `new Set` keeps the order of first insertion: of two values listed,
      the earlier one occurs in `s` before the later one first does. */
  lemma {:induction false} DistinctFirstSeen(s: seq<string>)
    ensures forall i, j :: 0 <= i < j < |Distinct(s)| ==> SeenBefore(s, Distinct(s)[i], Distinct(s)[j])
  {
    if s != [] {
      var init := s[..|s| - 1];
      var x := s[|s| - 1];
      var d := Distinct(init);
      var r := Distinct(s);
      assert r == if x in d then d else d + [x];
      DistinctFirstSeen(init);
      forall i, j | 0 <= i < j < |r|
        ensures SeenBefore(s, r[i], r[j])
      {
        assert r[i] == d[i] && d[i] in init;
        if j < |d| {
          assert r[j] == d[j];
          assert SeenBefore(init, d[i], d[j]);
          var p :| 0 <= p < |init| && init[p] == d[i] && d[j] !in init[..p + 1];
          assert s[..p + 1] == init[..p + 1];
          assert s[p] == r[i];
        } else {
          assert r[j] == x && x !in init;
          var p :| 0 <= p < |init| && init[p] == r[i];
          assert s[..p + 1] == init[..p + 1];
          assert s[p] == r[i];
        }
      }
    }
  }

  /** A list that holds each value once is its own de-duplication. */
  lemma {:induction false} DistinctOfNoDuplicates(s: seq<string>)
    requires NoDuplicates(s)
    ensures Distinct(s) == s
  {
    if s != [] {
      var p := s[..|s| - 1];
      assert NoDuplicates(p);
      DistinctOfNoDuplicates(p);
      assert s == p + [s[|s| - 1]];
    }
  }

  /** The prefecture list of the start-up code. */
  function Prefectures(stations: seq<Station>): seq<string> {
    SortBy(Distinct(PrefKeys(stations)), RankLe)
  }

  lemma RankTotal()
    ensures TotalPreorder(RankLe)
  {
  }

  /** The prefecture list names each station's prefecture once and nothing
      else, in the north-to-south order with the unknown ones last. */
  lemma PrefecturesListed(stations: seq<Station>)
    ensures NoDuplicates(Prefectures(stations))
    ensures forall x :: x in Prefectures(stations) <==> exists st :: st in stations && PrefKey(st) == x
    ensures forall i, j :: 0 <= i < j < |Prefectures(stations)| ==>
              Rank(Prefectures(stations)[i]) <= Rank(Prefectures(stations)[j])
  {
    var keys := PrefKeys(stations);
    var d := Distinct(keys);
    var r := Prefectures(stations);
    RankTotal();
    SortBySorted(d, RankLe);
    SortByPermutation(d, RankLe);
    PermutationKeepsDistinct(d, r);
    forall x
      ensures x in r <==> exists st :: st in stations && PrefKey(st) == x
    {
      PrefKeysMembers(stations, x);
    }
  }

  /** A prefecture is among the keys exactly when some station is listed under it. */
  lemma PrefKeysMembers(stations: seq<Station>, x: string)
    ensures x in PrefKeys(stations) <==> exists st :: st in stations && PrefKey(st) == x
  {
    var keys := PrefKeys(stations);
    if x in keys {
      var i :| 0 <= i < |keys| && keys[i] == x;
      assert stations[i] in stations;
    }
    if st :| st in stations && PrefKey(st) == x {
      var i :| 0 <= i < |stations| && stations[i] == st;
      assert keys[i] == x;
    }
  }

  /** Prefectures outside the order all rank 999, and the stable sort keeps
      them in the order in which they first appear among the stations. */
  lemma UnknownPrefecturesKeepOrder(stations: seq<Station>, x: string)
    requires x !in PREFECTURE_ORDER
    ensures Peers(Prefectures(stations), x, RankLe) == Peers(Distinct(PrefKeys(stations)), x, RankLe)
  {
    RankTotal();
    SortByStable(Distinct(PrefKeys(stations)), x, RankLe);
  }

  /** The text of a station in the station list: its prefecture and " > "
      before its name, when prefixes are shown and the prefecture is known. */
  function StationLabel(st: Station, showPref: bool): (r: string)
    ensures |r| >= |st.name| && r[|r| - |st.name|..] == st.name
    ensures |r| > |st.name| <==> showPref && st.pref != "" && st.pref != "不明"
    ensures |r| > |st.name| ==> r[..|r| - |st.name|] == st.pref + " > "
  {
    (if showPref && st.pref != "" && st.pref != "不明" then st.pref + " > " else "") + st.name
  }
}
