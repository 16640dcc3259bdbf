# Tide table page and JMA converters — a Dafny model

The repository is a static web page that shows the hourly tide curve of a
Japanese tide station for one day of 2026. It also ships Python tools that
build the data the page reads from the Japan Meteorological Agency's (JMA)
published tide tables. This project models and proves the following parts.

- **The page (script.js).**
  - The page state `currentState` and the handlers that change it:
    - `handleLocationChange` chooses a station;
    - `fetchAndRender` loads a station's table only when the station changed;
    - `changeDate` steps the selected day within 2026.
  - `renderCurrentData`: finding the selected day and converting centimetres to metres.
  - The tide type and weekday of `updateTideType`: the moon's age since the new moon of 2026-01-18 and the table of age ranges.
  - The detector of high and low water (`findPeaks`, `formatTime`).
  - The ordering of prefectures and the station-list label of the start-up code.
- **tools/parse_jma_txt.py.** `parse_line` for the fixed-width JMA line. It also covers the regular-expression fallback used when the date columns have shifted.
- **tools/fetch_jma_data.py.** `parse_line` for the whitespace-separated JMA line, and the loop of `main` that gathers one station's days into a dict.
- **tools/batch_update.py.**
  - The station-to-prefecture map `REGION_MAP` and `get_pref_for_code`.
  - The stage of `scrape_stations` that keeps the scraped (code, name) pairs, removes repeated codes in a dict and sorts by (prefecture, name).

Modules, one per file:

| file | module | what it holds |
|---|---|---|
| options.dfy | `Options` | `Option` |
| text.dfy | `Text` | the Python and JavaScript string operations the core uses: `strip`, `rjust`, `ljust`, `zfill`, `padStart`, `split`, `int()`, `toFixed`, `replace`, string order |
| sorting.dfy | `Sorting` | a stable insertion sort, the specification of Python's `list.sort` and JavaScript's `Array.prototype.sort` |
| calendar.dfy | `Calendar` | proleptic Gregorian day numbers and `YYYY-MM-DD` text, the part of JavaScript's `Date` the page uses |
| tidecurve.dfy | `TideCurve` | `findPeaks` and `formatTime` |
| tidephase.dfy | `TidePhase` | moon age, tide type, weekday mark |
| session.dfy | `Session` | the page state as a class, its handlers, the prefecture order and the station label |
| jmafixedwidth.dfy | `JmaFixedWidth` | `parse_line` of tools/parse_jma_txt.py |
| jmatokens.dfy | `JmaTokens` | `parse_line` and the gathering loop of tools/fetch_jma_data.py |
| stationcatalog.dfy | `StationCatalog` | `REGION_MAP`, `get_pref_for_code` and the selection, deduplication and sort of `scrape_stations` |

Source files that change things step by step are modelled with methods and loops:

- `JmaFixedWidth.ParseLine` reads 24 hours in a loop.
- `JmaTokens.ParseLine` reads the heights in a loop, and `JmaTokens.CollectDays` is the gathering loop.
- `StationCatalog.ScrapeStations` fills the dict in a loop, then sorts.
- `Session.Page` is a class whose methods update its fields.

Each of these is proved equal to a specification function. The properties of that function are proved as lemmas.

## Model

| member | source | states |
|---|---|---|
| Text.NatToString | script.js:585-586 | the decimal text of a natural number has only digits, reads back as the number, has no leading zero, and has one digit exactly below 10 and two exactly from 10 to 99 |
| Text.PadLeft | script.js:585-586 | `padStart`: the result has the target width (or the text's own length if longer) and is fill characters followed by the text |
| Text.LJust | tools/parse_jma_txt.py:14-15 | `ljust` pads with blanks on the right to the width |
| Text.Pad2 | script.js:585-586 | a number below 100 padded to two digits is two digits that read back as the number |
| Text.PadDigitsValue | tools/fetch_jma_data.py:68 | a digit string zero-padded back to its own length after reading is unchanged |
| Text.ZFill | tools/fetch_jma_data.py:68 | `zfill` gives the target width, or the text's own length if longer |
| Text.RoundUnits | script.js:577 | `toFixed` rounds to the nearest unit of the last place: the count lies within half a unit of the value |
| Text.ToFixedReadsBack | script.js:503 | `toFixed(f)` is an optional minus, whole digits, a point and exactly `f` fraction digits, and these digits read back as the rounded magnitude |
| Text.SkipBlanks | tools/parse_jma_txt.py:24-27 | the first non-blank position at or after `i`; everything skipped is whitespace |
| Text.TrimBlanks | tools/parse_jma_txt.py:24-27 | the end of the text once trailing whitespace is dropped; everything dropped is whitespace |
| Text.Strip | tools/batch_update.py:81 | `str.strip()` leaves a text that is empty or begins and ends with a non-whitespace character |
| Text.StripUnpadded | tools/batch_update.py:81 | stripping a text that neither begins nor ends with whitespace changes nothing |
| Text.StripRJust | tools/parse_jma_txt.py:10 | right-justifying then stripping gives back a text that neither begins nor ends with whitespace |
| Text.StripIdempotent | tools/batch_update.py:81 | stripping twice is stripping once |
| Text.StripKeepsDigits | tools/parse_jma_txt.py:42 | stripping keeps every digit: a text with a digit still has one after `strip()` |
| Text.RStripNewlines | tools/parse_jma_txt.py:13 | `rstrip('\r\n')` gives a prefix of the line that does not end with CR or LF |
| Text.PyIntOfDigits | tools/parse_jma_txt.py:48 | `int()` of a digit string is its decimal value |
| Text.PyIntOfNegatedDigits | tools/parse_jma_txt.py:48 | `int()` of a minus followed by digits is the negated value |
| Text.PyIntSign | tools/parse_jma_txt.py:48 | `int()` of digit groups preceded by a minus is the negation of `int()` of the groups; preceded by a plus it is the same value |
| Text.PyIntOfIntToString | tools/fetch_jma_data.py:87 | `int(str(i)) == i` for every integer |
| Text.PyIntNeedsDigit | tools/parse_jma_txt.py:46-49 | `int()` succeeds only on text containing a digit |
| Text.FirstSignedIntFound | tools/parse_jma_txt.py:51-55 | `re.findall(r'-?\d+')` finds a first number exactly when the text has a digit |
| Text.TokenEnd | tools/fetch_jma_data.py:52 | a word ends at the first whitespace or the end of the text, and holds no whitespace |
| Text.SplitParts | tools/fetch_jma_data.py:52 | every word `split()` returns is non-empty and free of whitespace |
| Text.SplitWord | tools/fetch_jma_data.py:52 | splitting a word followed by a blank-led rest gives the word, then the words of the rest |
| Text.SplitJoinWords | tools/fetch_jma_data.py:52 | splitting words joined with single blanks gives back the words |
| Text.RemoveAllAfterDigits | tools/fetch_jma_data.py:74-75 | digits followed by the station code contain the code, and `replace(code, "")` leaves the digits |
| Text.StrLtTotal | tools/batch_update.py:88 | string order is total: two strings are equal or one is less |
| Text.StrLtTransitive | tools/batch_update.py:88 | string order is transitive |
| Sorting.SortBySorted | tools/batch_update.py:88 | under a total preorder, the sort's result is ordered |
| Sorting.SortByPermutation | tools/batch_update.py:88 | the sort's result is a permutation of its input |
| Sorting.SortByStable | script.js:50-55 | the sort is stable: the elements equivalent to any `x` keep their relative order |
| Sorting.PermutationKeepsDistinct | tools/batch_update.py:86-88 | a permutation of a list without repeats has none, and has the same members |
| Calendar.DaysInMonth | script.js:456 | every month has 28 to 31 days; it has 29 exactly in February of a leap year |
| Calendar.YearLength | script.js:456 | a leap year has 366 days, any other year 365 |
| Calendar.MonthsFillYear | script.js:456 | the twelve months together make up the year |
| Calendar.DayNumber | script.js:455 | the day number of a valid date lies within its year |
| Calendar.YearOf | script.js:458 | `getFullYear`: the year whose days contain the day number |
| Calendar.YearUnique | script.js:458 | only one year contains a given day number |
| Calendar.MonthUnique | script.js:456 | only one month of a year contains a given day of the year |
| Calendar.FromDayNumber | script.js:456 | `setDate` overflowing into other months or years: the date built from a day number is valid and has that day number |
| Calendar.FromDayNumberOfDayNumber | script.js:455-456 | the date rebuilt from a valid date's day number is the same date |
| Calendar.Weekday | script.js:507 | `getDay` is in 0 to 6 |
| Calendar.WeekdayStep | script.js:507 | weekdays repeat every 7 days and advance by one each day |
| Calendar.LastDayOfYear | script.js:458-461 | the day before January 1 is December 31 of the year before |
| Calendar.ZoneDayNear | script.js:5-7 | the local date of a zone less than a day from UTC is the UTC date or a neighbouring one; east of UTC it is the UTC date or the next |
| Calendar.NextTo2026 | script.js:5-7 | a day next to a day of 2026 is in 2025, 2026 or 2027, and in 2025 only as December 31 |
| Calendar.FormatIso | script.js:462 | `toISOString().split('T')[0]` is ten characters with dashes at positions 4 and 7 |
| Calendar.ParseIso | script.js:455 | `new Date("YYYY-MM-DD")` gives a valid date with a four-digit year, or no date |
| Calendar.ParseFormatIso | script.js:462 | parsing the text written for a date gives the date back |
| Calendar.FormatParseIso | script.js:455 | writing the date read from a date text gives the text back |
| TideCurve.HighNotLow | script.js:559-560 | no hour is both a high and a low |
| TideCurve.ParabolaFits | script.js:563-565 | the parabola of `a`, `b`, `c` passes through the three hourly heights |
| TideCurve.Curvature | script.js:563 | `a` is negative at a high and positive at a low, so `-b / (2a)` never divides by zero |
| TideCurve.VertexOffsetBounds | script.js:567 | the slope is zero at `xOffset`, which lies strictly within half an hour of the hour and is zero for level neighbours |
| TideCurve.HalfHour | script.js:567 | any zero of the slope at a turning point lies strictly within half an hour |
| TideCurve.VertexLevelBounds | script.js:568 | a high's level is at least the middle height and above both neighbours; a low's is the mirror; for level neighbours it is the middle height |
| TideCurve.VertexIsExtremum | script.js:568 | the level is the parabola's top at a high and its bottom at a low |
| TideCurve.TurnMinuteNear | script.js:570-572 | the reported minute lies within half an hour of hour `i`, in hour `i - 1` or hour `i` |
| TideCurve.FormatTime | script.js:584-588 | `formatTime` gives `HH:MM`: five characters, a colon in the middle, digits around it |
| TideCurve.FormatTimeReadsBack | script.js:584-588 | the hours and minutes of the text give the minute of the day, with hours below 24 and minutes below 60 |
| TideCurve.TurnEntry | script.js:574-578 | the entry is a high exactly when the middle height is above both neighbours, and a low exactly when it is below both |
| TideCurve.PeakAt | script.js:550-579 | hour `i` yields an entry exactly when it and both neighbours have heights and it is a strict turning point, and that entry is its high or low |
| TideCurve.HourEntry | script.js:552-579 | one pass of the loop body computes the entry for hour `i` |
| TideCurve.FindPeaks | script.js:549-582 | the loop over the interior hours returns the specified list of entries |
| TideCurve.PeaksMatchTurns | script.js:549-582 | the `j`-th entry belongs to the `j`-th turning hour, so there are at most `n - 2` entries |
| TideCurve.TurnsAscend | script.js:551 | entries come in strictly increasing hour order, never at the first or last hour |
| TideCurve.TurnsComplete | script.js:549-582 | every interior turning point is reported |
| TideCurve.NoTurn | script.js:557 | a missing height at the hour or a neighbour yields no entry |
| TideCurve.TurnTimeOnTheDay | script.js:570-576 | for hours up to 22 the entry's time is the clock text of a minute in hour `i - 1` or hour `i` of that day |
| TideCurve.SymmetricTurn | script.js:567-577 | with equal neighbours the turn is on the hour and its level is the middle height to two decimals |
| TideCurve.OneHighWater | script.js:549-588 | heights 1, 2, 1 give one high water at 01:00 with level `2.00` |
| TidePhase.AnchorDay | script.js:478 | 2026-01-18 is a valid date and has the anchor day number |
| TidePhase.Trunc | script.js:483 | truncation toward zero: within one below a non-negative value and within one above a negative value |
| TidePhase.JsRem | script.js:483 | JavaScript's `%` keeps the dividend's sign and stays below the divisor in magnitude |
| TidePhase.FloorMod | script.js:483-484 | the flooring remainder is in `[0, p)` |
| TidePhase.MoonAgeIsFloorMod | script.js:476-484 | adding one month to a negative `%` result gives the flooring remainder, and the age lies in `[0, 29.53059)` |
| TidePhase.MoonAgeUnique | script.js:483-484 | the age is the days since the reference new moon minus a whole number of months, for the one count that lands in `[0, 29.53059)` |
| TidePhase.PhasesTileMonth | script.js:488-497 | the ranges of the tide-type table are non-empty and adjacent, and cover the month from 0 to 29.53059 |
| TidePhase.LookupFrom | script.js:488-497 | a row search from row `k` finds a name exactly when some row from `k` on contains the age |
| TidePhase.LookupFindsRow | script.js:488-497 | every age within the month falls in some row |
| TidePhase.TideTypeFollowsTable | script.js:488-499 | the chain of range tests names the tide type of the table row containing the age |
| TidePhase.HalfMonthRepeats | script.js:488-497 | the tide types of the second half of the month repeat those of the first, 14 days later |
| TidePhase.WeekdayMark | script.js:506-514 | an invalid date gets no label and the inherited colour; a valid date gets the label of its `getDay` weekday, red exactly on Sunday, blue exactly on Saturday and the inherited colour on the other days |
| TidePhase.WeekdayMarkWeekly | script.js:506-514 | dates a week apart get the same mark, and the next day gets the next weekday's label |
| TidePhase.AnchorDateType | script.js:471-503 | 2026-01-18 at noon has moon age 29.15559, type 若潮 |
| TidePhase.FullMoonType | script.js:476-497 | fifteen days later the age is 14.625, type 大潮 |
| TidePhase.AnchorWeekday | script.js:506-512 | 2026-01-18 is a Sunday, shown in red |
| TidePhase.InvalidDateType | script.js:472-503 | an impossible date has age NaN and falls through the range tests to 大潮 |
| Session.First | script.js:137 | `find` returns the first element satisfying the test, or none when no element does |
| Session.ToMetres | script.js:198 | each hour keeps or lacks a height as in the table, and a height in metres times 100 is the centimetres |
| Session.DayBody | script.js:180-199 | nothing is drawn with no table loaded; a missing day exactly when no day of the table has the date; otherwise the chart of a day with that date, 24 time labels and its high and low water |
| Session.StepDay | script.js:454-459 | a step that is taken lands on a valid day of 2026 |
| Session.StepDayMoves | script.js:454-459 | a step is refused exactly for a non-date and for a day outside 2026, and otherwise moves by exactly `days` days |
| Session.StepDateReadsBack | script.js:462 | the stored text reads back as the day stepped to |
| Session.NextDate | script.js:454-462 | the date arithmetic of `changeDate` computes the specified next date |
| Session.InitialDate | script.js:5-7 | the day shown at start is a valid date text; when the local year is 2026 it is the UTC date of the clock, otherwise 2026-01-01; in a zone at or east of UTC it is a day of 2026 or 2025-12-31 |
| Session.UtcDateNear | script.js:5-7 | while the local year is 2026 the UTC date is in 2025 to 2027, and east of UTC it is in 2026 or is 2025-12-31 |
| Session.OpenedBeforeNine | script.js:5-7 | opened at 03:00 on 2026-01-01 in Japan, the page shows 2025-12-31 |
| Session.Page.constructor | script.js:3-12 | at start nothing is chosen or loaded and the date is the initial date of the clock and zone |
| Session.Page.FetchAndRender | script.js:148-175 | with no station only the tide type is shown; the chosen station's table is fetched only when it is not the one last loaded; a failed fetch changes nothing; the page invariant is kept |
| Session.Page.HandleLocationChange | script.js:134-143 | an empty or unknown code changes nothing; otherwise the first station with the code is chosen and fetched, with the outcomes of `FetchAndRender` |
| Session.Page.ChangeDate | script.js:454-465 | the date moves by `days` days and is drawn, unless it is not a date or leaves 2026, and nothing else changes |
| Session.Rank | script.js:51-54 | the rank is 999 exactly for a prefecture not in the list; otherwise it is the prefecture's position in the list |
| Session.RankTotal | script.js:50-55 | ordering by rank is a total preorder |
| Session.PrefKeys | script.js:49 | one key per station: its prefecture, or その他 where it has none |
| Session.Distinct | script.js:49 | `[...new Set(...)]` has no repeats and the same members |
| Session.DistinctFirstSeen | script.js:49 | `[...new Set(...)]` lists the members in the order of their first occurrence |
| Session.DistinctOfNoDuplicates | script.js:49 | a list without repeats is its own set |
| Session.PrefecturesListed | script.js:49-55 | the prefecture list has no repeats, holds exactly the stations' keys, and is ordered by rank |
| Session.UnknownPrefecturesKeepOrder | script.js:49-55 | prefectures of equal rank, including the unknown ones, keep their first-seen order |
| Session.StationLabel | script.js:128-129 | the label ends with the name, and is prefixed with `pref > ` exactly when prefixes are shown and the prefecture is neither empty nor 不明 |
| JmaFixedWidth.Normalize | tools/parse_jma_txt.py:9-15 | the reshaped line is at least 80 columns and does not end with a line break |
| JmaFixedWidth.NormalizeKeepsTableLine | tools/parse_jma_txt.py:9-15 | a line of 80 or more columns without a final line break is left as it is |
| JmaFixedWidth.FixedFields | tools/parse_jma_txt.py:20-27 | the heights are 72 columns |
| JmaFixedWidth.SearchFrom | tools/parse_jma_txt.py:33 | the search finds the first position from `k` where the end-anchored pattern matches, or proves there is none |
| JmaFixedWidth.Locate | tools/parse_jma_txt.py:29-38 | the heights text, fixed or recovered, is at least 72 columns |
| JmaFixedWidth.ParseLine | tools/parse_jma_txt.py:7-80 | the loop over the 24 three-column chunks computes the specified record |
| JmaFixedWidth.ReadHourly | tools/parse_jma_txt.py:40-55 | the loop reads each chunk as its integer, as the first signed number in it, or as no value |
| JmaFixedWidth.ChunkValueNeedsDigit | tools/parse_jma_txt.py:42-55 | a chunk gives a height exactly when it holds a digit |
| JmaFixedWidth.ChunkValueOfColumn | tools/parse_jma_txt.py:42-48 | a height from -99 to 999 right-justified in three columns reads back as itself |
| JmaFixedWidth.DateText | tools/parse_jma_txt.py:73 | the date is ten characters with dashes at positions 4 and 7 |
| JmaFixedWidth.ParseOutcome | tools/parse_jma_txt.py:7-80 | a record comes back exactly when the date fields are found and some hour has a height; the record holds `20YY-MM-DD` from those fields, the station and the 24 heights |
| JmaFixedWidth.AssembleOutcome | tools/parse_jma_txt.py:57-80 | with two-digit fields, no record exactly when every hour is empty, else the record of the fields |
| JmaFixedWidth.HourlyOfColumns | tools/parse_jma_txt.py:40-48 | 24 heights written in three columns each are read back hour by hour |
| JmaFixedWidth.ParseTableLine | tools/parse_jma_txt.py:7-80 | a well-formed table line is read back as its date, its station and its 24 heights |
| JmaFixedWidth.MatchUnique | tools/parse_jma_txt.py:33 | the end-anchored pattern matches at one position at most |
| JmaFixedWidth.LocateFallback | tools/parse_jma_txt.py:33-36 | when the date columns hold no date, the fields come from the match and the heights are the text before it, right-justified to 72 |
| JmaFixedWidth.ParseShiftedLine | tools/parse_jma_txt.py:29-80 | a line whose date has shifted left is read from the match: its date, its station and the heights before it |
| JmaTokens.IntsReadsEach | tools/fetch_jma_data.py:86-87 | the heights are read exactly when every word is an integer, one height per word |
| JmaTokens.ParseLine | tools/fetch_jma_data.py:50-94 | under either reading of the year and month positions, the word-count check and the checks of `ReadDay` compute the record that reading specifies |
| JmaTokens.ReadDay | tools/fetch_jma_data.py:62-94 | the year-length, code and day-digit checks and the loop over the first 24 words compute the record `DayFrom` specifies |
| JmaTokens.ReadHours | tools/fetch_jma_data.py:84-87 | the loop reads the first 24 words as integers, and any one that is not an integer gives no record |
| JmaTokens.YearFromEnd | tools/fetch_jma_data.py:62-68 | the year word is fourth from the end as written and third corrected |
| JmaTokens.ParseWordsOutcome | tools/fetch_jma_data.py:50-94 | under either reading, a record comes back exactly when there are 26 words or more, a two-character year word, the code in the last word with digits beside it, and 24 integer heights; it holds those heights and the date `20` + year word, zero-filled month word and day |
| JmaTokens.ParseTokensOutcome | tools/fetch_jma_data.py:50-94 | as written, a record comes back exactly when there are 26 words or more, `parts[-4]` has two characters, the last word holds the code and digits, and the first 24 words are integers; its date is built from `parts[-4]` and `parts[-3]` |
| JmaTokens.ParseTokensFixedOutcome | tools/fetch_jma_data.py:50-94 | a record comes back exactly when there are 26 words or more, a two-character year, the code in the last word with digits beside it, and 24 integer heights; it holds those heights |
| JmaTokens.IntsOfHeights | tools/fetch_jma_data.py:86-87 | the decimal texts of heights read back as the heights |
| JmaTokens.ParseTokensFixedReadsTable | tools/fetch_jma_data.py:50-94 | a well-formed table line is read back as `20YY-MM-DD` and its 24 heights |
| JmaTokens.ParseTokensMisreadsTable | tools/fetch_jma_data.py:62-68 | as written, a table line is read with the last height as the year and the year as the month, or refused when that height is not two characters |
| JmaTokens.ParseTokensExample | tools/fetch_jma_data.py:56 | the line ending `19 26 1 5TK` reads as 2019-26-05 as written and as 2026-01-05 corrected |
| JmaTokens.ReadAll | tools/fetch_jma_data.py:114-115 | one parse result per line, under the chosen reading |
| JmaTokens.CollectDays | tools/fetch_jma_data.py:111-117 | under the chosen reading (`AsWritten` is `main` as it runs), the loop over the lines builds the specified dict from date to heights |
| JmaTokens.MergedDates | tools/fetch_jma_data.py:114-117 | a date is in the dict exactly when some line parsed to a record of that date |
| JmaTokens.MergedLatest | tools/fetch_jma_data.py:117 | a date maps to the heights of the last line with that date |
| StationCatalog.RegionMapWellKeyed | tools/batch_update.py:25-57 | every code of the map is two characters and no prefecture is その他 |
| StationCatalog.PrefForCodeOther | tools/batch_update.py:59-64 | その他 comes back exactly for a code not in the map |
| StationCatalog.PrefForCodeOfOtherLength | tools/batch_update.py:59-64 | a code not two characters long gets その他 |
| StationCatalog.Put | tools/batch_update.py:84 | storing an entry keeps the dict consistent: codes unique, keys matching, each entry under its own code |
| StationCatalog.PutValues | tools/batch_update.py:84-86 | a new code goes to the end of the values; a known code keeps its place and gets the new entry |
| StationCatalog.Values | tools/batch_update.py:86 | one value per code, in insertion order |
| StationCatalog.ValuesMembers | tools/batch_update.py:86 | the values are exactly the dict's entries |
| StationCatalog.ValuesDistinct | tools/batch_update.py:86 | no value is listed twice |
| StationCatalog.Fill | tools/batch_update.py:80-84 | the dict after every store is consistent |
| StationCatalog.FillHoldsLast | tools/batch_update.py:84 | a code maps to its last stored entry |
| StationCatalog.FillHoldsOnly | tools/batch_update.py:84 | every code in the dict was stored |
| StationCatalog.PrefNameTotal | tools/batch_update.py:88 | ordering by (prefecture, name) is a total preorder |
| StationCatalog.ListedSorted | tools/batch_update.py:86-88 | the list is a permutation of the dict's values, ordered by (prefecture, name) |
| StationCatalog.ListedMembers | tools/batch_update.py:84-88 | the list holds exactly the last entry of each code, and no code twice |
| StationCatalog.ScrapeStations | tools/batch_update.py:80-88 | the loop over the pairs and the sort compute the specified list |
| StationCatalog.ScrapedSorted | tools/batch_update.py:80-88 | the stations come out as a permutation of the dict's values, ordered by (prefecture, name) |
| StationCatalog.ScrapedMembers | tools/batch_update.py:80-88 | the stations are exactly the last kept entry of each code, with no code twice |
| StationCatalog.ScrapedFields | tools/batch_update.py:80-84 | every station has a non-empty code, a non-empty name that is not 潮汐表, the prefecture `get_pref_for_code` gives, and comes from a pair with that code and stripped name |
| StationCatalog.ScrapedLast | tools/batch_update.py:80-88 | a kept pair with no later kept pair of the same code is listed |

## Left out

- The network, the DOM, Chart.js, the weather panel, `showError` and timers are not modelled. A table fetch is the `LoadOutcome` parameter of `Session.Page.FetchAndRender`. The clock is two parameters of `Session.Page.constructor`: the minutes since 1970-01-01T00:00Z and the browser zone's offset from UTC in minutes.
- `fetchAndRender` is `async`. The model runs each handler to completion, so interleavings of two overlapping fetches are not modelled.
- At start-up the model follows the source across zones: `getFullYear` reads the local year, while `toISOString` always writes the UTC date. Elsewhere dates are taken in a zone at or east of UTC, such as Japan (UTC+9). In such a zone the UTC midnight that `new Date("YYYY-MM-DD")` gives falls on the same local date, so `getDate`, `setDate` and `getDay` agree with the UTC date. West of UTC these read the day before; that case is not modelled for `changeDate` and the weekday. The hourly labels `YYYY-MM-DDTHH:00` that `findPeaks` reads are local times, so `getHours` gives the label's hour back in any zone. Daylight-saving shifts are not modelled.
- `TidePhase.MoonAge` parses only the strict `YYYY-MM-DD` form. JavaScript's lenient parsing of other strings is not modelled, and every other string is taken as an invalid `Date`. Whether a well-formed but impossible date such as `2026-02-30` is invalid depends on the engine. V8 rolls it over to 2026-03-02, while the model treats it as invalid.
- Heights, ages and offsets are exact reals, not IEEE doubles. `toFixed` is modelled as round-half-up of the exact value. Binary rounding of values such as 29.15559 is not modelled.
- `Text.StrLt` compares code points. JavaScript compares UTF-16 code units, and the two orders differ only for characters outside the Basic Multilingual Plane.
- Python's `isdigit`, `int()` and `\d` also accept non-ASCII digits; here only `0`–`9` are digits.
- The regular-expression scan of the station page for `suisan.php?stn=..` links is not modelled. `StationCatalog.ScrapeStations` takes the matched (code, name) pairs as input.
- Downloading, file reading and writing, `splitlines()` and the command lines of the Python tools are not modelled. `JmaTokens.CollectDays` takes the lines as input.
- tools/decode_and_save.py is not part of this model.
- The `datePicker` change handler and `init`'s population of the drop-downs are left out. Only their sort and label rules are modelled.
- Python's dict is modelled on values, as an insertion-ordered list of keys plus a map. Python's `list.sort` and JavaScript's `sort` are modelled by the stable insertion sort `Sorting.SortBy` on a sequence, not in place.
- `StationCatalog.REGION_MAP` is written as six disjoint displays joined together, in the source's order. The source's map has no repeated code, so the union is the same map.
- `JmaTokens.ParseLine`, `JmaTokens.ReadAll` and `JmaTokens.CollectDays` take the reading of the year and month positions as a parameter. `AsWritten` is the code as it runs, and `Corrected` is the fix under Findings.
- The moon age of 2026-01-18 is computed from noon that day, 0.375 days before the reference time of 21:00. The page's code therefore gives age 29.15559 (若潮) for that day, not an age near 0. The model follows the code.

## Findings

| source | as written | input that shows it | evidently intended | confidence | as-written member | corrected member |
|---|---|---|---|---|---|---|
| tools/fetch_jma_data.py:62-68 | the year is `parts[-4]` and the month `parts[-3]` | a line whose last words are `19 26 1 5TK` (the last height 19, year 26, month 1, day 5 with code TK) is read as 2019-26-05 | year `parts[-3]` and month `parts[-2]`, giving 2026-01-05 | not executed | JmaTokens.ParseTokens, JmaTokens.ParseTokensExample | JmaTokens.ParseTokensFixed, JmaTokens.ParseTokensFixedReadsTable |
