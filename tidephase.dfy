/** The tide type and weekday shown for the selected date (`updateTideType`
    in script.js). The moon's age is the time since a new moon of
    2026-01-18 reduced modulo a synodic month, and a table of age ranges
    names the tide: 大潮 (spring), 中潮 (middle), 小潮 (neap), 長潮 (long)
    and 若潮 (young), once in each half of the month.

    A date string that is not a date gives JavaScript an invalid `Date`,
    whose time value is NaN; here that is `None`. */
module TidePhase {
  import opened Options
  import opened Text
  import opened Calendar

  /** The synodic month used by the page, in days. */
  const SYNODIC: real := 29.53059

  /** Day number of 2026-01-18, the day of the reference new moon. */
  const ANCHOR_DAY := 20471

  lemma AnchorDay()
    ensures Valid(Date(2026, 1, 18)) && DayNumber(Date(2026, 1, 18)) == ANCHOR_DAY
  {
    assert DaysBeforeYear(2026) == 20454;
  }

  /** Days from the reference new moon (21:00 Japan time on 2026-01-18) to
      noon Japan time on the day numbered `n`. */
  function DaysSinceAnchor(n: int): real {
    (n - ANCHOR_DAY) as real - 0.375
  }

  /** The integer part of `q`, rounded towards zero. */
  function Trunc(q: real): (t: int)
    ensures q >= 0.0 ==> t as real <= q < t as real + 1.0
    ensures q < 0.0 ==> t as real - 1.0 < q <= t as real
  {
    if q >= 0.0 then q.Floor else -((-q).Floor)
  }

  /** JavaScript's `%` on numbers: the remainder of division truncated
      towards zero, which takes the sign of the dividend. */
  function JsRem(a: real, p: real): (r: real)
    requires p > 0.0
    ensures a >= 0.0 ==> 0.0 <= r < p
    ensures a < 0.0 ==> -p < r <= 0.0
  {
    var t := Trunc(a / p) as real;
    RemainderBounds(a, p, t);
    a - p * t
  }

  /** What is left of `a` after `t` times `p` is `p` times what is left of the quotient. */
  lemma Remainder(a: real, p: real, t: real)
    requires p > 0.0
    ensures a - p * t == p * (a / p - t)
  {
    assert p * (a / p) == a;
  }

  /** The remainder left by a quotient rounded to a whole `t` next to it. */
  lemma RemainderBounds(a: real, p: real, t: real)
    requires p > 0.0 && t - 1.0 < a / p < t + 1.0
    ensures t <= a / p ==> 0.0 <= a - p * t < p
    ensures a / p <= t ==> -p < a - p * t <= 0.0
  {
    Remainder(a, p, t);
    if t <= a / p {
      FractionBelow(p, a / p - t, a - p * t);
    }
    if a / p <= t {
      FractionAbove(p, a / p - t, a - p * t);
    }
  }

  /** A fraction `d` in `[0, 1)` of a positive `p` lies in `[0, p)`. */
  lemma FractionBelow(p: real, d: real, r: real)
    requires p > 0.0 && 0.0 <= d < 1.0 && r == p * d
    ensures 0.0 <= r < p
  {
    ScaleLe(p, 0.0, d);
    ScaleLt(p, d, 1.0);
  }

  /** A fraction `d` in `(-1, 0]` of a positive `p` lies in `(-p, 0]`. */
  lemma FractionAbove(p: real, d: real, r: real)
    requires p > 0.0 && -1.0 < d <= 0.0 && r == p * d
    ensures -p < r <= 0.0
  {
    ScaleLt(p, -1.0, d);
    ScaleLe(p, d, 0.0);
  }

  /** Multiplying by a positive number keeps order. */
  lemma ScaleLe(p: real, x: real, y: real)
    requires p > 0.0 && x <= y
    ensures p * x <= p * y
  {
    assert p * y - p * x == p * (y - x);
  }

  /** Multiplying by a positive number keeps strict order. */
  lemma ScaleLt(p: real, x: real, y: real)
    requires p > 0.0 && x < y
    ensures p * x < p * y
  {
    assert p * y - p * x == p * (y - x);
  }

  /** The remainder of flooring division: the representative of `a` modulo
      `p` in `[0, p)`. */
  function FloorMod(a: real, p: real): (r: real)
    requires p > 0.0
    ensures 0.0 <= r < p
  {
    var f := (a / p).Floor as real;
    RemainderBounds(a, p, f);
    a - p * f
  }

  /** The moon's age on the day numbered `n`: the JavaScript remainder, made
      non-negative by adding one month. */
  function MoonAgeOfDay(n: int): real {
    var r := JsRem(DaysSinceAnchor(n), SYNODIC);
    if r < 0.0 then r + SYNODIC else r
  }

  /** The truncating remainder corrected upwards is the flooring remainder:
      the age is the days since the reference new moon modulo a month, and
      lies in `[0, SYNODIC)`. */
  lemma MoonAgeIsFloorMod(n: int)
    ensures MoonAgeOfDay(n) == FloorMod(DaysSinceAnchor(n), SYNODIC)
    ensures 0.0 <= MoonAgeOfDay(n) < SYNODIC
  {
    var a := DaysSinceAnchor(n);
    var q := a / SYNODIC;
    var f := q.Floor;
    var t := Trunc(q);
    assert a == SYNODIC * q;
    if q >= 0.0 {
      assert t == f;
    } else if t as real == q {
      assert f == t;
    } else {
      assert f == t - 1;
    }
  }

  /** The age is the one value in `[0, SYNODIC)` that differs from the days
      since the reference new moon by a whole number `k` of months. */
  lemma MoonAgeUnique(n: int, k: int)
    requires 0.0 <= DaysSinceAnchor(n) - SYNODIC * k as real < SYNODIC
    ensures MoonAgeOfDay(n) == DaysSinceAnchor(n) - SYNODIC * k as real
  {
    MoonAgeIsFloorMod(n);
    var a := DaysSinceAnchor(n);
    var f := (a / SYNODIC).Floor;
    RemainderBounds(a, SYNODIC, f as real);
    // both k and f place `a` within one month above a multiple of SYNODIC
    if f < k {
      ScaleLe(SYNODIC, (f + 1) as real, k as real);
    } else if k < f {
      ScaleLe(SYNODIC, (k + 1) as real, f as real);
    }
  }

  /** The moon's age for a date string, `None` for an invalid date. */
  function MoonAge(dateStr: string): Option<real> {
    match ParseIso(dateStr)
    case None => None
    case Some(dt) => Some(MoonAgeOfDay(DayNumber(dt)))
  }

  /** The literal chain of range tests of `updateTideType`; every test is
      false for NaN, which falls through to the last branch. */
  function TideType(age: Option<real>): string {
    if age.None? then "大潮"
    else
      var a := age.value;
      if a >= 0.0 && a < 3.0 then "大潮"
      else if a >= 3.0 && a < 6.0 then "中潮"
      else if a >= 6.0 && a < 9.0 then "小潮"
      else if a >= 9.0 && a < 10.0 then "長潮"
      else if a >= 10.0 && a < 14.0 then "若潮"
      else if a >= 14.0 && a < 17.0 then "大潮"
      else if a >= 17.0 && a < 20.0 then "中潮"
      else if a >= 20.0 && a < 23.0 then "小潮"
      else if a >= 23.0 && a < 24.0 then "長潮"
      else if a >= 24.0 then "若潮"
      else "大潮"
  }

  /** One row of the tide-type table: the ages `from <= age < until`. */
  datatype Phase = Phase(from: real, until: real, name: string)

  /** The tide-type table over one month of moon age. */
  const PHASES: seq<Phase> := [
    Phase(0.0, 3.0, "大潮"), Phase(3.0, 6.0, "中潮"), Phase(6.0, 9.0, "小潮"),
    Phase(9.0, 10.0, "長潮"), Phase(10.0, 14.0, "若潮"), Phase(14.0, 17.0, "大潮"),
    Phase(17.0, 20.0, "中潮"), Phase(20.0, 23.0, "小潮"), Phase(23.0, 24.0, "長潮"),
    Phase(24.0, SYNODIC, "若潮")
  ]

  /** The rows cover the month from age 0 to `SYNODIC` without gap or overlap. */
  lemma PhasesTileMonth()
    ensures PHASES[0].from == 0.0 && PHASES[|PHASES| - 1].until == SYNODIC
    ensures forall k :: 0 <= k < |PHASES| ==> PHASES[k].from < PHASES[k].until
    ensures forall k :: 0 <= k < |PHASES| - 1 ==> PHASES[k].until == PHASES[k + 1].from
  {
  }

  /** The name of the row holding `age`, searched from row `k`. */
  function LookupFrom(age: real, k: nat): (r: Option<string>)
    requires k <= |PHASES|
    ensures r.Some? <==> exists j :: k <= j < |PHASES| && PHASES[j].from <= age < PHASES[j].until
    decreases |PHASES| - k
  {
    if k == |PHASES| then None
    else if PHASES[k].from <= age < PHASES[k].until then Some(PHASES[k].name)
    else LookupFrom(age, k + 1)
  }

  /** Every age of a month lies in one row of the table. */
  lemma LookupFindsRow(age: real)
    requires 0.0 <= age < SYNODIC
    ensures LookupFrom(age, 0).Some?
  {
    var j := if age < 3.0 then 0 else if age < 6.0 then 1 else if age < 9.0 then 2
             else if age < 10.0 then 3 else if age < 14.0 then 4 else if age < 17.0 then 5
             else if age < 20.0 then 6 else if age < 23.0 then 7 else if age < 24.0 then 8 else 9;
    assert PHASES[j].from <= age < PHASES[j].until;
  }

  /** For every age of a month the range tests name the tide as the table
      does: the last branch is reached only by NaN. */
  lemma TideTypeFollowsTable(age: real)
    requires 0.0 <= age < SYNODIC
    ensures LookupFrom(age, 0) == Some(TideType(Some(age)))
  {
    LookupFindsRow(age);
  }

  /** The tide types repeat after half a month: the second half mirrors the first. */
  lemma HalfMonthRepeats(age: real)
    requires 0.0 <= age < 14.0
    ensures TideType(Some(age)) == TideType(Some(age + 14.0))
  {
  }

  /** The text of the tide-type label: the type and the age to one decimal. */
  function TideTypeText(dateStr: string): string {
    var age := MoonAge(dateStr);
    TideType(age) + " (月齢" + (if age.None? then "NaN" else ToFixed(age.value, 1)) + ")"
  }

  /** The weekday marks, from Sunday. */
  const WEEKDAYS: seq<string> := ["(日)", "(月)", "(火)", "(水)", "(木)", "(金)", "(土)"]

  /** The weekday mark and its colour for a date string: red on Sunday, blue
      on Saturday; an invalid date has no mark. */
  function WeekdayMark(dateStr: string): (r: (Option<string>, string))
    ensures ParseIso(dateStr).None? ==> r == (None, "inherit")
    ensures ParseIso(dateStr).Some? ==>
              var w := Weekday(DayNumber(ParseIso(dateStr).value));
              && r.0 == Some(WEEKDAYS[w])
              && (r.1 == "red" <==> w == 0)
              && (r.1 == "blue" <==> w == 6)
              && (r.1 == "inherit" <==> 1 <= w <= 5)
    ensures r.1 == "red" ==> r.0 == Some("(日)")
    ensures r.1 == "blue" ==> r.0 == Some("(土)")
  {
    match ParseIso(dateStr)
    case None => (None, "inherit")
    case Some(dt) =>
      var w := Weekday(DayNumber(dt));
      (Some(WEEKDAYS[w]), if w == 0 then "red" else if w == 6 then "blue" else "inherit")
  }

  /** The mark of a date recurs on the date a week later, and the date
      after it carries the next mark of the week. */
  lemma WeekdayMarkWeekly(a: string, b: string)
    requires ParseIso(a).Some? && ParseIso(b).Some?
    ensures DayNumber(ParseIso(b).value) == DayNumber(ParseIso(a).value) + 7 ==>
              WeekdayMark(b) == WeekdayMark(a)
    ensures DayNumber(ParseIso(b).value) == DayNumber(ParseIso(a).value) + 1 ==>
              WeekdayMark(b).0 == Some(WEEKDAYS[(Weekday(DayNumber(ParseIso(a).value)) + 1) % 7])
  {
    WeekdayStep(DayNumber(ParseIso(a).value));
  }

  lemma ParseAnchorDate()
    ensures ParseIso("2026-01-18") == Some(Date(2026, 1, 18))
  {
  }

  /** The day of the reference new moon shows 若潮 at age 29.15559: the
      noon of that day precedes the new moon at 21:00, so its age is almost
      a full month. */
  lemma AnchorDateType()
    ensures MoonAge("2026-01-18") == Some(29.15559)
    ensures TideType(MoonAge("2026-01-18")) == "若潮"
  {
    ParseAnchorDate();
    AnchorDay();
    MoonAgeUnique(ANCHOR_DAY, -1);
  }

  /** Fifteen days later the age is 14.625 and the type is 大潮. */
  lemma FullMoonType()
    ensures MoonAgeOfDay(ANCHOR_DAY + 15) == 14.625
    ensures TideType(Some(MoonAgeOfDay(ANCHOR_DAY + 15))) == "大潮"
  {
    MoonAgeUnique(ANCHOR_DAY + 15, 0);
  }

  /** 2026-01-18 was a Sunday, marked in red. */
  lemma AnchorWeekday()
    ensures WeekdayMark("2026-01-18") == (Some("(日)"), "red")
  {
    ParseAnchorDate();
    AnchorDay();
  }

  /** A string that is not a date gives NaN, which every range test
      rejects: the label reads 大潮 with an age of NaN. */
  lemma InvalidDateType()
    ensures MoonAge("2026-02-30") == None
    ensures TideTypeText("2026-02-30") == "大潮 (月齢NaN)"
  {
    assert !IsLeap(2026);
  }
}
