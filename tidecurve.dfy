/** The page's detector of high and low water in a day of hourly tide
    heights (`findPeaks` and `formatTime` in script.js). Each interior hour
    whose height is strictly above, or strictly below, both neighbours is a
    turning point; a parabola through the three heights places the turn
    between the half hours around it and gives its level.

    Heights are metres (`None` for a missing hour), the `i`-th time label is
    hour `i` of the displayed day for `i < 24`, and arithmetic is exact. */
module TideCurve {
  import opened Options
  import opened Text

  /** The number of hourly time labels the page builds for a day. */
  const LABELS := 24

  datatype Kind = High | Low

  /** One entry of the high and low water lists. It holds what the entry is
      computed from: its kind, the hour `hour` of its middle sample and the
      three heights around it; `Time()` is its clock time `HH:MM` and
      `Level()` its level written with two decimals. */
  datatype Peak = Peak(kind: Kind, hour: nat, y1: real, y2: real, y3: real)
  {
    predicate Turns() {
      IsHigh(y1, y2, y3) || IsLow(y1, y2, y3)
    }

    function Time(): string
      requires Turns()
    {
      TurnTime(hour, VertexOffset(y1, y2, y3))
    }

    function Level(): string
      requires Turns()
    {
      ToFixed(VertexLevel(y1, y2, y3), 2)
    }
  }

  predicate IsHigh(y1: real, y2: real, y3: real) {
    y2 > y1 && y2 > y3
  }

  predicate IsLow(y1: real, y2: real, y3: real) {
    y2 < y1 && y2 < y3
  }

  /** No hour is both a high and a low. */
  lemma HighNotLow(y1: real, y2: real, y3: real)
    ensures !(IsHigh(y1, y2, y3) && IsLow(y1, y2, y3))
  {
  }

  /** Coefficients of `a t^2 + b t + c` through `(-1, y1)`, `(0, y2)`, `(1, y3)`. */
  function CoefA(y1: real, y2: real, y3: real): real {
    (y1 + y3 - 2.0 * y2) / 2.0
  }

  function CoefB(y1: real, y3: real): real {
    (y3 - y1) / 2.0
  }

  function Parabola(y1: real, y2: real, y3: real, t: real): real {
    CoefA(y1, y2, y3) * t * t + CoefB(y1, y3) * t + y2
  }

  /** The fitted parabola passes through the three hourly heights. */
  lemma ParabolaFits(y1: real, y2: real, y3: real)
    ensures Parabola(y1, y2, y3, -1.0) == y1
    ensures Parabola(y1, y2, y3, 0.0) == y2
    ensures Parabola(y1, y2, y3, 1.0) == y3
  {
  }

  /** The curvature is never zero at a turning point: it opens downwards at
      a high and upwards at a low. */
  lemma Curvature(y1: real, y2: real, y3: real)
    ensures IsHigh(y1, y2, y3) ==> CoefA(y1, y2, y3) < 0.0
    ensures IsLow(y1, y2, y3) ==> CoefA(y1, y2, y3) > 0.0
  {
  }

  /** Where the parabola turns, in hours from the middle sample. */
  function VertexOffset(y1: real, y2: real, y3: real): real
    requires IsHigh(y1, y2, y3) || IsLow(y1, y2, y3)
  {
    Curvature(y1, y2, y3);
    -CoefB(y1, y3) / (2.0 * CoefA(y1, y2, y3))
  }

  /** The slope of the parabola vanishes at the offset, which lies strictly
      within half an hour of the middle sample, and on it when the two
      neighbours are level. */
  lemma VertexOffsetBounds(y1: real, y2: real, y3: real)
    requires IsHigh(y1, y2, y3) || IsLow(y1, y2, y3)
    ensures var x := VertexOffset(y1, y2, y3);
            && 2.0 * CoefA(y1, y2, y3) * x + CoefB(y1, y3) == 0.0
            && -0.5 < x < 0.5
            && (y1 == y3 ==> x == 0.0)
  {
    var a := CoefA(y1, y2, y3);
    var b := CoefB(y1, y3);
    Curvature(y1, y2, y3);
    var x := -b / (2.0 * a);
    assert 2.0 * a * x == -b;
    HalfHour(y1, y2, y3, x);
  }

  /** `|y3 - y1| < (y2 - y1) + (y2 - y3)` at a high, and likewise at a low,
      so a zero of the slope lies strictly within half an hour. */
  lemma HalfHour(y1: real, y2: real, y3: real, x: real)
    requires IsHigh(y1, y2, y3) || IsLow(y1, y2, y3)
    requires 2.0 * CoefA(y1, y2, y3) * x == -CoefB(y1, y3)
    ensures -0.5 < x < 0.5
  {
  }

  /** The level of the parabola at its turn. */
  function VertexLevel(y1: real, y2: real, y3: real): real
    requires IsHigh(y1, y2, y3) || IsLow(y1, y2, y3)
  {
    Parabola(y1, y2, y3, VertexOffset(y1, y2, y3))
  }

  /** A high's level is at least its highest sample and a low's at most its
      lowest; between level neighbours the level is the middle sample's. */
  lemma VertexLevelBounds(y1: real, y2: real, y3: real)
    requires IsHigh(y1, y2, y3) || IsLow(y1, y2, y3)
    ensures var v := VertexLevel(y1, y2, y3);
            && (IsHigh(y1, y2, y3) ==> v >= y2 && v > y1 && v > y3)
            && (IsLow(y1, y2, y3) ==> v <= y2 && v < y1 && v < y3)
            && (y1 == y3 ==> v == y2)
  {
    VertexOffsetBounds(y1, y2, y3);
    VertexIsExtremum(y1, y2, y3, 0.0);
  }

  /** The turn is the top of the parabola at a high and its bottom at a low. */
  lemma VertexIsExtremum(y1: real, y2: real, y3: real, t: real)
    requires IsHigh(y1, y2, y3) || IsLow(y1, y2, y3)
    ensures var v := Parabola(y1, y2, y3, VertexOffset(y1, y2, y3));
            && (IsHigh(y1, y2, y3) ==> Parabola(y1, y2, y3, t) <= v)
            && (IsLow(y1, y2, y3) ==> Parabola(y1, y2, y3, t) >= v)
  {
    var a := CoefA(y1, y2, y3);
    var b := CoefB(y1, y3);
    var x := VertexOffset(y1, y2, y3);
    Curvature(y1, y2, y3);
    VertexOffsetBounds(y1, y2, y3);
    var d := t - x;
    calc {
      Parabola(y1, y2, y3, t) - Parabola(y1, y2, y3, x);
      a * t * t + b * t - a * x * x - b * x;
      a * (t - x) * (t + x) + b * (t - x);
      (t - x) * (a * (t + x) + b);
      { assert b == -2.0 * a * x; }
      (t - x) * (a * (t - x));
      a * (d * d);
    }
    assert d * d >= 0.0;
  }

  /** The minute of the day at which the turn near hour `i` falls, as the
      `Date` built from the hour's label plus the offset in milliseconds
      reports it: whole minutes, rounded down. */
  function TurnMinute(i: nat, x: real): int {
    (60.0 * (i as real + x)).Floor
  }

  /** A turn within half an hour of hour `i` is reported at a minute within
      half an hour of it, in hour `i - 1` or hour `i`. */
  lemma TurnMinuteNear(i: nat, x: real)
    requires -0.5 < x < 0.5
    ensures 60 * i - 30 <= TurnMinute(i, x) < 60 * i + 30
    ensures TurnMinute(i, x) / 60 == i - 1 || TurnMinute(i, x) / 60 == i
  {
  }

  /** `formatTime`: the hours and minutes of the local clock, each written
      with two digits; a minute past the end of the day shows on the next
      day's clock. */
  function FormatTime(minute: int): (s: string)
    ensures |s| == 5 && s[2] == ':'
    ensures IsDigits(s[..2]) && IsDigits(s[3..])
  {
    var m := minute % 1440;
    var s := Pad2(m / 60) + ":" + Pad2(m % 60);
    assert s[..2] == Pad2(m / 60) && s[3..] == Pad2(m % 60);
    s
  }

  /** Reading the clock text back gives the minute of the day. */
  lemma FormatTimeReadsBack(minute: int)
    ensures var s := FormatTime(minute);
            DigitsValue(s[..2]) * 60 + DigitsValue(s[3..]) == minute % 1440
            && DigitsValue(s[..2]) < 24 && DigitsValue(s[3..]) < 60
  {
    var m := minute % 1440;
    var s := FormatTime(minute);
    assert s[..2] == Pad2(m / 60) && s[3..] == Pad2(m % 60);
  }

  /** The clock text of a turn near hour `i`: hours past the last time label
      have an invalid `Date`, whose hours and minutes print as `NaN`. */
  function TurnTime(i: nat, x: real): string {
    if i < LABELS then FormatTime(TurnMinute(i, x)) else "NaN:NaN"
  }

  /** The entry pushed for a turning point at hour `i`: a high exactly when
      the middle sample is above both neighbours. */
  function TurnEntry(y1: real, y2: real, y3: real, i: nat): (p: Peak)
    requires IsHigh(y1, y2, y3) || IsLow(y1, y2, y3)
    ensures p.kind == High <==> IsHigh(y1, y2, y3)
    ensures p.kind == Low <==> IsLow(y1, y2, y3)
    ensures p.Turns() && p.hour == i && p.y1 == y1 && p.y2 == y2 && p.y3 == y3
  {
    HighNotLow(y1, y2, y3);
    Peak(if IsHigh(y1, y2, y3) then High else Low, i, y1, y2, y3)
  }

  /** Interior hour `i` and both its neighbours have heights, and `i` is
      strictly above or strictly below both. */
  predicate IsTurn(h: seq<Option<real>>, i: nat)
    requires 1 <= i < |h| - 1
  {
    && h[i - 1].Some? && h[i].Some? && h[i + 1].Some?
    && (IsHigh(h[i - 1].value, h[i].value, h[i + 1].value)
        || IsLow(h[i - 1].value, h[i].value, h[i + 1].value))
  }

  /** The entry for interior hour `i`, if it is a turning point. */
  function PeakAt(h: seq<Option<real>>, i: nat): (r: Option<Peak>)
    requires 1 <= i < |h| - 1
    ensures r.Some? <==> IsTurn(h, i)
    ensures r.Some? ==> r.value == TurnEntry(h[i - 1].value, h[i].value, h[i + 1].value, i)
  {
    if h[i - 1].None? || h[i].None? || h[i + 1].None? then None
    else
      var y1, y2, y3 := h[i - 1].value, h[i].value, h[i + 1].value;
      if IsHigh(y1, y2, y3) || IsLow(y1, y2, y3) then Some(TurnEntry(y1, y2, y3, i)) else None
  }

  /** The entry, if any, as a list of zero or one entries. */
  function Listed(o: Option<Peak>): seq<Peak> {
    if o.Some? then [o.value] else []
  }

  /** The entries for the interior hours before `k`, in hour order. */
  function PeaksBefore(h: seq<Option<real>>, k: nat): seq<Peak>
    requires k <= |h| - 1 || k <= 1
  {
    if k <= 1 then []
    else PeaksBefore(h, k - 1) + Listed(PeakAt(h, k - 1))
  }

  /** Every entry the detector reports for a day, in hour order. */
  function Peaks(h: seq<Option<real>>): seq<Peak> {
    if |h| <= 1 then [] else PeaksBefore(h, |h| - 1)
  }

  /** One pass of the loop of `findPeaks`: the tests on hour `i` and its
      neighbours, and the entry pushed when they pass. */
  method HourEntry(heights: seq<Option<real>>, i: nat) returns (entry: Option<Peak>)
    requires 1 <= i < |heights| - 1
    ensures entry == PeakAt(heights, i)
  {
    var y1, y2, y3 := heights[i - 1], heights[i], heights[i + 1];
    entry := None;
    if y1.Some? && y2.Some? && y3.Some? {
      var isHigh := y2.value > y1.value && y2.value > y3.value;
      var isLow := y2.value < y1.value && y2.value < y3.value;
      if isHigh || isLow {
        entry := Some(TurnEntry(y1.value, y2.value, y3.value, i));
      }
    }
  }

  /** `findPeaks`: the loop over the interior hours. */
  method FindPeaks(heights: seq<Option<real>>) returns (peaks: seq<Peak>)
    ensures peaks == Peaks(heights)
  {
    peaks := [];
    var i := 1;
    while i < |heights| - 1
      invariant 1 <= i <= (if |heights| <= 1 then 1 else |heights| - 1)
      invariant peaks == PeaksBefore(heights, i)
    {
      var entry := HourEntry(heights, i);
      if entry.Some? {
        peaks := peaks + [entry.value];
      }
      i := i + 1;
    }
    assert i == (if |heights| <= 1 then 1 else |heights| - 1);
  }

  /** The interior hours before `k` that are turning points, in increasing order. */
  function TurnHoursBefore(h: seq<Option<real>>, k: nat): seq<nat>
    requires k <= |h| - 1 || k <= 1
  {
    if k <= 1 then []
    else TurnHoursBefore(h, k - 1) + (if IsTurn(h, k - 1) then [k - 1] else [])
  }

  function TurnHours(h: seq<Option<real>>): seq<nat> {
    if |h| <= 1 then [] else TurnHoursBefore(h, |h| - 1)
  }

  /** The turning hours lie strictly inside the day, before `k`, in
      strictly increasing order, and each is a turning point. */
  lemma {:induction false} TurnHoursBeforeOrdered(h: seq<Option<real>>, k: nat)
    requires k <= |h| - 1 || k <= 1
    ensures var ts := TurnHoursBefore(h, k);
            && |ts| <= (if k <= 1 then 0 else k - 1)
            && (forall j :: 0 <= j < |ts| ==> 1 <= ts[j] < k && ts[j] < |h| - 1 && IsTurn(h, ts[j]))
            && (forall j, j' :: 0 <= j < j' < |ts| ==> ts[j] < ts[j'])
  {
    if k > 1 {
      TurnHoursBeforeOrdered(h, k - 1);
    }
  }

  /** Every turning point before `k` is among the turning hours. */
  lemma {:induction false} TurnHoursBeforeComplete(h: seq<Option<real>>, k: nat, i: nat)
    requires k <= |h| - 1 || k <= 1
    requires 1 <= i < k && IsTurn(h, i)
    ensures i in TurnHoursBefore(h, k)
  {
    var ts := TurnHoursBefore(h, k);
    if i < k - 1 {
      TurnHoursBeforeComplete(h, k - 1, i);
      var ts' := TurnHoursBefore(h, k - 1);
      var j :| 0 <= j < |ts'| && ts'[j] == i;
      assert ts[j] == i;
    } else {
      assert ts[|ts| - 1] == i;
    }
  }

  /** The `j`-th reported entry is the entry of the `j`-th turning hour. */
  lemma {:induction false} PeaksBeforeMatch(h: seq<Option<real>>, k: nat)
    requires k <= |h| - 1 || k <= 1
    ensures |PeaksBefore(h, k)| == |TurnHoursBefore(h, k)|
    ensures forall j :: 0 <= j < |TurnHoursBefore(h, k)| ==>
              1 <= TurnHoursBefore(h, k)[j] < |h| - 1
              && PeakAt(h, TurnHoursBefore(h, k)[j]) == Some(PeaksBefore(h, k)[j])
  {
    if k > 1 {
      PeaksBeforeMatch(h, k - 1);
      TurnHoursBeforeOrdered(h, k);
    }
  }

  /** The `j`-th reported entry is the entry of the `j`-th turning hour,
      so there are at most `n - 2` entries, one per turning hour. */
  lemma PeaksMatchTurns(h: seq<Option<real>>)
    ensures |Peaks(h)| == |TurnHours(h)|
    ensures |h| >= 2 ==> |Peaks(h)| <= |h| - 2
    ensures forall j :: 0 <= j < |TurnHours(h)| ==>
              1 <= TurnHours(h)[j] < |h| - 1 && PeakAt(h, TurnHours(h)[j]) == Some(Peaks(h)[j])
  {
    if |h| > 1 {
      TurnHoursBeforeOrdered(h, |h| - 1);
      PeaksBeforeMatch(h, |h| - 1);
    }
  }

  /** The turning hours, and so the entries, come in strictly increasing
      hour order, never at the first or last hour. */
  lemma TurnsAscend(h: seq<Option<real>>)
    ensures forall j :: 0 <= j < |TurnHours(h)| ==> 1 <= TurnHours(h)[j] < |h| - 1
    ensures forall j, j' :: 0 <= j < j' < |TurnHours(h)| ==> TurnHours(h)[j] < TurnHours(h)[j']
  {
    if |h| > 1 {
      TurnHoursBeforeOrdered(h, |h| - 1);
    }
  }

  /** Every interior turning point is reported. */
  lemma TurnsComplete(h: seq<Option<real>>, i: nat)
    requires 1 <= i < |h| - 1 && IsTurn(h, i)
    ensures i in TurnHours(h)
  {
    TurnHoursBeforeComplete(h, |h| - 1, i);
  }

  /** A missing neighbour or a flat or steady stretch yields no entry. */
  lemma NoTurn(h: seq<Option<real>>, i: nat)
    requires 1 <= i < |h| - 1
    requires || h[i - 1].None? || h[i].None? || h[i + 1].None?
             || (h[i - 1].Some? && h[i].Some? && h[i + 1].Some?
                 && h[i - 1].value <= h[i].value <= h[i + 1].value)
             || (h[i - 1].Some? && h[i].Some? && h[i + 1].Some?
                 && h[i - 1].value >= h[i].value >= h[i + 1].value)
    ensures PeakAt(h, i).None?
    ensures i !in TurnHours(h)
  {
    PeaksMatchTurns(h);
  }

  /** Within a day of 24 labelled hours every turn shows on that day's
      clock, in the hour before or the hour of its sample. */
  lemma TurnTimeOnTheDay(h: seq<Option<real>>, i: nat)
    requires 1 <= i < |h| - 1 && i <= 22
    requires PeakAt(h, i).Some?
    ensures var x := VertexOffset(h[i - 1].value, h[i].value, h[i + 1].value);
            var m := TurnMinute(i, x);
            && 0 <= m < 1440 && (m / 60 == i - 1 || m / 60 == i)
            && PeakAt(h, i).value.Time() == FormatTime(m)
  {
    var x := VertexOffset(h[i - 1].value, h[i].value, h[i + 1].value);
    VertexOffsetBounds(h[i - 1].value, h[i].value, h[i + 1].value);
    TurnMinuteNear(i, x);
  }

  /** A symmetric turn lies exactly on the hour, at the sample's own height. */
  lemma SymmetricTurn(h: seq<Option<real>>, i: nat)
    requires 1 <= i < |h| - 1 && i < LABELS
    requires PeakAt(h, i).Some? && h[i - 1] == h[i + 1]
    ensures PeakAt(h, i).value.Time() == FormatTime(60 * i)
    ensures PeakAt(h, i).value.Level() == ToFixed(h[i].value, 2)
  {
    var y1, y2, y3 := h[i - 1].value, h[i].value, h[i + 1].value;
    VertexOffsetBounds(y1, y2, y3);
    VertexLevelBounds(y1, y2, y3);
    assert VertexOffset(y1, y2, y3) == 0.0;
    assert VertexLevel(y1, y2, y3) == y2;
    assert TurnMinute(i, 0.0) == 60 * i by {
      assert 60.0 * (i as real + 0.0) == (60 * i) as real;
    }
  }

  lemma OneOClock()
    ensures FormatTime(60) == "01:00"
  {
    assert 60 % 1440 / 60 == 1 && 60 % 1440 % 60 == 0;
    assert DigitChar(1) == '1' && DigitChar(0) == '0';
    assert Pad2(1) == "01";
    assert Pad2(0) == "00";
  }

  lemma TwoMetres()
    ensures ToFixed(2.0, 2) == "2.00"
  {
    assert Pow10(2) == 100;
    assert RoundUnits(2.0, 2) == 200;
    assert NatToString(2) == ['2'];
    assert NatToString(20) == ['2', '0'];
    assert NatToString(200) == ['2', '0', '0'];
    var m := UnitDigits(200, 2);
    assert m == ['2', '0', '0'];
    assert m[..1] == ['2'] && m[1..] == ['0', '0'];
  }

  /** A rise to 2 m at 01:00 and a fall after it: one high water at 01:00 at 2.00 m. */
  lemma OneHighWater()
    ensures Peaks([Some(1.0), Some(2.0), Some(1.0)]) == [Peak(High, 1, 1.0, 2.0, 1.0)]
    ensures Peak(High, 1, 1.0, 2.0, 1.0).Time() == "01:00"
    ensures Peak(High, 1, 1.0, 2.0, 1.0).Level() == "2.00"
  {
    var h := [Some(1.0), Some(2.0), Some(1.0)];
    SymmetricTurn(h, 1);
    OneOClock();
    TwoMetres();
    assert PeaksBefore(h, 2) == PeaksBefore(h, 1) + Listed(PeakAt(h, 1));
  }
}
