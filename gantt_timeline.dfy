/**
  The data side of the launch timeline: launch dates, the items sorted by launch time,
  the tick labels and their zero padding, the tick interval for a range, the overview
  histogram and the clamps on the two zoom handlers.
*/
module GanttTimeline {
  import opened Wrappers
  import opened Text
  import Calendar
  import opened TimelineMath

  /** This widget's `MS_DAY` is two days of milliseconds; every constant below follows it. */
  const MS_DAY: real := 2.0 * 86_400_000.0
  const MS_YEAR: real := 365.25 * MS_DAY
  const OVERVIEW_MIN_RANGE: real := MS_YEAR * 1.5

  /** A satellite as this widget reads it: only `launch_date`, `None` when null or absent. */
  datatype GanttSat = GanttSat(launchDate: Option<string>)

  datatype GanttItem = GanttItem(time: int, sat: GanttSat, index: nat)

  function Time(item: GanttItem): int {
    item.time
  }

  function Index(item: GanttItem): int {
    item.index
  }

  // ---------------------------------------------------------------------------
  // parseLaunchDate and the timeline data

  /** `parseLaunchDate`: no date for a missing or empty value, `N/A`, or an invalid date. */
  function ParseLaunchDate(value: Option<string>, parse: DateParser): (date: Option<int>)
    ensures date.Some? ==> value.Some? && value.value != "" && value.value != "N/A" && date == parse(value.value)
  {
    if value.None? || value.value == "" || value.value == "N/A" then None
    else parse(value.value)
  }

  lemma ParseLaunchDateSpec(value: Option<string>, parse: DateParser)
    ensures var r := ParseLaunchDate(value, parse);
      (r.Some? <==> value.Some? && value.value != "" && value.value != "N/A" && parse(value.value).Some?)
      && (r.Some? ==> r == parse(value.value))
  {
  }

  /** The item for the satellite at input position `idx`, if it has a launch date. */
  function ItemOf(sat: GanttSat, idx: nat, parse: DateParser): (it: Option<GanttItem>)
    ensures it.Some? <==> ParseLaunchDate(sat.launchDate, parse).Some?
    ensures it.Some? ==> it.value.index == idx && it.value.sat == sat
  {
    match ParseLaunchDate(sat.launchDate, parse)
    case Some(t) => Some(GanttItem(t, sat, idx))
    case None => None
  }

  /** The timeline data: the satellites with a launch date, sorted by launch time, stably. */
  function TimelineData(sats: seq<GanttSat>, parse: DateParser): seq<GanttItem> {
    SortBy(Collect(sats, (sat: GanttSat, idx: nat) => ItemOf(sat, idx, parse)), Time)
  }

  /** The items before sorting: one per satellite with a launch date, in input order. */
  lemma {:induction false} ItemsSpec(sats: seq<GanttSat>, parse: DateParser)
    ensures var items := Collect(sats, (sat: GanttSat, idx: nat) => ItemOf(sat, idx, parse));
      (forall i, j :: 0 <= i < j < |items| ==> items[i].index < items[j].index)
      && (forall it :: it in items ==>
            it.index < |sats| && it.sat == sats[it.index]
            && ParseLaunchDate(sats[it.index].launchDate, parse) == Some(it.time))
      && (forall k :: 0 <= k < |sats| && ParseLaunchDate(sats[k].launchDate, parse).Some? ==>
            GanttItem(ParseLaunchDate(sats[k].launchDate, parse).value, sats[k], k) in items)
  {
    var f := (sat: GanttSat, idx: nat) => ItemOf(sat, idx, parse);
    CollectSound(sats, f, Index);
    CollectOrdered(sats, f, Index);
    CollectComplete(sats, f);
    var items := Collect(sats, f);
    forall k | 0 <= k < |sats| && ParseLaunchDate(sats[k].launchDate, parse).Some?
      ensures GanttItem(ParseLaunchDate(sats[k].launchDate, parse).value, sats[k], k) in items
    {
      assert f(sats[k], k).Some?;
    }
  }

  /**
    The data is sorted by launch time, equal times in input order, and holds exactly one
    item for each satellite with a launch date, carrying that date and its position.
  */
  lemma TimelineDataSpec(sats: seq<GanttSat>, parse: DateParser)
    ensures var data := TimelineData(sats, parse);
      SortedBy(data, Time, Index)
      && (forall it :: it in data ==>
            it.index < |sats| && it.sat == sats[it.index]
            && ParseLaunchDate(sats[it.index].launchDate, parse) == Some(it.time))
      && (forall k :: 0 <= k < |sats| && ParseLaunchDate(sats[k].launchDate, parse).Some? ==>
            GanttItem(ParseLaunchDate(sats[k].launchDate, parse).value, sats[k], k) in data)
  {
    var items := Collect(sats, (sat: GanttSat, idx: nat) => ItemOf(sat, idx, parse));
    ItemsSpec(sats, parse);
    SortBySpec(items, Time, Index);
    var data := SortBy(items, Time);
    assert data == TimelineData(sats, parse);
    forall it | it in data ensures it in items {
      assert it in multiset(data);
    }
    forall it | it in items ensures it in data {
      assert it in multiset(items);
    }
  }

  // ---------------------------------------------------------------------------
  // pad and formatLabel

  /** `pad`: at least two digits, read back as the number. */
  lemma PadSpec(n: nat)
    ensures var p := Calendar.Pad2(n);
      ParseInt(p) == Some(n) && '-' !in p
      && |p| == (if n < 10 then 2 else |NatDigits(n)|)
      && (n < 10 ==> p[0] == '0')
  {
    var ds := NatDigits(n);
    assert DecimalString(n) == ds;
    var p := PadStart(ds, 2, '0');
    assert Calendar.Pad2(n) == p;
    PaddedValue(ds, 2);
    ParseIntOfPadded(n, 2);
    forall i | 0 <= i < |p| ensures p[i] != '-' {
      assert IsDigit(p[i]);
    }
  }

  /** `String(year)` for a year that is not negative. */
  lemma YearText(y: nat)
    ensures ParseInt(DecimalString(y)) == Some(y) && '-' !in DecimalString(y)
  {
    ParseIntOfPadded(y, 0);
    assert PadStart(NatDigits(y), 0, '0') == DecimalString(y);
  }

  /** The UTC calendar day of time `t`. */
  function UtcDay(t: int): Calendar.Ymd {
    Calendar.DecodeDay(t / Calendar.MS_PER_DAY)
  }

  /**
    `formatLabel`: `DD-MM-YYYY` below 1/80 of a day per pixel, `MM-YYYY` below 3/4 of a
    day, the year alone above that; no date gives the empty label.
  */
  function FormatLabel(date: Option<int>, msPerPixel: real): string {
    if date.None? then ""
    else
      var d := UtcDay(date.value);
      if msPerPixel < MS_DAY / 80.0 then
        Calendar.Pad2(d.day) + "-" + Calendar.Pad2(d.month) + "-" + DecimalString(d.year)
      else if msPerPixel < (MS_DAY * 30.0) / 40.0 then
        Calendar.Pad2(d.month) + "-" + DecimalString(d.year)
      else DecimalString(d.year)
  }

  /** The decoded day is a calendar date and holds the time. */
  lemma UtcDaySpec(t: int)
    ensures var d := UtcDay(t);
      Calendar.ValidYmd(d)
      && Calendar.MakeDay(d.year, d.month - 1, d.day) * Calendar.MS_PER_DAY <= t
      && t < Calendar.MakeDay(d.year, d.month - 1, d.day) * Calendar.MS_PER_DAY + Calendar.MS_PER_DAY
  {
    var z := t / Calendar.MS_PER_DAY;
    assert Calendar.MakeDay(UtcDay(t).year, UtcDay(t).month - 1, UtcDay(t).day) == z;
  }

  lemma DayLabel(d: Calendar.Ymd)
    requires 1 <= d.day && 1 <= d.month && d.year >= 0
    ensures var parts := Split(Calendar.Pad2(d.day) + "-" + Calendar.Pad2(d.month) + "-" + DecimalString(d.year), '-');
      |parts| == 3 && ParseInt(parts[0]) == Some(d.day) && ParseInt(parts[1]) == Some(d.month)
      && ParseInt(parts[2]) == Some(d.year)
  {
    PadSpec(d.day);
    PadSpec(d.month);
    YearText(d.year);
    SplitThree(Calendar.Pad2(d.day), Calendar.Pad2(d.month), DecimalString(d.year), '-');
  }

  lemma MonthLabel(d: Calendar.Ymd)
    requires 1 <= d.month && d.year >= 0
    ensures var parts := Split(Calendar.Pad2(d.month) + "-" + DecimalString(d.year), '-');
      |parts| == 2 && ParseInt(parts[0]) == Some(d.month) && ParseInt(parts[1]) == Some(d.year)
  {
    PadSpec(d.month);
    YearText(d.year);
    SplitTwo(Calendar.Pad2(d.month), DecimalString(d.year), '-');
  }

  lemma YearLabel(d: Calendar.Ymd)
    requires d.year >= 0
    ensures var parts := Split(DecimalString(d.year), '-');
      |parts| == 1 && ParseInt(parts[0]) == Some(d.year)
  {
    YearText(d.year);
    SplitNoSeparator(DecimalString(d.year), '-');
  }

  /**
    A label reads back, field by field, as the UTC day, month and year of its time,
    and that day holds the time.
  */
  lemma LabelReadsBack(t: int, msPerPixel: real)
    requires UtcDay(t).year >= 0
    ensures var d := UtcDay(t);
      var parts := Split(FormatLabel(Some(t), msPerPixel), '-');
      Calendar.ValidYmd(d)
      && Calendar.MakeDay(d.year, d.month - 1, d.day) * Calendar.MS_PER_DAY <= t
      && t < Calendar.MakeDay(d.year, d.month - 1, d.day) * Calendar.MS_PER_DAY + Calendar.MS_PER_DAY
      && (msPerPixel < MS_DAY / 80.0 ==>
            |parts| == 3 && ParseInt(parts[0]) == Some(d.day) && ParseInt(parts[1]) == Some(d.month)
            && ParseInt(parts[2]) == Some(d.year))
      && (MS_DAY / 80.0 <= msPerPixel < (MS_DAY * 30.0) / 40.0 ==>
            |parts| == 2 && ParseInt(parts[0]) == Some(d.month) && ParseInt(parts[1]) == Some(d.year))
      && ((MS_DAY * 30.0) / 40.0 <= msPerPixel ==>
            |parts| == 1 && ParseInt(parts[0]) == Some(d.year))
  {
    var d := UtcDay(t);
    UtcDaySpec(t);
    if msPerPixel < MS_DAY / 80.0 {
      DayLabel(d);
    } else if msPerPixel < (MS_DAY * 30.0) / 40.0 {
      MonthLabel(d);
    } else {
      YearLabel(d);
    }
  }

  // ---------------------------------------------------------------------------
  // chooseInterval

  datatype Unit = Day | Week | Month | Year

  datatype Interval = Interval(unit: Unit, count: nat, ms: real)

  /**
    The intervals `chooseInterval` picks from, shortest first; the choice itself is
    `TimelineMath.ChooseInterval(INTERVALS, iv => iv.ms, ...)`.
  */
  const INTERVALS: seq<Interval> := [
    Interval(Day, 1, MS_DAY), Interval(Day, 3, 3.0 * MS_DAY), Interval(Week, 7, 7.0 * MS_DAY),
    Interval(Month, 1, MS_DAY * 30.0), Interval(Month, 3, MS_DAY * 90.0),
    Interval(Year, 1, MS_YEAR), Interval(Year, 5, MS_YEAR * 5.0), Interval(Year, 10, MS_YEAR * 10.0)]

  // ---------------------------------------------------------------------------
  // The overview histogram

  /** One bucket per eight pixels, at least 10 and at most 240. */
  function BucketCount(width: real): (n: int)
    ensures 10 <= n <= 240
    ensures 80.0 <= width < 1928.0 ==> n == (width / 8.0).Floor
  {
    var f := (width / 8.0).Floor;
    if f < 240 then (if f < 10 then 10 else f) else 240
  }

  /** The bucket of time `t` in `[os, oe]` split into `count` equal buckets. */
  function BucketIndex(t: int, os: real, oe: real, count: int): (b: int)
    requires os < oe && count >= 1
    ensures 0 <= b < count
  {
    var f := ((t as real - os) / (oe - os) * count as real).Floor;
    var m := if 0 < f then f else 0;
    if count - 1 < m then count - 1 else m
  }

  lemma FloorMonotone(x: real, y: real)
    requires x <= y
    ensures x.Floor <= y.Floor
  {
  }

  lemma ScaledMonotone(a: real, b: real, os: real, oe: real, count: int)
    requires os < oe && count >= 1 && a <= b
    ensures (a - os) / (oe - os) * count as real <= (b - os) / (oe - os) * count as real
  {
    var w := oe - os;
    assert (a - os) / w <= (b - os) / w;
  }

  /** Every time lands in a bucket, the window's start in the first and its end in the last. */
  lemma BucketIndexRange(t: int, os: real, oe: real, count: int)
    requires os < oe && count >= 1
    ensures 0 <= BucketIndex(t, os, oe, count) < count
    ensures t as real == os ==> BucketIndex(t, os, oe, count) == 0
    ensures t as real == oe ==> BucketIndex(t, os, oe, count) == count - 1
  {
    var q := (t as real - os) / (oe - os);
    if t as real == os {
      assert q == 0.0;
      assert q * count as real == 0.0;
    }
    if t as real == oe {
      DivSelf(oe - os);
      assert q == 1.0;
      assert q * count as real == count as real;
    }
  }

  lemma DivSelf(w: real)
    requires w > 0.0
    ensures w / w == 1.0
  {
  }

  /** A later time never lands in an earlier bucket. */
  lemma BucketIndexMonotone(t: int, u: int, os: real, oe: real, count: int)
    requires os < oe && count >= 1 && t <= u
    ensures BucketIndex(t, os, oe, count) <= BucketIndex(u, os, oe, count)
  {
    var x := (t as real - os) / (oe - os) * count as real;
    var y := (u as real - os) / (oe - os) * count as real;
    ScaledMonotone(t as real, u as real, os, oe, count);
    assert x <= y;
    FloorMonotone(x, y);
  }

  predicate InWindow(t: int, os: real, oe: real) {
    os <= t as real <= oe
  }

  function Zeros(n: nat): (z: seq<int>)
    ensures |z| == n && forall i :: 0 <= i < n ==> z[i] == 0
  {
    if n == 0 then [] else Zeros(n - 1) + [0]
  }

  /** The bucket counts after the first `|times|` items, built one item at a time. */
  function Histogram(times: seq<int>, os: real, oe: real, count: int): (h: seq<int>)
    requires os < oe && count >= 1
    ensures |h| == count
  {
    if times == [] then Zeros(count)
    else
      var h := Histogram(times[..|times| - 1], os, oe, count);
      var t := times[|times| - 1];
      if InWindow(t, os, oe) then
        var i := BucketIndex(t, os, oe, count);
        BucketIndexRange(t, os, oe, count);
        h[i := h[i] + 1]
      else h
  }

  /** How many of `times` fall in the window and in bucket `i`. */
  function CountIn(times: seq<int>, os: real, oe: real, count: int, i: int): nat
    requires os < oe && count >= 1
  {
    if times == [] then 0
    else
      var t := times[|times| - 1];
      CountIn(times[..|times| - 1], os, oe, count, i)
      + (if InWindow(t, os, oe) && BucketIndex(t, os, oe, count) == i then 1 else 0)
  }

  /** How many of `times` fall in the window. */
  function InWindowCount(times: seq<int>, os: real, oe: real): nat {
    if times == [] then 0
    else InWindowCount(times[..|times| - 1], os, oe) + (if InWindow(times[|times| - 1], os, oe) then 1 else 0)
  }

  function Sum(h: seq<int>): int {
    if h == [] then 0 else Sum(h[..|h| - 1]) + h[|h| - 1]
  }

  lemma {:induction false} SumBump(h: seq<int>, i: int)
    requires 0 <= i < |h|
    ensures Sum(h[i := h[i] + 1]) == Sum(h) + 1
  {
    var n := |h| - 1;
    var h' := h[i := h[i] + 1];
    assert h'[..n] == (if i < n then h[..n][i := h[i] + 1] else h[..n]);
    if i < n {
      SumBump(h[..n], i);
    }
  }

  lemma {:induction false} SumZeros(n: nat)
    ensures Sum(Zeros(n)) == 0
  {
    if n > 0 {
      assert Zeros(n)[..n - 1] == Zeros(n - 1);
      SumZeros(n - 1);
    }
  }

  /**
    Bucket `i` counts exactly the items in the window whose bucket is `i`, and the
    buckets together count every item in the window once.
  */
  lemma {:induction false} HistogramSpec(times: seq<int>, os: real, oe: real, count: int)
    requires os < oe && count >= 1
    ensures var h := Histogram(times, os, oe, count);
      (forall i :: 0 <= i < count ==> h[i] == CountIn(times, os, oe, count, i))
      && Sum(h) == InWindowCount(times, os, oe)
  {
    if times == [] {
      SumZeros(count);
    } else {
      var init := times[..|times| - 1];
      var t := times[|times| - 1];
      HistogramSpec(init, os, oe, count);
      var prev := Histogram(init, os, oe, count);
      if InWindow(t, os, oe) {
        BucketIndexRange(t, os, oe, count);
        SumBump(prev, BucketIndex(t, os, oe, count));
      }
    }
  }

  /** The overview's bucket loop: a zero-filled array, one increment per item in the window. */
  method OverviewBuckets(times: seq<int>, os: real, oe: real, count: int) returns (buckets: array<int>)
    requires os < oe && count >= 1
    ensures fresh(buckets)
    ensures buckets[..] == Histogram(times, os, oe, count)
  {
    buckets := new int[count](_ => 0);
    assert times[..0] == [];
    assert buckets[..] == Zeros(count);
    var k := 0;
    while k < |times|
      invariant 0 <= k <= |times|
      invariant buckets.Length == count
      invariant buckets[..] == Histogram(times[..k], os, oe, count)
    {
      var t := times[k];
      assert times[..k + 1][..k] == times[..k];
      if InWindow(t, os, oe) {
        var i := BucketIndex(t, os, oe, count);
        BucketIndexRange(t, os, oe, count);
        buckets[i] := buckets[i] + 1;
      }
      k := k + 1;
    }
    assert times[..k] == times;
  }

  // ---------------------------------------------------------------------------
  // The two zoom handlers

  /** The detail wheel handler's new window. */
  function DetailZoom(start: real, end: real, mouse: real, factor: real): (w: Option<(real, real)>)
    ensures w.Some? <==> start != end
  {
    ZoomAbout(start, end, mouse, factor, MS_DAY / 2.0, MS_YEAR * 20.0)
  }

  /** The overview wheel handler's new window. */
  function OverviewZoom(start: real, end: real, mouse: real, factor: real): (w: Option<(real, real)>)
    ensures w.Some? <==> start != end
  {
    ZoomAbout(start, end, mouse, factor, OVERVIEW_MIN_RANGE, MS_YEAR * 200.0)
  }

  /** The detail range stays within half a `MS_DAY` and twenty `MS_YEAR`s, anchored at the mouse. */
  lemma DetailZoomSpec(start: real, end: real, mouse: real, factor: real)
    requires start != end
    ensures var w := DetailZoom(start, end, mouse, factor);
      w.Some? && MS_DAY / 2.0 <= w.value.1 - w.value.0 <= MS_YEAR * 20.0
      && (mouse - w.value.0) / (w.value.1 - w.value.0) == (mouse - start) / (end - start)
  {
    ZoomSpec(start, end, mouse, factor, MS_DAY / 2.0, MS_YEAR * 20.0);
  }

  /** The overview range stays within 1.5 and 200 `MS_YEAR`s, anchored at the mouse. */
  lemma OverviewZoomSpec(start: real, end: real, mouse: real, factor: real)
    requires start != end
    ensures var w := OverviewZoom(start, end, mouse, factor);
      w.Some? && OVERVIEW_MIN_RANGE <= w.value.1 - w.value.0 <= MS_YEAR * 200.0
      && (mouse - w.value.0) / (w.value.1 - w.value.0) == (mouse - start) / (end - start)
  {
    ZoomSpec(start, end, mouse, factor, OVERVIEW_MIN_RANGE, MS_YEAR * 200.0);
  }
}
