/**
  The data side of the re-entry timeline: the items built from classified satellites,
  the mode filter, the padded bounds of the shown items, the tick interval for a
  range and the clamp on the detail zoom.
*/
module ReentryTimeline {
  import opened Wrappers
  import opened TimelineMath

  const MS_DAY: real := 86_400_000.0
  const MS_YEAR: real := 365.25 * MS_DAY
  const OVERVIEW_MIN_RANGE: real := MS_YEAR

  /** A satellite's `mesh`: `visible` is `None` while the property is not set. */
  datatype Mesh = Mesh(visible: Option<bool>)

  /** `predicted_decay_window`: two date texts and an optional confidence. */
  datatype RawWindow = RawWindow(start: string, end: string, confidence: Option<real>)

  /** The `decay` object on a satellite; a missing text is the empty text. */
  datatype RawDecay = RawDecay(status: string, decayDate: string, window: Option<RawWindow>, reason: string)

  datatype Sat = Sat(decay: Option<RawDecay>, mesh: Option<Mesh>)

  datatype Item =
    | ConfirmedItem(time: int, sat: Sat, index: nat, reason: string)
    | PredictedItem(start: int, end: int, confidence: real, sat: Sat, index: nat, reason: string)

  /** The sort key: the time of a confirmed item, the window start of a predicted one. */
  function Key(item: Item): int {
    if item.ConfirmedItem? then item.time else item.start
  }

  function End(item: Item): int {
    if item.ConfirmedItem? then item.time else item.end
  }

  function Index(item: Item): int {
    item.index
  }

  // ---------------------------------------------------------------------------
  // buildTimelineData

  /** The item for the satellite at input position `idx`, if it has a usable decay. */
  function ItemOf(sat: Sat, idx: nat, parse: DateParser): (it: Option<Item>)
    ensures it.Some? ==> it.value.index == idx && it.value.sat == sat
  {
    var d := sat.decay.GetOr(RawDecay("", "", None, ""));
    if d.status == "CONFIRMED" && d.decayDate != "" && parse(d.decayDate).Some? then
      Some(ConfirmedItem(parse(d.decayDate).value, sat, idx, d.reason))
    else if d.status == "PREDICTED" && d.window.Some?
            && parse(d.window.value.start).Some? && parse(d.window.value.end).Some? then
      Some(PredictedItem(parse(d.window.value.start).value, parse(d.window.value.end).value,
                         d.window.value.confidence.GetOr(0.0), sat, idx, d.reason))
    else None
  }

  /** The `map` and `filter(Boolean)` steps: the items in input order. */
  function Items(sats: seq<Sat>, parse: DateParser): seq<Item> {
    Collect(sats, (sat: Sat, idx: nat) => ItemOf(sat, idx, parse))
  }

  /** `buildTimelineData`: the items sorted by key, stably. */
  function BuildTimelineData(sats: seq<Sat>, parse: DateParser): seq<Item> {
    SortBy(Items(sats, parse), Key)
  }

  /**
    Only confirmed satellites with a valid decay date and predicted ones with a valid
    window give an item, which carries its input position; a missing confidence is 0.
  */
  lemma ItemOfSpec(sat: Sat, idx: nat, parse: DateParser)
    ensures var d := sat.decay.GetOr(RawDecay("", "", None, ""));
      var it := ItemOf(sat, idx, parse);
      (it.Some? <==>
        (d.status == "CONFIRMED" && d.decayDate != "" && parse(d.decayDate).Some?)
        || (d.status == "PREDICTED" && d.window.Some?
            && parse(d.window.value.start).Some? && parse(d.window.value.end).Some?))
      && (it.Some? ==> it.value.index == idx && it.value.sat == sat)
      && (it.Some? && it.value.ConfirmedItem? ==> d.status == "CONFIRMED")
      && (it.Some? && it.value.PredictedItem? ==>
            d.status == "PREDICTED" && d.window.Some?
            && it.value.confidence == (if d.window.value.confidence.None? then 0.0 else d.window.value.confidence.value))
  {
  }

  /**
    The timeline data is sorted by key, equal keys in input order, and holds exactly
    one item for each satellite that gives one, at its input position.
  */
  lemma BuildTimelineDataSpec(sats: seq<Sat>, parse: DateParser)
    ensures var data := BuildTimelineData(sats, parse);
      SortedBy(data, Key, Index)
      && multiset(data) == multiset(Items(sats, parse))
      && (forall it :: it in data ==> it.index < |sats| && ItemOf(sats[it.index], it.index, parse) == Some(it))
      && (forall k :: 0 <= k < |sats| && ItemOf(sats[k], k, parse).Some? ==> ItemOf(sats[k], k, parse).value in data)
  {
    var f := (sat: Sat, idx: nat) => ItemOf(sat, idx, parse);
    forall sat, idx: nat | f(sat, idx).Some? ensures Index(f(sat, idx).value) == idx {
      ItemOfSpec(sat, idx, parse);
    }
    var items := Items(sats, parse);
    CollectSound(sats, f, Index);
    CollectOrdered(sats, f, Index);
    CollectComplete(sats, f);
    SortBySpec(items, Key, Index);
    var data := SortBy(items, Key);
    forall it | it in data ensures it in items {
      assert it in multiset(data);
    }
    forall it | it in items ensures it in data {
      assert it in multiset(items);
    }
  }

  // ---------------------------------------------------------------------------
  // The filter in getFilteredData

  /** `sat?.mesh && sat.mesh.visible === false`. */
  predicate Hidden(sat: Sat) {
    sat.mesh.Some? && sat.mesh.value.visible == Some(false)
  }

  function TypeName(item: Item): string {
    if item.ConfirmedItem? then "CONFIRMED" else "PREDICTED"
  }

  predicate Shown(item: Item, mode: string) {
    !Hidden(item.sat) && (mode == "ALL" || TypeName(item) == mode)
  }

  function FilteredData(data: seq<Item>, mode: string): (shown: seq<Item>)
    ensures |shown| <= |data|
    ensures forall it :: it in shown ==> it in data && Shown(it, mode)
  {
    if data == [] then []
    else
      var last := data[|data| - 1];
      FilteredData(data[..|data| - 1], mode) + (if Shown(last, mode) then [last] else [])
  }

  /**
    The filter keeps, in order, exactly the items whose mesh is not hidden and, unless
    the mode is `ALL`, whose type is the mode; a sorted list stays sorted.
  */
  lemma {:induction false} FilterSpec(data: seq<Item>, mode: string)
    ensures var f := FilteredData(data, mode);
      (forall it :: it in f <==> it in data && !Hidden(it.sat) && (mode == "ALL" || TypeName(it) == mode))
      && (SortedBy(data, Key, Index) ==> SortedBy(f, Key, Index))
  {
    if data != [] {
      var init := data[..|data| - 1];
      var last := data[|data| - 1];
      FilterSpec(init, mode);
      assert data == init + [last];
      var prev := FilteredData(init, mode);
      if SortedBy(data, Key, Index) {
        SortedPrefix(init, last);
        if Shown(last, mode) {
          forall y | y in prev ensures Before(y, last, Key, Index) {
            assert y in init;
          }
          SortedSnoc(prev, last);
          assert FilteredData(data, mode) == prev + [last];
        } else {
          assert FilteredData(data, mode) == prev;
        }
      }
    }
  }

  lemma {:induction false} SortedPrefix(init: seq<Item>, last: Item)
    requires SortedBy(init + [last], Key, Index)
    ensures SortedBy(init, Key, Index)
    ensures forall y :: y in init ==> Before(y, last, Key, Index)
  {
    if init != [] {
      var s := init + [last];
      assert s[0] == init[0] && s[1..] == init[1..] + [last];
      SortedPrefix(init[1..], last);
      assert last in s[1..];
      assert forall y :: y in init[1..] ==> y in s[1..];
      forall y | y in init ensures Before(y, last, Key, Index) {
        if y != init[0] {
          assert y in init[1..];
        }
      }
    }
  }

  lemma {:induction false} SortedSnoc(s: seq<Item>, last: Item)
    requires SortedBy(s, Key, Index)
    requires forall y :: y in s ==> Before(y, last, Key, Index)
    ensures SortedBy(s + [last], Key, Index)
  {
    if s != [] {
      assert (s + [last])[1..] == s[1..] + [last];
      SortedSnoc(s[1..], last);
      forall y | y in (s + [last])[1..] ensures Before(s[0], y, Key, Index) {
      }
    }
  }

  // ---------------------------------------------------------------------------
  // getTimelineBounds

  function MinStart(data: seq<Item>): int
    requires data != []
  {
    if |data| == 1 then Key(data[0])
    else
      var m := MinStart(data[..|data| - 1]);
      if Key(data[|data| - 1]) < m then Key(data[|data| - 1]) else m
  }

  function MaxEnd(data: seq<Item>): int
    requires data != []
  {
    if |data| == 1 then End(data[0])
    else
      var m := MaxEnd(data[..|data| - 1]);
      if End(data[|data| - 1]) > m then End(data[|data| - 1]) else m
  }

  /** The padding: seven days, or five percent of the span when that is more. */
  function Padding(lo: int, hi: int): real {
    var pct := (hi - lo) as real * 0.05;
    if MS_DAY * 7.0 < pct then pct else MS_DAY * 7.0
  }

  /** `getTimelineBounds`: one pass keeping the smallest start and the largest end. */
  method TimelineBounds(data: seq<Item>) returns (r: Option<(real, real)>)
    ensures data == [] ==> r == None
    ensures data != [] ==> r == Some((MinStart(data) as real - Padding(MinStart(data), MaxEnd(data)),
                                      MaxEnd(data) as real + Padding(MinStart(data), MaxEnd(data))))
  {
    if |data| == 0 {
      return None;
    }
    var lo := Key(data[0]);
    var hi := End(data[0]);
    var i := 1;
    while i < |data|
      invariant 1 <= i <= |data|
      invariant lo == MinStart(data[..i]) && hi == MaxEnd(data[..i])
    {
      assert data[..i + 1][..i] == data[..i];
      if Key(data[i]) < lo {
        lo := Key(data[i]);
      }
      if End(data[i]) > hi {
        hi := End(data[i]);
      }
      i := i + 1;
    }
    assert data[..i] == data;
    var padding := Padding(lo, hi);
    r := Some((lo as real - padding, hi as real + padding));
  }

  lemma {:induction false} MinMaxSpec(data: seq<Item>)
    requires data != []
    ensures forall it :: it in data ==> MinStart(data) <= Key(it) && End(it) <= MaxEnd(data)
    ensures exists it :: it in data && Key(it) == MinStart(data)
    ensures exists it :: it in data && End(it) == MaxEnd(data)
  {
    if |data| > 1 {
      var init := data[..|data| - 1];
      MinMaxSpec(init);
      assert data == init + [data[|data| - 1]];
    }
  }

  /**
    The bounds reach at least seven days, and at least five percent of the span, past
    the earliest start and the latest end.
  */
  lemma BoundsSpec(data: seq<Item>)
    requires data != []
    ensures var lo, hi := MinStart(data), MaxEnd(data);
      var p := Padding(lo, hi);
      p >= MS_DAY * 7.0 && p >= (hi - lo) as real * 0.05
      && forall it :: it in data ==> lo as real - p <= Key(it) as real - MS_DAY * 7.0
                                     && hi as real + p >= End(it) as real + MS_DAY * 7.0
  {
    MinMaxSpec(data);
  }

  // ---------------------------------------------------------------------------
  // chooseInterval and the zoom clamp

  datatype Unit = Day | Month | Year

  datatype Interval = Interval(unit: Unit, count: nat, ms: real)

  /**
    The intervals `chooseInterval` picks from, shortest first; the choice itself is
    `TimelineMath.ChooseInterval(INTERVALS, iv => iv.ms, ...)`.
  */
  const INTERVALS: seq<Interval> := [
    Interval(Day, 1, MS_DAY), Interval(Day, 2, 2.0 * MS_DAY), Interval(Day, 7, 7.0 * MS_DAY),
    Interval(Month, 1, MS_DAY * 30.0), Interval(Month, 2, MS_DAY * 60.0), Interval(Year, 1, MS_YEAR)]

  /** The detail wheel handler's new window. */
  function DetailZoom(start: real, end: real, mouse: real, factor: real): (w: Option<(real, real)>)
    ensures w.Some? <==> start != end
  {
    ZoomAbout(start, end, mouse, factor, MS_DAY / 3.0, MS_YEAR)
  }

  /** A detail zoom keeps the range within eight hours and a year, anchored at the mouse. */
  lemma DetailZoomSpec(start: real, end: real, mouse: real, factor: real)
    requires start != end
    ensures var w := DetailZoom(start, end, mouse, factor);
      w.Some? && MS_DAY / 3.0 <= w.value.1 - w.value.0 <= MS_YEAR
      && (mouse - w.value.0) / (w.value.1 - w.value.0) == (mouse - start) / (end - start)
  {
    ZoomSpec(start, end, mouse, factor, MS_DAY / 3.0, MS_YEAR);
  }

  /** The overview wheel handler's new window. */
  function OverviewZoom(start: real, end: real, mouse: real, factor: real): (w: Option<(real, real)>)
    ensures w.Some? <==> start != end
  {
    ZoomAbout(start, end, mouse, factor, OVERVIEW_MIN_RANGE, MS_YEAR * 3.0)
  }

  /** An overview zoom keeps the range within one and three years, anchored at the mouse. */
  lemma OverviewZoomSpec(start: real, end: real, mouse: real, factor: real)
    requires start != end
    ensures var w := OverviewZoom(start, end, mouse, factor);
      w.Some? && OVERVIEW_MIN_RANGE <= w.value.1 - w.value.0 <= MS_YEAR * 3.0
      && (mouse - w.value.0) / (w.value.1 - w.value.0) == (mouse - start) / (end - start)
  {
    ZoomSpec(start, end, mouse, factor, OVERVIEW_MIN_RANGE, MS_YEAR * 3.0);
  }
}
