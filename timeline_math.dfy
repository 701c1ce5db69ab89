/**
  The arithmetic the two timeline widgets share: mapping between time and x-position,
  the nearest tick interval, day-interval ticks, zooming about the mouse and the stable
  sort of timeline items. Times are integer milliseconds; positions, ranges and ratios
  are exact reals.
*/
module TimelineMath {
  import opened Wrappers

  /** `new Date(text).getTime()`: a time, or `None` for an invalid date. */
  type DateParser = string -> Option<int>

  function Abs(x: real): real {
    if x < 0.0 then -x else x
  }

  /** `Math.min(hi, Math.max(lo, x))`. */
  function Clamp(lo: real, hi: real, x: real): (r: real)
    ensures lo <= hi ==> lo <= r <= hi
    ensures lo <= x <= hi ==> r == x
    ensures x < lo <= hi ==> r == lo
    ensures lo <= hi < x ==> r == hi
  {
    var m := if lo < x then x else lo;
    if hi < m then hi else m
  }

  // ---------------------------------------------------------------------------
  // timeToX and xToTime

  /**
    `timeToX`: the position of `time` on a strip `width` wide showing `[start, end]`.
    A zero-length range divides by zero, which gives no finite position.
  */
  function TimeToX(time: real, start: real, end: real, width: real): (x: Option<real>)
    ensures x.Some? <==> end != start
  {
    if end == start then None else Some(((time - start) / (end - start)) * width)
  }

  /** `xToTime`: the time at position `x`; a zero width gives no finite time. */
  function XToTime(x: real, start: real, end: real, width: real): (t: Option<real>)
    ensures t.Some? <==> width != 0.0
  {
    if width == 0.0 then None else Some(start + (x / width) * (end - start))
  }

  /** Mapping a time to a position and back gives the time again. */
  lemma TimeRoundTrip(time: real, start: real, end: real, width: real)
    requires end != start && width != 0.0
    ensures XToTime(TimeToX(time, start, end, width).value, start, end, width) == Some(time)
  {
    var r := end - start;
    var q := (time - start) / r;
    var x := TimeToX(time, start, end, width).value;
    assert x == q * width;
    assert x / width == q;
    assert q * r == time - start;
    assert XToTime(x, start, end, width).value == start + q * r;
  }

  /** The ends of the range map to the ends of the strip, and later times lie further right. */
  lemma TimeToXOrder(t1: real, t2: real, start: real, end: real, width: real)
    requires start < end && 0.0 < width
    ensures TimeToX(start, start, end, width) == Some(0.0)
    ensures TimeToX(end, start, end, width) == Some(width)
    ensures t1 <= t2 ==> TimeToX(t1, start, end, width).value <= TimeToX(t2, start, end, width).value
  {
    var r := end - start;
    assert r / r == 1.0;
    if t1 <= t2 {
      assert (t1 - start) / r <= (t2 - start) / r;
    }
  }

  // ---------------------------------------------------------------------------
  // Zooming about the mouse

  /**
    The wheel handlers: the new range is the old one times `factor`, clamped to
    `[lo, hi]`, and the window is placed so that `mouse` keeps its relative position.
    A zero-length range gives no finite window.
  */
  function ZoomAbout(start: real, end: real, mouse: real, factor: real, lo: real, hi: real): (w: Option<(real, real)>)
    ensures w.Some? <==> start != end
  {
    var range := end - start;
    if range == 0.0 then None
    else
      var newRange := Clamp(lo, hi, range * factor);
      var tRatio := (mouse - start) / range;
      var newStart := mouse - newRange * tRatio;
      Some((newStart, newStart + newRange))
  }

  /**
    After a zoom the range lies in `[lo, hi]`, and the mouse time sits at the same
    fraction of the new window as of the old one.
  */
  lemma ZoomSpec(start: real, end: real, mouse: real, factor: real, lo: real, hi: real)
    requires start != end && 0.0 < lo <= hi
    ensures var w := ZoomAbout(start, end, mouse, factor, lo, hi);
      w.Some?
      && lo <= w.value.1 - w.value.0 <= hi
      && (mouse - w.value.0) / (w.value.1 - w.value.0) == (mouse - start) / (end - start)
  {
    var range := end - start;
    var newRange := Clamp(lo, hi, range * factor);
    var tRatio := (mouse - start) / range;
    var newStart := mouse - newRange * tRatio;
    assert newStart + newRange - newStart == newRange;
    assert (mouse - newStart) / newRange == (newRange * tRatio) / newRange;
  }

  // ---------------------------------------------------------------------------
  // The nearest interval

  /**
    `k` is the first index whose value is nearest to `target`: no value is nearer and
    every earlier value is strictly farther.
  */
  predicate IsEarliestNearest(ms: seq<real>, target: real, k: int) {
    0 <= k < |ms|
    && (forall j :: 0 <= j < |ms| ==> Abs(ms[k] - target) <= Abs(ms[j] - target))
    && (forall j :: 0 <= j < k ==> Abs(ms[k] - target) < Abs(ms[j] - target))
  }

  /**
    The loop of `chooseInterval`: keep the first interval and replace it only by one
    strictly nearer to the target.
  */
  method NearestIndex(ms: seq<real>, target: real) returns (best: nat)
    requires |ms| >= 1
    ensures IsEarliestNearest(ms, target, best)
  {
    best := 0;
    var bestDiff := Abs(ms[0] - target);
    var i := 0;
    while i < |ms|
      invariant 0 <= i <= |ms| && best < |ms| && (best < i || best == 0)
      invariant bestDiff == Abs(ms[best] - target)
      invariant forall j :: 0 <= j < i ==> bestDiff <= Abs(ms[j] - target)
      invariant forall j :: 0 <= j < best ==> bestDiff < Abs(ms[j] - target)
    {
      var diff := Abs(ms[i] - target);
      if diff < bestDiff {
        best := i;
        bestDiff := diff;
      }
      i := i + 1;
    }
  }

  /** The length of each interval of a table. */
  function Lengths<T>(intervals: seq<T>, length: T -> real): (ms: seq<real>)
    ensures |ms| == |intervals| && forall i :: 0 <= i < |intervals| ==> ms[i] == length(intervals[i])
  {
    seq(|intervals|, i requires 0 <= i < |intervals| => length(intervals[i]))
  }

  /**
    `chooseInterval` over a table of intervals: the interval whose length is nearest to
    `spacingTarget` pixels' worth of time, the earliest on ties. A zero width makes the
    target infinite, no difference is smaller than the first, and the first interval is
    kept.
  */
  method ChooseInterval<T>(intervals: seq<T>, length: T -> real, rangeMs: real, width: real, spacingTarget: real)
    returns (iv: T)
    requires |intervals| >= 1
    ensures width == 0.0 ==> iv == intervals[0]
    ensures width != 0.0 ==>
      exists k :: 0 <= k < |intervals| && iv == intervals[k]
                  && IsEarliestNearest(Lengths(intervals, length), (rangeMs / width) * spacingTarget, k)
  {
    if width == 0.0 {
      return intervals[0];
    }
    var k := NearestIndex(Lengths(intervals, length), (rangeMs / width) * spacingTarget);
    iv := intervals[k];
  }

  /** There is only one earliest nearest index, so the interval chosen is determined. */
  lemma NearestUnique(ms: seq<real>, target: real, k1: int, k2: int)
    requires IsEarliestNearest(ms, target, k1) && IsEarliestNearest(ms, target, k2)
    ensures k1 == k2
  {
    assert Abs(ms[k1] - target) <= Abs(ms[k2] - target) && Abs(ms[k2] - target) <= Abs(ms[k1] - target);
  }

  // ---------------------------------------------------------------------------
  // Ticks at day intervals

  /** The length of a UTC calendar day, the step `setUTCDate` takes per day. */
  const MS_PER_DAY: int := 86_400_000

  /** `setUTCHours(0, 0, 0, 0)`: the UTC midnight at or before `t`. */
  function DayFloor(t: int): (a: int)
    ensures a <= t < a + MS_PER_DAY && a % MS_PER_DAY == 0
  {
    t - t % MS_PER_DAY
  }

  /** The first tick: the aligned midnight, moved one step on when it lies before `start`. */
  function FirstTick(start: int, step: int): (first: int)
    ensures step >= MS_PER_DAY ==> start <= first < start + step
  {
    var a := DayFloor(start);
    if a < start then a + step else a
  }

  /** The ticks from `first` on, `step` apart, up to and including `end`. */
  function TickSeq(first: int, end: int, step: int): (ts: seq<int>)
    requires step > 0
    ensures forall i :: 0 <= i < |ts| ==> first <= ts[i] <= end
    decreases end - first + step
  {
    if first > end then [] else [first] + TickSeq(first + step, end, step)
  }

  lemma ProductSign(x: int, y: int)
    requires y > 0
    ensures x <= 0 ==> x * y <= 0
  {
  }

  lemma PositiveFactor(x: int, y: int)
    requires y > 0 && x * y > 0
    ensures x > 0
  {
    ProductSign(x, y);
  }

  /** A run of `k` steps from an aligned point that lands in `[start, start + step)` is the first tick. */
  lemma FirstTickUnique(start: int, step: int, k: int)
    requires step >= MS_PER_DAY
    requires var a := DayFloor(start); start <= a + k * step < start + step
    ensures DayFloor(start) + k * step == FirstTick(start, step)
  {
    var a := DayFloor(start);
    assert (k + 1) * step == k * step + step;
    PositiveFactor(k + 1, step);
    assert (2 - k) * step == 2 * step - k * step;
    PositiveFactor(2 - k, step);
    if k == 1 {
      assert a < start;
    }
  }

  /**
    `generateTicks` for an interval of `days` days: align to midnight, step back while
    past `start`, step forward while before it, then collect every step up to `end`.
  */
  method GenerateDayTicks(start: int, end: int, days: int) returns (ticks: seq<int>)
    requires days >= 1
    ensures ticks == TickSeq(FirstTick(start, days * MS_PER_DAY), end, days * MS_PER_DAY)
  {
    var step := days * MS_PER_DAY;
    var current := DayFloor(start);
    ghost var k := 0;
    // The source then steps back while the tick is after `start`; midnight never is.
    assert current <= start;
    while current < start
      invariant current == DayFloor(start) + k * step
      invariant current - step < start
      decreases start - current
    {
      current := current + step;
      k := k + 1;
    }
    FirstTickUnique(start, step, k);
    ticks := [];
    while current <= end
      invariant ticks + TickSeq(current, end, step) == TickSeq(FirstTick(start, step), end, step)
      decreases end - current + step
    {
      assert TickSeq(current, end, step) == [current] + TickSeq(current + step, end, step);
      ticks := ticks + [current];
      current := current + step;
    }
  }

  /**
    The ticks are `first`, `first + step`, ... : each inside `[first, end]`, and the
    next step after the last one would pass `end`.
  */
  lemma {:induction false} TickSeqSpec(first: int, end: int, step: int)
    requires step > 0
    ensures var ts := TickSeq(first, end, step);
      (forall i :: 0 <= i < |ts| ==> ts[i] == first + i * step && ts[i] <= end)
      && (ts == [] <==> first > end)
      && (ts != [] ==> ts[|ts| - 1] + step > end)
    decreases end - first + step
  {
    var ts := TickSeq(first, end, step);
    if first <= end {
      var rest := TickSeq(first + step, end, step);
      TickSeqSpec(first + step, end, step);
      assert ts == [first] + rest;
      forall i | 1 <= i < |ts| ensures ts[i] == first + i * step {
        assert ts[i] == rest[i - 1] == first + step + (i - 1) * step;
        assert (i - 1) * step + step == i * step;
      }
    }
  }

  lemma Aligned(a: int, n: int)
    requires a % MS_PER_DAY == 0
    ensures (a + n * MS_PER_DAY) % MS_PER_DAY == 0
  {
  }

  /**
    Day ticks lie in `[start, end]` on UTC midnights, one step apart (so strictly
    increasing); the first is less than one step after `start` and one more step after
    the last would pass `end`.
  */
  lemma DayTicksSpec(start: int, end: int, days: int)
    requires days >= 1
    ensures var step := days * MS_PER_DAY;
      var ts := TickSeq(FirstTick(start, step), end, step);
      (forall i :: 0 <= i < |ts| ==> start <= ts[i] <= end && ts[i] % MS_PER_DAY == 0)
      && (forall i :: 0 < i < |ts| ==> ts[i] == ts[i - 1] + step)
      && (ts != [] ==> ts[0] < start + step && ts[|ts| - 1] + step > end)
  {
    var step := days * MS_PER_DAY;
    var first := FirstTick(start, step);
    var ts := TickSeq(first, end, step);
    TickSeqSpec(first, end, step);
    Aligned(DayFloor(start), days);
    assert first % MS_PER_DAY == 0;
    forall i | 0 <= i < |ts| ensures start <= ts[i] && ts[i] % MS_PER_DAY == 0 {
      assert i * step == (i * days) * MS_PER_DAY;
      Aligned(first, i * days);
    }
    forall i | 0 < i < |ts| ensures ts[i] == ts[i - 1] + step {
      assert (i - 1) * step + step == i * step;
    }
  }

  // ---------------------------------------------------------------------------
  // The stable sort of `Array.prototype.sort`

  /** `a` comes before `b`: a smaller key, or an equal key and an earlier input position. */
  predicate Before<T>(a: T, b: T, key: T -> int, pos: T -> int) {
    key(a) < key(b) || (key(a) == key(b) && pos(a) < pos(b))
  }

  /** Every element comes before every later one. */
  predicate SortedBy<T(==)>(s: seq<T>, key: T -> int, pos: T -> int)
    decreases |s|
  {
    s == [] || ((forall y :: y in s[1..] ==> Before(s[0], y, key, pos)) && SortedBy(s[1..], key, pos))
  }

  /** Place `x` after every element whose key is not larger. */
  function Insert<T>(s: seq<T>, x: T, key: T -> int): seq<T> {
    if s == [] then [x]
    else if key(x) < key(s[0]) then [x] + s
    else [s[0]] + Insert(s[1..], x, key)
  }

  /** The stable sort by ascending key, inserting the elements in input order. */
  function SortBy<T>(s: seq<T>, key: T -> int): seq<T> {
    if s == [] then [] else Insert(SortBy(s[..|s| - 1], key), s[|s| - 1], key)
  }

  lemma {:induction false} InsertSpec<T>(s: seq<T>, x: T, key: T -> int, pos: T -> int)
    requires SortedBy(s, key, pos)
    requires forall y :: y in s ==> pos(y) < pos(x)
    ensures SortedBy(Insert(s, x, key), key, pos)
    ensures multiset(Insert(s, x, key)) == multiset(s) + multiset{x}
  {
    if s != [] {
      var r := Insert(s, x, key);
      assert s == [s[0]] + s[1..];
      if key(x) < key(s[0]) {
        assert r[1..] == s;
        forall y | y in s ensures Before(x, y, key, pos) {
          assert y == s[0] || y in s[1..];
        }
      } else {
        var tail := Insert(s[1..], x, key);
        InsertSpec(s[1..], x, key, pos);
        assert r[1..] == tail;
        forall y | y in tail ensures Before(s[0], y, key, pos) {
          assert y in multiset(tail);
        }
      }
    }
  }

  /**
    When input positions increase along `s`, sorting gives a permutation of `s` in
    which every element comes before every later one: ascending keys, equal keys in
    input order.
  */
  lemma {:induction false} SortBySpec<T>(s: seq<T>, key: T -> int, pos: T -> int)
    requires forall i, j :: 0 <= i < j < |s| ==> pos(s[i]) < pos(s[j])
    ensures SortedBy(SortBy(s, key), key, pos)
    ensures multiset(SortBy(s, key)) == multiset(s)
  {
    if s != [] {
      var init := s[..|s| - 1];
      var x := s[|s| - 1];
      SortBySpec(init, key, pos);
      forall y | y in SortBy(init, key) ensures pos(y) < pos(x) {
        assert y in multiset(init);
        var m :| 0 <= m < |init| && init[m] == y;
        assert s[m] == y;
      }
      InsertSpec(SortBy(init, key), x, key, pos);
      assert s == init + [x];
    }
  }

  // ---------------------------------------------------------------------------
  // `map` then `filter(Boolean)`

  /** The results `f` gives for the elements of `xs` and their positions, in input order. */
  function Collect<T, U>(xs: seq<T>, f: (T, nat) -> Option<U>): (us: seq<U>)
    ensures |us| <= |xs|
  {
    if xs == [] then []
    else
      var n := |xs| - 1;
      Collect(xs[..n], f) + (match f(xs[n], n) case Some(u) => [u] case None => [])
  }

  /** Every collected result is what `f` gives at some position. */
  lemma {:induction false} CollectSound<T, U>(xs: seq<T>, f: (T, nat) -> Option<U>, idx: U -> int)
    requires forall x, n: nat :: f(x, n).Some? ==> idx(f(x, n).value) == n
    ensures forall u :: u in Collect(xs, f) ==> 0 <= idx(u) < |xs| && f(xs[idx(u)], idx(u)) == Some(u)
  {
    if xs != [] {
      var n := |xs| - 1;
      var init := xs[..n];
      CollectSound(init, f, idx);
      forall u | u in Collect(xs, f) ensures 0 <= idx(u) < |xs| && f(xs[idx(u)], idx(u)) == Some(u) {
        if u in Collect(init, f) {
          assert xs[idx(u)] == init[idx(u)];
        } else {
          assert f(xs[n], n) == Some(u);
        }
      }
    }
  }

  /** The collected results keep the order of the positions they come from. */
  lemma {:induction false} CollectOrdered<T, U>(xs: seq<T>, f: (T, nat) -> Option<U>, idx: U -> int)
    requires forall x, n: nat :: f(x, n).Some? ==> idx(f(x, n).value) == n
    ensures forall i, j :: 0 <= i < j < |Collect(xs, f)| ==> idx(Collect(xs, f)[i]) < idx(Collect(xs, f)[j])
  {
    if xs != [] {
      var n := |xs| - 1;
      var init := xs[..n];
      CollectOrdered(init, f, idx);
      CollectSound(init, f, idx);
      var prev := Collect(init, f);
      var us := Collect(xs, f);
      forall i, j | 0 <= i < j < |us| ensures idx(us[i]) < idx(us[j]) {
        assert us[i] == prev[i];
        if j >= |prev| {
          assert us[i] in prev;
          assert idx(us[i]) < n;
          assert f(xs[n], n) == Some(us[j]);
          assert idx(us[j]) == n;
        } else {
          assert us[j] == prev[j];
          assert idx(prev[i]) < idx(prev[j]);
        }
      }
    }
  }

  /** Every position where `f` gives a result contributes it. */
  lemma {:induction false} CollectComplete<T, U>(xs: seq<T>, f: (T, nat) -> Option<U>)
    ensures forall k :: 0 <= k < |xs| && f(xs[k], k).Some? ==> f(xs[k], k).value in Collect(xs, f)
  {
    if xs != [] {
      var n := |xs| - 1;
      var init := xs[..n];
      CollectComplete(init, f);
      forall k | 0 <= k < |xs| && f(xs[k], k).Some? ensures f(xs[k], k).value in Collect(xs, f) {
        if k < n {
          assert xs[k] == init[k];
        }
      }
    }
  }
}
