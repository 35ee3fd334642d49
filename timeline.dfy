/** The time analysis of the AI summary and of the report: a `Time` cell is
    a timestamp in whole seconds after `pd.to_datetime`, `None` for NaT. */
module Timeline {

  import opened Wrappers
  import opened Frames
  import opened Ranking

  type Times = seq<Option<int>>

  /** `pd.Timedelta(hours=24)` and `pd.Timedelta(hours=48)`, in seconds. */
  const Day: int := 24 * 3600
  const TwoDays: int := 48 * 3600

  predicate AnyTime(ts: Times) {
    exists i :: 0 <= i < |ts| && ts[i].Some?
  }

  /** `df['Time'].max()`: the latest timestamp, NaT when there is none. */
  function Latest(ts: Times): (r: Option<int>)
    ensures r.Some? <==> AnyTime(ts)
    ensures r.Some? ==> r in ts
    ensures r.Some? ==> forall i :: 0 <= i < |ts| && ts[i].Some? ==> ts[i].value <= r.value
  {
    if ts == [] then None
    else
      var init := Latest(ts[..|ts| - 1]);
      var last := ts[|ts| - 1];
      assert forall i :: 0 <= i < |ts| - 1 ==> ts[i] == ts[..|ts| - 1][i];
      if last.None? then init
      else if init.None? || init.value < last.value then last
      else init
  }

  // ---------------------------------------------------------------------
  // Last 24 hours against the 24 hours before
  // ---------------------------------------------------------------------

  /** `Time >= latest - 24h`; a NaT compares false. */
  predicate InRecent(cell: Option<int>, latest: int) {
    cell.Some? && cell.value >= latest - Day
  }

  /** `latest - 48h <= Time < latest - 24h`. */
  predicate InPrevious(cell: Option<int>, latest: int) {
    cell.Some? && latest - TwoDays <= cell.value < latest - Day
  }

  datatype Windows = Windows(recent: nat, previous: nat)

  /** The two window counts; with no timestamp the latest is NaT and both
      are 0. */
  function CompareWindows(ts: Times): (w: Windows)
    ensures Latest(ts).None? ==> w == Windows(0, 0)
  {
    match Latest(ts)
    case None => Windows(0, 0)
    case Some(latest) =>
      Windows(Count(ts, cell => InRecent(cell, latest)), Count(ts, cell => InPrevious(cell, latest)))
  }

  /** The windows are disjoint, so they never hold more events than
      there are. */
  lemma WindowsDisjoint(ts: Times)
    ensures CompareWindows(ts).recent + CompareWindows(ts).previous <= |ts|
  {
    if Latest(ts).Some? {
      var latest := Latest(ts).value;
      CountDisjoint(ts, cell => InRecent(cell, latest), cell => InPrevious(cell, latest), cell => false);
    }
  }

  /** With at least one timestamp the recent window holds the latest
      event. */
  lemma RecentHoldsLatest(ts: Times)
    requires AnyTime(ts)
    ensures CompareWindows(ts).recent >= 1
  {
    var latest := Latest(ts).value;
    var k :| 0 <= k < |ts| && ts[k] == Some(latest);
    CountHit(ts, cell => InRecent(cell, latest), k);
  }

  lemma {:induction false} CountHit<T>(c: seq<Option<T>>, p: Option<T> -> bool, k: nat)
    requires k < |c| && p(c[k])
    ensures Count(c, p) >= 1
  {
    if k < |c| - 1 {
      CountHit(c[..|c| - 1], p, k);
    }
  }

  /** The recent window is every event no more than 24 hours older than the
      latest one: all of them lie within it or before it. */
  lemma WindowsCountRows(ts: Times)
    requires AnyTime(ts)
    ensures var latest := Latest(ts).value;
            CompareWindows(ts).recent == |set i: nat | i < |ts| && ts[i].Some? && latest - Day <= ts[i].value <= latest|
  {
    var latest := Latest(ts).value;
    CountIsCardinality(ts, cell => InRecent(cell, latest));
    assert Matching(ts, cell => InRecent(cell, latest))
        == set i: nat | i < |ts| && ts[i].Some? && latest - Day <= ts[i].value <= latest;
  }

  /** The previous window is every event more than 24 and at most 48 hours
      older than the latest one. */
  lemma PreviousCountRows(ts: Times)
    requires AnyTime(ts)
    ensures var latest := Latest(ts).value;
            CompareWindows(ts).previous == |set i: nat | i < |ts| && ts[i].Some? && latest - TwoDays <= ts[i].value < latest - Day|
  {
    var latest := Latest(ts).value;
    CountIsCardinality(ts, cell => InPrevious(cell, latest));
    assert Matching(ts, cell => InPrevious(cell, latest))
        == set i: nat | i < |ts| && ts[i].Some? && latest - TwoDays <= ts[i].value < latest - Day;
  }

  /** `change_rate`: the percentage change from the previous window to the
      recent one, 0 when the previous window is empty. */
  function ChangeRate(w: Windows): (r: real)
    ensures w.previous == 0 ==> r == 0.0
    ensures w.previous > 0 ==> r * (w.previous as real) == ((w.recent as int - w.previous as int) * 100) as real
  {
    if w.previous > 0 then (w.recent as int - w.previous as int) as real / w.previous as real * 100.0 else 0.0
  }

  /** `trend`: "증가" (rising) or "감소" (falling). With a non-empty
      previous window it rises exactly when the change rate is positive;
      with an empty one the rate is 0 and it rises exactly when the recent
      window holds an event. */
  function Trend(w: Windows): (r: string)
    ensures r == "증가" || r == "감소"
    ensures w.previous > 0 ==> (r == "증가" <==> ChangeRate(w) > 0.0)
    ensures w.previous == 0 ==> (r == "증가" <==> w.recent > 0)
  {
    RateSign(w);
    if w.recent > w.previous then "증가" else "감소"
  }

  /** With a non-empty previous window the change rate is positive exactly
      when the recent window holds more events. */
  lemma RateSign(w: Windows)
    ensures w.previous > 0 ==> (ChangeRate(w) > 0.0 <==> w.recent > w.previous)
  {
    if w.previous > 0 {
      var d := (w.recent as int - w.previous as int) * 100;
      var r := ChangeRate(w);
      assert r * (w.previous as real) == d as real;
      SignOfQuotient(r, w.previous as real, d as real);
    }
  }

  lemma SignOfQuotient(r: real, p: real, d: real)
    requires p > 0.0 && r * p == d
    ensures r > 0.0 <==> d > 0.0
  {
    if r > 0.0 {
      assert r * p > 0.0;
    } else {
      assert r * p <= 0.0;
    }
  }

  // ---------------------------------------------------------------------
  // Hour of day
  // ---------------------------------------------------------------------

  /** `.dt.hour` of a timestamp counted in seconds from a midnight. */
  function HourOf(t: int): (h: nat)
    ensures h < 24
  {
    (t % Day) / 3600
  }

  predicate AtHour(cell: Option<int>, h: int) {
    cell.Some? && HourOf(cell.value) == h
  }

  /** The number of events whose hour of day is `h`. */
  function HourCount(ts: Times, h: int): nat {
    Count(ts, cell => AtHour(cell, h))
  }

  /** `groupby(Time.dt.hour).size()` restricted to the hours below `k`:
      each hour that has events, with their number, in increasing order. */
  function SizesBelow(ts: Times, k: nat): (r: seq<(int, nat)>)
    requires k <= 24
    ensures forall i :: 0 <= i < |r| ==> 0 <= r[i].0 < k && r[i].1 == HourCount(ts, r[i].0) && r[i].1 > 0
    ensures forall i, j :: 0 <= i < j < |r| ==> r[i].0 < r[j].0
  {
    if k == 0 then []
    else
      var r := SizesBelow(ts, k - 1);
      if HourCount(ts, k - 1) > 0 then r + [(k - 1, HourCount(ts, k - 1))] else r
  }

  /** Every hour below `k` that has events is listed; `j` is its position. */
  lemma {:induction false} SizesBelowComplete(ts: Times, k: nat, h: int) returns (j: nat)
    requires k <= 24 && 0 <= h < k && HourCount(ts, h) > 0
    ensures j < |SizesBelow(ts, k)| && SizesBelow(ts, k)[j] == (h, HourCount(ts, h))
  {
    var r := SizesBelow(ts, k - 1);
    if h < k - 1 {
      j := SizesBelowComplete(ts, k - 1, h);
    } else {
      j := |r|;
    }
  }

  /** `groupby(Time.dt.hour).size()`: every hour of the day that has
      events, once, with their number, in increasing order of hour. */
  function HourSizes(ts: Times): (r: seq<(int, nat)>)
    ensures forall i :: 0 <= i < |r| ==> 0 <= r[i].0 < 24 && r[i].1 == HourCount(ts, r[i].0) && r[i].1 > 0
    ensures forall i, j :: 0 <= i < j < |r| ==> r[i].0 < r[j].0
    ensures forall h :: 0 <= h < 24 && HourCount(ts, h) > 0 ==> (h, HourCount(ts, h)) in r
  {
    HoursListed(ts);
    SizesBelow(ts, 24)
  }

  lemma HoursListed(ts: Times)
    ensures forall h :: 0 <= h < 24 && HourCount(ts, h) > 0 ==> (h, HourCount(ts, h)) in SizesBelow(ts, 24)
  {
    forall h | 0 <= h < 24 && HourCount(ts, h) > 0
      ensures (h, HourCount(ts, h)) in SizesBelow(ts, 24)
    {
      var j := SizesBelowComplete(ts, 24, h);
    }
  }

  /** `groupby(Time.dt.hour).size().idxmax()`: the report's peak hour, the
      earliest of the busiest hours of the day; there is none exactly when
      no event has a timestamp. */
  function PeakHour(ts: Times): (r: Option<int>)
    ensures r.None? <==> !AnyTime(ts)
    ensures r.Some? ==> 0 <= r.value < 24
    ensures r.Some? ==> forall h :: 0 <= h < 24 ==> HourCount(ts, h) <= HourCount(ts, r.value)
    ensures r.Some? ==> forall h :: 0 <= h < r.value ==> HourCount(ts, h) < HourCount(ts, r.value)
  {
    PeakOfSizes(ts);
    IdxMax(HourSizes(ts))
  }

  lemma NoTimeNoHours(ts: Times, h: int)
    requires !AnyTime(ts)
    ensures HourCount(ts, h) == 0
  {
    CountNone(ts, cell => AtHour(cell, h));
  }

  lemma SomeTimeSomeHour(ts: Times) returns (h: int)
    requires AnyTime(ts)
    ensures 0 <= h < 24 && HourCount(ts, h) > 0
  {
    var k :| 0 <= k < |ts| && ts[k].Some?;
    h := HourOf(ts[k].value);
    CountHit(ts, cell => AtHour(cell, h), k);
  }

  /** The hourly series is empty exactly when no event has a timestamp;
      otherwise its first largest entry is an hour of the day that no
      hour outnumbers and every earlier hour trails. */
  lemma PeakOfSizes(ts: Times)
    ensures HourSizes(ts) == [] <==> !AnyTime(ts)
    ensures HourSizes(ts) != [] ==>
              var p := HourSizes(ts)[MaxIndex(HourSizes(ts))].0;
              0 <= p < 24
              && (forall h :: 0 <= h < 24 ==> HourCount(ts, h) <= HourCount(ts, p))
              && (forall h :: 0 <= h < p ==> HourCount(ts, h) < HourCount(ts, p))
  {
    var sizes := HourSizes(ts);
    if AnyTime(ts) {
      var h0 := SomeTimeSomeHour(ts);
      var j0 := SizesBelowComplete(ts, 24, h0);
      var p := sizes[MaxIndex(sizes)].0;
      forall h | 0 <= h < 24
        ensures HourCount(ts, h) <= HourCount(ts, p)
        ensures h < p ==> HourCount(ts, h) < HourCount(ts, p)
      {
        PeakDominates(ts, sizes, h);
      }
    } else if sizes != [] {
      NoTimeNoHours(ts, sizes[0].0);
    }
  }

  lemma PeakDominates(ts: Times, sizes: seq<(int, nat)>, h: int)
    requires sizes == HourSizes(ts) && sizes != [] && 0 <= h < 24
    ensures var p := sizes[MaxIndex(sizes)].0;
            HourCount(ts, h) <= HourCount(ts, p) && (h < p ==> HourCount(ts, h) < HourCount(ts, p))
  {
    var k := MaxIndex(sizes);
    assert sizes[k].1 == HourCount(ts, sizes[k].0);
    if HourCount(ts, h) > 0 {
      var j := SizesBelowComplete(ts, 24, h);
      FirstMaxDominates(sizes, j);
    }
  }

  /** In a series with increasing keys, the first largest entry is strictly
      larger than every entry with a smaller key. */
  lemma FirstMaxDominates(sizes: seq<(int, nat)>, j: nat)
    requires j < |sizes|
    requires forall a, b :: 0 <= a < b < |sizes| ==> sizes[a].0 < sizes[b].0
    ensures var k := MaxIndex(sizes);
            sizes[j].1 <= sizes[k].1 && (sizes[j].0 < sizes[k].0 ==> sizes[j].1 < sizes[k].1)
  {
    var k := MaxIndex(sizes);
    if sizes[j].0 < sizes[k].0 {
      assert j < k;
    }
  }

  /** `r` lists the `n` busiest hours of the day (every hour with events
      when fewer than `n` have any), busiest first, each hour once with its
      number of events; no hour left out has more events than the last
      one listed. */
  predicate BusiestHours(ts: Times, n: nat, r: seq<(int, nat)>) {
    && |r| == Min(n, |HourSizes(ts)|)
    && NonIncreasing(r)
    && NoDuplicates(Keys(r))
    && (forall i :: 0 <= i < |r| ==> 0 <= r[i].0 < 24 && r[i].1 == HourCount(ts, r[i].0) && r[i].1 > 0)
    && (forall h :: 0 <= h < 24 && HourCount(ts, h) > 0 && h !in Keys(r) ==>
          |r| == n && (n > 0 ==> HourCount(ts, h) <= r[n - 1].1))
  }

  /** `nlargest(n)` of the hourly series: the report lists 5, the AI
      summary 3. */
  function PeakHours(ts: Times, n: nat): (r: seq<(int, nat)>)
    ensures BusiestHours(ts, n, r)
  {
    BusiestOfSizes(ts, n);
    Largest(HourSizes(ts), n)
  }

  lemma BusiestOfSizes(ts: Times, n: nat)
    ensures BusiestHours(ts, n, Largest(HourSizes(ts), n))
  {
    LargestAreHours(ts, n);
    LargestHoursDistinct(ts, n);
    LargestLeavesOutLess(ts, n);
  }

  lemma LargestAreHours(ts: Times, n: nat)
    ensures var r := Largest(HourSizes(ts), n);
            forall i :: 0 <= i < |r| ==> 0 <= r[i].0 < 24 && r[i].1 == HourCount(ts, r[i].0) && r[i].1 > 0
  {
    var s := HourSizes(ts);
    var r := Largest(s, n);
    SubMembers(r, s);
    forall i | 0 <= i < |r|
      ensures 0 <= r[i].0 < 24 && r[i].1 == HourCount(ts, r[i].0) && r[i].1 > 0
    {
      assert r[i] in r;
      var j :| 0 <= j < |s| && s[j] == r[i];
    }
  }

  lemma LargestHoursDistinct(ts: Times, n: nat)
    ensures NoDuplicates(Keys(Largest(HourSizes(ts), n)))
  {
    var s := HourSizes(ts);
    var r := Largest(s, n);
    LargestAreHours(ts, n);
    forall i, j | 0 <= i < j < |s|
      ensures s[i] != s[j]
    {
      assert s[i].0 < s[j].0;
    }
    NoDuplicatesOfSub(r, s);
    var ks := Keys(r);
    forall i, j | 0 <= i < j < |ks|
      ensures ks[i] != ks[j]
    {
      assert r[i] != r[j];
      assert r[i].1 == HourCount(ts, r[i].0) && r[j].1 == HourCount(ts, r[j].0);
    }
  }

  lemma LargestLeavesOutLess(ts: Times, n: nat)
    ensures var r := Largest(HourSizes(ts), n);
            forall h :: 0 <= h < 24 && HourCount(ts, h) > 0 && h !in Keys(r) ==>
              |r| == n && (n > 0 ==> HourCount(ts, h) <= r[n - 1].1)
  {
    var s := HourSizes(ts);
    var r := Largest(s, n);
    var ks := Keys(r);
    forall h | 0 <= h < 24 && HourCount(ts, h) > 0 && h !in ks
      ensures |r| == n && (n > 0 ==> HourCount(ts, h) <= r[n - 1].1)
    {
      var e := (h, HourCount(ts, h));
      assert e in s;
      forall k | 0 <= k < |r|
        ensures r[k] != e
      {
        assert ks[k] == r[k].0;
      }
    }
  }

  // ---------------------------------------------------------------------
  // The 24-bucket histogram
  // ---------------------------------------------------------------------

  /** `pd.Series(0, index=range(24))` updated in place from the hourly
      series: bucket `h` holds the number of events at hour `h`. */
  method HourlyHistogram(ts: Times) returns (buckets: array<nat>)
    ensures buckets.Length == 24
    ensures forall h :: 0 <= h < 24 ==> buckets[h] == HourCount(ts, h)
  {
    buckets := new nat[24](_ => 0);
    var sizes := HourSizes(ts);
    for i := 0 to |sizes|
      invariant forall h :: 0 <= h < 24 ==> buckets[h] == 0 || buckets[h] == HourCount(ts, h)
      invariant forall j :: 0 <= j < i ==> buckets[sizes[j].0] == sizes[j].1
    {
      buckets[sizes[i].0] := sizes[i].1;
    }
    forall h | 0 <= h < 24 && HourCount(ts, h) > 0
      ensures buckets[h] == HourCount(ts, h)
    {
      var j := SizesBelowComplete(ts, 24, h);
    }
  }

  /** The sum of the first `k` buckets. */
  function HoursTotal(ts: Times, k: nat): nat {
    if k == 0 then 0 else HoursTotal(ts, k - 1) + HourCount(ts, k - 1)
  }

  lemma {:induction false} HoursTotalOfEmpty(k: nat)
    ensures HoursTotal([], k) == 0
  {
    if k > 0 {
      HoursTotalOfEmpty(k - 1);
    }
  }

  lemma {:induction false} HoursTotalStep(ts: Times, k: nat)
    requires ts != []
    ensures var last := ts[|ts| - 1];
            HoursTotal(ts, k) == HoursTotal(ts[..|ts| - 1], k) + (if last.Some? && HourOf(last.value) < k then 1 else 0)
  {
    if k > 0 {
      HoursTotalStep(ts, k - 1);
    }
  }

  /** The 24 buckets add up to the number of events with a timestamp. */
  lemma {:induction false} HistogramTotal(ts: Times)
    ensures HoursTotal(ts, 24) == |Present(ts)|
  {
    if ts == [] {
      HoursTotalOfEmpty(24);
    } else {
      HistogramTotal(ts[..|ts| - 1]);
      HoursTotalStep(ts, 24);
    }
  }

  // ---------------------------------------------------------------------
  // The AI summary's time analysis
  // ---------------------------------------------------------------------

  datatype TimeAnalysis = TimeAnalysis(peakHours: seq<(int, nat)>, windows: Windows, trend: string, changeRate: real)

  /** `time_analysis` of the AI summary, for a table with a Time column:
      the three busiest hours, the two windows, the trend and the change
      rate. */
  function AnalyseTimes(ts: Times): (r: TimeAnalysis)
    ensures |r.peakHours| <= 3
    ensures BusiestHours(ts, 3, r.peakHours)
    ensures r.trend == "증가" <==> r.windows.recent > r.windows.previous
    ensures r.windows.recent + r.windows.previous <= |ts|
  {
    var w := CompareWindows(ts);
    WindowsDisjoint(ts);
    TimeAnalysis(PeakHours(ts, 3), w, Trend(w), ChangeRate(w))
  }
}
