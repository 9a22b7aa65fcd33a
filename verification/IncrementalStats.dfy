/** The mutable statistics object: running count, sums and extremes over a count window, a time
    window or the whole history, with two ring buffers updated in place. */
module Statistics {
  import opened Options
  import opened Ring
  import opened RealSeq
  import opened OrderStats
  import opened WindowSpec
  import opened Reporting
  import Numbers

  /** An incoming reading; NaN and the infinities are `NotFinite`. */
  datatype Reading = Finite(x: real) | NotFinite

  /** The running figures. */
  datatype Totals = Totals(count: int, sum: real, sumSquares: real, min: Ext, max: Ext)

  datatype Cache = Cache(valid: bool, mean: real, variance: real, stdDev: real, median: real)

  datatype Ends = Ends(first: real, firstSet: bool, last: real)

  datatype Quality = Quality(nulls: int, valids: int)

  const NO_TOTALS := Totals(0, 0.0, 0.0, PosInf, NegInf)

  const MAX_WINDOW := 1_000_000

  function ClampWindow(size: int): (r: nat)
    ensures r <= 1_000_000 && (0 <= size <= 1_000_000 ==> r == size)
    ensures (size < 0 ==> r == 0) && (size > 1_000_000 ==> r == 1_000_000)
  {
    if size < 0 then 0 else if size > MAX_WINDOW then MAX_WINDOW else size
  }

  /** The running figures equal recomputation over the covered readings. */
  ghost predicate Describes(t: Totals, kept: seq<Sample>) {
    && t.count == |kept|
    && t.sum == Sum(Values(kept))
    && t.sumSquares == SumSquares(Values(kept))
    && t.min == MinOf(Values(kept))
    && t.max == MaxOf(Values(kept))
  }

  /** The circular array of a count window holds the covered readings; the flag says whether it has wrapped. */
  ghost predicate CountRingHolds(a: seq<real>, next: int, full: bool, kept: seq<Sample>) {
    Holds(a, next, Values(kept)) && |kept| == if full then |a| else next
  }

  /** What a valid cache must contain after history `h`. */
  ghost predicate CacheHolds(c: Cache, sqrt: real -> real, w: Window, h: seq<Sample>) {
    var kept := Values(Retained(w, h));
    c.valid ==>
      && c.mean == Mean(kept) && c.variance == Variance(kept) && c.stdDev == StdDev(sqrt, kept)
      && c.median == ReportedMedian(w, h)
  }

  /** A time buffer that is never filled stays as it was made. */
  ghost predicate Unfilled(a: seq<Sample>, next: int) {
    next == 0 && forall i | 0 <= i < |a| :: a[i].value == 0.0
  }

  ghost predicate EndsHold(e: Ends, h: seq<Sample>) {
    && (e.firstSet <==> h != [])
    && (if h == [] then e.first == 0.0 && e.last == 0.0
        else e.first == h[0].value && e.last == h[|h| - 1].value)
  }

  class IncrementalStats {
    const window: Window
    const values: array<real>
    const timeValues: array<Sample>
    const upperLimit: Option<real>
    const lowerLimit: Option<real>
    /** The library's square root. */
    const sqrt: real -> real

    var totals: Totals
    var ends: Ends
    var cache: Cache
    var quality: Quality
    var valueIndex: int
    var windowFull: bool
    var timeIndex: int

    /** Every finite reading accepted since construction or the last Reset, oldest first. */
    ghost var history: seq<Sample>
    /** The readings the statistics currently cover. */
    ghost var kept: seq<Sample>

    ghost predicate Valid()
      reads this, values, timeValues
    {
      && values.Length == (if window.kind.ByCount? then window.size else 0)
      && timeValues.Length == (if window.kind.ByTime? then window.size else 0)
      && (window.TimeRing() ==> Ordered(history))
      && kept == Retained(window, history)
      && Describes(totals, kept)
      && (window.CountRing() ==> CountRingHolds(values[..], valueIndex, windowFull, kept))
      && (window.TimeRing() ==> Holds(timeValues[..], timeIndex, kept))
      && (window.IdleBuffer() ==> Unfilled(timeValues[..], timeIndex))
      && CacheHolds(cache, sqrt, window, history)
      && EndsHold(ends, history)
      && quality.valids == |history| && quality.nulls >= 0
    }

    constructor (windowSize: int, windowType: string, windowDuration: int, alignment: string,
                 upper: Option<real>, lower: Option<real>, root: real -> real)
      ensures Valid() && fresh(values) && fresh(timeValues)
      ensures history == [] && quality.nulls == 0
      ensures window == Window(if windowType == "count" then ByCount
                               else if windowType == "time" then ByTime else Unwindowed,
                               ClampWindow(windowSize), windowDuration, alignment == "calendar")
      ensures upperLimit == upper && lowerLimit == lower && sqrt == root
    {
      var size := ClampWindow(windowSize);
      window := Window(if windowType == "count" then ByCount else if windowType == "time" then ByTime else Unwindowed,
                       size, windowDuration, alignment == "calendar");
      values := new real[if windowType == "count" then size else 0](_ => 0.0);
      timeValues := new Sample[if windowType == "time" then size else 0](_ => Sample(0.0, 0));
      upperLimit, lowerLimit, sqrt := upper, lower, root;
      totals, ends, cache, quality := NO_TOTALS, Ends(0.0, false, 0.0), Cache(false, 0.0, 0.0, 0.0, 0.0), Quality(0, 0);
      valueIndex, windowFull, timeIndex := 0, false, 0;
      history, kept := [], [];
    }

    /** Adds one reading at clock `now`; in every state the covered readings are those the window
        declares for the whole history. Non-finite readings only bump the null counter. */
    method AddValue(reading: Reading, now: int)
      requires Valid()
      requires window.TimeRing() && history != [] ==> history[|history| - 1].at <= now
      modifies this, values, timeValues
      ensures Valid()
      ensures reading.Finite? ==>
        history == old(history) + [Sample(reading.x, now)] && quality.nulls == old(quality.nulls)
      ensures reading.NotFinite? ==>
        history == old(history) && totals == old(totals) && quality.nulls == old(quality.nulls) + 1
    {
      hide Sum, SumSquares, Square, MinOf, MaxOf, Values, Retained, ReportedMedian, DropExpired;
      if reading.NotFinite? {
        quality := quality.(nulls := quality.nulls + 1);
        return;
      }
      var value := reading.x;
      ghost var x := Sample(value, now);
      assert window.TimeRing() ==> Ordered(history + [x]);
      if window.kind.ByTime? && window.duration > 0 {
        AddValueTimeWindowed(value, now);
        if window.size > 0 {
          TimeStep(window, history, x);
        } else {
          UnwindowedStep(window, history, x);
        }
      } else if window.kind.ByCount? && window.size > 0 {
        AddValueWindowed(value, now);
        CountStep(window, history, x);
      } else {
        AddValueCumulative(value, now);
        UnwindowedStep(window, history, x);
      }
      history := history + [x];
      ends := Ends(if ends.firstSet then ends.first else value, true, value);
      quality := quality.(valids := quality.valids + 1);
      cache := cache.(valid := false);
    }

    method AddNullValue()
      requires Valid()
      modifies this`quality
      ensures Valid() && quality == old(quality).(nulls := old(quality.nulls) + 1)
    {
      quality := quality.(nulls := quality.nulls + 1);
    }

    method AddValueCumulative(value: real, ghost now: int)
      requires Describes(totals, kept)
      modifies this`totals, this`kept
      ensures Describes(totals, kept) && kept == old(kept) + [Sample(value, now)]
    {
      hide Sum, SumSquares, Square, MinOf, MaxOf, Values;
      AppendTotals(totals, kept, Sample(value, now));
      totals := WithValue(totals, value);
      kept := kept + [Sample(value, now)];
    }

    /** Overwrites the oldest slot of the count ring. */
    method AddValueWindowed(value: real, ghost now: int)
      requires window.CountRing() && values.Length == window.size
      requires CountRingHolds(values[..], valueIndex, windowFull, kept) && Describes(totals, kept)
      modifies this`totals, this`kept, this`valueIndex, this`windowFull, values
      ensures CountRingHolds(values[..], valueIndex, windowFull, kept) && Describes(totals, kept)
      ensures kept == Push(old(kept), Sample(value, now), window.size)
    {
      hide Sum, SumSquares, Square, MinOf, MaxOf, Values;
      ghost var x, a := Sample(value, now), values[..];
      CountPush(totals, a, valueIndex, windowFull, kept, x);
      var t, oldValue := totals, values[valueIndex];
      values[valueIndex] := value;
      assert values[..] == a[valueIndex := value];
      if windowFull {
        t := t.(sum := t.sum - oldValue, sumSquares := t.sumSquares - Square(oldValue), count := t.count - 1);
      }
      t := t.(sum := t.sum + value, sumSquares := t.sumSquares + Square(value), count := t.count + 1);
      valueIndex := Advance(valueIndex, window.size);
      if !windowFull && valueIndex == 0 {
        windowFull := true;
      }
      kept := Push(kept, x, window.size);
      var lo, hi := Fin(value), Fin(value);
      if windowFull || t.count > 1 {
        lo, hi := RecalculateMinMax(t.count);
      } else {
        SingleExtremes(kept);
      }
      totals := t.(min := lo, max := hi);
    }

    method RecalculateMinMax(count: int) returns (lo: Ext, hi: Ext)
      requires window.CountRing() && values.Length == window.size
      requires CountRingHolds(values[..], valueIndex, windowFull, kept) && count == |kept|
      ensures lo == MinOf(Values(kept)) && hi == MaxOf(Values(kept))
    {
      var size := values.Length;
      var limit := window.size;
      if !windowFull {
        limit := count;
      }
      if limit > size {
        limit := size;
      }
      lo, hi := PosInf, NegInf;
      for i := 0 to limit
        invariant lo == MinOf(values[..i]) && hi == MaxOf(values[..i])
      {
        assert values[..i + 1] == values[..i] + [values[i]];
        AppendOne(values[..i], values[i]);
        if Fin(values[i]).Below(lo) {
          lo := Fin(values[i]);
        }
        if hi.Below(Fin(values[i])) {
          hi := Fin(values[i]);
        }
      }
      assert values[..limit] == values[..][..limit];
      RingExtremes(values[..], valueIndex, Values(kept), limit);
    }

    /** Expires old readings, then stores the new one; falls back to cumulative mode without a buffer. */
    method AddValueTimeWindowed(value: real, now: int)
      requires window.kind.ByTime? && window.duration > 0 && timeValues.Length == window.size
      requires Describes(totals, kept)
      requires window.size > 0 ==> Holds(timeValues[..], timeIndex, kept)
      modifies this`totals, this`kept, this`timeIndex, timeValues
      ensures Describes(totals, kept)
      ensures window.size > 0 ==>
        && Holds(timeValues[..], timeIndex, kept)
        && kept == Push(DropExpired(old(kept), Cutoff(window, now)), Sample(value, now), window.size)
      ensures window.size == 0 ==> kept == old(kept) + [Sample(value, now)]
    {
      if timeValues.Length == 0 {
        AddValueCumulative(value, now);
      } else {
        CleanExpiredTimeData(now);
        StoreTimed(Sample(value, now));
      }
    }

    /** Writes at the time ring's position: into free space, or over the oldest reading. */
    method StoreTimed(x: Sample)
      requires window.TimeRing() && timeValues.Length == window.size
      requires Holds(timeValues[..], timeIndex, kept) && Describes(totals, kept)
      modifies this`totals, this`kept, this`timeIndex, timeValues
      ensures Holds(timeValues[..], timeIndex, kept) && Describes(totals, kept)
      ensures kept == Push(old(kept), x, window.size)
    {
      hide Sum, SumSquares, Square, MinOf, MaxOf, Values;
      ghost var a := timeValues[..];
      TimePush(totals, a, timeIndex, kept, x);
      var t, oldValue := totals, timeValues[timeIndex].value;
      timeValues[timeIndex] := x;
      assert timeValues[..] == a[timeIndex := x];
      timeIndex := Advance(timeIndex, window.size);
      kept := Push(kept, x, window.size);
      if t.count < window.size {
        totals := WithValue(t, x.value);
      } else {
        t := t.(sum := t.sum - oldValue + x.value,
                sumSquares := t.sumSquares - Square(oldValue) + Square(x.value));
        var lo, hi := RecalculateTimeWindowMinMax(t.count);
        totals := t.(min := lo, max := hi);
      }
    }

    /** Counts the expired readings at the old end and takes them out of the two sums. */
    method SumExpired(cutoff: int) returns (cleanCount: nat, sum: real, sumSquares: real)
      requires window.TimeRing() && timeValues.Length == window.size
      requires Holds(timeValues[..], timeIndex, kept) && Describes(totals, kept) && kept != []
      ensures cleanCount <= |kept| && kept[cleanCount..] == DropExpired(kept, cutoff)
      ensures sum == Sum(Values(kept[cleanCount..])) && sumSquares == SumSquares(Values(kept[cleanCount..]))
    {
      hide Sum, SumSquares, Square, MinOf, MaxOf, Values;
      var n, size := totals.count, window.size;
      var tempIndex := FindOldest(timeIndex, n, size);
      cleanCount, sum, sumSquares := 0, totals.sum, totals.sumSquares;
      ghost var ring := timeValues[..];
      assert kept[0..] == kept;
      while cleanCount < n && timeValues[tempIndex].at < cutoff
        invariant cleanCount <= n && 0 <= tempIndex < size
        invariant cleanCount < n ==> tempIndex == Wrap(Oldest(timeIndex, n, size) + cleanCount, size)
        invariant sum == Sum(Values(kept[cleanCount..])) && sumSquares == SumSquares(Values(kept[cleanCount..]))
        invariant DropExpired(kept[cleanCount..], cutoff) == DropExpired(kept, cutoff)
      {
        var expired := timeValues[tempIndex];
        assert expired == ring[tempIndex] == kept[cleanCount];
        DropSample(kept[cleanCount..]);
        assert kept[cleanCount..][1..] == kept[cleanCount + 1..];
        sum, sumSquares := sum - expired.value, sumSquares - Square(expired.value);
        cleanCount := cleanCount + 1;
        tempIndex := Advance(tempIndex, size);
      }
      assert cleanCount < n ==> ring[tempIndex] == kept[cleanCount] == kept[cleanCount..][0];
    }

    /** Removes from the old end everything before the cutoff. */
    method CleanExpiredTimeData(now: int)
      requires window.TimeRing() && timeValues.Length == window.size
      requires Holds(timeValues[..], timeIndex, kept) && Describes(totals, kept)
      modifies this`totals, this`kept
      ensures Holds(timeValues[..], timeIndex, kept) && Describes(totals, kept)
      ensures kept == DropExpired(old(kept), Cutoff(window, now))
    {
      hide Sum, SumSquares, Square, MinOf, MaxOf, Values, Cutoff;
      if totals.count == 0 {
        return;
      }
      var cleanCount, sum, sumSquares := SumExpired(Cutoff(window, now));
      if cleanCount > 0 {
        Drop(timeValues[..], timeIndex, kept, cleanCount);
        kept := kept[cleanCount..];
        var count := totals.count - cleanCount;
        var lo, hi := RecalculateTimeWindowMinMax(count);
        totals := Totals(count, sum, sumSquares, lo, hi);
      }
    }

    method RecalculateTimeWindowMinMax(count: int) returns (lo: Ext, hi: Ext)
      requires window.TimeRing() && timeValues.Length == window.size
      requires Holds(timeValues[..], timeIndex, kept) && count == |kept|
      ensures lo == MinOf(Values(kept)) && hi == MaxOf(Values(kept))
    {
      hide Sum, SumSquares, Square, MinOf, MaxOf, Values;
      lo, hi := PosInf, NegInf;
      EmptyExtremes(kept);
      if count == 0 {
        return;
      }
      var size := window.size;
      var tempIndex := FindOldest(timeIndex, count, size);
      for i := 0 to count
        invariant 0 <= tempIndex < size
        invariant i < count ==> tempIndex == Wrap(Oldest(timeIndex, count, size) + i, size)
        invariant lo == MinOf(Values(kept[..i])) && hi == MaxOf(Values(kept[..i]))
      {
        var value := timeValues[tempIndex].value;
        AppendSample(kept[..i], kept[i]);
        assert kept[..i] + [kept[i]] == kept[..i + 1];
        assert value == kept[i].value;
        if Fin(value).Below(lo) {
          lo := Fin(value);
        }
        if hi.Below(Fin(value)) {
          hi := Fin(value);
        }
        tempIndex := Advance(tempIndex, size);
      }
      assert kept[..count] == kept;
    }

    /** All reported figures, through the cache. `None` is a panic: with a time buffer that is never filled
        the percentile code indexes before its first slot once there are more readings than slots, unless
        their number is a multiple of the number of slots. */
    method GetStats() returns (r: Option<Stats>)
      requires Valid()
      modifies this`cache
      ensures Valid() && cache.valid
      ensures r.None? <==> StartsOutside(window, |history|)
      ensures r.Some? ==>
        && FiguresReported(r.value.figures, sqrt, window, history)
        && r.value.median == ReportedMedian(window, history)
        && PercentilesReported(r.value.percentiles, sqrt, window, history)
        && ChangesReported(r.value.changes, history, quality.nulls)
        && r.value.outliers == ReportedOutliers(sqrt, window, history)
        && r.value.thresholds == ReportedThresholds(window, history, upperLimit, lowerLimit)
    {
      hide Describes, Retained, CountRingHolds, Holds, Ordered, EndsHold, ReportedMedian, PercentilesReported,
        StartsOutside, ReportedOutliers, ReportedThresholds, FiguresReported, ChangesReported, StdDev, Values;
      if !cache.valid {
        cache := FillCache();
      }
      SanitizedMedian(window, history);
      var median := Sanitize(cache.median);
      var percentiles := GetPercentiles();
      if percentiles.None? {
        return None;
      }
      var figures := GetFigures();
      var changes := GetChanges();
      var outliers := GetOutlierCount();
      OutliersReported(sqrt, window, history, outliers);
      var thresholds := GetThresholds();
      r := Some(Stats(figures, median, percentiles.value, changes, Sanitize(outliers), thresholds));
    }

    method GetFigures() returns (f: Figures)
      requires Valid() && cache.valid
      ensures FiguresReported(f, sqrt, window, history)
    {
      hide Sum, SumSquares, Square, SumSquaredDev, Variance, MinOf, MaxOf, Values, Retained, ReportedMedian, StdDev;
      var min, max := 0.0, 0.0;
      if totals.count != 0 {
        Extremes(Values(kept));
        min, max := Sanitize(totals.min.v), Sanitize(totals.max.v);
      }
      var volatility := 0.0;
      if cache.mean != 0.0 {
        volatility := cache.stdDev / Numbers.Abs(cache.mean);
      }
      f := Figures(totals.count, Sanitize(totals.sum), Sanitize(cache.mean), Sanitize(cache.variance),
                   Sanitize(cache.stdDev), Sanitize(volatility), min, max);
    }

    method GetChanges() returns (c: Changes)
      requires Valid()
      ensures ChangesReported(c, history, quality.nulls)
    {
      hide Describes, Retained, CountRingHolds, Holds, Ordered, CacheHolds, Values;
      KeptNonEmpty(window, history, kept, totals);
      var change, changeRate := 0.0, 0.0;
      if ends.firstSet && totals.count != 0 {
        change := ends.last - ends.first;
        if ends.first != 0.0 {
          changeRate := (ends.last - ends.first) / Numbers.Abs(ends.first) * 100.0;
        }
      }
      var nullRate := Rate(quality.nulls, quality.nulls + quality.valids);
      c := Changes(Sanitize(ends.first), Sanitize(ends.last), Sanitize(change), Sanitize(changeRate),
                   Sanitize(nullRate), Sanitize(1.0 - nullRate));
    }

    /** The six reported percentiles, unless one of them panics. */
    method GetPercentiles() returns (r: Option<Percentiles>)
      requires Valid() && cache.valid
      ensures r.None? <==> StartsOutside(window, |history|)
      ensures r.Some? ==> PercentilesReported(r.value, sqrt, window, history)
    {
      hide Valid, ReportedPercentile, StartsOutside, Sanitize;
      var a := CalculatePercentile(25.0);
      PanicsIff(sqrt, window, history, 25.0);
      if a.None? {
        return None;
      }
      var b := CalculatePercentile(50.0);
      PanicsIff(sqrt, window, history, 50.0);
      var c := CalculatePercentile(75.0);
      PanicsIff(sqrt, window, history, 75.0);
      var d := CalculatePercentile(90.0);
      PanicsIff(sqrt, window, history, 90.0);
      var e := CalculatePercentile(95.0);
      PanicsIff(sqrt, window, history, 95.0);
      var f := CalculatePercentile(99.0);
      PanicsIff(sqrt, window, history, 99.0);
      r := Some(Percentiles(Sanitize(a.value), Sanitize(b.value), Sanitize(c.value),
                            Sanitize(d.value), Sanitize(e.value), Sanitize(f.value)));
    }

    method GetThresholds() returns (t: Thresholds)
      requires Valid()
      ensures t == ReportedThresholds(window, history, upperLimit, lowerLimit)
    {
      hide Describes, Retained, CountRingHolds, Holds, Ordered, EndsHold, CacheHolds, CountAbove, CountBelow,
        CountInside, EstimateAbove, EstimateBelow, EstimateInside;
      t := Thresholds(None, None, None);
      if upperLimit.Some? {
        var above := GetAboveCount();
        t := t.(above := Some(Sanitize(above)));
      }
      if lowerLimit.Some? {
        var below := GetBelowCount();
        t := t.(below := Some(Sanitize(below)));
      }
      if upperLimit.Some? && lowerLimit.Some? {
        var inRange := GetInRangeCount();
        t := t.(inRange := Some(Sanitize(inRange)));
      }
    }

    /** Mean, one-pass variance (the negative clamp included), deviation and median of the covered readings. */
    method FillCache() returns (c: Cache)
      requires Valid()
      ensures c.valid && CacheHolds(c, sqrt, window, history)
    {
      hide Sum, SumSquares, Square, SumSquaredDev, MinOf, MaxOf, Values, Retained, SortedOf, Median;
      var n := totals.count;
      var mean := 0.0;
      if n > 0 {
        mean := totals.sum / n as real;
      }
      var variance, stdDev := 0.0, 0.0;
      if n > 1 {
        variance := (totals.sumSquares - n as real * mean * mean) / (n as real - 1.0);
        OnePassVariance(Values(kept));
        if variance < 0.0 {
          variance := 0.0;
        }
        stdDev := sqrt(variance);
      }
      RetainedNonEmpty(window, history);
      var median := 0.0;
      if n == 1 {
        median := Sanitize(ends.first);
      } else if n > 1 && window.kind.ByCount? && window.size > 0 {
        median := CalculateMedianFromWindow();
      } else if n > 1 {
        median := Sanitize(mean);
      }
      c := Cache(true, mean, variance, stdDev, median);
    }

    /** The readings of the count ring in storage order. */
    method CollectWindow() returns (s: seq<real>)
      requires Valid() && window.CountRing()
      ensures |s| == |kept| && multiset(s) == multiset(Values(kept))
    {
      hide Sum, SumSquares, Square, SumSquaredDev, MinOf, MaxOf, Values, Retained, ReportedMedian;
      var limit := totals.count;
      if limit > window.size {
        limit := window.size;
      }
      s := [];
      for i := 0 to limit
        invariant s == values[..i]
      {
        s := s + [values[i]];
      }
      assert values[..limit] == values[..][..limit];
      RingMultiset(values[..], valueIndex, Values(kept));
    }

    method CalculateMedianFromWindow() returns (m: real)
      requires Valid() && window.CountRing() && kept != []
      ensures m == Sanitize(Median(SortedOf(Values(kept))))
    {
      hide Sum, SumSquares, Square, SumSquaredDev, MinOf, MaxOf, Values, Retained, ReportedMedian, SortedOf;
      var collected := CollectWindow();
      var sorted := ExchangeSort(collected);
      SortedUnique(sorted, SortedOf(Values(kept)));
      var n := |sorted|;
      if n % 2 == 1 {
        m := Sanitize(sorted[n / 2]);
      } else {
        m := Sanitize((sorted[n / 2 - 1] + sorted[n / 2]) / 2.0);
      }
    }

    /** A percentile in any mode; `None` is a panic. GetStats fills the cache first. */
    method CalculatePercentile(p: real) returns (r: Option<real>)
      requires Valid() && cache.valid && 0.0 <= p <= 100.0
      ensures r == ReportedPercentile(sqrt, window, history, p)
    {
      hide Sum, SumSquares, Square, SumSquaredDev, MinOf, MaxOf, Values, Retained, ReportedMedian, SortedOf, Percentile,
        LowerRank, StdDev, Mean, Variance, Holds, CountRingHolds, Unfilled;
      RetainedNonEmpty(window, history);
      if totals.count == 0 {
        r := Some(0.0);
      } else if totals.count == 1 {
        r := Some(Sanitize(ends.first));
      } else if window.kind.ByTime? && window.size > 0 {
        r := PercentileFromTimeWindow(p);
      } else if window.CountRing() {
        var v := PercentileFromWindow(p);
        r := Some(v);
      } else {
        r := Some(NormalApproximation(cache.mean, cache.stdDev, p));
      }
    }

    method PercentileFromWindow(p: real) returns (r: real)
      requires Valid() && window.CountRing() && kept != [] && 0.0 <= p <= 100.0
      ensures r == Sanitize(Percentile(SortedOf(Values(kept)), p))
    {
      hide Sum, SumSquares, Square, SumSquaredDev, MinOf, MaxOf, Values, Retained, ReportedMedian, SortedOf;
      var collected := CollectWindow();
      var sorted := ExchangeSort(collected);
      SortedUnique(sorted, SortedOf(Values(kept)));
      r := InterpolateSorted(sorted, p);
    }

    /** The interpolating tail of the source is never reached: its guard compares a rank with itself. The
        start index is a truncated remainder, which is negative for some buffers that are never filled. */
    method PercentileFromTimeWindow(p: real) returns (r: Option<real>)
      requires Valid() && window.kind.ByTime? && window.size > 0 && kept != [] && 0.0 <= p <= 100.0
      ensures window.TimeRing() ==> r == Some(Sanitize(LowerRank(SortedOf(Values(kept)), p)))
      ensures window.IdleBuffer() ==> r == if StartsOutside(window, |kept|) then None else Some(0.0)
    {
      hide Sum, SumSquares, Square, SumSquaredDev, MinOf, MaxOf, Values, Retained, ReportedMedian, SortedOf,
        PercentilePosition, LowerRank, CacheHolds, TruncatedMod;
      var start := TruncatedMod(timeIndex - totals.count + window.size, window.size);
      if window.IdleBuffer() {
        StartBelowZero(totals.count, window.size);
      } else {
        StartInside(timeIndex, totals.count, window.size);
      }
      if start < 0 {
        return None;
      }
      var collected := CollectTimed(start);
      var sorted := ExchangeSort(collected);
      SortedKeeps(sorted, collected);
      PositionInRange(p, |sorted|);
      var lower := PercentilePosition(p, |sorted|).Floor;
      TimedRank(window, kept, collected, sorted, p);
      if lower + 1 >= |sorted| {
        r := Some(Sanitize(sorted[|sorted| - 1]));
      } else {
        r := Some(Sanitize(sorted[lower]));
      }
    }

    /** Reads as many slots as there are readings, from `start` around the buffer. */
    method CollectTimed(start: int) returns (collected: seq<real>)
      requires Valid() && window.kind.ByTime? && window.size > 0 && kept != [] && 0 <= start < window.size
      requires window.TimeRing() ==> start == Oldest(timeIndex, totals.count, window.size)
      ensures |collected| == |kept|
      ensures window.TimeRing() ==> collected == Values(kept)
      ensures window.IdleBuffer() ==> forall k | 0 <= k < |collected| :: collected[k] == 0.0
    {
      hide Sum, SumSquares, Square, SumSquaredDev, MinOf, MaxOf, Retained, ReportedMedian, CacheHolds;
      collected := [];
      var count, size := totals.count, window.size;
      var tempIndex := start;
      ghost var ring := timeValues[..];
      for i := 0 to count
        invariant 0 <= tempIndex < size
        invariant window.TimeRing() && i < count ==> tempIndex == Wrap(start + i, size)
        invariant |collected| == i
        invariant window.TimeRing() ==> forall k | 0 <= k < i :: collected[k] == kept[k].value
        invariant window.IdleBuffer() ==> forall k | 0 <= k < i :: collected[k] == 0.0
      {
        assert timeValues[tempIndex] == ring[tempIndex];
        collected := collected + [timeValues[tempIndex].value];
        tempIndex := Advance(tempIndex, size);
      }
      assert window.TimeRing() ==> collected == Values(kept);
    }

    /** Interquartile outliers of a count window, an estimate from the cached deviation otherwise. */
    method GetOutlierCount() returns (r: real)
      requires Valid()
      ensures |kept| <= 3 ==> r == 0.0
      ensures window.CountRing() && |kept| > 3 ==>
        && r == OutlierCount(SortedOf(Values(kept))) as real
        && r <= (2 * QuarterUp(|kept|)) as real
      ensures !window.CountRing() && |kept| > 3 ==> r == EstimateOutliers(|kept|, cache.stdDev)
    {
      hide Describes, Values, Retained, CountRingHolds, Holds, Ordered, EndsHold, CacheHolds, SortedOf, OutlierCount;
      KeptCount(totals, kept);
      if totals.count <= 3 {
        return 0.0;
      }
      if !window.CountRing() {
        return EstimateOutliers(totals.count, cache.stdDev);
      }
      var outliers := CountWindowOutliers();
      r := outliers as real;
    }

    method CountWindowOutliers() returns (n: nat)
      requires Valid() && window.CountRing() && kept != []
      ensures |Values(kept)| == |kept|
      ensures n == OutlierCount(SortedOf(Values(kept))) <= 2 * QuarterUp(|kept|)
    {
      hide Describes, Values, Retained, CountRingHolds, Holds, Ordered, EndsHold, CacheHolds, SortedOf, OutlierCount;
      var collected := CollectWindow();
      var sorted := ExchangeSort(collected);
      SortedUnique(sorted, SortedOf(Values(kept)));
      OutlierBound(sorted);
      n := CountOutliers(sorted);
    }

    /** Readings above the upper limit; an estimate from the extremes without a count buffer. */
    method GetAboveCount() returns (r: real)
      requires Valid()
      ensures upperLimit.None? ==> r == 0.0
      ensures !(upperLimit.None?) && window.CountRing() ==> r == CountAbove(Values(kept), upperLimit.value) as real
      ensures !(upperLimit.None?) && !window.CountRing() ==> r == EstimateAbove(Values(kept), upperLimit.value)
    {
      hide Sum, SumSquares, Square, SumSquaredDev, MinOf, MaxOf, Values, Retained, ReportedMedian, CacheHolds;
      if upperLimit.None? {
        return 0.0;
      }
      var upper := upperLimit.value;
      if !window.CountRing() {
        FiguresOfKept(totals, kept);
        if Fin(upper).Below(totals.max) {
          return totals.count as real * BeyondShare(totals.max.v - upper, totals.max.v - totals.min.v);
        }
        return 0.0;
      }
      var s := CollectWindow();
      var count := 0;
      for i := 0 to |s|
        invariant count == CountAbove(s[..i], upper)
      {
        assert s[..i + 1][..i] == s[..i];
        if s[i] > upper {
          count := count + 1;
        }
      }
      assert s[..|s|] == s;
      CountPermutes(s, Values(kept), upper, upper);
      r := count as real;
    }

    /** Readings below the lower limit; an estimate from the extremes without a count buffer. */
    method GetBelowCount() returns (r: real)
      requires Valid()
      ensures lowerLimit.None? ==> r == 0.0
      ensures !(lowerLimit.None?) && window.CountRing() ==> r == CountBelow(Values(kept), lowerLimit.value) as real
      ensures !(lowerLimit.None?) && !window.CountRing() ==> r == EstimateBelow(Values(kept), lowerLimit.value)
    {
      hide Sum, SumSquares, Square, SumSquaredDev, MinOf, MaxOf, Values, Retained, ReportedMedian, CacheHolds;
      if lowerLimit.None? {
        return 0.0;
      }
      var lower := lowerLimit.value;
      if !window.CountRing() {
        FiguresOfKept(totals, kept);
        if totals.min.Below(Fin(lower)) {
          return totals.count as real * BeyondShare(lower - totals.min.v, totals.max.v - totals.min.v);
        }
        return 0.0;
      }
      var s := CollectWindow();
      var count := 0;
      for i := 0 to |s|
        invariant count == CountBelow(s[..i], lower)
      {
        assert s[..i + 1][..i] == s[..i];
        if s[i] < lower {
          count := count + 1;
        }
      }
      assert s[..|s|] == s;
      CountPermutes(s, Values(kept), lower, lower);
      r := count as real;
    }

    /** Readings between the limits, both included; an estimate from the extremes without a count buffer. */
    method GetInRangeCount() returns (r: real)
      requires Valid()
      ensures upperLimit.None? || lowerLimit.None? ==> r == 0.0
      ensures !(upperLimit.None? || lowerLimit.None?) && window.CountRing() ==>
        r == CountInside(Values(kept), lowerLimit.value, upperLimit.value) as real
      ensures !(upperLimit.None? || lowerLimit.None?) && !window.CountRing() ==>
        r == EstimateInside(Values(kept), lowerLimit.value, upperLimit.value)
    {
      hide Sum, SumSquares, Square, SumSquaredDev, MinOf, MaxOf, Values, Retained, ReportedMedian, CacheHolds;
      if upperLimit.None? || lowerLimit.None? {
        return 0.0;
      }
      var lower, upper := lowerLimit.value, upperLimit.value;
      if !window.CountRing() {
        FiguresOfKept(totals, kept);
        if totals.count > 0 && upper - lower > 0.0 {
          return totals.count as real * LesserOf((upper - lower) / (totals.max.v - totals.min.v + TINY), 1.0);
        }
        return 0.0;
      }
      var s := CollectWindow();
      var count := 0;
      for i := 0 to |s|
        invariant count == CountInside(s[..i], lower, upper)
      {
        assert s[..i + 1][..i] == s[..i];
        if s[i] >= lower && s[i] <= upper {
          count := count + 1;
        }
      }
      assert s[..|s|] == s;
      CountPermutes(s, Values(kept), lower, upper);
      r := count as real;
    }

    /** Back to an empty history. The write position and slots of the time ring stay as they are. */
    method Reset()
      requires Valid()
      modifies this, values
      ensures Valid() && history == [] && quality.nulls == 0
      ensures timeIndex == old(timeIndex)
    {
      hide Sum, SumSquares, Square, MinOf, MaxOf, Values, Retained, ReportedMedian;
      NothingKept(window);
      totals, ends, quality := NO_TOTALS, Ends(0.0, false, 0.0), Quality(0, 0);
      cache := cache.(valid := false);
      valueIndex, windowFull := 0, false;
      history, kept := [], [];
      for i := 0 to values.Length
        modifies values
      {
        values[i] := 0.0;
      }
    }
  }

  /** The outlier code's own interpolation, with its guards at both ends. */
  function InterpolatePercentile(sorted: seq<real>, position: real): (r: real)
    requires sorted != [] && 0.0 <= position <= (|sorted| - 1) as real
    ensures r == Interpolate(sorted, position)
  {
    if position <= 0.0 then sorted[0]
    else if position >= (|sorted| - 1) as real then sorted[|sorted| - 1]
    else
      var lower := position.Floor;
      var weight := position - lower as real;
      sorted[lower] * (1.0 - weight) + sorted[lower + 1] * weight
  }

  /** Percentile of sorted readings, interpolating between neighbours. */
  method InterpolateSorted(sorted: seq<real>, p: real) returns (r: real)
    requires sorted != [] && 0.0 <= p <= 100.0
    ensures r == Sanitize(Percentile(sorted, p))
  {
    hide Sanitize, PercentilePosition;
    var n := |sorted|;
    PositionInRange(p, n);
    var pos := PercentilePosition(p, n);
    var lower := pos.Floor;
    assert Percentile(sorted, p) == Interpolate(sorted, pos);
    if pos == lower as real {
      r := Sanitize(sorted[lower]);
    } else {
      var upper := lower + 1;
      if upper >= n {
        upper := n - 1;
      }
      var weight := pos - lower as real;
      var result := sorted[lower] * (1.0 - weight) + sorted[upper] * weight;
      assert result == Interpolate(sorted, pos);
      r := Sanitize(result);
    }
  }

  /** Readings beyond one and a half interquartile ranges from the quartiles. */
  method CountOutliers(sorted: seq<real>) returns (outliers: nat)
    requires sorted != []
    ensures outliers == OutlierCount(sorted)
  {
    hide Interpolate;
    var n := |sorted|;
    QuartilePosition(n, 0.25);
    QuartilePosition(n, 0.75);
    var q1 := InterpolatePercentile(sorted, (n - 1) as real * 0.25);
    var q3 := InterpolatePercentile(sorted, (n - 1) as real * 0.75);
    var iqr := q3 - q1;
    var lowerBound, upperBound := q1 - 1.5 * iqr, q3 + 1.5 * iqr;
    outliers := 0;
    for i := 0 to n
      invariant outliers == CountOutside(sorted[..i], lowerBound, upperBound)
    {
      assert sorted[..i + 1][..i] == sorted[..i];
      if sorted[i] < lowerBound || sorted[i] > upperBound {
        outliers := outliers + 1;
      }
    }
    assert sorted[..n] == sorted;
  }

  lemma SanitizedMedian(w: Window, h: seq<Sample>)
    ensures Sanitize(ReportedMedian(w, h)) == ReportedMedian(w, h)
  {
    hide Retained, Values, SortedOf, Mean, Median;
  }

  lemma KeptCount(t: Totals, kept: seq<Sample>)
    requires Describes(t, kept)
    ensures t.count == |kept| == |Values(kept)|
  {
  }

  lemma KeptNonEmpty(w: Window, h: seq<Sample>, kept: seq<Sample>, t: Totals)
    requires kept == Retained(w, h) && Describes(t, kept)
    ensures t.count == 0 <==> h == []
  {
    hide Retained;
    RetainedNonEmpty(w, h);
  }

  /** Count and extremes of the covered readings, when there are any. */
  lemma FiguresOfKept(t: Totals, kept: seq<Sample>)
    requires Describes(t, kept)
    ensures t.count == |Values(kept)|
    ensures kept == [] ==> Values(kept) == [] && t.min == PosInf && t.max == NegInf
    ensures kept != [] ==> t.min.Fin? && t.max.Fin? && t.min.v <= t.max.v
  {
    hide MinOf, MaxOf;
    Empties();
    if kept != [] {
      RangeNonNegative(Values(kept));
    }
  }

  /** Whether a percentile panics does not depend on the percentage; the others are sanitised already. */
  lemma PanicsIff(sqrt: real -> real, w: Window, h: seq<Sample>, p: real)
    requires 0.0 <= p <= 100.0
    ensures ReportedPercentile(sqrt, w, h, p).None? <==> StartsOutside(w, |h|)
    ensures
      var r := ReportedPercentile(sqrt, w, h, p);
      r.Some? ==> Sanitize(r.value) == r.value
  {
    RetainedNonEmpty(w, h);
    hide SortedOf, Percentile, LowerRank, Mean, StdDev;
  }

  lemma OutliersReported(sqrt: real -> real, w: Window, h: seq<Sample>, outliers: real)
    requires
      var v := Values(Retained(w, h));
      && (|v| <= 3 ==> outliers == 0.0)
      && (w.CountRing() && |v| > 3 ==> outliers == OutlierCount(SortedOf(v)) as real)
      && (!w.CountRing() && |v| > 3 ==> outliers == EstimateOutliers(|v|, StdDev(sqrt, v)))
    ensures Sanitize(outliers) == ReportedOutliers(sqrt, w, h)
  {
    hide Retained, Values, SortedOf, OutlierCount, StdDev, EstimateOutliers;
  }

  /** For readings that are still in the buffer the truncated remainder is the position of the oldest. */
  lemma StartInside(next: int, n: int, size: int)
    requires 0 <= next < size && 0 < n <= size
    ensures TruncatedMod(next - n + size, size) == Oldest(next, n, size)
  {
    if next >= n {
      assert (next - n + size) / size == 1;
    } else {
      assert (next - n + size) / size == 0;
    }
  }

  lemma SortedKeeps(sorted: seq<real>, s: seq<real>)
    requires SortedPermutation(sorted, s)
    ensures |sorted| == |s|
  {
    assert |sorted| == |multiset(sorted)| == |multiset(s)| == |s|;
  }

  /** The element at the lower rank, for either kind of time buffer. */
  lemma TimedRank(w: Window, kept: seq<Sample>, collected: seq<real>, sorted: seq<real>, p: real)
    requires kept != [] && |collected| == |kept| && SortedPermutation(sorted, collected) && |sorted| == |collected|
    requires 0.0 <= p <= 100.0
    ensures 0 <= PercentilePosition(p, |sorted|).Floor < |sorted|
    ensures collected == Values(kept) ==>
      sorted[PercentilePosition(p, |sorted|).Floor] == LowerRank(SortedOf(Values(kept)), p)
    ensures (forall k | 0 <= k < |collected| :: collected[k] == 0.0) ==>
      forall k | 0 <= k < |sorted| :: sorted[k] == 0.0
  {
    hide SortedOf, Values, PercentilePosition;
    PositionInRange(p, |sorted|);
    if collected == Values(kept) {
      SortedUnique(sorted, SortedOf(Values(kept)));
    }
    if forall k | 0 <= k < |collected| :: collected[k] == 0.0 {
      forall k | 0 <= k < |sorted|
        ensures sorted[k] == 0.0
      {
        assert sorted[k] in multiset(sorted);
        assert sorted[k] in collected;
      }
    }
  }

  /** The occupied slots of the ring hold the covered readings, in some order. */
  lemma RingMultiset(a: seq<real>, next: int, s: seq<real>)
    requires Holds(a, next, s) && (|s| == |a| || |s| == next)
    ensures multiset(a[..|s|]) == multiset(s)
  {
    Layout(a, next, s);
    if |s| == |a| {
      assert a[..|s|] == a[..next] + a[next..];
    }
  }

  lemma NothingKept(w: Window)
    ensures Retained(w, []) == [] && Describes(NO_TOTALS, [])
  {
  }

  /** Adding a value to figures that only grow. */
  function WithValue(t: Totals, value: real): Totals {
    Totals(t.count + 1, t.sum + value, t.sumSquares + Square(value),
           if Fin(value).Below(t.min) || t.count + 1 == 1 then Fin(value) else t.min,
           if t.max.Below(Fin(value)) || t.count + 1 == 1 then Fin(value) else t.max)
  }

  lemma AppendTotals(t: Totals, kept: seq<Sample>, x: Sample)
    requires Describes(t, kept)
    ensures Describes(WithValue(t, x.value), kept + [x])
  {
    AppendSample(kept, x);
    if kept == [] {
      assert Values(kept) == [];
    }
  }

  /** The extremes of the occupied part of the array are those of the contents. */
  lemma RingExtremes(a: seq<real>, next: int, s: seq<real>, limit: nat)
    requires Holds(a, next, s) && limit == |s| && (|s| == |a| || |s| == next)
    ensures MinOf(a[..limit]) == MinOf(s) && MaxOf(a[..limit]) == MaxOf(s)
  {
    Layout(a, next, s);
    if |s| == |a| {
      assert a[..limit] == a[..next] + a[next..];
      Rotation(a[..next], a[next..]);
    }
  }

  lemma EmptyExtremes(kept: seq<Sample>)
    ensures MinOf(Values(kept[..0])) == PosInf && MaxOf(Values(kept[..0])) == NegInf
    ensures kept == [] ==> MinOf(Values(kept)) == PosInf && MaxOf(Values(kept)) == NegInf
  {
    assert Values(kept[..0]) == [];
  }

  lemma SingleExtremes(kept: seq<Sample>)
    requires |kept| == 1
    ensures MinOf(Values(kept)) == Fin(kept[0].value) == MaxOf(Values(kept))
  {
    assert Values(kept)[..0] == [];
  }

  /** A write to the count ring: contents, wrap flag and sums after it. */
  lemma CountPush(t: Totals, a: seq<real>, next: int, full: bool, kept: seq<Sample>, x: Sample)
    requires CountRingHolds(a, next, full, kept) && Describes(t, kept)
    ensures
      var kept', next' := Push(kept, x, |a|), Wrap(next + 1, |a|);
      && CountRingHolds(a[next := x.value], next', full || next' == 0, kept')
      && |kept'| == (if full then t.count else t.count + 1)
      && kept'[|kept'| - 1] == x
      && Sum(Values(kept')) == (if full then t.sum - a[next] else t.sum) + x.value
      && SumSquares(Values(kept')) == (if full then t.sumSquares - Square(a[next]) else t.sumSquares) + Square(x.value)
  {
    hide Sum, SumSquares, Square, MinOf, MaxOf, Values;
    PushSample(kept, x, |a|);
    Write(a, next, Values(kept), x.value);
  }

  /** A write to the time ring: contents and figures after it. */
  lemma TimePush(t: Totals, a: seq<Sample>, next: int, kept: seq<Sample>, x: Sample)
    requires Holds(a, next, kept) && Describes(t, kept)
    ensures
      var kept' := Push(kept, x, |a|);
      && Holds(a[next := x], Wrap(next + 1, |a|), kept')
      && (if |kept| < |a| then Describes(WithValue(t, x.value), kept')
          else
            && |kept'| == t.count
            && Sum(Values(kept')) == t.sum - a[next].value + x.value
            && SumSquares(Values(kept')) == t.sumSquares - Square(a[next].value) + Square(x.value))
  {
    hide Sum, SumSquares, Square, MinOf, MaxOf, Values;
    PushSample(kept, x, |a|);
    Write(a, next, kept, x);
    if |kept| < |a| {
      AppendTotals(t, kept, x);
    }
  }

  lemma AppendSample(s: seq<Sample>, x: Sample)
    ensures Values(s + [x]) == Values(s) + [x.value]
    ensures Sum(Values(s + [x])) == Sum(Values(s)) + x.value
    ensures SumSquares(Values(s + [x])) == SumSquares(Values(s)) + Square(x.value)
    ensures MinOf(Values(s + [x])) == Lesser(MinOf(Values(s)), Fin(x.value))
    ensures MaxOf(Values(s + [x])) == Greater(MaxOf(Values(s)), Fin(x.value))
  {
    assert Values(s + [x]) == Values(s) + [x.value];
    AppendOne(Values(s), x.value);
  }

  lemma DropSample(s: seq<Sample>)
    requires s != []
    ensures Sum(Values(s[1..])) == Sum(Values(s)) - s[0].value
    ensures SumSquares(Values(s[1..])) == SumSquares(Values(s)) - Square(s[0].value)
  {
    assert Values(s[1..]) == Values(s)[1..];
    DropFirst(Values(s));
  }

  /** What one push does to the contents and the two sums. */
  lemma PushSample(s: seq<Sample>, x: Sample, size: nat)
    requires size > 0 && |s| <= size
    ensures Values(Push(s, x, size)) == Push(Values(s), x.value, size)
    ensures |s| == size ==>
      && Sum(Values(Push(s, x, size))) == Sum(Values(s)) - s[0].value + x.value
      && SumSquares(Values(Push(s, x, size))) == SumSquares(Values(s)) - Square(s[0].value) + Square(x.value)
    ensures |s| < size ==>
      && Sum(Values(Push(s, x, size))) == Sum(Values(s)) + x.value
      && SumSquares(Values(Push(s, x, size))) == SumSquares(Values(s)) + Square(x.value)
  {
    if |s| < size {
      AppendSample(s, x);
    } else {
      DropSample(s);
      AppendSample(s[1..], x);
    }
  }
}
