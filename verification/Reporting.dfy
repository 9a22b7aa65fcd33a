/** What the statistics object reports after a history of readings, and when a figure is the statistic that
    its name says. */
module Reporting {
  import opened Options
  import opened RealSeq
  import opened OrderStats
  import opened WindowSpec
  import Numbers

  datatype Percentiles = Percentiles(p25: real, p50: real, p75: real, p90: real, p95: real, p99: real)

  datatype Thresholds = Thresholds(above: Option<real>, below: Option<real>, inRange: Option<real>)

  datatype Figures = Figures(count: int, sum: real, mean: real, variance: real, stdDev: real, volatility: real,
                             min: real, max: real)

  datatype Changes = Changes(first: real, last: real, change: real, changeRate: real, nullRate: real,
                             completeness: real)

  datatype Stats = Stats(figures: Figures, median: real, percentiles: Percentiles, changes: Changes,
                         outliers: real, thresholds: Thresholds)

  // ----- Median and percentiles -----

  /** Sample standard deviation; the square root is foreign code. */
  function StdDev(sqrt: real -> real, v: seq<real>): real {
    if |v| <= 1 then 0.0 else sqrt(Variance(v))
  }

  /** The value reported as median after history `h`. */
  function ReportedMedian(w: Window, h: seq<Sample>): real {
    var kept := Values(Retained(w, h));
    if kept == [] || h == [] then 0.0
    else if |kept| == 1 then Sanitize(h[0].value)
    else if w.CountRing() then Sanitize(Median(SortedOf(kept)))
    else Sanitize(Mean(kept))
  }

  function ZScore(p: real): real {
    if p <= 25.0 then -0.675
    else if p <= 50.0 then 0.0
    else if p <= 75.0 then 0.675
    else if p <= 90.0 then 1.28
    else if p <= 95.0 then 1.645
    else if p <= 99.0 then 2.33
    else 3.0
  }

  /** The estimate used without a buffer. */
  function NormalApproximation(mean: real, stdDev: real, p: real): real {
    if p == 50.0 || stdDev == 0.0 then Sanitize(mean) else Sanitize(mean + ZScore(p) * stdDev)
  }

  /** Reading the `n` newest elements of a time buffer that was never written starts before its first slot. */
  predicate StartsOutside(w: Window, n: nat) {
    w.IdleBuffer() && n > w.size && n % w.size != 0
  }

  /** The value reported as percentile `p` after history `h`; `None` is a panic. */
  function ReportedPercentile(sqrt: real -> real, w: Window, h: seq<Sample>, p: real): Option<real>
    requires 0.0 <= p <= 100.0
  {
    var kept := Values(Retained(w, h));
    if kept == [] || h == [] then Some(0.0)
    else if |kept| == 1 then Some(Sanitize(h[0].value))
    else if w.TimeRing() then Some(Sanitize(LowerRank(SortedOf(kept), p)))
    else if w.IdleBuffer() then (if StartsOutside(w, |kept|) then None else Some(0.0))
    else if w.CountRing() then Some(Sanitize(Percentile(SortedOf(kept), p)))
    else Some(NormalApproximation(Mean(kept), StdDev(sqrt, kept), p))
  }

  lemma RetainedNonEmpty(w: Window, h: seq<Sample>)
    ensures h == [] <==> Retained(w, h) == []
    ensures |Values(Retained(w, h))| == |Retained(w, h)|
  {
  }

  /** In every state of a windowed object holding at least two readings the reported percentiles are
      ordered and lie between the reported extremes, and in a count window the reported 50th
      percentile is the reported median. */
  lemma PercentilesOrdered(sqrt: real -> real, w: Window, h: seq<Sample>, p: real, q: real)
    requires w.CountRing() || w.TimeRing()
    requires |Retained(w, h)| >= 2 && 0.0 <= p <= q <= 100.0
    ensures
      var v, x, y := Values(Retained(w, h)), ReportedPercentile(sqrt, w, h, p), ReportedPercentile(sqrt, w, h, q);
      && MinOf(v).Fin? && MaxOf(v).Fin? && x.Some? && y.Some?
      && Sanitize(MinOf(v).v) <= x.value <= y.value <= Sanitize(MaxOf(v).v)
    ensures w.CountRing() ==> ReportedPercentile(sqrt, w, h, 50.0) == Some(ReportedMedian(w, h))
  {
    hide MinOf, MaxOf, Values, Retained, SortedOf, Sanitize;
    RetainedNonEmpty(w, h);
    var v := Values(Retained(w, h));
    var r := SortedOf(v);
    SortedEnds(r, v);
    PercentileMonotone(r, p, q);
    MedianIsP50(r);
    forall a: real, b: real | a <= b
      ensures Sanitize(a) <= Sanitize(b)
    {
      SanitizeMonotone(a, b);
    }
  }

  // ----- When they are right -----

  /** The reported median is the median of the covered readings. */
  ghost predicate MedianRight(w: Window, h: seq<Sample>) {
    var v := Values(Retained(w, h));
    v != [] ==> ReportedMedian(w, h) == Sanitize(Median(SortedOf(v)))
  }

  /** The reported percentile is the interpolated percentile of the covered readings. */
  ghost predicate PercentileRight(sqrt: real -> real, w: Window, h: seq<Sample>, p: real)
    requires 0.0 <= p <= 100.0
  {
    var v := Values(Retained(w, h));
    v != [] ==> ReportedPercentile(sqrt, w, h, p) == Some(Sanitize(Percentile(SortedOf(v), p)))
  }

  lemma SingleSorted(x: real)
    ensures SortedOf([x]) == [x] && Median([x]) == x
  {
    SortedUnique(SortedOf([x]), [x]);
  }

  lemma SinglePercentile(x: real, p: real)
    requires 0.0 <= p <= 100.0
    ensures Percentile([x], p) == x == LowerRank([x], p)
  {
    assert PercentilePosition(p, 1) == 0.0;
  }

  /** With one covered reading the code reports the first reading ever added instead. */
  predicate FirstStandsIn(w: Window, h: seq<Sample>) {
    var kept := Retained(w, h);
    |kept| == 1 && h != [] ==> Sanitize(h[0].value) == Sanitize(kept[0].value)
  }

  /** After any history of a count window, median and percentiles are right exactly when there is not just
      one covered reading, or the first reading ever added is reported as the same number. The percentiles
      of a time window are the lower-rank ones under the same condition. */
  lemma RightIff(sqrt: real -> real, w: Window, h: seq<Sample>, p: real)
    requires 0.0 <= p <= 100.0
    ensures w.CountRing() ==> (MedianRight(w, h) <==> FirstStandsIn(w, h))
    ensures w.CountRing() ==> (PercentileRight(sqrt, w, h, p) <==> FirstStandsIn(w, h))
    ensures w.TimeRing() && h != [] ==>
      (ReportedPercentile(sqrt, w, h, p) == Some(Sanitize(LowerRank(SortedOf(Values(Retained(w, h))), p)))
       <==> FirstStandsIn(w, h))
  {
    RetainedNonEmpty(w, h);
    var kept := Retained(w, h);
    if |kept| == 1 {
      SingleSorted(kept[0].value);
      SinglePercentile(kept[0].value, p);
      assert Values(kept) == [kept[0].value];
    }
    hide Retained, SortedOf, Percentile, LowerRank, Median, Sanitize;
  }

  /** Two readings far enough apart that a window covering one reading, by size or by time, covers only
      the second. */
  function Apart(w: Window): seq<Sample> {
    [Sample(1.0, 0), Sample(2.0, if w.duration > 0 then w.duration + DAY else 0)]
  }

  lemma OnlySecondKept(w: Window)
    requires w.TimeRing() || (w.CountRing() && w.size == 1)
    ensures Ordered(Apart(w)) && Retained(w, Apart(w)) == [Apart(w)[1]]
  {
    var h := Apart(w);
    if w.TimeRing() {
      assert h[..1] == [h[0]] && h[..1][..0] == [];
      var c := Cutoff(w, h[1].at);
      assert c > 0;
      assert Live(h[..1][..0], c) == 0;
      assert Live(h[..1], c) == 0;
    }
  }

  /** The second reading's statistics are reported as 1. */
  lemma ApartWrong(sqrt: real -> real, w: Window, p: real)
    requires w.TimeRing() || (w.CountRing() && w.size == 1)
    requires 0.0 <= p <= 100.0
    ensures Ordered(Apart(w)) && !MedianRight(w, Apart(w)) && !PercentileRight(sqrt, w, Apart(w), p)
  {
    OnlySecondKept(w);
    hide Retained;
    SingleSorted(2.0);
    SinglePercentile(2.0, p);
    assert Values([Apart(w)[1]]) == [2.0];
  }

  /** Two readings 0 and one reading 3: the mean is 1 and the median 0. */
  function Skewed(): seq<Sample> {
    [Sample(0.0, 0), Sample(0.0, 0), Sample(3.0, 0)]
  }

  lemma SkewedValues(w: Window)
    requires !w.CountRing() && !w.TimeRing()
    ensures Values(Retained(w, Skewed())) == [0.0, 0.0, 3.0] && Ordered(Skewed())
  {
    assert Values(Skewed()) == [0.0, 0.0, 3.0];
  }

  lemma SortedAlready(v: seq<real>)
    requires Sorted(v)
    ensures SortedOf(v) == v
  {
    SortedUnique(SortedOf(v), v);
  }

  lemma SumOfThree(a: real, b: real, c: real)
    ensures Sum([a, b, c]) == a + b + c
  {
    hide Sum, SumSquares, MinOf, MaxOf;
    AppendOne([], a);
    AppendOne([a], b);
    AppendOne([a, b], c);
    Empties();
    assert [] + [a] == [a] && [a] + [b] == [a, b] && [a, b] + [c] == [a, b, c];
  }

  lemma SkewedFigures()
    ensures SortedOf([0.0, 0.0, 3.0]) == [0.0, 0.0, 3.0] && Median([0.0, 0.0, 3.0]) == 0.0
    ensures Mean([0.0, 0.0, 3.0]) == 1.0
  {
    hide SortedOf, Sum;
    SortedAlready([0.0, 0.0, 3.0]);
    SumOfThree(0.0, 0.0, 3.0);
  }

  lemma SkewedMedianWrong(w: Window)
    requires !w.CountRing() && !w.TimeRing()
    ensures Ordered(Skewed()) && !MedianRight(w, Skewed())
  {
    SkewedValues(w);
    SkewedFigures();
    hide Retained, SortedOf, Values, Mean, Median, Ordered;
  }

  lemma SkewedPercentileWrong(sqrt: real -> real, w: Window)
    requires !w.CountRing() && !w.TimeRing() && !w.IdleBuffer()
    ensures Ordered(Skewed()) && !PercentileRight(sqrt, w, Skewed(), 50.0)
  {
    SkewedValues(w);
    SkewedFigures();
    hide Retained, SortedOf, Values, Mean, Median, Percentile, StdDev, Ordered;
    MedianIsP50([0.0, 0.0, 3.0]);
  }

  lemma PairValues(w: Window)
    requires !w.CountRing() && !w.TimeRing()
    ensures Values(Retained(w, [Sample(1.0, 0), Sample(2.0, 0)])) == [1.0, 2.0]
  {
    assert Values([Sample(1.0, 0), Sample(2.0, 0)]) == [1.0, 2.0];
  }

  lemma ZeroPercentile(v: seq<real>)
    requires v != []
    ensures Percentile(v, 0.0) == v[0]
  {
    assert PercentilePosition(0.0, |v|) == 0.0;
  }

  /** An unfilled time buffer reports zeros, or panics. */
  lemma IdleWrong(sqrt: real -> real, w: Window)
    requires w.IdleBuffer()
    ensures !PercentileRight(sqrt, w, [Sample(1.0, 0), Sample(2.0, 0)], 0.0)
  {
    hide Retained, Values, SortedOf, Percentile, Mean, StdDev;
    PairValues(w);
    SortedAlready([1.0, 2.0]);
    ZeroPercentile([1.0, 2.0]);
  }

  /** Three readings and two unfilled slots: every percentile panics. */
  lemma IdlePanics(sqrt: real -> real, p: real)
    requires 0.0 <= p <= 100.0
    ensures
      var w, h := Window(ByTime, 2, 0, false), [Sample(1.0, 0), Sample(2.0, 0), Sample(3.0, 0)];
      ReportedPercentile(sqrt, w, h, p) == None
  {
    var w, h := Window(ByTime, 2, 0, false), [Sample(1.0, 0), Sample(2.0, 0), Sample(3.0, 0)];
    assert |Values(Retained(w, h))| == 3;
  }

  /** The median is right after every history exactly for count windows of a size other than one. */
  lemma MedianAlwaysRightIff(w: Window)
    ensures (forall h | Ordered(h) :: MedianRight(w, h)) <==> w.CountRing() && w.size != 1
  {
    hide MedianRight;
    if w.CountRing() && w.size != 1 {
      forall h | Ordered(h)
        ensures MedianRight(w, h)
      {
        RightIff(x => x, w, h, 50.0);
        SingleIsFirst(w, h);
      }
    } else if w.CountRing() || w.TimeRing() {
      ApartWrong(x => x, w, 50.0);
    } else {
      SkewedMedianWrong(w);
    }
  }

  /** So are the percentiles. */
  lemma PercentilesAlwaysRightIff(sqrt: real -> real, w: Window)
    ensures (forall h, p | Ordered(h) && 0.0 <= p <= 100.0 :: PercentileRight(sqrt, w, h, p))
       <==> w.CountRing() && w.size != 1
  {
    hide PercentileRight;
    if w.CountRing() && w.size != 1 {
      forall h, p | Ordered(h) && 0.0 <= p <= 100.0
        ensures PercentileRight(sqrt, w, h, p)
      {
        RightIff(sqrt, w, h, p);
        SingleIsFirst(w, h);
      }
    } else if w.CountRing() || w.TimeRing() {
      ApartWrong(sqrt, w, 50.0);
    } else if w.IdleBuffer() {
      IdleWrong(sqrt, w);
      assert Ordered([Sample(1.0, 0), Sample(2.0, 0)]);
    } else {
      SkewedPercentileWrong(sqrt, w);
    }
  }

  lemma SingleIsFirst(w: Window, h: seq<Sample>)
    requires w.CountRing() && w.size != 1
    ensures FirstStandsIn(w, h)
  {
  }

  // ----- Estimates without a count buffer -----

  const TINY := 0.0000000001

  function LesserOf(a: real, b: real): real {
    if a <= b then a else b
  }

  /** How much of the range of the readings lies beyond a limit by `excess`, at most half. */
  function BeyondShare(excess: real, range: real): (r: real)
    requires excess > 0.0 && range >= 0.0
    ensures 0.0 < r <= 0.5
  {
    SharePositive(excess, range);
    LesserOf(excess / (range + TINY), 0.5)
  }

  lemma SharePositive(excess: real, range: real)
    requires excess > 0.0 && range >= 0.0
    ensures excess / (range + TINY) > 0.0
  {
  }

  lemma RangeNonNegative(v: seq<real>)
    requires v != []
    ensures MinOf(v).Fin? && MaxOf(v).Fin? && MinOf(v).v <= MaxOf(v).v
  {
    Extremes(v);
  }

  /** The estimate of how many readings exceed a limit, from their number and extremes. */
  function EstimateAbove(v: seq<real>, upper: real): real {
    if v == [] then 0.0
    else
      RangeNonNegative(v);
      if MaxOf(v).v > upper then |v| as real * BeyondShare(MaxOf(v).v - upper, MaxOf(v).v - MinOf(v).v) else 0.0
  }

  function EstimateBelow(v: seq<real>, lower: real): real {
    if v == [] then 0.0
    else
      RangeNonNegative(v);
      if MinOf(v).v < lower then |v| as real * BeyondShare(lower - MinOf(v).v, MaxOf(v).v - MinOf(v).v) else 0.0
  }

  function EstimateInside(v: seq<real>, lower: real, upper: real): real {
    if v == [] || upper - lower <= 0.0 then 0.0
    else
      RangeNonNegative(v);
      |v| as real * LesserOf((upper - lower) / (MaxOf(v).v - MinOf(v).v + TINY), 1.0)
  }

  /** The estimates are never more than half of the readings, and are zero exactly when no reading is
      beyond the limit. */
  lemma EstimateAboveBounded(v: seq<real>, upper: real)
    ensures 0.0 <= EstimateAbove(v, upper) <= |v| as real / 2.0
    ensures EstimateAbove(v, upper) > 0.0 <==> exists x :: x in v && x > upper
  {
    hide MinOf, MaxOf, BeyondShare;
    if v != [] {
      Extremes(v);
      var lo, hi := MinOf(v).v, MaxOf(v).v;
      if hi > upper {
        ShareOf(|v|, BeyondShare(hi - upper, hi - lo), 0.5);
      }
    }
  }

  lemma EstimateBelowBounded(v: seq<real>, lower: real)
    ensures 0.0 <= EstimateBelow(v, lower) <= |v| as real / 2.0
    ensures EstimateBelow(v, lower) > 0.0 <==> exists x :: x in v && x < lower
  {
    hide MinOf, MaxOf, BeyondShare;
    if v != [] {
      Extremes(v);
      var lo, hi := MinOf(v).v, MaxOf(v).v;
      if lo < lower {
        ShareOf(|v|, BeyondShare(lower - lo, hi - lo), 0.5);
      }
    }
  }

  /** The in-range estimate is at most the number of readings, and is zero exactly when there are no
      readings or the limits leave no range. */
  lemma EstimateInsideBounded(v: seq<real>, lower: real, upper: real)
    ensures 0.0 <= EstimateInside(v, lower, upper) <= |v| as real
    ensures EstimateInside(v, lower, upper) > 0.0 <==> v != [] && lower < upper
  {
    hide MinOf, MaxOf;
    if v != [] && lower < upper {
      RangeNonNegative(v);
      var lo, hi := MinOf(v).v, MaxOf(v).v;
      SharePositive(upper - lower, hi - lo);
      ShareOf(|v|, LesserOf((upper - lower) / (hi - lo + TINY), 1.0), 1.0);
    }
  }

  lemma BeyondInNumbers(excess: real, range: real)
    requires excess > 0.0 && range >= 0.0
    ensures BeyondShare(excess, range)
         == if 2.0 * excess <= range + 0.0000000001 then excess / (range + 0.0000000001) else 0.5
  {
    ShareCompare(excess, range + TINY, 0.5);
  }

  /** The estimates in numbers: the share of the range beyond the limit, if that is at most a half; else a half. */
  lemma AboveInNumbers(v: seq<real>, upper: real)
    requires v != [] && MinOf(v).Fin? && MaxOf(v).Fin? && upper < MaxOf(v).v
    ensures
      var excess, range := MaxOf(v).v - upper, MaxOf(v).v - MinOf(v).v + 0.0000000001;
      EstimateAbove(v, upper) == |v| as real * if 2.0 * excess <= range then excess / range else 0.5
  {
    hide MinOf, MaxOf, BeyondShare;
    RangeNonNegative(v);
    BeyondInNumbers(MaxOf(v).v - upper, MaxOf(v).v - MinOf(v).v);
  }

  lemma BelowInNumbers(v: seq<real>, lower: real)
    requires v != [] && MinOf(v).Fin? && MaxOf(v).Fin? && MinOf(v).v < lower
    ensures
      var excess, range := lower - MinOf(v).v, MaxOf(v).v - MinOf(v).v + 0.0000000001;
      EstimateBelow(v, lower) == |v| as real * if 2.0 * excess <= range then excess / range else 0.5
  {
    hide MinOf, MaxOf, BeyondShare;
    RangeNonNegative(v);
    BeyondInNumbers(lower - MinOf(v).v, MaxOf(v).v - MinOf(v).v);
  }

  /** The share of the range that the limits span, at most all of it. */
  lemma InsideInNumbers(v: seq<real>, lower: real, upper: real)
    requires v != [] && MinOf(v).Fin? && MaxOf(v).Fin? && lower < upper
    ensures
      var span, range := upper - lower, MaxOf(v).v - MinOf(v).v + 0.0000000001;
      EstimateInside(v, lower, upper) == |v| as real * if span <= range then span / range else 1.0
  {
    hide MinOf, MaxOf;
    RangeNonNegative(v);
    ShareCompare(upper - lower, MaxOf(v).v - MinOf(v).v + TINY, 1.0);
  }

  lemma ShareCompare(part: real, range: real, share: real)
    requires part > 0.0 && range > 0.0
    ensures part / range <= share <==> part <= share * range
  {
    var q := part / range;
    assert part == q * range;
    MulSign(if q <= share then share - q else q - share, range);
    assert (share - q) * range == share * range - part;
  }

  lemma ShareOf(n: nat, share: real, most: real)
    requires n > 0 && 0.0 < share <= most
    ensures 0.0 < n as real * share <= n as real * most
  {
    MulSign(n as real - 1.0, share);
    MulSign(n as real, most - share);
    assert n as real * share == (n as real - 1.0) * share + share;
    assert n as real * most == n as real * share + n as real * (most - share);
  }

  /** Without a count buffer one in twenty is taken to be an outlier, if readings vary at all. */
  function EstimateOutliers(n: nat, stdDev: real): real {
    if n > 50 && stdDev > 0.0 then n as real * 0.05 else 0.0
  }

  /** One in twenty above fifty readings that vary, none otherwise. */
  lemma OneInTwenty(n: nat, stdDev: real)
    ensures n >= 51 && stdDev > 0.0 ==> 20.0 * EstimateOutliers(n, stdDev) == n as real
    ensures n <= 50 || stdDev <= 0.0 ==> EstimateOutliers(n, stdDev) == 0.0
  {
  }

  /** The normal approximation puts the usual percentiles at these multiples of the deviation, so they are in
      order. */
  lemma NormalPercentiles(stdDev: real)
    requires stdDev >= 1.0
    ensures NormalApproximation(0.0, stdDev, 25.0) == -0.675 * stdDev && NormalApproximation(0.0, stdDev, 50.0) == 0.0
    ensures NormalApproximation(0.0, stdDev, 75.0) == 0.675 * stdDev
    ensures NormalApproximation(0.0, stdDev, 90.0) == 1.28 * stdDev
    ensures NormalApproximation(0.0, stdDev, 95.0) == 1.645 * stdDev
    ensures NormalApproximation(0.0, stdDev, 99.0) == 2.33 * stdDev
  {
  }

  /** The mean is added, and it is all there is when readings do not vary. */
  lemma NormalShift(mean: real, stdDev: real, p: real)
    requires p != 50.0
    ensures stdDev != 0.0 ==> NormalApproximation(mean, stdDev, p) == Sanitize(mean + ZScore(p) * stdDev)
    ensures NormalApproximation(mean, 0.0, p) == Sanitize(mean) == NormalApproximation(mean, stdDev, 50.0)
  {
  }

  // ----- Everything GetStats reports -----

  function Rate(part: int, whole: int): (r: real)
    ensures r * whole as real == if whole == 0 then 0.0 else part as real
    ensures whole == 0 ==> r == 0.0
  {
    if whole == 0 then 0.0 else part as real / whole as real
  }

  ghost predicate FiguresReported(r: Figures, sqrt: real -> real, w: Window, h: seq<Sample>) {
    var v := Values(Retained(w, h));
    && r.count == |v| && r.sum == Sanitize(Sum(v)) && r.mean == Sanitize(Mean(v))
    && r.variance == Sanitize(Variance(v)) && r.stdDev == Sanitize(StdDev(sqrt, v))
    && r.volatility == Sanitize(if Mean(v) == 0.0 then 0.0 else StdDev(sqrt, v) / Numbers.Abs(Mean(v)))
    && (v == [] ==> r.min == r.max == 0.0)
    && (v != [] ==> MinOf(v).Fin? && MaxOf(v).Fin? && r.min == Sanitize(MinOf(v).v) && r.max == Sanitize(MaxOf(v).v))
  }

  ghost predicate PercentilesReported(r: Percentiles, sqrt: real -> real, w: Window, h: seq<Sample>) {
    && Some(r.p25) == ReportedPercentile(sqrt, w, h, 25.0) && Some(r.p50) == ReportedPercentile(sqrt, w, h, 50.0)
    && Some(r.p75) == ReportedPercentile(sqrt, w, h, 75.0) && Some(r.p90) == ReportedPercentile(sqrt, w, h, 90.0)
    && Some(r.p95) == ReportedPercentile(sqrt, w, h, 95.0) && Some(r.p99) == ReportedPercentile(sqrt, w, h, 99.0)
  }

  /** First and last reading, the change between them, and the share of readings that were not numbers. */
  ghost predicate ChangesReported(r: Changes, h: seq<Sample>, nulls: int) {
    && r.nullRate == Sanitize(Rate(nulls, nulls + |h|)) && r.completeness == Sanitize(1.0 - Rate(nulls, nulls + |h|))
    && (h == [] ==> r.first == r.last == r.change == r.changeRate == 0.0)
    && (h != [] ==>
          var first, last := h[0].value, h[|h| - 1].value;
          && r.first == Sanitize(first) && r.last == Sanitize(last) && r.change == Sanitize(last - first)
          && r.changeRate == Sanitize(if first == 0.0 then 0.0 else (last - first) / Numbers.Abs(first) * 100.0))
  }

  function ReportedOutliers(sqrt: real -> real, w: Window, h: seq<Sample>): real {
    var v := Values(Retained(w, h));
    if |v| <= 3 then 0.0
    else if w.CountRing() then OutlierCount(SortedOf(v)) as real
    else Sanitize(EstimateOutliers(|v|, StdDev(sqrt, v)))
  }

  function ReportedThresholds(w: Window, h: seq<Sample>, upper: Option<real>, lower: Option<real>): Thresholds {
    var v := Values(Retained(w, h));
    Thresholds(
      if upper.None? then None
      else Some(if w.CountRing() then CountAbove(v, upper.value) as real else Sanitize(EstimateAbove(v, upper.value))),
      if lower.None? then None
      else Some(if w.CountRing() then CountBelow(v, lower.value) as real else Sanitize(EstimateBelow(v, lower.value))),
      if upper.None? || lower.None? then None
      else Some(if w.CountRing() then CountInside(v, lower.value, upper.value) as real
                else Sanitize(EstimateInside(v, lower.value, upper.value))))
  }
}
