/** Sorting, interpolated percentiles, median and interquartile outliers of a set of readings. */
module OrderStats {
  import opened RealSeq

  ghost predicate Sorted(s: seq<real>) {
    forall i, j | 0 <= i < j < |s| :: s[i] <= s[j]
  }

  ghost predicate SortedPermutation(r: seq<real>, s: seq<real>) {
    Sorted(r) && multiset(r) == multiset(s)
  }

  method Exchange(a: array<real>, i: nat, j: nat)
    requires i < j < a.Length
    modifies a
    ensures a[..] == old(a[..])[i := old(a[j])][j := old(a[i])]
    ensures multiset(a[..]) == multiset(old(a[..]))
  {
    a[i], a[j] := a[j], a[i];
  }

  /** One outer round of the exchange sort: position `i` ends up with the least of the remaining values. */
  method ExchangeRound(a: array<real>, i: nat)
    requires i < a.Length
    modifies a
    ensures multiset(a[..]) == multiset(old(a[..]))
    ensures a[..i] == old(a[..i])
    ensures forall q | i < q < a.Length :: a[i] <= a[q]
    ensures multiset(a[..][i..]) == multiset(old(a[..])[i..])
  {
    ghost var before := a[..];
    for j := i + 1 to a.Length
      invariant multiset(a[..]) == multiset(before)
      invariant a[..i] == before[..i]
      invariant forall q | i < q < j :: a[i] <= a[q]
    {
      if a[i] > a[j] {
        Exchange(a, i, j);
      }
    }
    SuffixMultiset(a[..], before, i);
  }

  lemma SuffixMultiset(x: seq<real>, y: seq<real>, i: nat)
    requires |x| == |y| && i <= |x| && x[..i] == y[..i] && multiset(x) == multiset(y)
    ensures multiset(x[i..]) == multiset(y[i..])
  {
    assert x == x[..i] + x[i..] && y == y[..i] + y[i..];
    assert multiset(x[i..]) == multiset(x) - multiset(x[..i]);
    assert multiset(y[i..]) == multiset(y) - multiset(y[..i]);
  }

  /** The exchange sort written out three times in the statistics code: position `i` is compared
      with every later position and swapped when out of order. */
  method ExchangeSort(s: seq<real>) returns (r: seq<real>)
    ensures SortedPermutation(r, s)
  {
    var a := new real[|s|](i requires 0 <= i < |s| => s[i]);
    assert a[..] == s;
    var i := 0;
    while i < a.Length - 1
      invariant 0 <= i <= a.Length
      invariant a.Length > 0 ==> i <= a.Length - 1
      invariant multiset(a[..]) == multiset(s)
      invariant forall p, q | 0 <= p < i && p < q < a.Length :: a[p] <= a[q]
    {
      ghost var before := a[..];
      ExchangeRound(a, i);
      assert forall p | 0 <= p < i :: a[p] == a[..i][p] == before[..i][p] == before[p];
      forall p, q | 0 <= p < i && i <= q < a.Length
        ensures a[p] <= a[q]
      {
        assert a[q] in multiset(a[..][i..]);
        assert a[q] in before[i..];
      }
      i := i + 1;
    }
    r := a[..];
  }

  /** A multiset of readings has only one sorted arrangement, so every sort above is interchangeable. */
  lemma {:induction false} SortedUnique(a: seq<real>, b: seq<real>)
    requires Sorted(a) && Sorted(b) && multiset(a) == multiset(b)
    ensures a == b
  {
    if a == [] {
      assert |b| == |multiset(b)| == 0;
    } else {
      SortedHead(a, b);
      SortedHead(b, a);
      RemoveHead(a);
      RemoveHead(b);
      SortedUnique(a[1..], b[1..]);
      assert a == [a[0]] + a[1..] && b == [b[0]] + b[1..];
    }
  }

  lemma SortedHead(a: seq<real>, b: seq<real>)
    requires Sorted(a) && multiset(a) == multiset(b) && a != []
    ensures b != [] && a[0] <= b[0]
  {
    assert |a| == |multiset(a)| == |multiset(b)| == |b|;
    assert b[0] in multiset(b);
    assert b[0] in a;
  }

  lemma RemoveHead(a: seq<real>)
    requires a != []
    ensures multiset(a[1..]) == multiset(a) - multiset{a[0]}
  {
    assert a == [a[0]] + a[1..];
  }

  /** The sorted arrangement of a collection of readings. */
  function SortedOf(s: seq<real>): (r: seq<real>)
    ensures |r| == |s| && SortedPermutation(r, s)
  {
    if s == [] then []
    else
      var front, x := s[..|s| - 1], s[|s| - 1];
      assert s == front + [x];
      Insert(SortedOf(front), x)
  }

  function Insert(r: seq<real>, x: real): (t: seq<real>)
    requires Sorted(r)
    ensures |t| == |r| + 1 && Sorted(t) && multiset(t) == multiset(r) + multiset{x}
  {
    if r == [] || r[|r| - 1] <= x then r + [x]
    else
      var front, y := r[..|r| - 1], r[|r| - 1];
      assert r == front + [y];
      var t := Insert(front, x);
      InsertBound(t, front, x, y);
      t + [y]
  }

  lemma InsertBound(t: seq<real>, front: seq<real>, x: real, y: real)
    requires multiset(t) == multiset(front) + multiset{x}
    requires x <= y && forall z | z in front :: z <= y
    ensures forall i | 0 <= i < |t| :: t[i] <= y
  {
    forall i | 0 <= i < |t|
      ensures t[i] <= y
    {
      assert t[i] in multiset(t);
      assert t[i] == x || t[i] in multiset(front);
      assert t[i] == x || t[i] in front;
    }
  }

  /** Sorted readings run from the minimum to the maximum. */
  lemma SortedEnds(r: seq<real>, s: seq<real>)
    requires SortedPermutation(r, s) && s != []
    ensures |r| == |s|
    ensures MinOf(s) == Fin(r[0]) && MaxOf(s) == Fin(r[|r| - 1])
  {
    assert |r| == |multiset(r)| == |multiset(s)| == |s|;
    Extremes(s);
    assert MinOf(s).v in multiset(s) && MaxOf(s).v in multiset(s);
    assert MinOf(s).v in r && MaxOf(s).v in r;
    assert r[0] in multiset(r) && r[|r| - 1] in multiset(r);
    assert r[0] in s && r[|r| - 1] in s;
  }

  /** Linear interpolation at a fractional position of a sorted sequence. */
  function Interpolate(r: seq<real>, pos: real): real
    requires r != [] && 0.0 <= pos <= (|r| - 1) as real
  {
    var lo := pos.Floor;
    if pos == lo as real then r[lo]
    else r[lo] * (1.0 - (pos - lo as real)) + r[lo + 1] * (pos - lo as real)
  }

  function PercentilePosition(p: real, n: nat): real
    requires n > 0
  {
    p / 100.0 * (n - 1) as real
  }

  lemma PositionInRange(p: real, n: nat)
    requires n > 0 && 0.0 <= p <= 100.0
    ensures 0.0 <= PercentilePosition(p, n) <= (n - 1) as real
  {
    var f, m := p / 100.0, (n - 1) as real;
    assert 0.0 <= f <= 1.0 && m >= 0.0;
    MulSign(f, m);
    MulSign(1.0 - f, m);
    assert f * m == m - (1.0 - f) * m;
  }

  function Percentile(r: seq<real>, p: real): real
    requires r != [] && 0.0 <= p <= 100.0
  {
    PositionInRange(p, |r|);
    Interpolate(r, PercentilePosition(p, |r|))
  }

  /** The rank the time-window code returns: the element below the position, never interpolated. */
  function LowerRank(r: seq<real>, p: real): real
    requires r != [] && 0.0 <= p <= 100.0
  {
    PositionInRange(p, |r|);
    r[PercentilePosition(p, |r|).Floor]
  }

  /** The middle element, or the average of the two middle elements. */
  function Median(r: seq<real>): real
    requires r != []
  {
    if |r| % 2 == 1 then r[|r| / 2] else (r[|r| / 2 - 1] + r[|r| / 2]) / 2.0
  }

  /** Interpolation stays between the neighbours of the position. */
  lemma InterpolateBetween(r: seq<real>, pos: real)
    requires r != [] && Sorted(r) && 0.0 <= pos <= (|r| - 1) as real
    ensures r[pos.Floor] <= Interpolate(r, pos)
    ensures forall k | pos <= k as real && k < |r| :: Interpolate(r, pos) <= r[k]
  {
    var lo := pos.Floor;
    if pos != lo as real {
      var w, d := pos - lo as real, r[lo + 1] - r[lo];
      assert 0.0 < w < 1.0 && d >= 0.0;
      assert Interpolate(r, pos) == r[lo] + d * w;
      MulSign(d, w);
      MulSign(d, 1.0 - w);
      assert d * w == d - d * (1.0 - w);
      forall k | pos <= k as real && k < |r|
        ensures Interpolate(r, pos) <= r[k]
      {
        assert k >= lo + 1;
      }
    }
  }

  /** Interpolation is monotone in the position. */
  lemma InterpolateMonotone(r: seq<real>, p: real, q: real)
    requires r != [] && Sorted(r) && 0.0 <= p <= q <= (|r| - 1) as real
    ensures Interpolate(r, p) <= Interpolate(r, q)
  {
    var lo := p.Floor;
    if lo == q.Floor {
      if lo < |r| - 1 {
        var d := r[lo + 1] - r[lo];
        assert d >= 0.0;
        assert Interpolate(r, p) == r[lo] + d * (p - lo as real);
        assert Interpolate(r, q) == r[lo] + d * (q - lo as real);
        MulSign(d, q - p);
        assert d * (q - lo as real) == d * (p - lo as real) + d * (q - p);
      }
    } else {
      InterpolateBetween(r, p);
      InterpolateBetween(r, q);
    }
  }

  lemma PositionMonotone(p: real, q: real, n: nat)
    requires n > 0 && p <= q
    ensures PercentilePosition(p, n) <= PercentilePosition(q, n)
  {
    MulSign(q / 100.0 - p / 100.0, (n - 1) as real);
  }

  /** Percentiles are ordered like their percentages and stay inside the range of the data. */
  lemma PercentileMonotone(r: seq<real>, p: real, q: real)
    requires r != [] && Sorted(r) && 0.0 <= p <= q <= 100.0
    ensures r[0] <= Percentile(r, p) <= Percentile(r, q) <= r[|r| - 1]
    ensures r[0] <= LowerRank(r, p) <= LowerRank(r, q) <= r[|r| - 1]
    ensures LowerRank(r, p) <= Percentile(r, p)
  {
    PositionInRange(p, |r|);
    PositionInRange(q, |r|);
    PositionMonotone(p, q, |r|);
    var a, b := PercentilePosition(p, |r|), PercentilePosition(q, |r|);
    InterpolateMonotone(r, a, b);
    InterpolateBetween(r, a);
    InterpolateBetween(r, b);
  }

  /** The lower-rank percentile is the interpolated one exactly when the position falls on an element or
      between two equal ones. */
  lemma LowerRankExact(r: seq<real>, p: real)
    requires r != [] && 0.0 <= p <= 100.0
    ensures
      var pos := PercentilePosition(p, |r|);
      LowerRank(r, p) == Percentile(r, p) <==>
        pos == pos.Floor as real || (0 <= pos.Floor < |r| - 1 && r[pos.Floor] == r[pos.Floor + 1])
  {
    hide PercentilePosition;
    PositionInRange(p, |r|);
    var pos := PercentilePosition(p, |r|);
    var lo := pos.Floor;
    if pos != lo as real {
      var w, d := pos - lo as real, r[lo + 1] - r[lo];
      assert Interpolate(r, pos) == r[lo] + d * w;
      NonZeroProduct(d, w);
    }
  }

  lemma NonZeroProduct(a: real, b: real)
    requires b != 0.0
    ensures a * b == 0.0 <==> a == 0.0
  {
  }

  /** The 50th percentile and the separately computed median agree. */
  lemma MedianIsP50(r: seq<real>)
    requires r != []
    ensures Percentile(r, 50.0) == Median(r)
  {
    var n := |r|;
    var pos := PercentilePosition(50.0, n);
    assert pos == (n - 1) as real / 2.0;
    if n % 2 == 1 {
      assert n == 2 * (n / 2) + 1;
      assert pos == (n / 2) as real;
    } else {
      assert n == 2 * (n / 2);
      assert pos == (n / 2 - 1) as real + 0.5;
      assert pos.Floor == n / 2 - 1;
    }
  }

  /** How many of `s` lie strictly below `x`, and strictly above. */
  function CountBelow(s: seq<real>, x: real): nat {
    if s == [] then 0 else CountBelow(s[..|s| - 1], x) + if s[|s| - 1] < x then 1 else 0
  }

  function CountAbove(s: seq<real>, x: real): nat {
    if s == [] then 0 else CountAbove(s[..|s| - 1], x) + if s[|s| - 1] > x then 1 else 0
  }

  /** Readings outside `[lo, hi]`. */
  function CountOutside(s: seq<real>, lo: real, hi: real): nat {
    if s == [] then 0
    else CountOutside(s[..|s| - 1], lo, hi) + if s[|s| - 1] < lo || s[|s| - 1] > hi then 1 else 0
  }

  /** Readings inside `[lo, hi]`. */
  function CountInside(s: seq<real>, lo: real, hi: real): nat {
    if s == [] then 0
    else CountInside(s[..|s| - 1], lo, hi) + if lo <= s[|s| - 1] <= hi then 1 else 0
  }

  /** Readings strictly between `lo` and `hi`. */
  function CountBetween(s: seq<real>, lo: real, hi: real): nat {
    if s == [] then 0
    else CountBetween(s[..|s| - 1], lo, hi) + if lo < s[|s| - 1] < hi then 1 else 0
  }

  lemma {:induction false} CountBelowAtMost(r: seq<real>, x: real, k: nat)
    requires forall i | k <= i < |r| :: r[i] >= x
    ensures CountBelow(r, x) <= k
  {
    if r != [] {
      if |r| > k {
        CountBelowAtMost(r[..|r| - 1], x, k);
      } else {
        CountBelowAtMost(r[..|r| - 1], x, |r| - 1);
      }
    }
  }

  lemma {:induction false} CountAboveAtMost(r: seq<real>, x: real, k: nat)
    requires forall i | 0 <= i < k && i < |r| :: r[i] <= x
    ensures CountAbove(r, x) <= if |r| <= k then 0 else |r| - k
  {
    if r != [] {
      CountAboveAtMost(r[..|r| - 1], x, k);
    }
  }

  lemma {:induction false} OutsideSplits(r: seq<real>, lo: real, hi: real, x: real, y: real)
    requires lo <= x && y <= hi
    ensures CountOutside(r, lo, hi) <= CountBelow(r, x) + CountAbove(r, y)
  {
    if r != [] {
      OutsideSplits(r[..|r| - 1], lo, hi, x, y);
    }
  }

  /** Quartile `k` (1 or 3) as the outlier code computes it. */
  function Quartile(r: seq<real>, share: real): real
    requires r != [] && 0.0 <= share <= 1.0
  {
    QuartilePosition(|r|, share);
    Interpolate(r, (|r| - 1) as real * share)
  }

  lemma QuartilePosition(n: nat, share: real)
    requires n > 0 && 0.0 <= share <= 1.0
    ensures 0.0 <= (n - 1) as real * share <= (n - 1) as real
  {
    MulSign((n - 1) as real, share);
    MulSign((n - 1) as real, 1.0 - share);
  }

  function OutlierCount(r: seq<real>): nat
    requires r != []
  {
    var q1, q3 := Quartile(r, 0.25), Quartile(r, 0.75);
    CountOutside(r, q1 - 1.5 * (q3 - q1), q3 + 1.5 * (q3 - q1))
  }

  /** `(n - 1) / 4`, rounded up. */
  function QuarterUp(n: nat): nat
    requires n > 0
  {
    (n - 1 + 3) / 4
  }

  /** At most a quarter of the readings at each end can be reported as outliers. */
  lemma OutlierBound(r: seq<real>)
    requires r != [] && Sorted(r)
    ensures OutlierCount(r) <= 2 * QuarterUp(|r|)
  {
    var n, k := |r|, QuarterUp(|r|);
    var a, b := (n - 1) as real * 0.25, (n - 1) as real * 0.75;
    var q1, q3 := Quartile(r, 0.25), Quartile(r, 0.75);
    InterpolateMonotone(r, a, b);
    InterpolateBetween(r, a);
    InterpolateBetween(r, b);
    assert a <= k as real;
    CountBelowAtMost(r, q1, k);
    var m := b.Floor + 1;
    assert n - m <= k;
    CountAboveAtMost(r, q3, m);
    OutsideSplits(r, q1 - 1.5 * (q3 - q1), q3 + 1.5 * (q3 - q1), q1, q3);
  }

  /** The three threshold counters add up to the number of readings, plus the readings that lie
      strictly between a misconfigured upper limit and a larger lower limit (these count twice); so they
      partition the readings exactly when there are none of those, in particular when lower <= upper. */
  lemma {:induction false} ThresholdsPartition(s: seq<real>, lower: real, upper: real)
    ensures CountAbove(s, upper) + CountBelow(s, lower) + CountInside(s, lower, upper)
         == |s| + CountBetween(s, upper, lower)
    ensures CountBetween(s, upper, lower) == 0 <==> forall i | 0 <= i < |s| :: !(upper < s[i] < lower)
  {
    if s != [] {
      ThresholdsPartition(s[..|s| - 1], lower, upper);
    }
  }

  /** So they partition all collections of readings exactly when the limits are in order. */
  lemma ThresholdsPartitionIff(lower: real, upper: real)
    ensures (forall s :: CountAbove(s, upper) + CountBelow(s, lower) + CountInside(s, lower, upper) == |s|)
       <==> lower <= upper
  {
    if lower <= upper {
      forall s: seq<real>
        ensures CountAbove(s, upper) + CountBelow(s, lower) + CountInside(s, lower, upper) == |s|
      {
        ThresholdsPartition(s, lower, upper);
      }
    } else {
      MisorderedLimits(lower, upper);
    }
  }

  /** A reading between an upper limit and a larger lower limit is counted twice, as above and as below. */
  lemma MisorderedLimits(lower: real, upper: real)
    requires lower > upper
    ensures
      var s := [(lower + upper) / 2.0];
      CountAbove(s, upper) == CountBelow(s, lower) == 1 && CountInside(s, lower, upper) == 0
  {
    var s := [(lower + upper) / 2.0];
    assert s[..0] == [];
  }

  lemma {:induction false} CountPermutes(a: seq<real>, b: seq<real>, lo: real, hi: real)
    requires multiset(a) == multiset(b)
    ensures CountAbove(a, hi) == CountAbove(b, hi)
    ensures CountBelow(a, lo) == CountBelow(b, lo)
    ensures CountInside(a, lo, hi) == CountInside(b, lo, hi)
  {
    hide CountAbove, CountBelow, CountInside;
    if a == [] {
      assert |b| == |multiset(b)| == 0;
    } else {
      var x, tail := a[0], a[1..];
      RemoveHead(a);
      assert x in multiset(b);
      var k :| 0 <= k < |b| && b[k] == x;
      RemoveAt(b, k);
      CountPermutes(tail, b[..k] + b[k + 1..], lo, hi);
      assert a == [x] + tail;
      CountSplit([x], tail, lo, hi);
      CountSplit(b[..k], b[k + 1..], lo, hi);
      assert b == b[..k] + ([x] + b[k + 1..]);
      CountSplit(b[..k], [x] + b[k + 1..], lo, hi);
      CountSplit([x], b[k + 1..], lo, hi);
    }
  }

  lemma RemoveAt(b: seq<real>, k: nat)
    requires k < |b|
    ensures multiset(b[..k] + b[k + 1..]) == multiset(b) - multiset{b[k]}
  {
    assert b == b[..k] + [b[k]] + b[k + 1..];
  }

  lemma {:induction false} CountSplit(a: seq<real>, b: seq<real>, lo: real, hi: real)
    ensures CountAbove(a + b, hi) == CountAbove(a, hi) + CountAbove(b, hi)
    ensures CountBelow(a + b, lo) == CountBelow(a, lo) + CountBelow(b, lo)
    ensures CountInside(a + b, lo, hi) == CountInside(a, lo, hi) + CountInside(b, lo, hi)
  {
    if b == [] {
      assert a + b == a;
    } else {
      assert (a + b)[..|a + b| - 1] == a + b[..|b| - 1];
      CountSplit(a, b[..|b| - 1], lo, hi);
    }
  }

  /** Readings closer to zero than 1e-15 are reported as zero. */
  function Sanitize(x: real): real {
    if -0.000000000000001 < x < 0.000000000000001 then 0.0 else x
  }

  /** Nothing moves by 1e-15 or more, and only numbers closer to zero than that move at all. */
  lemma SanitizeExact(x: real)
    ensures -0.000000000000001 < Sanitize(x) - x < 0.000000000000001
    ensures Sanitize(x) == x <==> x == 0.0 || x <= -0.000000000000001 || x >= 0.000000000000001
    ensures Sanitize(x) == x || Sanitize(x) == 0.0
  {
  }

  lemma SanitizeMonotone(x: real, y: real)
    requires x <= y
    ensures Sanitize(x) <= Sanitize(y)
    ensures Sanitize(Sanitize(x)) == Sanitize(x)
  {
  }
}
