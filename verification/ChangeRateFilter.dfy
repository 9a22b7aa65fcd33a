/** The change-rate filter: a point is dropped when it moves away from the last accepted point of its
    cache key faster than the limit. */
module ChangeRate {
  import opened Options
  import opened Numbers

  /** A data point; `value` is its numeric value, if it has one, and `at` its timestamp in nanoseconds. */
  datatype Point = Point(device: string, key: string, value: Option<Number>, at: int)

  /** The `time_window` parameter: absent, not a duration, or a duration in nanoseconds. */
  datatype WindowSetting = Absent | Malformed | Given(duration: int)

  datatype Config = Config(maxChangeRate: Option<real>, timeWindow: WindowSetting)

  datatype Verdict = Passed | Filtered | ConfigError

  datatype Entry = Entry(lastValue: Number, lastTimestamp: int)

  type Cache = map<string, Entry>

  const DEFAULT_WINDOW := 10_000_000_000

  function CacheKey(p: Point): string {
    "chg:" + p.device + ":" + p.key
  }

  function Seconds(duration: int): real {
    duration as real / 1_000_000_000.0
  }

  /** How far a value may move in `duration`. */
  function Allowed(rate: real, duration: int): real {
    rate * Seconds(duration)
  }

  /** The effective window. */
  function WindowOf(c: Config): int {
    if c.timeWindow.Given? then c.timeWindow.duration else DEFAULT_WINDOW
  }

  /** The distance of two numbers: infinite between an infinity and anything else, and not a number when NaN
      takes part or both are the same infinity. */
  function Distance(a: Number, b: Number): Number {
    if a.Finite? && b.Finite? then Finite(Abs(a.r - b.r))
    else if a.NaN? || b.NaN? || a == b then NaN
    else PosInf
  }

  /** A distance covered in some seconds exceeds the rate; nothing that is not a number exceeds anything. */
  predicate Exceeds(distance: Number, seconds: real, rate: real)
    requires seconds > 0.0
  {
    match distance
    case Finite(d) => d / seconds > rate
    case PosInf => true
    case _ => false
  }

  /** The point lies within the window after the entry and moved faster than `rate` allows. */
  predicate TooFast(e: Entry, v: Number, at: int, rate: real, window: int) {
    var timeDiff := at - e.lastTimestamp;
    0 < timeDiff <= window && Exceeds(Distance(v, e.lastValue), Seconds(timeDiff), rate)
  }

  /** One check: the new cache and the verdict. */
  function Check(cache: Cache, p: Point, c: Config): (Cache, Verdict) {
    if c.maxChangeRate.None? || c.timeWindow.Malformed? then (cache, ConfigError)
    else if p.value.None? then (cache, Passed)
    else if CacheKey(p) in cache && TooFast(cache[CacheKey(p)], p.value.value, p.at, c.maxChangeRate.value, WindowOf(c))
    then (cache, Filtered)
    else (cache[CacheKey(p) := Entry(p.value.value, p.at)], Passed)
  }

  class FilterHandler {
    var changeRateCache: Cache

    constructor ()
      ensures changeRateCache == map[]
    {
      changeRateCache := map[];
    }

    method ChangeRateFilter(point: Point, config: Config) returns (verdict: Verdict)
      modifies this
      ensures (changeRateCache, verdict) == Check(old(changeRateCache), point, config)
      ensures verdict != Passed ==> changeRateCache == old(changeRateCache)
    {
      if config.maxChangeRate.None? {
        return ConfigError;
      }
      var maxChangeRate := config.maxChangeRate.value;
      if config.timeWindow.Malformed? {
        return ConfigError;
      }
      var timeWindow := if config.timeWindow.Given? then config.timeWindow.duration else DEFAULT_WINDOW;
      var cacheKey := "chg:" + point.device + ":" + point.key;
      if point.value.None? {
        return Passed;
      }
      var currentValue := point.value.value;
      if cacheKey in changeRateCache {
        var entry := changeRateCache[cacheKey];
        var timeDiff := point.at - entry.lastTimestamp;
        if timeDiff <= timeWindow && timeDiff > 0 {
          var valueDiff := Distance(currentValue, entry.lastValue);
          if Exceeds(valueDiff, Seconds(timeDiff), maxChangeRate) {
            return Filtered;
          }
        }
      }
      changeRateCache := changeRateCache[cacheKey := Entry(currentValue, point.at)];
      return Passed;
    }
  }

  // ----- Runs -----

  function After(cache: Cache, points: seq<Point>, c: Config): Cache {
    if points == [] then cache else Check(After(cache, points[..|points| - 1], c), points[|points| - 1], c).0
  }

  /** The accepted numeric points of one cache key, in order, among a run of points of any key. */
  function Accepted(cache: Cache, points: seq<Point>, c: Config, key: string): seq<Point> {
    if points == [] then []
    else
      var front, p := points[..|points| - 1], points[|points| - 1];
      Accepted(cache, front, c, key)
      + if CacheKey(p) == key && p.value.Some? && Check(After(cache, front, c), p, c).1 == Passed then [p] else []
  }

  ghost predicate AllNumeric(s: seq<Point>) {
    forall i | 0 <= i < |s| :: s[i].value.Some?
  }

  /** The cache entry a point leaves. */
  function EntryOf(p: Point): Entry
    requires p.value.Some?
  {
    Entry(p.value.value, p.at)
  }

  predicate IsFinite(p: Point) {
    p.value.Some? && p.value.value.Finite?
  }

  /** The value of a point that has a finite one. */
  function ValueOf(p: Point): real
    requires IsFinite(p)
  {
    p.value.value.r
  }

  /** Two points with finite values are no further apart than the rate allows. */
  ghost predicate WithinRate(p: Point, q: Point, rate: real)
    requires IsFinite(p) && IsFinite(q)
  {
    Abs(ValueOf(q) - ValueOf(p)) <= Allowed(rate, q.at - p.at)
  }

  /** Two consecutive accepted points with finite values within the window respect the limit. */
  ghost predicate PairBounded(p: Point, q: Point, rate: real, window: int) {
    IsFinite(p) && IsFinite(q) && 0 < q.at - p.at <= window ==> WithinRate(p, q, rate)
  }

  lemma NotTooFast(e: Entry, v: real, at: int, rate: real, window: int)
    requires !TooFast(e, Finite(v), at, rate, window) && 0 < at - e.lastTimestamp <= window && e.lastValue.Finite?
    ensures Abs(v - e.lastValue.r) <= Allowed(rate, at - e.lastTimestamp)
  {
    var d, t := Abs(v - e.lastValue.r), Seconds(at - e.lastTimestamp);
    assert t > 0.0;
    assert d == d / t * t;
    Scale(d / t, rate, t);
  }

  /** After a finite value, every finite value that is accepted respects the limit exactly when the point is
      later than the last accepted one by at most the window. */
  lemma StepBoundedIff(e: Entry, at: int, rate: real, window: int)
    requires e.lastValue.Finite?
    ensures (forall v :: !TooFast(e, Finite(v), at, rate, window) ==>
               Abs(v - e.lastValue.r) <= Allowed(rate, at - e.lastTimestamp))
       <==> 0 < at - e.lastTimestamp <= window
  {
    hide Allowed, Exceeds;
    if 0 < at - e.lastTimestamp <= window {
      forall v | !TooFast(e, Finite(v), at, rate, window)
        ensures Abs(v - e.lastValue.r) <= Allowed(rate, at - e.lastTimestamp)
      {
        NotTooFast(e, v, at, rate, window);
      }
    } else {
      var v := e.lastValue.r + Abs(Allowed(rate, at - e.lastTimestamp)) + 1.0;
      assert !TooFast(e, Finite(v), at, rate, window);
      assert Abs(v - e.lastValue.r) > Allowed(rate, at - e.lastTimestamp);
    }
  }

  lemma Scale(x: real, y: real, t: real)
    requires x <= y && t > 0.0
    ensures x * t <= y * t
  {
    assert (y - x) * t >= 0.0;
  }

  /** The cache entry of a key is always its last accepted point, and consecutive accepted points
      respect the limit, however many rejected, non-numeric or foreign points lie between them. */
  lemma {:induction false} AcceptedChain(cache: Cache, points: seq<Point>, c: Config, key: string)
    requires c.maxChangeRate.Some?
    ensures
      var acc, now := Accepted(cache, points, c, key), After(cache, points, c);
      && AllNumeric(acc)
      && (acc == [] ==> (key in now <==> key in cache) && (key in now ==> now[key] == cache[key]))
      && (acc != [] ==> key in now && now[key] == EntryOf(acc[|acc| - 1]))
      && forall i | 0 < i < |acc| :: PairBounded(acc[i - 1], acc[i], c.maxChangeRate.value, WindowOf(c))
  {
    hide CacheKey, TooFast, WindowOf, PairBounded, Check;
    if points != [] {
      var front, p := points[..|points| - 1], points[|points| - 1];
      AcceptedChain(cache, front, c, key);
      var before, acc := After(cache, front, c), Accepted(cache, front, c, key);
      CheckEffect(before, p, c, key);
      if CacheKey(p) == key && p.value.Some? && Check(before, p, c).1 == Passed && acc != [] {
        LinkBounded(acc[|acc| - 1], p, c.maxChangeRate.value, WindowOf(c));
      }
    }
  }

  /** What a check does to the entry of a key. */
  lemma CheckEffect(cache: Cache, p: Point, c: Config, key: string)
    requires c.maxChangeRate.Some?
    ensures
      var (now, verdict) := Check(cache, p, c);
      if CacheKey(p) == key && p.value.Some? && verdict == Passed
      then
        && key in now && now[key] == EntryOf(p)
        && (key in cache ==> !TooFast(cache[key], p.value.value, p.at, c.maxChangeRate.value, WindowOf(c)))
      else (key in now <==> key in cache) && (key in now ==> now[key] == cache[key])
  {
    hide CacheKey, TooFast, WindowOf;
  }

  lemma LinkBounded(q: Point, p: Point, rate: real, window: int)
    requires q.value.Some? && p.value.Some?
    ensures !TooFast(EntryOf(q), p.value.value, p.at, rate, window) ==> PairBounded(q, p, rate, window)
  {
    if IsFinite(p) && IsFinite(q) && 0 < p.at - q.at <= window
       && !TooFast(EntryOf(q), p.value.value, p.at, rate, window) {
      NotTooFast(EntryOf(q), ValueOf(p), p.at, rate, window);
    }
  }

  // ----- Exactly what is rejected -----

  /** The limit is per second: in `n` seconds a value may move by `n` times the rate. */
  lemma AllowedPerSecond(rate: real, n: int)
    ensures Allowed(rate, n * 1_000_000_000) == rate * n as real
  {
    assert (n * 1_000_000_000) as real == n as real * 1_000_000_000.0;
    assert Seconds(n * 1_000_000_000) == n as real;
  }

  /** A finite point is too fast after a finite one exactly when it lies within the window and moved further
      than the rate allows. */
  lemma TooFastIff(u: real, since: int, v: real, at: int, rate: real, window: int)
    ensures TooFast(Entry(Finite(u), since), Finite(v), at, rate, window) <==>
      0 < at - since <= window && Abs(v - u) > Allowed(rate, at - since)
  {
    if 0 < at - since <= window {
      var d, t := Abs(v - u), Seconds(at - since);
      assert t > 0.0 && d == d / t * t;
      if d / t > rate {
        ScaleStrict(rate, d / t, t);
      } else {
        Scale(d / t, rate, t);
      }
    }
  }

  lemma ScaleStrict(x: real, y: real, t: real)
    requires x < y && t > 0.0
    ensures x * t < y * t
  {
    assert (y - x) * t > 0.0;
  }

  /** Any step between an infinity and another number is too fast within the window, whatever the rate; a step
      from or to NaN, or from an infinity to itself, never is. */
  lemma TooFastSpecial(e: Entry, v: Number, at: int, rate: real, window: int)
    requires !e.lastValue.Finite? || !v.Finite?
    ensures TooFast(e, v, at, rate, window) <==>
      0 < at - e.lastTimestamp <= window && !e.lastValue.NaN? && !v.NaN? && v != e.lastValue
  {
  }

  /** The verdict on a point after any run from a fresh filter: it is filtered exactly when it breaks the limit
      against the last accepted point of its device and key; the window is ten seconds unless given. */
  lemma FilteredIff(points: seq<Point>, p: Point, c: Config)
    requires c.maxChangeRate.Some? && !c.timeWindow.Malformed? && p.value.Some?
    ensures
      var acc := Accepted(map[], points, c, "chg:" + p.device + ":" + p.key);
      var window := if c.timeWindow.Given? then c.timeWindow.duration else 10_000_000_000;
      && AllNumeric(acc)
      && (Check(After(map[], points, c), p, c).1 == Filtered <==>
            acc != [] && TooFast(EntryOf(acc[|acc| - 1]), p.value.value, p.at, c.maxChangeRate.value, window))
      && (acc != [] && IsFinite(acc[|acc| - 1]) && IsFinite(p) ==>
            (Check(After(map[], points, c), p, c).1 == Filtered <==>
               && 0 < p.at - acc[|acc| - 1].at <= window
               && !WithinRate(acc[|acc| - 1], p, c.maxChangeRate.value)))
  {
    hide Accepted, After, TooFast, Allowed;
    var id := "chg:" + p.device + ":" + p.key;
    AcceptedChain(map[], points, c, id);
    var acc := Accepted(map[], points, c, id);
    if acc != [] && IsFinite(acc[|acc| - 1]) && IsFinite(p) {
      var q := acc[|acc| - 1];
      TooFastIff(ValueOf(q), q.at, ValueOf(p), p.at, c.maxChangeRate.value, WindowOf(c));
    }
  }

  ghost predicate GapsInWindow(acc: seq<Point>, window: int) {
    forall i | 0 < i < |acc| :: 0 < acc[i].at - acc[i - 1].at <= window
  }

  lemma AllowedAdds(rate: real, a: int, b: int)
    ensures Allowed(rate, a) + Allowed(rate, b) == Allowed(rate, a + b)
    ensures Allowed(rate, 0) == 0.0
  {
    assert Seconds(a) + Seconds(b) == Seconds(a + b);
    assert rate * (Seconds(a) + Seconds(b)) == rate * Seconds(a) + rate * Seconds(b);
  }

  ghost predicate AllFinite(s: seq<Point>) {
    forall i | 0 <= i < |s| :: IsFinite(s[i])
  }

  /** Limits on consecutive steps add up along the chain. */
  lemma {:induction false} Telescope(acc: seq<Point>, rate: real, window: int)
    requires |acc| > 0 && AllFinite(acc) && GapsInWindow(acc, window)
    requires forall i | 0 < i < |acc| :: PairBounded(acc[i - 1], acc[i], rate, window)
    ensures WithinRate(acc[0], acc[|acc| - 1], rate)
  {
    hide Allowed;
    AllowedAdds(rate, 0, 0);
    if |acc| > 1 {
      var n := |acc| - 1;
      var front := acc[..n];
      forall i | 0 < i < n
        ensures PairBounded(front[i - 1], front[i], rate, window)
        ensures 0 < front[i].at - front[i - 1].at <= window
      {
        assert PairBounded(acc[i - 1], acc[i], rate, window);
      }
      Telescope(front, rate, window);
      assert PairBounded(acc[n - 1], acc[n], rate, window);
      AllowedAdds(rate, acc[n - 1].at - acc[0].at, acc[n].at - acc[n - 1].at);
    }
  }

  /** Over any run, a stretch of accepted points with finite values whose gaps stay within the window drifts
      no faster than the limit from its first to its last point. */
  lemma AcceptedDriftBounded(cache: Cache, points: seq<Point>, c: Config, key: string, i: nat, j: nat)
    requires c.maxChangeRate.Some? && i <= j < |Accepted(cache, points, c, key)|
    requires AllFinite(Accepted(cache, points, c, key)[i..j + 1])
    requires GapsInWindow(Accepted(cache, points, c, key)[i..j + 1], WindowOf(c))
    ensures
      var acc := Accepted(cache, points, c, key);
      IsFinite(acc[i]) && IsFinite(acc[j]) && WithinRate(acc[i], acc[j], c.maxChangeRate.value)
  {
    hide Accepted, After, Check, PairBounded, WithinRate, WindowOf, IsFinite;
    AcceptedChain(cache, points, c, key);
    var acc := Accepted(cache, points, c, key);
    var part := acc[i..j + 1];
    assert part[0] == acc[i] && part[|part| - 1] == acc[j];
    forall k | 0 < k < |part|
      ensures PairBounded(part[k - 1], part[k], c.maxChangeRate.value, WindowOf(c))
    {
      assert PairBounded(acc[i + k - 1], acc[i + k], c.maxChangeRate.value, WindowOf(c));
    }
    Telescope(part, c.maxChangeRate.value, WindowOf(c));
  }

  // ----- When the drift is bounded -----

  /** Points of one device and key with finite values at the given times. */
  ghost predicate TimedRun(points: seq<Point>, times: seq<int>, device: string, key: string) {
    && |points| == |times| && AllFinite(points)
    && forall i | 0 <= i < |times| :: points[i].device == device && points[i].key == key && points[i].at == times[i]
  }

  /** All of them are accepted by a fresh filter. */
  ghost predicate AllAccepted(points: seq<Point>, c: Config, device: string, key: string) {
    Accepted(map[], points, c, "chg:" + device + ":" + key) == points
  }

  ghost predicate DriftBounded(points: seq<Point>, rate: real)
    requires AllFinite(points) && points != []
  {
    WithinRate(points[0], points[|points| - 1], rate)
  }

  /** A run that stays at zero and jumps to `height` with point number `k`. */
  function Jump(times: seq<int>, device: string, key: string, k: nat, height: real): (points: seq<Point>)
    ensures |points| == |times|
    ensures forall i | 0 <= i < |times| ::
      points[i] == Point(device, key, Some(Finite(if i < k then 0.0 else height)), times[i])
  {
    seq(|times|, i requires 0 <= i < |times| =>
      Point(device, key, Some(Finite(if i < k then 0.0 else height)), times[i]))
  }

  lemma SameValueAccepted(e: Entry, at: int, rate: real, window: int)
    requires e.lastValue.Finite? && rate >= 0.0
    ensures !TooFast(e, e.lastValue, at, rate, window)
  {
    if 0 < at - e.lastTimestamp <= window {
      assert 0.0 / Seconds(at - e.lastTimestamp) == 0.0;
    }
  }

  lemma OneMoreAccepted(front: seq<Point>, p: Point, c: Config, id: string)
    requires c.maxChangeRate.Some? && !c.timeWindow.Malformed? && CacheKey(p) == id && p.value.Some?
    requires AllNumeric(front) && Accepted(map[], front, c, id) == front
    requires front != [] ==>
      !TooFast(EntryOf(front[|front| - 1]), p.value.value, p.at, c.maxChangeRate.value, WindowOf(c))
    ensures Accepted(map[], front + [p], c, id) == front + [p]
  {
    hide WindowOf, TooFast, CacheKey;
    AcceptedChain(map[], front, c, id);
    assert (front + [p])[..|front|] == front;
    assert Check(After(map[], front, c), p, c).1 == Passed;
  }

  predicate GapInWindow(times: seq<int>, i: nat, window: int)
    requires 0 < i < |times|
  {
    0 < times[i] - times[i - 1] <= window
  }

  /** A jump over a gap outside the window is accepted, and so is everything around it; with a negative limit,
      if no gap is in the window. */
  lemma {:induction false} JumpAccepted(times: seq<int>, c: Config, device: string, key: string, k: nat, height: real,
                                        n: nat)
    requires c.maxChangeRate.Some? && !c.timeWindow.Malformed?
    requires 0 < k < |times| && !GapInWindow(times, k, WindowOf(c)) && n <= |times|
    requires c.maxChangeRate.value >= 0.0 || forall i | 0 < i < |times| :: !GapInWindow(times, i, WindowOf(c))
    ensures AllAccepted(Jump(times, device, key, k, height)[..n], c, device, key)
  {
    hide WindowOf, TooFast, Check, After;
    if n > 0 {
      var points, id := Jump(times, device, key, k, height), "chg:" + device + ":" + key;
      var front, p := points[..n - 1], points[n - 1];
      JumpAccepted(times, c, device, key, k, height, n - 1);
      if n > 1 {
        var e := EntryOf(front[n - 2]);
        if !GapInWindow(times, n - 1, WindowOf(c)) {
          OutsideWindow(e, p.value.value, p.at, c.maxChangeRate.value, WindowOf(c));
        } else {
          SameValueAccepted(e, p.at, c.maxChangeRate.value, WindowOf(c));
        }
      }
      hide Accepted, Jump;
      OneMoreAccepted(front, p, c, id);
      assert points[..n] == front + [p];
    }
  }

  lemma OutsideWindow(e: Entry, v: Number, at: int, rate: real, window: int)
    requires !(0 < at - e.lastTimestamp <= window)
    ensures !TooFast(e, v, at, rate, window)
  {
  }

  lemma GapsOfRun(points: seq<Point>, times: seq<int>, device: string, key: string, window: int)
    requires TimedRun(points, times, device, key)
    requires forall i | 0 < i < |times| :: GapInWindow(times, i, window)
    ensures GapsInWindow(points, window)
  {
    forall i | 0 < i < |points|
      ensures 0 < points[i].at - points[i - 1].at <= window
    {
      assert GapInWindow(times, i, window);
    }
  }

  /** For given times of the points, whatever their values: accepted runs drift no faster than the limit from
      first to last exactly when every gap is positive and within the window. A negative limit accepts nothing
      over such a gap, so there the bound holds, of no run, exactly when some gap is of that kind. */
  lemma DriftBoundedIff(times: seq<int>, c: Config, device: string, key: string)
    requires times != [] && c.maxChangeRate.Some? && !c.timeWindow.Malformed?
    ensures (forall points | TimedRun(points, times, device, key) && AllAccepted(points, c, device, key) ::
               DriftBounded(points, c.maxChangeRate.value))
       <==>
         if c.maxChangeRate.value >= 0.0 then forall i | 0 < i < |times| :: GapInWindow(times, i, WindowOf(c))
         else |times| == 1 || exists i :: 0 < i < |times| && GapInWindow(times, i, WindowOf(c))
  {
    hide WindowOf, DriftBounded, AllAccepted, GapInWindow;
    var rate := c.maxChangeRate.value;
    if forall i | 0 < i < |times| :: GapInWindow(times, i, WindowOf(c)) {
      forall points | TimedRun(points, times, device, key) && AllAccepted(points, c, device, key)
        ensures DriftBounded(points, rate)
      {
        BoundedWithinGaps(points, times, c, device, key);
      }
      assert |times| > 1 ==> GapInWindow(times, 1, WindowOf(c));
    } else if k :| 0 < k < |times| && GapInWindow(times, k, WindowOf(c)) && rate < 0.0 {
      forall points | TimedRun(points, times, device, key)
        ensures !AllAccepted(points, c, device, key)
      {
        NegativeRejects(points, times, c, device, key, k);
      }
    } else {
      var k :| 0 < k < |times| && !GapInWindow(times, k, WindowOf(c));
      JumpUnbounded(times, c, device, key, k);
    }
  }

  lemma BoundedWithinGaps(points: seq<Point>, times: seq<int>, c: Config, device: string, key: string)
    requires c.maxChangeRate.Some? && times != []
    requires TimedRun(points, times, device, key) && AllAccepted(points, c, device, key)
    requires forall i | 0 < i < |times| :: GapInWindow(times, i, WindowOf(c))
    ensures AllFinite(points) && points != [] && DriftBounded(points, c.maxChangeRate.value)
  {
    hide WindowOf, WithinRate, Accepted;
    GapsOfRun(points, times, device, key, WindowOf(c));
    assert points[0..|points|] == points;
    AcceptedDriftBounded(map[], points, c, "chg:" + device + ":" + key, 0, |points| - 1);
  }

  /** A negative limit accepts no second point within the window. */
  lemma NegativeRejects(points: seq<Point>, times: seq<int>, c: Config, device: string, key: string, k: nat)
    requires c.maxChangeRate.Some? && c.maxChangeRate.value < 0.0
    requires TimedRun(points, times, device, key) && 0 < k < |times| && GapInWindow(times, k, WindowOf(c))
    ensures !AllAccepted(points, c, device, key)
  {
    hide WindowOf, Accepted;
    var rate, gap := c.maxChangeRate.value, times[k] - times[k - 1];
    NegativeProduct(rate, Seconds(gap));
    assert !WithinRate(points[k - 1], points[k], rate);
    AcceptedChain(map[], points, c, "chg:" + device + ":" + key);
    assert !PairBounded(points[k - 1], points[k], rate, WindowOf(c));
  }

  lemma NegativeProduct(a: real, b: real)
    requires a < 0.0 && b > 0.0
    ensures a * b < 0.0
  {
  }

  lemma JumpUnbounded(times: seq<int>, c: Config, device: string, key: string, k: nat)
    requires c.maxChangeRate.Some? && !c.timeWindow.Malformed?
    requires 0 < k < |times| && !GapInWindow(times, k, WindowOf(c))
    requires c.maxChangeRate.value >= 0.0 || forall i | 0 < i < |times| :: !GapInWindow(times, i, WindowOf(c))
    ensures exists points ::
      && TimedRun(points, times, device, key) && AllAccepted(points, c, device, key)
      && !DriftBounded(points, c.maxChangeRate.value)
  {
    hide WindowOf, Allowed, Accepted, GapInWindow;
    var n := |times|;
    var height := Abs(Allowed(c.maxChangeRate.value, times[n - 1] - times[0])) + 1.0;
    var points := Jump(times, device, key, k, height);
    JumpAccepted(times, c, device, key, k, height, n);
    assert points[..n] == points;
    assert TimedRun(points, times, device, key) && !DriftBounded(points, c.maxChangeRate.value);
  }

  /** A point that is not a number is accepted and cached, and the next one then passes with any value, although
      all gaps are within the window. */
  lemma NaNAcceptsAnyJump(v: real)
    ensures
      var c := Config(Some(1.0), Absent);
      var points := [Point("d", "k", Some(Finite(0.0)), 0), Point("d", "k", Some(NaN), 1),
                     Point("d", "k", Some(Finite(v)), 2)];
      Accepted(map[], points, c, CacheKey(points[0])) == points && GapsInWindow(points, WindowOf(c))
  {
    var c := Config(Some(1.0), Absent);
    var p, q := Point("d", "k", Some(Finite(0.0)), 0), Point("d", "k", Some(NaN), 1);
    var r := Point("d", "k", Some(Finite(v)), 2);
    var id := CacheKey(p);
    assert CacheKey(q) == id && CacheKey(r) == id;
    hide CacheKey;
    assert [p, q, r][..2] == [p, q] && [p, q][..1] == [p] && [p][..0] == [];
    assert After(map[], [], c) == map[] && Accepted(map[], [], c, id) == [];
    assert After(map[], [p], c) == map[id := EntryOf(p)] && Accepted(map[], [p], c, id) == [p];
    assert After(map[], [p, q], c) == map[id := EntryOf(q)] && Accepted(map[], [p, q], c, id) == [p, q];
  }
}
