/** What a statistics window is meant to hold, stated over the whole history of accepted readings. */
module WindowSpec {
  import opened Ring

  /** A reading and the clock at which it was added, in nanoseconds since the Unix epoch (UTC). */
  datatype Sample = Sample(value: real, at: int)

  datatype Kind = ByCount | ByTime | Unwindowed

  /** `duration` is in nanoseconds. */
  datatype Window = Window(kind: Kind, size: nat, duration: int, calendar: bool) {
    predicate CountRing() { kind.ByCount? && size > 0 }
    predicate TimeRing() { kind.ByTime? && duration > 0 && size > 0 }
    /** A time buffer that additions never fill, because the duration is not positive. */
    predicate IdleBuffer() { kind.ByTime? && duration <= 0 && size > 0 }
  }

  const SECOND := 1_000_000_000
  const MINUTE := 60 * SECOND
  const HOUR := 60 * MINUTE
  const DAY := 24 * HOUR

  function FloorTo(t: int, unit: int): int
    requires unit > 0
  {
    t / unit * unit
  }

  /** The unit a calendar-aligned window of this duration is aligned to. */
  function AlignmentUnit(duration: int): (unit: int)
    ensures unit > 0
  {
    if duration >= DAY then DAY
    else if duration >= HOUR then HOUR
    else if duration >= MINUTE then MINUTE
    else SECOND
  }

  /** Readings older than this are expired at time `now`. */
  function Cutoff(w: Window, now: int): int {
    if w.calendar then
      var unit := AlignmentUnit(w.duration);
      FloorTo(now, unit) - w.duration + unit
    else now - w.duration
  }

  /** What alignment means: a calendar window of `n` whole units covers the current unit and the `n - 1`
      before it, whatever the position of `now` inside its unit. */
  lemma CalendarWindowCoversUnits(w: Window, n: int, now: int, t: int)
    requires w.calendar && w.duration == n * AlignmentUnit(w.duration)
    ensures t >= Cutoff(w, now) <==> t / AlignmentUnit(w.duration) >= now / AlignmentUnit(w.duration) - (n - 1)
  {
    var unit := AlignmentUnit(w.duration);
    var first := now / unit - (n - 1);
    assert Cutoff(w, now) == first * unit by {
      assert first * unit == now / unit * unit - n * unit + unit;
    }
    MultipleBelow(t, first, unit);
  }

  lemma MultipleBelow(t: int, k: int, unit: int)
    requires unit > 0
    ensures t >= k * unit <==> t / unit >= k
  {
    var q := t / unit;
    assert t == q * unit + t % unit;
    MultipleOrder(q, k, unit);
    MultipleOrder(k, q + 1, unit);
  }

  lemma MultipleOrder(a: int, b: int, unit: int)
    requires unit > 0
    ensures a >= b ==> a * unit >= b * unit
    ensures a < b ==> a * unit + unit <= b * unit
  {
    if a >= b {
      Multiples(a, b, unit);
    } else {
      Multiples(b, a + 1, unit);
      Distribute(a + 1, a, unit);
    }
  }

  lemma Multiples(a: int, b: int, unit: int)
    requires a >= b && unit > 0
    ensures a * unit >= b * unit
  {
    Distribute(a, b, unit);
    assert (a - b) * unit >= 0;
  }

  lemma Distribute(a: int, b: int, unit: int)
    ensures (a - b) * unit == a * unit - b * unit
  {
  }

  ghost predicate Ordered(h: seq<Sample>) {
    forall i, j | 0 <= i < j < |h| :: h[i].at <= h[j].at
  }

  function Values(h: seq<Sample>): (v: seq<real>)
    ensures |v| == |h| && forall i | 0 <= i < |h| :: v[i] == h[i].value
  {
    seq(|h|, i requires 0 <= i < |h| => h[i].value)
  }

  function Smaller(a: int, b: int): int {
    if a <= b then a else b
  }

  function Larger(a: int, b: int): int {
    if a >= b then a else b
  }

  /** How many readings are not older than `cutoff`. */
  function Live(h: seq<Sample>, cutoff: int): (k: nat)
    ensures k <= |h|
  {
    if h == [] then 0
    else Live(h[..|h| - 1], cutoff) + if h[|h| - 1].at >= cutoff then 1 else 0
  }

  /** The readings a window must hold after history `h`: everything when it is not windowed, the last
      `size` in a count window, and in a time window the unexpired ones (counted at the time of the
      last addition) but never more than `size` and never less than the reading just added. */
  function Retained(w: Window, h: seq<Sample>): seq<Sample> {
    if h == [] then []
    else if w.CountRing() then Last(h, w.size)
    else if w.TimeRing() then
      Last(h, Smaller(w.size, Larger(1, Live(h, Cutoff(w, h[|h| - 1].at)))))
    else h
  }

  /** Removes the expired readings at the old end, stopping at the first that is not expired. */
  function DropExpired(s: seq<Sample>, cutoff: int): seq<Sample> {
    if s != [] && s[0].at < cutoff then DropExpired(s[1..], cutoff) else s
  }

  lemma {:induction false} LiveIsSuffix(h: seq<Sample>, cutoff: int)
    requires Ordered(h)
    ensures forall i | 0 <= i < |h| :: h[i].at >= cutoff <==> i >= |h| - Live(h, cutoff)
  {
    if h != [] {
      LiveIsSuffix(h[..|h| - 1], cutoff);
      assert forall i | 0 <= i < |h| - 1 :: h[i] == h[..|h| - 1][i];
    }
  }

  lemma {:induction false} LiveAntitone(h: seq<Sample>, c: int, d: int)
    requires c <= d
    ensures Live(h, d) <= Live(h, c)
  {
    if h != [] {
      LiveAntitone(h[..|h| - 1], c, d);
    }
  }

  /** Aligned or not, the cutoff never moves back while the clock does not. */
  lemma CutoffMonotone(w: Window, now: int, later: int)
    requires now <= later
    ensures Cutoff(w, now) <= Cutoff(w, later)
  {
  }

  lemma {:induction false} DropExpiredSuffix(h: seq<Sample>, k: nat, cutoff: int)
    requires Ordered(h)
    ensures DropExpired(Last(h, k), cutoff) == Last(h, Smaller(k, Live(h, cutoff)))
    decreases k
  {
    LiveIsSuffix(h, cutoff);
    var s := Last(h, k);
    if s == [] {
    } else if s[0].at < cutoff {
      var m := |s| - 1;
      assert s[1..] == Last(h, m);
      if k > |h| {
        DropExpiredSuffix(h, |h| - 1, cutoff);
      } else {
        DropExpiredSuffix(h, k - 1, cutoff);
      }
    }
  }

  /** Streaming form of the count window: the declared contents follow one step at a time. */
  lemma CountStep(w: Window, h: seq<Sample>, x: Sample)
    requires w.CountRing()
    ensures Retained(w, h + [x]) == Push(Retained(w, h), x, w.size)
  {
  }

  lemma UnwindowedStep(w: Window, h: seq<Sample>, x: Sample)
    requires !w.CountRing() && !w.TimeRing()
    ensures Retained(w, h + [x]) == Retained(w, h) + [x]
  {
  }

  lemma OrderedFront(h: seq<Sample>, x: Sample)
    requires Ordered(h + [x])
    ensures Ordered(h) && (h != [] ==> h[|h| - 1].at <= x.at)
  {
    assert forall i | 0 <= i < |h| :: h[i] == (h + [x])[i];
    assert x == (h + [x])[|h|];
  }

  /** Counting the new reading as unexpired whatever the cutoff. */
  lemma LiveStep(h: seq<Sample>, x: Sample, c: int)
    requires Ordered(h + [x])
    ensures Larger(1, Live(h + [x], c)) == Live(h, c) + 1
  {
    assert (h + [x])[..|h|] == h;
    OrderedFront(h, x);
    LiveIsSuffix(h, c);
  }

  /** What is left of the previous contents once the expired readings are gone. */
  lemma ExpireStep(w: Window, h: seq<Sample>, x: Sample)
    requires w.TimeRing() && Ordered(h + [x])
    ensures DropExpired(Retained(w, h), Cutoff(w, x.at)) == Last(h, Smaller(w.size, Live(h, Cutoff(w, x.at))))
  {
    OrderedFront(h, x);
    if h != [] {
      var t, c := h[|h| - 1].at, Cutoff(w, x.at);
      CutoffMonotone(w, t, x.at);
      LiveAntitone(h, Cutoff(w, t), c);
      DropExpiredSuffix(h, Smaller(w.size, Larger(1, Live(h, Cutoff(w, t)))), c);
    }
  }

  /** Streaming form of the time window: dropping what has expired and then pushing the new reading
      gives exactly the declared contents, for every ordered history, aligned or not. */
  lemma TimeStep(w: Window, h: seq<Sample>, x: Sample)
    requires w.TimeRing() && Ordered(h + [x])
    ensures Retained(w, h + [x]) == Push(DropExpired(Retained(w, h), Cutoff(w, x.at)), x, w.size)
  {
    var c := Cutoff(w, x.at);
    ExpireStep(w, h, x);
    LiveStep(h, x, c);
    var k := Live(h, c);
    assert Retained(w, h + [x]) == Last(h + [x], Smaller(w.size, k + 1));
    PushIsLast(h, x, w.size, k);
  }

  /** The contents obtained by streaming a whole history through the window, one reading at a time. */
  function Streamed(w: Window, h: seq<Sample>): seq<Sample> {
    if h == [] then []
    else
      var x, kept := h[|h| - 1], Streamed(w, h[..|h| - 1]);
      if w.CountRing() then Push(kept, x, w.size)
      else if w.TimeRing() then Push(DropExpired(kept, Cutoff(w, x.at)), x, w.size)
      else kept + [x]
  }

  lemma EmptyRetained(w: Window)
    ensures Retained(w, []) == []
  {
  }

  /** Over every run with a clock that does not go back, streaming ends in the declared contents. */
  lemma {:induction false} StreamedIsRetained(w: Window, h: seq<Sample>)
    requires Ordered(h)
    ensures Streamed(w, h) == Retained(w, h)
  {
    hide Retained, DropExpired, Cutoff, Push;
    if h == [] {
      assert Retained(w, []) == [] by {
        EmptyRetained(w);
      }
    } else {
      var front, x := h[..|h| - 1], h[|h| - 1];
      assert h == front + [x];
      OrderedFront(front, x);
      StreamedIsRetained(w, front);
      if w.CountRing() {
        CountStep(w, front, x);
      } else if w.TimeRing() {
        TimeStep(w, front, x);
      } else {
        UnwindowedStep(w, front, x);
      }
    }
  }

  /** The new reading is itself unexpired, so the time window is exactly the last
      min(size, unexpired) readings, if and only if the cutoff is not in the future. */
  lemma TimeWindowExact(w: Window, h: seq<Sample>)
    requires w.TimeRing() && h != [] && Ordered(h)
    ensures Retained(w, h) == Last(h, Smaller(w.size, Live(h, Cutoff(w, h[|h| - 1].at))))
       <==> Cutoff(w, h[|h| - 1].at) <= h[|h| - 1].at
  {
    LiveIsSuffix(h, Cutoff(w, h[|h| - 1].at));
  }

  lemma CoveredIff(w: Window, h: seq<Sample>, i: nat)
    requires w.TimeRing() && Ordered(h) && i < |h|
    ensures i >= |h| - |Retained(w, h)| <==>
      (i == |h| - 1 || h[i].at >= Cutoff(w, h[|h| - 1].at)) && i + w.size >= |h|
  {
    LiveIsSuffix(h, Cutoff(w, h[|h| - 1].at));
  }

  /** A plain time window covers a reading exactly when it is at most `duration` older than the newest one
      and among the newest `size`. */
  lemma PlainWindowCovers(w: Window, h: seq<Sample>, i: nat)
    requires w.TimeRing() && !w.calendar && Ordered(h) && i < |h|
    ensures i >= |h| - |Retained(w, h)| <==> h[|h| - 1].at - h[i].at <= w.duration && i + w.size >= |h|
  {
    hide Retained;
    CoveredIff(w, h, i);
  }

  /** A calendar window counts back from the end of the current day, hour, minute or second, by its duration;
      it covers the newest reading in any case. */
  lemma CalendarWindowCovers(w: Window, h: seq<Sample>, i: nat)
    requires w.TimeRing() && w.calendar && Ordered(h) && i < |h|
    ensures
      var unit := if w.duration >= 86_400_000_000_000 then 86_400_000_000_000
                  else if w.duration >= 3_600_000_000_000 then 3_600_000_000_000
                  else if w.duration >= 60_000_000_000 then 60_000_000_000
                  else 1_000_000_000;
      var end := (h[|h| - 1].at / unit + 1) * unit;
      i >= |h| - |Retained(w, h)| <==> (i == |h| - 1 || end - h[i].at <= w.duration) && i + w.size >= |h|
  {
    hide Retained;
    CoveredIff(w, h, i);
  }

  /** When that is: always for plain windows and for calendar windows of at least one second; for a
      shorter calendar window only in the last `duration` nanoseconds of each second. */
  lemma CutoffNotInFuture(w: Window, now: int)
    requires w.duration > 0
    ensures Cutoff(w, now) <= now
       <==> !w.calendar || w.duration >= SECOND || now % SECOND >= SECOND - w.duration
  {
    if w.calendar {
      var unit := AlignmentUnit(w.duration);
      assert now == now / unit * unit + now % unit;
      assert 0 <= now % unit < unit;
    }
  }

  /** A 200 ms calendar window, asked at the start of a second, expires the reading being added. */
  lemma ShortCalendarWindow()
    ensures
      var w := Window(ByTime, 4, 200_000_000, true);
      var h := [Sample(7.0, 0)];
      && Retained(w, h) == h
      && Live(h, Cutoff(w, 0)) == 0
      && Last(h, Smaller(w.size, Live(h, Cutoff(w, 0)))) == []
  {
    var h := [Sample(7.0, 0)];
    assert h[..0] == [];
    var w := Window(ByTime, 4, 200_000_000, true);
    assert Cutoff(w, 0) == 800_000_000;
    assert Live(h[..0], 800_000_000) == 0;
  }
}
