/** Concurrent AddValue calls on the shared cells, interleaved at their atomic operations. */
module LockFree {
  import opened RealSeq
  import HP = HighPerformance

  /** The shared cells. Loads, stores, fetch-and-adds and compare-and-swaps on each are atomic. */
  datatype Shared = Shared(count: int, valids: int, sum: real, sumSquares: real, min: Ext, max: Ext,
                           first: real, last: real, ticket: nat, ring: seq<real>, full: bool, version: int)

  /** Where a call stands; `n` is the count it obtained and `seen` what it last loaded from a cell
      it is about to compare-and-swap. */
  datatype Pc =
    | Entering
    | Counted(n: int)
    | AddingSum(n: int)
    | SwappingSum(n: int, seenSum: real)
    | AddingSquare(n: int)
    | SwappingSquare(n: int, seenSquares: real)
    | StoringFirst(n: int)
    | StoringLast
    | ReadingMin
    | SwappingMin(seenMin: Ext)
    | ReadingMax
    | SwappingMax(seenMax: Ext)
    | TakingTicket
    | Writing
    | Marking
    | Publishing
    | Done

  /** A call: its argument, where it stands, and the window ticket it took (zero before). */
  datatype Call = Call(value: real, pc: Pc, index: nat)

  datatype System = System(cells: Shared, calls: seq<Call>)

  /** The next atomic operation of a call. A finished call does nothing. */
  function Act(c: Shared, t: Call): (Shared, Call) {
    match t.pc
    case Entering => (c.(count := c.count + 1), t.(pc := Counted(c.count + 1)))
    case Counted(n) => (c.(valids := c.valids + 1), t.(pc := AddingSum(n)))
    case AddingSum(n) => (c, t.(pc := SwappingSum(n, c.sum)))
    case SwappingSum(n, seen) =>
      if c.sum == seen then (c.(sum := seen + t.value), t.(pc := AddingSquare(n)))
      else (c, t.(pc := AddingSum(n)))
    case AddingSquare(n) => (c, t.(pc := SwappingSquare(n, c.sumSquares)))
    case SwappingSquare(n, seen) =>
      if c.sumSquares == seen then (c.(sumSquares := seen + Square(t.value)), t.(pc := StoringFirst(n)))
      else (c, t.(pc := AddingSquare(n)))
    case StoringFirst(n) => (if n == 1 then c.(first := t.value) else c, t.(pc := StoringLast))
    case StoringLast => (c.(last := t.value), t.(pc := ReadingMin))
    case ReadingMin =>
      (c, t.(pc := if Fin(t.value).Below(c.min) then SwappingMin(c.min) else ReadingMax))
    case SwappingMin(seen) =>
      if c.min == seen then (c.(min := Fin(t.value)), t.(pc := ReadingMax)) else (c, t.(pc := ReadingMin))
    case ReadingMax =>
      (c, t.(pc := if c.max.Below(Fin(t.value)) then SwappingMax(c.max) else TakingTicket))
    case SwappingMax(seen) =>
      if c.max == seen then (c.(max := Fin(t.value)), t.(pc := TakingTicket)) else (c, t.(pc := ReadingMax))
    case TakingTicket =>
      if |c.ring| > 0 then (c.(ticket := c.ticket + 1), t.(pc := Writing, index := c.ticket))
      else (c, t.(pc := Publishing))
    case Writing =>
      (if |c.ring| > 0 then c.(ring := c.ring[HP.SlotOf(t.index, |c.ring|) := t.value]) else c, t.(pc := Marking))
    case Marking => (c.(full := c.full || t.index >= |c.ring| - 1), t.(pc := Publishing))
    case Publishing => (c.(version := c.version + 1), t.(pc := Done))
    case Done => (c, t)
  }

  function Step(s: System, i: nat): System {
    if i < |s.calls| then
      var (c, t) := Act(s.cells, s.calls[i]);
      System(c, s.calls[i := t])
    else s
  }

  /** The state after a schedule, which names at each point the call that moves. */
  function Run(s: System, schedule: seq<nat>): System {
    if schedule == [] then s else Step(Run(s, schedule[..|schedule| - 1]), schedule[|schedule| - 1])
  }

  function Start(cells: Shared, values: seq<real>): System {
    System(cells, seq(|values|, i requires 0 <= i < |values| => Call(values[i], Entering, 0)))
  }

  ghost predicate AllDone(s: System) {
    forall i | 0 <= i < |s.calls| :: s.calls[i].pc.Done?
  }

  /** Progress of a call through its operations. */
  function Rank(pc: Pc): nat {
    match pc
    case Entering => 0
    case Counted(_) => 1
    case AddingSum(_) => 2
    case SwappingSum(_, _) => 3
    case AddingSquare(_) => 4
    case SwappingSquare(_, _) => 5
    case StoringFirst(_) => 6
    case StoringLast => 7
    case ReadingMin => 8
    case SwappingMin(_) => 9
    case ReadingMax => 10
    case SwappingMax(_) => 11
    case TakingTicket => 12
    case Writing => 13
    case Marking => 14
    case Publishing => 15
    case Done => 16
  }

  /** A total over calls of something each call contributes. */
  function Total(calls: seq<Call>, part: Call -> real): real {
    if calls == [] then 0.0 else Total(calls[..|calls| - 1], part) + part(calls[|calls| - 1])
  }

  lemma {:induction false} TotalUpdate(calls: seq<Call>, i: nat, t: Call, part: Call -> real)
    requires i < |calls|
    ensures Total(calls[i := t], part) == Total(calls, part) - part(calls[i]) + part(t)
  {
    var n := |calls| - 1;
    if i < n {
      assert calls[i := t][..n] == calls[..n][i := t];
      TotalUpdate(calls[..n], i, t, part);
    } else {
      assert calls[i := t][..n] == calls[..n];
    }
  }

  // What a call has already contributed to each additive cell.
  function CountPart(t: Call): real { if Rank(t.pc) >= 1 then 1.0 else 0.0 }
  function ValidPart(t: Call): real { if Rank(t.pc) >= 2 then 1.0 else 0.0 }
  function SumPart(t: Call): real { if Rank(t.pc) >= 4 then t.value else 0.0 }
  function SquarePart(t: Call): real { if Rank(t.pc) >= 6 then Square(t.value) else 0.0 }
  function VersionPart(t: Call): real { if Rank(t.pc) >= 16 then 1.0 else 0.0 }

  /** One atomic operation changes a cell by exactly what its call thereby contributes. */
  lemma ActConserves(c: Shared, t: Call)
    ensures
      var (c', t') := Act(c, t);
      && t'.value == t.value
      && (c'.count - c.count) as real == CountPart(t') - CountPart(t)
      && (c'.valids - c.valids) as real == ValidPart(t') - ValidPart(t)
      && c'.sum - c.sum == SumPart(t') - SumPart(t)
      && c'.sumSquares - c.sumSquares == SquarePart(t') - SquarePart(t)
      && (c'.version - c.version) as real == VersionPart(t') - VersionPart(t)
      && |c'.ring| == |c.ring|
  {
    hide Square, HP.SlotOf;
  }

  /** In every state each additive cell is its initial value plus the contributions made so far. */
  ghost predicate Accounted(base: Shared, s: System) {
    && (s.cells.count - base.count) as real == Total(s.calls, CountPart)
    && (s.cells.valids - base.valids) as real == Total(s.calls, ValidPart)
    && s.cells.sum - base.sum == Total(s.calls, SumPart)
    && s.cells.sumSquares - base.sumSquares == Total(s.calls, SquarePart)
    && (s.cells.version - base.version) as real == Total(s.calls, VersionPart)
  }

  lemma StepAccounted(base: Shared, s: System, i: nat)
    requires Accounted(base, s)
    ensures Accounted(base, Step(s, i))
  {
    hide Act, CountPart, ValidPart, SumPart, SquarePart, VersionPart, Total;
    if i < |s.calls| {
      var t := s.calls[i];
      var t' := Act(s.cells, t).1;
      ActConserves(s.cells, t);
      TotalUpdate(s.calls, i, t', CountPart);
      TotalUpdate(s.calls, i, t', ValidPart);
      TotalUpdate(s.calls, i, t', SumPart);
      TotalUpdate(s.calls, i, t', SquarePart);
      TotalUpdate(s.calls, i, t', VersionPart);
    }
  }

  /** The minimum cell: no higher than it started or than any call past its minimum update, and
      always one of these values. The maximum cell likewise. */
  ghost predicate Bounded(base: Shared, s: System) {
    && !base.min.Below(s.cells.min)
    && (forall i | 0 <= i < |s.calls| && Rank(s.calls[i].pc) >= 10 :: !Fin(s.calls[i].value).Below(s.cells.min))
    && (s.cells.min == base.min || exists i :: 0 <= i < |s.calls| && s.cells.min == Fin(s.calls[i].value))
    && !s.cells.max.Below(base.max)
    && (forall i | 0 <= i < |s.calls| && Rank(s.calls[i].pc) >= 12 :: !s.cells.max.Below(Fin(s.calls[i].value)))
    && (s.cells.max == base.max || exists i :: 0 <= i < |s.calls| && s.cells.max == Fin(s.calls[i].value))
    && (forall i | 0 <= i < |s.calls| && s.calls[i].pc.SwappingMin? ::
          Fin(s.calls[i].value).Below(s.calls[i].pc.seenMin))
    && (forall i | 0 <= i < |s.calls| && s.calls[i].pc.SwappingMax? ::
          s.calls[i].pc.seenMax.Below(Fin(s.calls[i].value)))
  }

  /** One operation on the extreme cells, seen from the acting call. */
  lemma ActBounds(c: Shared, t: Call)
    requires t.pc.SwappingMin? ==> Fin(t.value).Below(t.pc.seenMin)
    requires t.pc.SwappingMax? ==> t.pc.seenMax.Below(Fin(t.value))
    requires Rank(t.pc) >= 10 ==> !Fin(t.value).Below(c.min)
    requires Rank(t.pc) >= 12 ==> !c.max.Below(Fin(t.value))
    ensures
      var (c', t') := Act(c, t);
      && t'.value == t.value
      && (c'.min == c.min || (c'.min == Fin(t.value) && c'.min.Below(c.min)))
      && (c'.max == c.max || (c'.max == Fin(t.value) && c.max.Below(c'.max)))
      && (Rank(t'.pc) >= 10 ==> !Fin(t'.value).Below(c'.min))
      && (Rank(t'.pc) >= 12 ==> !c'.max.Below(Fin(t'.value)))
      && (t'.pc.SwappingMin? ==> Fin(t'.value).Below(t'.pc.seenMin))
      && (t'.pc.SwappingMax? ==> t'.pc.seenMax.Below(Fin(t'.value)))
  {
    hide Square, HP.SlotOf;
  }

  /** Every step keeps the bounds, never raises the minimum and never lowers the maximum. */
  lemma StepBounded(base: Shared, s: System, i: nat)
    requires Bounded(base, s)
    ensures Bounded(base, Step(s, i))
    ensures !s.cells.min.Below(Step(s, i).cells.min) && !Step(s, i).cells.max.Below(s.cells.max)
  {
    hide Act;
    if i < |s.calls| {
      ActBounds(s.cells, s.calls[i]);
      var s' := Step(s, i);
      assert s'.calls[i] == Act(s.cells, s.calls[i]).1 && s'.calls[i].value == s.calls[i].value;
      assert forall j | 0 <= j < |s.calls| :: s'.calls[j].value == s.calls[j].value;
      assert s'.cells.min == s.cells.min || s'.cells.min == Fin(s'.calls[i].value);
      assert s'.cells.max == s.cells.max || s'.cells.max == Fin(s'.calls[i].value);
    }
  }

  ghost predicate SameValues(s: System, values: seq<real>) {
    |s.calls| == |values| && forall i | 0 <= i < |values| :: s.calls[i].value == values[i]
  }

  lemma {:induction false} TotalZero(calls: seq<Call>, part: Call -> real)
    requires forall t | t in calls :: part(t) == 0.0
    ensures Total(calls, part) == 0.0
  {
    if calls != [] {
      TotalZero(calls[..|calls| - 1], part);
    }
  }

  lemma StartHolds(base: Shared, values: seq<real>)
    ensures Accounted(base, Start(base, values)) && Bounded(base, Start(base, values))
    ensures SameValues(Start(base, values), values)
  {
    var calls := Start(base, values).calls;
    TotalZero(calls, CountPart);
    TotalZero(calls, ValidPart);
    TotalZero(calls, SumPart);
    TotalZero(calls, SquarePart);
    TotalZero(calls, VersionPart);
  }

  /** The invariants hold after every schedule. */
  lemma {:induction false} RunHolds(base: Shared, values: seq<real>, schedule: seq<nat>)
    ensures
      var s := Run(Start(base, values), schedule);
      Accounted(base, s) && Bounded(base, s) && SameValues(s, values)
  {
    hide Accounted, Bounded, Start, Act;
    if schedule == [] {
      StartHolds(base, values);
    } else {
      var n := |schedule| - 1;
      RunHolds(base, values, schedule[..n]);
      var s := Run(Start(base, values), schedule[..n]);
      StepAccounted(base, s, schedule[n]);
      StepBounded(base, s, schedule[n]);
      if schedule[n] < |s.calls| {
        ActConserves(s.cells, s.calls[schedule[n]]);
      }
    }
  }

  lemma {:induction false} TotalsWhenDone(calls: seq<Call>, values: seq<real>)
    requires |calls| == |values|
    requires forall i | 0 <= i < |calls| :: calls[i].pc.Done? && calls[i].value == values[i]
    ensures Total(calls, CountPart) == Total(calls, ValidPart) == Total(calls, VersionPart) == |calls| as real
    ensures Total(calls, SumPart) == Sum(values)
    ensures Total(calls, SquarePart) == SumSquares(values)
  {
    hide Square, HP.SlotOf;
    if calls != [] {
      TotalsWhenDone(calls[..|calls| - 1], values[..|values| - 1]);
    }
  }

  /** Once every call has finished, whatever the interleaving, the sums are exact, the counters count
      the calls, and the extreme cells hold the true extremes. */
  lemma FinishedRunIsExact(base: Shared, values: seq<real>, schedule: seq<nat>)
    requires AllDone(Run(Start(base, values), schedule))
    ensures
      var c := Run(Start(base, values), schedule).cells;
      && c.count == base.count + |values|
      && c.valids == base.valids + |values|
      && c.version == base.version + |values|
      && c.sum == base.sum + Sum(values)
      && c.sumSquares == base.sumSquares + SumSquares(values)
      && c.min == Lesser(base.min, MinOf(values))
      && c.max == Greater(base.max, MaxOf(values))
  {
    hide Start, Act, Sum, SumSquares, MinOf, MaxOf, Total;
    RunHolds(base, values, schedule);
    var s := Run(Start(base, values), schedule);
    TotalsWhenDone(s.calls, values);
    if values == [] {
      Empties();
    } else {
      Extremes(values);
      var lo :| 0 <= lo < |values| && values[lo] == MinOf(values).v;
      var hi :| 0 <= hi < |values| && values[hi] == MaxOf(values).v;
      assert !Fin(s.calls[lo].value).Below(s.cells.min) && !s.cells.max.Below(Fin(s.calls[hi].value));
      assert forall i | 0 <= i < |values| :: s.calls[i].value == values[i] && values[i] in values;
    }
  }

  /** During any continuation of a run the minimum never rises and the maximum never falls. */
  lemma {:induction false} ExtremesMonotone(base: Shared, values: seq<real>, schedule: seq<nat>, more: seq<nat>)
    ensures
      var s, s' := Run(Start(base, values), schedule), Run(Start(base, values), schedule + more);
      !s.cells.min.Below(s'.cells.min) && !s'.cells.max.Below(s.cells.max)
  {
    hide Start, Act, Bounded, Accounted;
    if more == [] {
      assert schedule + more == schedule;
    } else {
      var n := |more| - 1;
      ExtremesMonotone(base, values, schedule, more[..n]);
      assert (schedule + more)[..|schedule| + n] == schedule + more[..n];
      RunHolds(base, values, schedule + more[..n]);
      StepBounded(base, Run(Start(base, values), schedule + more[..n]), more[n]);
    }
  }

  // ----- The window -----

  function TicketPart(t: Call): real { if Rank(t.pc) >= 13 then 1.0 else 0.0 }

  /** Tickets are handed out once each. */
  ghost predicate Ticketed(base: Shared, s: System) {
    && (s.cells.ticket - base.ticket) as real == Total(s.calls, TicketPart)
    && (forall i | 0 <= i < |s.calls| && Rank(s.calls[i].pc) >= 13 :: base.ticket <= s.calls[i].index < s.cells.ticket)
    && (forall i, j | 0 <= i < j < |s.calls| && Rank(s.calls[i].pc) >= 13 && Rank(s.calls[j].pc) >= 13 ::
          s.calls[i].index != s.calls[j].index)
  }

  /** A call that has written its value into slot `k`. */
  predicate WroteTo(t: Call, k: nat, size: nat)
    requires size > 0
  {
    Rank(t.pc) >= 14 && HP.SlotOf(t.index, size) == k
  }

  /** Slot `k` holds the value of a call that wrote to it, or what it held before if none did. */
  ghost predicate SlotOwned(base: Shared, s: System, k: nat)
    requires k < |s.cells.ring| == |base.ring|
  {
    || (exists i :: 0 <= i < |s.calls| && WroteTo(s.calls[i], k, |base.ring|) && s.cells.ring[k] == s.calls[i].value)
    || (s.cells.ring[k] == base.ring[k] && forall i | 0 <= i < |s.calls| :: !WroteTo(s.calls[i], k, |base.ring|))
  }

  ghost predicate Owned(base: Shared, s: System) {
    |s.cells.ring| == |base.ring| && forall k | 0 <= k < |base.ring| :: SlotOwned(base, s, k)
  }

  /** One operation on the window cells, seen from the acting call. */
  lemma ActTicket(c: Shared, t: Call)
    requires |c.ring| > 0
    ensures
      var (c', t') := Act(c, t);
      && t'.value == t.value && |c'.ring| == |c.ring|
      && (c'.ticket - c.ticket) as real == TicketPart(t') - TicketPart(t)
      && (if t.pc.TakingTicket?
          then t'.index == c.ticket && c'.ticket == c.ticket + 1 && Rank(t'.pc) == 13 && c'.ring == c.ring
          else t'.index == t.index && c'.ticket == c.ticket && (Rank(t'.pc) >= 13 <==> Rank(t.pc) >= 13))
      && (if t.pc.Writing? then c'.ring == c.ring[HP.SlotOf(t.index, |c.ring|) := t.value]
          else c'.ring == c.ring && (Rank(t'.pc) >= 14 <==> Rank(t.pc) >= 14))
  {
    hide Square, HP.SlotOf;
  }

  lemma {:induction false} TotalAtMost(calls: seq<Call>)
    ensures 0.0 <= Total(calls, TicketPart) <= |calls| as real
  {
    if calls != [] {
      TotalAtMost(calls[..|calls| - 1]);
    }
  }

  /** Two tickets of a run with no more calls than slots fall into different slots. */
  lemma SlotsApart(base: Shared, s: System, i: nat, j: nat)
    requires Ticketed(base, s) && i < |s.calls| && j < |s.calls| && i != j && |s.calls| <= |s.cells.ring|
    requires Rank(s.calls[i].pc) >= 13 && Rank(s.calls[j].pc) >= 13
    ensures HP.SlotOf(s.calls[i].index, |s.cells.ring|) != HP.SlotOf(s.calls[j].index, |s.cells.ring|)
  {
    hide HP.SlotOf, Rank;
    TotalAtMost(s.calls);
    var a, b := s.calls[i].index, s.calls[j].index;
    if a < b {
      HP.DistinctSlots(a, b, |s.cells.ring|);
    } else {
      HP.DistinctSlots(b, a, |s.cells.ring|);
    }
  }

  lemma StepTicketed(base: Shared, s: System, i: nat)
    requires Ticketed(base, s) && |s.cells.ring| > 0
    ensures Ticketed(base, Step(s, i))
  {
    if i < |s.calls| {
      hide Act, TicketPart, Total, HP.SlotOf, Rank;
      var t, t' := s.calls[i], Step(s, i).calls[i];
      ActTicket(s.cells, t);
      TotalUpdate(s.calls, i, t', TicketPart);
      TotalAtMost(s.calls);
      TicketRank(t.pc);
    }
  }

  lemma TicketRank(pc: Pc)
    ensures pc.Writing? ==> Rank(pc) == 13
    ensures pc.TakingTicket? ==> Rank(pc) == 12
  {
  }

  /** What one operation means for the writers of slot `k`. */
  lemma ActWrites(c: Shared, t: Call, k: nat)
    requires k < |c.ring|
    ensures
      var (c', t') := Act(c, t);
      && |c'.ring| == |c.ring| && t'.value == t.value
      && (WroteTo(t, k, |c.ring|) ==> WroteTo(t', k, |c.ring|))
      && (if c'.ring[k] == c.ring[k] then true else WroteTo(t', k, |c.ring|) && c'.ring[k] == t.value)
      && (WroteTo(t', k, |c.ring|) ==> WroteTo(t, k, |c.ring|) || c'.ring[k] == t.value)
  {
    hide Square, HP.SlotOf;
  }

  lemma StepOwned(base: Shared, s: System, i: nat)
    requires Owned(base, s)
    ensures Owned(base, Step(s, i))
  {
    if i < |s.calls| && |base.ring| > 0 {
      hide Act, WroteTo;
      var s' := Step(s, i);
      forall k | 0 <= k < |base.ring|
        ensures |s'.cells.ring| == |base.ring| && SlotOwned(base, s', k)
      {
        assert SlotOwned(base, s, k);
        StepSlotOwned(base, s, i, k);
      }
      ActWrites(s.cells, s.calls[i], 0);
    } else if i < |s.calls| {
      ActConserves(s.cells, s.calls[i]);
    }
  }

  lemma StepSlotOwned(base: Shared, s: System, i: nat, k: nat)
    requires k < |s.cells.ring| == |base.ring| && i < |s.calls| && SlotOwned(base, s, k)
    ensures |Step(s, i).cells.ring| == |base.ring| && SlotOwned(base, Step(s, i), k)
  {
    hide Act, WroteTo;
    var w, s' := |base.ring|, Step(s, i);
    ActWrites(s.cells, s.calls[i], k);
    assert forall j | 0 <= j < |s.calls| && j != i :: s'.calls[j] == s.calls[j];
    if s'.cells.ring[k] == s.cells.ring[k] {
      if j :| 0 <= j < |s.calls| && WroteTo(s.calls[j], k, w) && s.cells.ring[k] == s.calls[j].value {
        assert WroteTo(s'.calls[j], k, w) && s'.cells.ring[k] == s'.calls[j].value;
      } else if WroteTo(s'.calls[i], k, w) {
        assert s'.cells.ring[k] == s'.calls[i].value;
      }
    } else {
      assert WroteTo(s'.calls[i], k, w) && s'.cells.ring[k] == s'.calls[i].value;
    }
  }

  lemma {:induction false} RunTicketed(base: Shared, values: seq<real>, schedule: seq<nat>)
    requires |base.ring| > 0
    ensures
      var s := Run(Start(base, values), schedule);
      Ticketed(base, s) && Owned(base, s)
  {
    if schedule == [] {
      TotalZero(Start(base, values).calls, TicketPart);
    } else {
      hide Ticketed, SlotOwned, Start, Step;
      var n := |schedule| - 1;
      RunTicketed(base, values, schedule[..n]);
      StepTicketed(base, Run(Start(base, values), schedule[..n]), schedule[n]);
      StepOwned(base, Run(Start(base, values), schedule[..n]), schedule[n]);
    }
  }

  /** Slot `k` holds the value of a call whose ticket falls into it; it is untouched if there is none. */
  ghost predicate SettledSlot(base: Shared, s: System, k: nat)
    requires k < |s.cells.ring| == |base.ring|
  {
    var w := |base.ring|;
    || (exists i :: 0 <= i < |s.calls| && HP.SlotOf(s.calls[i].index, w) == k && s.cells.ring[k] == s.calls[i].value)
    || (s.cells.ring[k] == base.ring[k] && forall i | 0 <= i < |s.calls| :: HP.SlotOf(s.calls[i].index, w) != k)
  }

  /** However many calls ran and however their unsynchronised writes interleaved, once all have finished
      they hold consecutive tickets, and every slot holds the value of a call whose ticket falls into it,
      or is untouched if there is none. */
  lemma SlotsHoldTicketHolders(base: Shared, values: seq<real>, schedule: seq<nat>)
    requires |base.ring| > 0 && AllDone(Run(Start(base, values), schedule))
    ensures
      var s, w := Run(Start(base, values), schedule), |base.ring|;
      && |s.cells.ring| == w && |s.calls| == |values|
      && s.cells.ticket == base.ticket + |values|
      && (forall i | 0 <= i < |values| :: s.calls[i].value == values[i])
      && (forall i | 0 <= i < |values| :: base.ticket <= s.calls[i].index < s.cells.ticket)
      && (forall i, j | 0 <= i < j < |values| :: s.calls[i].index != s.calls[j].index)
      && (forall k | 0 <= k < w :: SettledSlot(base, s, k))
  {
    hide Start, Act, HP.SlotOf, Run, Total, Accounted, Bounded;
    RunHolds(base, values, schedule);
    RunTicketed(base, values, schedule);
    var s := Run(Start(base, values), schedule);
    TotalTickets(s.calls);
    forall k | 0 <= k < |base.ring|
      ensures SettledSlot(base, s, k)
    {
      assert SlotOwned(base, s, k);
      if j :| 0 <= j < |s.calls| && WroteTo(s.calls[j], k, |base.ring|) && s.cells.ring[k] == s.calls[j].value {
      } else {
        assert forall i | 0 <= i < |s.calls| :: !WroteTo(s.calls[i], k, |base.ring|);
      }
    }
  }

  /** With no more concurrent calls than slots the window therefore holds every value, each in its own slot. */
  lemma WindowHoldsEveryValue(base: Shared, values: seq<real>, schedule: seq<nat>)
    requires 0 < |values| <= |base.ring| && AllDone(Run(Start(base, values), schedule))
    ensures
      var s := Run(Start(base, values), schedule);
      && |s.cells.ring| == |base.ring| && |s.calls| == |values|
      && (forall i | 0 <= i < |values| :: s.cells.ring[HP.SlotOf(s.calls[i].index, |base.ring|)] == values[i])
      && (forall i, j | 0 <= i < j < |values| ::
            HP.SlotOf(s.calls[i].index, |base.ring|) != HP.SlotOf(s.calls[j].index, |base.ring|))
  {
    hide Start, Run, Ticketed, HP.SlotOf, Owned, Rank;
    RunTicketed(base, values, schedule);
    SlotsHoldTicketHolders(base, values, schedule);
    var s := Run(Start(base, values), schedule);
    forall i, j | 0 <= i < j < |values|
      ensures HP.SlotOf(s.calls[i].index, |base.ring|) != HP.SlotOf(s.calls[j].index, |base.ring|)
    {
      DoneRank(s.calls[i].pc);
      DoneRank(s.calls[j].pc);
      SlotsApart(base, s, i, j);
    }
    forall i | 0 <= i < |values|
      ensures s.cells.ring[HP.SlotOf(s.calls[i].index, |base.ring|)] == values[i]
    {
      var k := HP.SlotOf(s.calls[i].index, |base.ring|);
      assert SettledSlot(base, s, k);
      var j :| 0 <= j < |values| && HP.SlotOf(s.calls[j].index, |base.ring|) == k
        && s.cells.ring[k] == s.calls[j].value;
      assert i == j;
    }
  }

  lemma DoneRank(pc: Pc)
    ensures pc.Done? <==> Rank(pc) >= 16
  {
  }

  lemma {:induction false} TotalTickets(calls: seq<Call>)
    requires forall i | 0 <= i < |calls| :: calls[i].pc.Done?
    ensures Total(calls, TicketPart) == |calls| as real
  {
    if calls != [] {
      TotalTickets(calls[..|calls| - 1]);
    }
  }

  // ----- First and last value -----

  /** The first-value cell only changes on cells that had counted nothing, and both cells only ever
      receive values of calls; the last-value cell has received one as soon as a call is past storing it. */
  ghost predicate EndsOk(base: Shared, s: System) {
    && s.cells.count >= base.count
    && (forall i | 0 <= i < |s.calls| && 1 <= Rank(s.calls[i].pc) <= 6 :: Obtained(s.calls[i].pc) > base.count)
    && (base.count >= 1 ==> s.cells.first == base.first)
    && (s.cells.first == base.first || exists i :: 0 <= i < |s.calls| && s.cells.first == s.calls[i].value)
    && (s.cells.last == base.last || exists i :: 0 <= i < |s.calls| && s.cells.last == s.calls[i].value)
    && ((exists i :: 0 <= i < |s.calls| && Rank(s.calls[i].pc) >= 8) ==>
          exists i :: 0 <= i < |s.calls| && s.cells.last == s.calls[i].value)
    && (base.count == 0 && s.cells.count >= 1 ==>
          || (exists i :: 0 <= i < |s.calls| && WillStoreFirst(s.calls[i]))
          || (exists i :: 0 <= i < |s.calls| && s.cells.first == s.calls[i].value))
  }

  /** The call obtained the count one and has not stored the first value yet. */
  predicate WillStoreFirst(t: Call) {
    1 <= Rank(t.pc) <= 6 && Obtained(t.pc) == 1
  }

  /** The count a call obtained, while it still needs it. */
  function Obtained(pc: Pc): int {
    match pc
    case Counted(n) => n
    case AddingSum(n) => n
    case SwappingSum(n, _) => n
    case AddingSquare(n) => n
    case SwappingSquare(n, _) => n
    case StoringFirst(n) => n
    case _ => 0
  }

  lemma ActEnds(c: Shared, t: Call)
    ensures
      var (c', t') := Act(c, t);
      && t'.value == t.value && c'.count >= c.count
      && (1 <= Rank(t'.pc) <= 6 ==> Obtained(t'.pc) == if t.pc.Entering? then c.count + 1 else Obtained(t.pc))
      && (1 <= Rank(t'.pc) <= 6 && !t.pc.Entering? ==> 1 <= Rank(t.pc) <= 6)
      && (c'.first == c.first || (c'.first == t.value && 1 <= Rank(t.pc) <= 6 && Obtained(t.pc) == 1))
      && (c'.last == c.last || c'.last == t.value)
      && (Rank(t'.pc) >= 8 ==> Rank(t.pc) >= 8 || c'.last == t.value)
      && (WillStoreFirst(t) ==> WillStoreFirst(t') || c'.first == t.value)
      && (c'.count == c.count || (c'.count == c.count + 1 && (c.count == 0 ==> WillStoreFirst(t'))))
  {
    hide Square, HP.SlotOf;
  }

  lemma StepEnds(base: Shared, s: System, i: nat)
    requires EndsOk(base, s) && base.count >= 0
    ensures EndsOk(base, Step(s, i))
  {
    hide Act, Rank, Obtained, WillStoreFirst;
    if i < |s.calls| {
      ActEnds(s.cells, s.calls[i]);
      var s' := Step(s, i);
      assert s'.calls[i] == Act(s.cells, s.calls[i]).1;
      assert forall j | 0 <= j < |s.calls| :: s'.calls[j].value == s.calls[j].value;
      assert s'.cells.first == s.cells.first || s'.cells.first == s'.calls[i].value;
      assert s'.cells.last == s.cells.last || s'.cells.last == s'.calls[i].value;
      if j :| 0 <= j < |s.calls| && WillStoreFirst(s.calls[j]) {
        assert WillStoreFirst(s'.calls[j]) || s'.cells.first == s'.calls[j].value;
      }
    }
  }

  lemma {:induction false} RunEnds(base: Shared, values: seq<real>, schedule: seq<nat>)
    requires base.count >= 0
    ensures EndsOk(base, Run(Start(base, values), schedule))
  {
    if schedule != [] {
      hide EndsOk, Start, Step;
      var n := |schedule| - 1;
      RunEnds(base, values, schedule[..n]);
      StepEnds(base, Run(Start(base, values), schedule[..n]), schedule[n]);
    }
  }

  /** Once calls have finished, the last value is one of theirs, and so is the first value, unless something had
      been counted before: then it is unchanged. */
  lemma EndsComeFromCalls(base: Shared, values: seq<real>, schedule: seq<nat>)
    requires base.count >= 0 && values != [] && AllDone(Run(Start(base, values), schedule))
    ensures
      var c := Run(Start(base, values), schedule).cells;
      && c.last in values
      && (if base.count >= 1 then c.first == base.first else c.first in values)
  {
    hide Start, Run, Accounted, Bounded;
    RunHolds(base, values, schedule);
    RunEnds(base, values, schedule);
    FinishedRunIsExact(base, values, schedule);
    var s := Run(Start(base, values), schedule);
    assert Rank(s.calls[0].pc) >= 8;
    assert forall i | 0 <= i < |values| :: s.calls[i].value == values[i] && values[i] in values;
  }

  // ----- Lock freedom -----

  /** A bound on the operations a call still has to perform when `n` calls are running: a failed swap
      costs two more, and a successful one is charged with the failures it can cause in the others. */
  function Effort(c: Shared, t: Call, n: nat): int {
    match t.pc
    case Entering => 8 * n + 16
    case Counted(_) => 8 * n + 15
    case AddingSum(_) => 8 * n + 14
    case SwappingSum(_, seen) => 8 * n + if c.sum == seen then 13 else 15
    case AddingSquare(_) => 6 * n + 12
    case SwappingSquare(_, seen) => 6 * n + if c.sumSquares == seen then 11 else 13
    case StoringFirst(_) => 4 * n + 10
    case StoringLast => 4 * n + 9
    case ReadingMin => 4 * n + 8
    case SwappingMin(seen) => 4 * n + if c.min == seen then 7 else 9
    case ReadingMax => 2 * n + 6
    case SwappingMax(seen) => 2 * n + if c.max == seen then 5 else 7
    case TakingTicket => 4
    case Writing => 3
    case Marking => 2
    case Publishing => 1
    case Done => 0
  }

  function TotalEffort(c: Shared, calls: seq<Call>, n: nat): int {
    if calls == [] then 0 else TotalEffort(c, calls[..|calls| - 1], n) + Effort(c, calls[|calls| - 1], n)
  }

  predicate SwapCellsEqual(c: Shared, c': Shared) {
    c.sum == c'.sum && c.sumSquares == c'.sumSquares && c.min == c'.min && c.max == c'.max
  }

  /** The acting call pays for its operation and for every failure it causes. */
  lemma ActPays(c: Shared, t: Call, n: nat)
    requires !t.pc.Done?
    ensures
      var (c', t') := Act(c, t);
      && Effort(c', t', n) + 1 + (if SwapCellsEqual(c, c') then 0 else 2 * n) <= Effort(c, t, n)
      && Effort(c, t, n) <= Effort(c', t, n)
  {
    hide Square, HP.SlotOf;
  }

  lemma {:induction false} OthersDisturbed(c: Shared, c': Shared, calls: seq<Call>, n: nat)
    ensures TotalEffort(c', calls, n) <= TotalEffort(c, calls, n) + (if SwapCellsEqual(c, c') then 0 else 2 * |calls|)
  {
    if calls != [] {
      OthersDisturbed(c, c', calls[..|calls| - 1], n);
    }
  }

  lemma {:induction false} EffortUpdate(c: Shared, calls: seq<Call>, i: nat, t: Call, n: nat)
    requires i < |calls|
    ensures TotalEffort(c, calls[i := t], n) == TotalEffort(c, calls, n) - Effort(c, calls[i], n) + Effort(c, t, n)
  {
    hide Effort;
    var m := |calls| - 1;
    if i < m {
      assert calls[i := t][..m] == calls[..m][i := t];
      EffortUpdate(c, calls[..m], i, t, n);
    } else {
      assert calls[i := t][..m] == calls[..m];
    }
  }

  lemma {:induction false} EffortBounds(c: Shared, calls: seq<Call>, n: nat)
    ensures 0 <= TotalEffort(c, calls, n) <= |calls| * (8 * n + 16)
  {
    if calls != [] {
      var front := calls[..|calls| - 1];
      EffortBounds(c, front, n);
      assert |calls| * (8 * n + 16) == |front| * (8 * n + 16) + (8 * n + 16);
    }
  }

  /** Every operation of an unfinished call, a failed swap included, brings the whole system closer to
      the end. */
  lemma StepProgresses(s: System, i: nat)
    requires i < |s.calls| && !s.calls[i].pc.Done?
    ensures
      var s' := Step(s, i);
      |s'.calls| == |s.calls|
      && TotalEffort(s'.cells, s'.calls, |s.calls|) < TotalEffort(s.cells, s.calls, |s.calls|)
  {
    hide Act, Effort, TotalEffort, SwapCellsEqual;
    var n := |s.calls|;
    var (c', t') := Act(s.cells, s.calls[i]);
    ActPays(s.cells, s.calls[i], n);
    OthersDisturbed(s.cells, c', s.calls, n);
    EffortUpdate(c', s.calls, i, t', n);
  }

  /** A schedule that never picks a finished call. */
  ghost predicate Busy(s: System, schedule: seq<nat>) {
    forall k | 0 <= k < |schedule| ::
      var r := Run(s, schedule[..k]);
      schedule[k] < |r.calls| && !r.calls[schedule[k]].pc.Done?
  }

  lemma {:induction false} BusyPays(s: System, schedule: seq<nat>)
    requires Busy(s, schedule)
    ensures
      var r := Run(s, schedule);
      |r.calls| == |s.calls|
      && TotalEffort(r.cells, r.calls, |s.calls|) + |schedule| <= TotalEffort(s.cells, s.calls, |s.calls|)
  {
    hide TotalEffort, Step;
    if schedule != [] {
      var n := |schedule| - 1;
      assert Busy(s, schedule[..n]) by {
        assert forall k | 0 <= k < n :: schedule[..n][..k] == schedule[..k];
      }
      BusyPays(s, schedule[..n]);
      StepProgresses(Run(s, schedule[..n]), schedule[n]);
    }
  }

  /** However the scheduler interleaves them, `n` calls perform at most n(8n+16) operations between
      them, retries included: the compare-and-swap loops cannot run for ever. */
  lemma EveryScheduleEnds(base: Shared, values: seq<real>, schedule: seq<nat>)
    requires Busy(Start(base, values), schedule)
    ensures |schedule| <= |values| * (8 * |values| + 16)
  {
    hide Busy, Run, TotalEffort;
    var s := Start(base, values);
    BusyPays(s, schedule);
    EffortBounds(s.cells, s.calls, |values|);
    var r := Run(s, schedule);
    EffortBounds(r.cells, r.calls, |values|);
  }
}
