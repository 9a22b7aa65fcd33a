/** When the unsynchronised slot writes of concurrent additions leave the newest values in the window. */
module LockFreeWindow {
  import opened RealSeq
  import opened LockFree
  import HP = HighPerformance
  import Ring

  /** Some schedule leads from one state to the other. */
  ghost predicate Reaches(s: System, t: System) {
    exists schedule :: Run(s, schedule) == t
  }

  lemma {:induction false} RunThen(s: System, a: seq<nat>, b: seq<nat>)
    ensures Run(s, a + b) == Run(Run(s, a), b)
  {
    hide Step;
    if b == [] {
      assert a + b == a;
    } else {
      var n := |b| - 1;
      RunThen(s, a, b[..n]);
      assert (a + b)[..|a| + n] == a + b[..n];
    }
  }

  lemma ReachesThen(s: System, t: System, u: System)
    requires Reaches(s, t) && Reaches(t, u)
    ensures Reaches(s, u)
  {
    var a :| Run(s, a) == t;
    var b :| Run(t, b) == u;
    RunThen(s, a, b);
  }

  lemma ReachesStep(s: System, i: nat)
    ensures Reaches(s, s) && Reaches(s, Step(s, i))
  {
    hide Step;
    assert Run(s, []) == s;
    assert [i][..0] == [];
    assert Run(s, [i]) == Step(s, i);
  }

  // ----- One call running alone -----

  ghost function Alone(s: System, i: nat, goal: nat): System
    requires i < |s.calls| && goal <= 16
    decreases TotalEffort(s.cells, s.calls, |s.calls|)
  {
    if Rank(s.calls[i].pc) >= goal then s
    else
      StepProgresses(s, i);
      EffortBounds(s.cells, s.calls, |s.calls|);
      Alone(Step(s, i), i, goal)
  }

  /** The call gets there, by steps of its own only. */
  lemma {:induction false} AloneArrives(s: System, i: nat, goal: nat)
    requires i < |s.calls| && goal <= 16
    ensures
      var t := Alone(s, i, goal);
      && Reaches(s, t) && |t.calls| == |s.calls| && |t.cells.ring| == |s.cells.ring|
      && (forall j | 0 <= j < |s.calls| && j != i :: t.calls[j] == s.calls[j])
      && Rank(t.calls[i].pc) >= goal && t.calls[i].value == s.calls[i].value
    decreases TotalEffort(s.cells, s.calls, |s.calls|)
  {
    hide Act, Rank, Reaches, TotalEffort;
    ReachesStep(s, i);
    if Rank(s.calls[i].pc) < goal {
      DoneRank(s.calls[i].pc);
      StepProgresses(s, i);
      EffortBounds(s.cells, s.calls, |s.calls|);
      ActConserves(s.cells, s.calls[i]);
      AloneArrives(Step(s, i), i, goal);
      ReachesThen(s, Step(s, i), Alone(s, i, goal));
    }
  }

  /** What a call will have done to the window when it has finished, if no other call interferes. */
  datatype Effect = Effect(index: nat, ticket: nat, ring: seq<real>)

  function EffectOf(c: Shared, t: Call): Effect {
    if |c.ring| == 0 || Rank(t.pc) >= 14 then Effect(t.index, c.ticket, c.ring)
    else if Rank(t.pc) == 13 then Effect(t.index, c.ticket, c.ring[HP.SlotOf(t.index, |c.ring|) := t.value])
    else Effect(c.ticket, c.ticket + 1, c.ring[HP.SlotOf(c.ticket, |c.ring|) := t.value])
  }

  lemma ActKeepsEffect(c: Shared, t: Call)
    requires |c.ring| > 0
    ensures
      var (c', t') := Act(c, t);
      EffectOf(c', t') == EffectOf(c, t) && (Rank(t.pc) < 13 ==> Rank(t'.pc) <= 13)
  {
    hide Square, HP.SlotOf;
  }

  lemma {:induction false} AloneEffect(s: System, i: nat, goal: nat)
    requires i < |s.calls| && goal <= 16 && |s.cells.ring| > 0
    ensures i < |Alone(s, i, goal).calls|
    ensures EffectOf(Alone(s, i, goal).cells, Alone(s, i, goal).calls[i]) == EffectOf(s.cells, s.calls[i])
    ensures Rank(s.calls[i].pc) < 13 && goal == 13 ==> Rank(Alone(s, i, goal).calls[i].pc) == 13
    decreases TotalEffort(s.cells, s.calls, |s.calls|)
  {
    hide Act, Rank, EffectOf, TotalEffort;
    if Rank(s.calls[i].pc) < goal {
      DoneRank(s.calls[i].pc);
      StepProgresses(s, i);
      EffortBounds(s.cells, s.calls, |s.calls|);
      ActConserves(s.cells, s.calls[i]);
      ActKeepsEffect(s.cells, s.calls[i]);
      AloneEffect(Step(s, i), i, goal);
    }
  }

  // ----- A call running alone is one addition -----

  /** The sums, counters and ends that a call leaves when it finishes undisturbed. */
  datatype Scalars = Scalars(count: int, valids: int, sum: real, sumSquares: real, first: real, last: real,
                             version: int)

  function ScalarsOf(c: Shared): Scalars {
    Scalars(c.count, c.valids, c.sum, c.sumSquares, c.first, c.last, c.version)
  }

  /** The count the call obtained or is about to obtain. */
  function CountOf(c: Shared, t: Call): int {
    if t.pc.Entering? then c.count + 1 else Obtained(t.pc)
  }

  function FinalScalars(c: Shared, t: Call): Scalars {
    var k := Rank(t.pc);
    Scalars(if k < 1 then c.count + 1 else c.count,
            if k < 2 then c.valids + 1 else c.valids,
            if k < 4 then c.sum + t.value else c.sum,
            if k < 6 then c.sumSquares + Square(t.value) else c.sumSquares,
            if k <= 6 && CountOf(c, t) == 1 then t.value else c.first,
            if k <= 7 then t.value else c.last,
            if k < 16 then c.version + 1 else c.version)
  }

  lemma ActKeepsScalars(c: Shared, t: Call)
    ensures
      var (c', t') := Act(c, t);
      FinalScalars(c', t') == FinalScalars(c, t)
  {
    hide Square, HP.SlotOf;
  }

  /** The extremes and the full flag that it leaves. */
  datatype Marks = Marks(min: Ext, max: Ext, full: bool)

  function FinalMarks(c: Shared, t: Call): Marks {
    var k := Rank(t.pc);
    Marks(if k < 10 then Lesser(c.min, Fin(t.value)) else c.min,
          if k < 12 then Greater(c.max, Fin(t.value)) else c.max,
          c.full || (if k <= 12 then |c.ring| > 0 && c.ticket >= |c.ring| - 1 else k <= 14 && t.index >= |c.ring| - 1))
  }

  /** What a call saw before a swap is what made it swap. */
  predicate Saw(t: Call) {
    && (t.pc.SwappingMin? ==> Fin(t.value).Below(t.pc.seenMin))
    && (t.pc.SwappingMax? ==> t.pc.seenMax.Below(Fin(t.value)))
  }

  lemma ActKeepsMarks(c: Shared, t: Call)
    requires Saw(t)
    ensures
      var (c', t') := Act(c, t);
      Saw(t') && FinalMarks(c', t') == FinalMarks(c, t)
  {
    hide Square, HP.SlotOf;
  }

  lemma {:induction false} AloneFinal(s: System, i: nat, goal: nat)
    requires i < |s.calls| && goal <= 16 && Saw(s.calls[i])
    ensures
      var t := Alone(s, i, goal);
      && i < |t.calls| && FinalScalars(t.cells, t.calls[i]) == FinalScalars(s.cells, s.calls[i])
      && FinalMarks(t.cells, t.calls[i]) == FinalMarks(s.cells, s.calls[i])
      && (|s.cells.ring| == 0 ==> t.cells.ticket == s.cells.ticket && t.cells.ring == s.cells.ring)
    decreases TotalEffort(s.cells, s.calls, |s.calls|)
  {
    hide Act, Rank, FinalScalars, FinalMarks, Saw, TotalEffort;
    if Rank(s.calls[i].pc) < goal {
      DoneRank(s.calls[i].pc);
      StepProgresses(s, i);
      EffortBounds(s.cells, s.calls, |s.calls|);
      ActKeepsScalars(s.cells, s.calls[i]);
      ActKeepsMarks(s.cells, s.calls[i]);
      WithoutWindow(s.cells, s.calls[i]);
      AloneFinal(Step(s, i), i, goal);
    }
  }

  lemma WithoutWindow(c: Shared, t: Call)
    ensures |c.ring| == 0 ==> Act(c, t).0.ticket == c.ticket && Act(c, t).0.ring == c.ring
  {
    hide Square, HP.SlotOf;
  }

  /** The shared cells as the single-threaded model has them. */
  function CellsOf(c: Shared, nulls: nat): HP.Cells
    requires c.count >= 0 && c.valids >= 0 && c.version >= 0
  {
    HP.Cells(HP.Figures(c.count, c.valids, nulls, c.sum, c.sumSquares, c.min, c.max, c.first, c.last),
             HP.Slots(c.ticket, c.ring, c.full), c.version)
  }

  /** A call that runs alone to its end does exactly what one addition does. */
  lemma AloneIsAddOne(s: System, i: nat, nulls: nat)
    requires i < |s.calls| && s.calls[i].pc.Entering?
    requires s.cells.count >= 0 && s.cells.valids >= 0 && s.cells.version >= 0
    ensures
      var c := Alone(s, i, 16).cells;
      && c.count >= 0 && c.valids >= 0 && c.version >= 0
      && CellsOf(c, nulls) == HP.AddOne(CellsOf(s.cells, nulls), s.calls[i].value)
  {
    AloneArrives(s, i, 16);
    AloneFinal(s, i, 16);
    var t := Alone(s, i, 16);
    hide Reaches, Alone, HP.SlotOf, Square;
    DoneRank(t.calls[i].pc);
    if |s.cells.ring| > 0 {
      AloneEffect(s, i, 16);
    }
    assert ScalarsOf(t.cells) == FinalScalars(t.cells, t.calls[i]);
  }

  /** Calls that run one after the other do exactly what repeated additions do. */
  lemma {:induction false} OneAfterTheOther(base: Shared, values: seq<real>, k: nat, nulls: nat) returns (s: System)
    requires k <= |values| && base.count >= 0 && base.valids >= 0 && base.version >= 0
    ensures Reaches(Start(base, values), s) && |s.calls| == |values|
    ensures s.cells.count >= 0 && s.cells.valids >= 0 && s.cells.version >= 0
    ensures CellsOf(s.cells, nulls) == HP.AddAll(CellsOf(base, nulls), values[..k])
    ensures forall j | k <= j < |values| :: s.calls[j].pc.Entering? && s.calls[j].value == values[j]
    ensures forall j | 0 <= j < k :: s.calls[j].pc.Done?
  {
    if k == 0 {
      s := Start(base, values);
      ReachesStep(s, 0);
    } else {
      hide Reaches, HP.AddOne, CellsOf, Alone;
      var before := OneAfterTheOther(base, values, k - 1, nulls);
      s := Alone(before, k - 1, 16);
      AloneArrives(before, k - 1, 16);
      DoneRank(s.calls[k - 1].pc);
      AloneIsAddOne(before, k - 1, nulls);
      ReachesThen(Start(base, values), before, s);
      assert values[..k][..k - 1] == values[..k - 1];
    }
  }

  // ----- The full flag -----

  /** The flag is set exactly if it was, or some call past marking it has a ticket in the last slot or later;
      and the newest ticket is always with some call. */
  ghost predicate FlagOk(base: Shared, s: System) {
    && |s.cells.ring| == |base.ring|
    && (s.cells.full <==> base.full || exists i :: 0 <= i < |s.calls| && Marked(s.calls[i], |base.ring|))
    && (s.cells.ticket > base.ticket ==> exists i :: 0 <= i < |s.calls| && Holds(s.calls[i], s.cells.ticket - 1))
    && s.cells.ticket >= base.ticket
  }

  predicate Marked(t: Call, size: nat) {
    Rank(t.pc) >= 15 && t.index >= size - 1
  }

  predicate Holds(t: Call, ticket: nat) {
    Rank(t.pc) >= 13 && t.index == ticket
  }

  lemma ActFlag(c: Shared, t: Call, size: nat)
    requires |c.ring| == size > 0
    ensures
      var (c', t') := Act(c, t);
      && |c'.ring| == size
      && (c'.full <==> c.full || (Marked(t', size) && !Marked(t, size)))
      && (Marked(t, size) ==> Marked(t', size))
      && (c'.ticket == c.ticket || (c'.ticket == c.ticket + 1 && Holds(t', c.ticket)))
      && (forall k :: Holds(t, k) ==> Holds(t', k))
  {
    hide Square, HP.SlotOf;
  }

  lemma StepFlag(base: Shared, s: System, i: nat)
    requires FlagOk(base, s) && |base.ring| > 0
    ensures FlagOk(base, Step(s, i))
  {
    hide Act, Marked, Holds;
    if i < |s.calls| {
      ActFlag(s.cells, s.calls[i], |base.ring|);
      var s', w := Step(s, i), |base.ring|;
      var t' := s'.calls[i];
      assert forall j | 0 <= j < |s.calls| && j != i :: s'.calls[j] == s.calls[j];
      assert s'.cells.full <==> s.cells.full || (Marked(t', w) && !Marked(s.calls[i], w));
      assert s'.cells.ticket == s.cells.ticket || Holds(t', s.cells.ticket);
      if j :| 0 <= j < |s.calls| && Marked(s.calls[j], w) {
        assert Marked(s'.calls[j], w);
      }
      if j :| 0 <= j < |s'.calls| && Marked(s'.calls[j], w) {
        assert j != i ==> Marked(s.calls[j], w);
      }
      if s.cells.ticket > base.ticket {
        var j :| 0 <= j < |s.calls| && Holds(s.calls[j], s.cells.ticket - 1);
        assert Holds(s'.calls[j], s.cells.ticket - 1);
      }
    }
  }

  lemma {:induction false} RunFlag(base: Shared, values: seq<real>, schedule: seq<nat>)
    requires |base.ring| > 0
    ensures FlagOk(base, Run(Start(base, values), schedule))
  {
    if schedule != [] {
      hide FlagOk, Start, Step;
      var n := |schedule| - 1;
      RunFlag(base, values, schedule[..n]);
      StepFlag(base, Run(Start(base, values), schedule[..n]), schedule[n]);
    }
  }

  /** Once all calls have finished, whatever the interleaving, the flag is set exactly if it was, or tickets have
      been handed out for every slot. */
  lemma FullIff(base: Shared, values: seq<real>, schedule: seq<nat>)
    requires |base.ring| > 0 && values != [] && AllDone(Run(Start(base, values), schedule))
    ensures Run(Start(base, values), schedule).cells.full <==> base.full || base.ticket + |values| >= |base.ring|
  {
    hide Run, Start, SettledSlot;
    RunFlag(base, values, schedule);
    SlotsHoldTicketHolders(base, values, schedule);
    var s := Run(Start(base, values), schedule);
    var i :| 0 <= i < |s.calls| && Holds(s.calls[i], s.cells.ticket - 1);
    assert s.calls[i].pc.Done?;
    if base.ticket + |values| >= |base.ring| {
      assert Marked(s.calls[i], |base.ring|);
    }
    if j :| 0 <= j < |s.calls| && Marked(s.calls[j], |base.ring|) {
      assert s.calls[j].index < s.cells.ticket;
    }
  }

  // ----- One call overtaken by all others -----

  /** The order in which the calls take tickets when call `p` goes first and the others follow in order. */
  function Place(p: nat, j: nat): nat {
    if j == p then 0 else if j < p then j + 1 else j
  }

  /** Call `p` has taken the first ticket and stopped before writing; of the others the first `k` are done. */
  ghost predicate ParkedAt(base: Shared, values: seq<real>, p: nat, k: nat, s: System) {
    && p < |values| == |s.calls| && k <= |values| && |s.cells.ring| == |base.ring|
    && Reaches(Start(base, values), s)
    && s.cells.ticket == base.ticket + (if p < k then k else k + 1)
    && (forall j | 0 <= j < |values| :: s.calls[j].value == values[j])
    && Rank(s.calls[p].pc) == 13 && s.calls[p].index == base.ticket
    && (forall j | 0 <= j < k && j != p :: s.calls[j].pc.Done? && s.calls[j].index == base.ticket + Place(p, j))
    && (forall j | k <= j < |values| && j != p :: s.calls[j].pc.Entering?)
  }

  lemma EffectUnfold(c: Shared, t: Call)
    requires |c.ring| > 0
    ensures Rank(t.pc) >= 14 ==> EffectOf(c, t) == Effect(t.index, c.ticket, c.ring)
    ensures Rank(t.pc) == 13 ==>
      EffectOf(c, t) == Effect(t.index, c.ticket, c.ring[HP.SlotOf(t.index, |c.ring|) := t.value])
    ensures t.pc.Entering? ==>
      EffectOf(c, t) == Effect(c.ticket, c.ticket + 1, c.ring[HP.SlotOf(c.ticket, |c.ring|) := t.value])
    ensures t.pc.Entering? ==> Rank(t.pc) == 0
    ensures Rank(t.pc) >= 16 <==> t.pc.Done?
  {
    hide HP.SlotOf;
  }

  lemma Park(base: Shared, values: seq<real>, p: nat) returns (s: System)
    requires p < |values| && |base.ring| > 0
    ensures ParkedAt(base, values, p, 0, s)
  {
    hide Reaches, Rank, EffectOf, HP.SlotOf;
    var start := Start(base, values);
    s := Alone(start, p, 13);
    EffectUnfold(start.cells, start.calls[p]);
    AloneArrives(start, p, 13);
    AloneEffect(start, p, 13);
    EffectUnfold(s.cells, s.calls[p]);
  }

  lemma FinishNext(base: Shared, values: seq<real>, p: nat, k: nat, s: System) returns (t: System)
    requires ParkedAt(base, values, p, k, s) && k < |values| && |base.ring| > 0
    ensures ParkedAt(base, values, p, k + 1, t)
  {
    if k == p {
      t := s;
    } else {
      hide Reaches, Rank, EffectOf, HP.SlotOf;
      t := Alone(s, k, 16);
      EffectUnfold(s.cells, s.calls[k]);
      AloneArrives(s, k, 16);
      AloneEffect(s, k, 16);
      EffectUnfold(t.cells, t.calls[k]);
      RankSixteen(t.calls[k].pc);
      ReachesThen(Start(base, values), s, t);
    }
  }

  lemma RankSixteen(pc: Pc)
    ensures Rank(pc) >= 16 ==> Rank(pc) >= 14
  {
  }

  lemma {:induction false} FinishOthers(base: Shared, values: seq<real>, p: nat, k: nat) returns (s: System)
    requires p < |values| && k <= |values| && |base.ring| > 0
    ensures ParkedAt(base, values, p, k, s)
  {
    hide ParkedAt;
    if k == 0 {
      s := Park(base, values, p);
    } else {
      s := FinishOthers(base, values, p, k - 1);
      s := FinishNext(base, values, p, k - 1, s);
    }
  }

  /** A schedule in which call `p` takes the first ticket but writes last of all. */
  lemma Overtaken(base: Shared, values: seq<real>, p: nat) returns (schedule: seq<nat>)
    requires p < |values| && |base.ring| > 0
    ensures
      var s := Run(Start(base, values), schedule);
      && AllDone(s) && |s.calls| == |values| && |s.cells.ring| == |base.ring|
      && s.cells.ticket == base.ticket + |values|
      && (forall j | 0 <= j < |values| ::
            s.calls[j].value == values[j] && s.calls[j].index == base.ticket + Place(p, j))
      && s.cells.ring[HP.SlotOf(base.ticket, |base.ring|)] == values[p]
  {
    hide Reaches, Rank, EffectOf, HP.SlotOf;
    var s := FinishOthers(base, values, p, |values|);
    var t := Alone(s, p, 16);
    EffectUnfold(s.cells, s.calls[p]);
    AloneArrives(s, p, 16);
    AloneEffect(s, p, 16);
    EffectUnfold(t.cells, t.calls[p]);
    RankSixteen(t.calls[p].pc);
    ReachesThen(Start(base, values), s, t);
    schedule := ScheduleTo(Start(base, values), t);
  }

  lemma ScheduleTo(s: System, t: System) returns (schedule: seq<nat>)
    requires Reaches(s, t)
    ensures Run(s, schedule) == t
  {
    schedule :| Run(s, schedule) == t;
  }

  // ----- The newest values -----

  /** Each of the newest tickets, one per slot, still has its value in its slot. */
  ghost predicate NewestKept(s: System) {
    var w := |s.cells.ring|;
    w > 0 ==> forall i | 0 <= i < |s.calls| && s.calls[i].index + w >= s.cells.ticket ::
      s.cells.ring[HP.SlotOf(s.calls[i].index, w)] == s.calls[i].value
  }

  lemma NextTurn(ticket: nat, w: nat)
    requires w > 0
    ensures HP.SlotOf(ticket + w, w) == HP.SlotOf(ticket, w)
  {
    Ring.FullTurn(ticket, w);
  }

  lemma {:induction false} FullTurns(ticket: nat, turns: nat, q: nat, w: nat)
    requires w > 0 && q == turns * w
    ensures HP.SlotOf(ticket + q, w) == HP.SlotOf(ticket, w)
  {
    hide HP.SlotOf;
    if turns > 0 {
      assert q - w == (turns - 1) * w >= 0;
      FullTurns(ticket, turns - 1, q - w, w);
      NextTurn(ticket + q - w, w);
    }
  }

  /** The last place that falls into the same slot as the first. */
  lemma LastTurn(n: nat, w: nat) returns (q: nat, turns: nat)
    requires 0 < w < n
    ensures q == turns * w && 1 <= q < n <= q + w
  {
    turns := (n - 1) / w;
    q := turns * w;
    assert n - 1 == turns * w + (n - 1) % w;
  }

  ghost predicate AllEqual(values: seq<real>) {
    forall i, j | 0 <= i < j < |values| :: values[i] == values[j]
  }

  /** The call that takes place `q` when `p` goes first. */
  function Placed(p: nat, q: nat): nat
    requires q > 0
  {
    if q <= p then q - 1 else q
  }

  lemma SomeCallDiffers(values: seq<real>, q: nat) returns (p: nat)
    requires 0 < q < |values| && !AllEqual(values)
    ensures p < |values| && values[p] != values[Placed(p, q)]
  {
    if p' :| 0 <= p' < |values| && values[p'] != values[Placed(p', q)] {
      p := p';
    } else {
      forall i | 0 <= i < |values|
        ensures values[i] == values[q]
      {
        assert values[i] == values[Placed(i, q)] && values[q] == values[Placed(q, q)];
      }
      assert false;
    }
  }

  /** With more calls than slots some schedule loses a newest value to an older one. */
  lemma OlderValueLeft(base: Shared, values: seq<real>) returns (schedule: seq<nat>)
    requires 0 < |base.ring| < |values| && !AllEqual(values)
    ensures AllDone(Run(Start(base, values), schedule)) && !NewestKept(Run(Start(base, values), schedule))
  {
    hide Run, Start, AllDone, HP.SlotOf;
    var w := |base.ring|;
    var q, turns := LastTurn(|values|, w);
    var p := SomeCallDiffers(values, q);
    schedule := Overtaken(base, values, p);
    FullTurns(base.ticket, turns, q, w);
    var s, c := Run(Start(base, values), schedule), Placed(p, q);
    assert s.calls[c].index == base.ticket + q;
    assert s.cells.ring[HP.SlotOf(s.calls[c].index, w)] == values[p];
  }

  /** Without conflict, or with nothing to tell apart, the newest values are all there. */
  lemma NewestKeptWhen(base: Shared, values: seq<real>, schedule: seq<nat>)
    requires AllDone(Run(Start(base, values), schedule))
    requires |values| <= |base.ring| || AllEqual(values)
    ensures NewestKept(Run(Start(base, values), schedule))
  {
    hide Run, Start, HP.SlotOf;
    var s, w := Run(Start(base, values), schedule), |base.ring|;
    RingLength(base, values, schedule);
    if w > 0 {
      SlotsHoldTicketHolders(base, values, schedule);
      if 0 < |values| <= w {
        WindowHoldsEveryValue(base, values, schedule);
      } else {
        forall i | 0 <= i < |s.calls|
          ensures s.cells.ring[HP.SlotOf(s.calls[i].index, w)] == s.calls[i].value
        {
          assert SettledSlot(base, s, HP.SlotOf(s.calls[i].index, w));
        }
      }
    }
  }

  lemma {:induction false} RingLength(base: Shared, values: seq<real>, schedule: seq<nat>)
    ensures |Run(Start(base, values), schedule).cells.ring| == |base.ring|
  {
    hide Act;
    if schedule != [] {
      var n := |schedule| - 1;
      RingLength(base, values, schedule[..n]);
      var s := Run(Start(base, values), schedule[..n]);
      if schedule[n] < |s.calls| {
        ActConserves(s.cells, s.calls[schedule[n]]);
      }
    }
  }

  /** Every finished schedule leaves the newest values in their slots exactly when there is no window, or
      there are no more calls than slots, or all values are the same. */
  lemma NewestKeptIff(base: Shared, values: seq<real>)
    ensures (forall schedule | AllDone(Run(Start(base, values), schedule)) ::
               NewestKept(Run(Start(base, values), schedule)))
       <==> |base.ring| == 0 || |values| <= |base.ring| || AllEqual(values)
  {
    hide Run, Start, AllDone, NewestKept, AllEqual;
    if |base.ring| == 0 {
      forall schedule | AllDone(Run(Start(base, values), schedule))
        ensures NewestKept(Run(Start(base, values), schedule))
      {
        RingLength(base, values, schedule);
        NoWindow(Run(Start(base, values), schedule));
      }
    } else if |values| <= |base.ring| || AllEqual(values) {
      forall schedule | AllDone(Run(Start(base, values), schedule))
        ensures NewestKept(Run(Start(base, values), schedule))
      {
        NewestKeptWhen(base, values, schedule);
      }
    } else {
      var schedule := OlderValueLeft(base, values);
    }
  }

  lemma NoWindow(s: System)
    requires |s.cells.ring| == 0
    ensures NewestKept(s)
  {
  }

  /** Two calls and one slot: the first to take a ticket stops before writing while the second finishes, and
      then overwrites the newer value with its own. */
  lemma OldestOverNewest(base: Shared, older: real, newer: real) returns (schedule: seq<nat>)
    requires |base.ring| == 1
    ensures
      var s := Run(Start(base, [older, newer]), schedule);
      && AllDone(s) && |s.calls| == 2 && s.calls[0].index < s.calls[1].index
      && s.cells.ring == [older]
  {
    hide Run, Start, AllDone;
    schedule := Overtaken(base, [older, newer], 0);
    var s := Run(Start(base, [older, newer]), schedule);
    assert HP.SlotOf(base.ticket, 1) == 0;
    assert s.cells.ring[0] == older;
  }
}
