/** Resource accounting of the aggregate-state manager: a bounded table of states with an estimated
    memory budget, periodic and forced cleanup, and temporary states when there is no room. */
module Aggregates {

  const MAX_INT64 := 0x7fff_ffff_ffff_ffff

  /** Two's-complement wrap-around of 64-bit arithmetic. */
  function Wrap64(x: int): int {
    (x + 0x8000_0000_0000_0000) % 0x1_0000_0000_0000_0000 - 0x8000_0000_0000_0000
  }

  predicate IsInt64(x: int) {
    -0x8000_0000_0000_0000 <= x <= MAX_INT64
  }

  /** The intended size: 200 bytes, plus 8 per slot of a window. */
  function StateSize(windowSize: int): int {
    if windowSize > 0 then 200 + windowSize * 8 else 200
  }

  /** The size as the code computes it in 64-bit arithmetic. */
  function EstimateStateSize(windowSize: int): int {
    if windowSize > 0 then Wrap64(200 + Wrap64(windowSize * 8)) else 200
  }

  /** The estimate is the intended size exactly when that fits 64 bits. */
  lemma EstimateExact(windowSize: int)
    requires IsInt64(windowSize)
    ensures EstimateStateSize(windowSize) == StateSize(windowSize) <==> StateSize(windowSize) <= MAX_INT64
    ensures IsInt64(EstimateStateSize(windowSize))
  {
  }

  /** The budget check of the code admits a new state. */
  predicate Admits(currentMem: int, windowSize: int, maxMemory: int) {
    !(Wrap64(currentMem + EstimateStateSize(windowSize)) > maxMemory)
  }

  /** Window sizes for which the 64-bit check can be trusted. */
  predicate SafeWindow(windowSize: int, maxMemory: int) {
    StateSize(windowSize) <= maxMemory || maxMemory < EstimateStateSize(windowSize) <= MAX_INT64 - maxMemory
  }

  /** The check never admits a state beyond the budget, whatever is in use, if and only if the window
      size is safe; window sizes near 2^60 wrap around and are let through. */
  lemma AdmissionSound(windowSize: int, maxMemory: int)
    requires IsInt64(windowSize) && 0 <= maxMemory <= MAX_INT64 / 2
    ensures (forall m | 0 <= m <= maxMemory && Admits(m, windowSize, maxMemory) ::
               m + StateSize(windowSize) <= maxMemory)
       <==> SafeWindow(windowSize, maxMemory)
  {
    EstimateExact(windowSize);
    var e := EstimateStateSize(windowSize);
    if !SafeWindow(windowSize, maxMemory) {
      var m := if e > MAX_INT64 - maxMemory then maxMemory else 0;
      assert Admits(m, windowSize, maxMemory);
      assert m + StateSize(windowSize) > maxMemory;
    } else {
      forall m | 0 <= m <= maxMemory
        ensures Admits(m, windowSize, maxMemory) ==> m + StateSize(windowSize) <= maxMemory
      {
        SafeCheck(m, windowSize, maxMemory);
      }
    }
  }

  /** For safe windows the wrapped check is the intended one. */
  lemma SafeCheck(m: int, windowSize: int, maxMemory: int)
    requires IsInt64(windowSize) && 0 <= m <= maxMemory <= MAX_INT64 / 2 && SafeWindow(windowSize, maxMemory)
    ensures Admits(m, windowSize, maxMemory) <==> m + StateSize(windowSize) <= maxMemory
    ensures Admits(m, windowSize, maxMemory) ==>
      && EstimateStateSize(windowSize) == StateSize(windowSize)
      && Wrap64(m + StateSize(windowSize)) == m + StateSize(windowSize)
  {
    EstimateExact(windowSize);
  }

  datatype Entry = Entry(windowSize: int, lastAccess: int)

  ghost function Pick(states: map<string, Entry>): (k: string)
    requires |states| != 0
    ensures k in states
  {
    var k :| k in states;
    k
  }

  /** The total of a size over the stored states. */
  ghost function Total(states: map<string, Entry>, size: int -> int): int {
    if |states| == 0 then 0
    else size(states[Pick(states)].windowSize) + Total(states - {Pick(states)}, size)
  }

  /** Memory in use: the total intended size of the stored states. */
  ghost function Memory(states: map<string, Entry>): int {
    Total(states, StateSize)
  }

  /** The total of the sizes as the code computes them. */
  ghost function Estimated(states: map<string, Entry>): int {
    Total(states, EstimateStateSize)
  }

  lemma TotalUnfold(states: map<string, Entry>, size: int -> int)
    requires |states| != 0
    ensures Total(states, size) == size(states[Pick(states)].windowSize) + Total(states - {Pick(states)}, size)
  {
  }

  /** The total does not depend on the order of summation. */
  lemma {:induction false} TotalRemove(states: map<string, Entry>, size: int -> int, k: string)
    requires k in states
    ensures Total(states, size) == size(states[k].windowSize) + Total(states - {k}, size)
    decreases |states|
  {
    hide Total, Pick;
    TotalUnfold(states, size);
    var c := Pick(states);
    if c != k {
      TotalRemove(states - {c}, size, k);
      TotalRemove(states - {k}, size, c);
      assert states - {c} - {k} == states - {k} - {c};
    }
  }

  lemma {:induction false} MemoryNonNegative(states: map<string, Entry>)
    ensures Memory(states) >= 0
    ensures forall k | k in states :: StateSize(states[k].windowSize) <= Memory(states)
    decreases |states|
  {
    hide Total;
    forall k | k in states
      ensures StateSize(states[k].windowSize) <= Memory(states)
    {
      TotalRemove(states, StateSize, k);
      MemoryNonNegative(states - {k});
    }
    if |states| != 0 {
      var k :| k in states;
      TotalRemove(states, StateSize, k);
      MemoryNonNegative(states - {k});
    } else {
      EmptyTotal(states, StateSize);
    }
  }

  lemma EmptyTotal(states: map<string, Entry>, size: int -> int)
    requires |states| == 0
    ensures Total(states, size) == 0
  {
  }

  /** Within the 64-bit range the code's total is the intended one. */
  lemma {:induction false} EstimatedExact(states: map<string, Entry>)
    requires Memory(states) <= MAX_INT64 && forall k | k in states :: IsInt64(states[k].windowSize)
    ensures Estimated(states) == Memory(states)
    decreases |states|
  {
    hide Total, StateSize, EstimateStateSize, IsInt64;
    if |states| == 0 {
      EmptyTotal(states, StateSize);
      EmptyTotal(states, EstimateStateSize);
    } else {
      var k :| k in states;
      TotalRemove(states, StateSize, k);
      TotalRemove(states, EstimateStateSize, k);
      MemoryNonNegative(states);
      EstimateExact(states[k].windowSize);
      SizePositive(states[k].windowSize);
      EstimatedExact(states - {k});
    }
  }

  lemma TotalInsert(states: map<string, Entry>, size: int -> int, k: string, e: Entry)
    requires k !in states
    ensures Total(states[k := e], size) == Total(states, size) + size(e.windowSize)
    ensures |states[k := e]| == |states| + 1
  {
    hide Total;
    assert states[k := e].Keys == states.Keys + {k};
    TotalRemove(states[k := e], size, k);
    assert states[k := e] - {k} == states;
  }

  lemma TotalTouch(states: map<string, Entry>, size: int -> int, k: string, now: int)
    requires k in states
    ensures Total(states[k := states[k].(lastAccess := now)], size) == Total(states, size)
    ensures |states[k := states[k].(lastAccess := now)]| == |states|
  {
    hide Total;
    assert states[k := states[k].(lastAccess := now)].Keys == states.Keys;
    var t := states[k := states[k].(lastAccess := now)];
    TotalRemove(states, size, k);
    TotalRemove(t, size, k);
    assert t - {k} == states - {k};
  }

  /** The states accessed within the last `ttl`. */
  function Survivors(states: map<string, Entry>, now: int, ttl: int): map<string, Entry> {
    map k | k in states && !(now - states[k].lastAccess > ttl) :: states[k]
  }

  // ----- The books as values -----

  /** The table of states and the memory the manager believes it uses. */
  datatype Ledger = Ledger(states: map<string, Entry>, mem: int)

  /** The limits of a manager. */
  datatype Limits = Limits(maxStates: nat, maxMemory: int, ttl: int)

  /** The clock readings of one call: at each forced cleanup and when the state is touched or created. */
  datatype Clock = Clock(firstCleanup: int, secondCleanup: int, access: int)

  function Clamped(m: int): int {
    if m < 0 then 0 else m
  }

  /** Everything is a machine integer, and the budget is at most half the range. */
  ghost predicate Typed(l: Ledger, maxMemory: int) {
    && 0 <= maxMemory <= MAX_INT64 / 2 && IsInt64(l.mem)
    && forall k | k in l.states :: IsInt64(l.states[k].windowSize)
  }

  /** The believed memory is the sum over the stored states, and within the budget. */
  ghost predicate Exact(l: Ledger, maxMemory: int) {
    l.mem == Memory(l.states) <= maxMemory
  }

  /** A cleanup: the estimates of what goes are taken off, clamped to zero. */
  ghost function Swept(l: Ledger, now: int, ttl: int): Ledger {
    var rest := Survivors(l.states, now, ttl);
    Ledger(rest, Clamped(Wrap64(l.mem - (Estimated(l.states) - Estimated(rest)))))
  }

  function Stored(l: Ledger, key: string, e: Entry): Ledger {
    Ledger(l.states[key := e], Wrap64(l.mem + EstimateStateSize(e.windowSize)))
  }

  function Touched(l: Ledger, key: string, now: int): Ledger
    requires key in l.states
  {
    l.(states := l.states[key := l.states[key].(lastAccess := now)])
  }

  /** The memory part of creation. */
  ghost function StoreAffordable(l: Ledger, key: string, e: Entry, now: int, limits: Limits): (Ledger, bool) {
    var l' := if Admits(l.mem, e.windowSize, limits.maxMemory) then l else Swept(l, now, limits.ttl / 2);
    if Admits(l'.mem, e.windowSize, limits.maxMemory) then (Stored(l', key, e), true) else (l', false)
  }

  /** A call of GetOrCreateState: the new books, and whether the state returned is a stored one. */
  ghost function Obtain(l: Ledger, key: string, windowSize: int, clock: Clock, limits: Limits): (Ledger, bool) {
    if key in l.states then (Touched(l, key, clock.access), true)
    else
      var l' := if |l.states| >= limits.maxStates then Swept(l, clock.firstCleanup, limits.ttl / 2) else l;
      if |l'.states| >= limits.maxStates then (l', false)
      else StoreAffordable(l', key, Entry(windowSize, clock.access), clock.secondCleanup, limits)
  }

  lemma WrapAdd(a: int, b: int)
    ensures Wrap64(Wrap64(a) + b) == Wrap64(a + b) && Wrap64(a - Wrap64(b)) == Wrap64(a - b)
    ensures IsInt64(Wrap64(a)) && (IsInt64(a) ==> Wrap64(a) == a)
  {
    hide Wrap64;
    var q := WrapTurns(a);
    var r := WrapTurns(b);
    WrapShift(a + b, q);
    WrapShift(a - b, -r);
  }

  const TWO64 := 0x1_0000_0000_0000_0000

  /** Wrapping takes off a number of full turns. */
  lemma WrapTurns(a: int) returns (q: int)
    ensures Wrap64(a) == a - q * TWO64 && IsInt64(Wrap64(a)) && (IsInt64(a) ==> q == 0)
  {
    q := (a + 0x8000_0000_0000_0000) / TWO64;
  }

  lemma WrapShift(a: int, q: int)
    ensures Wrap64(a - q * TWO64) == Wrap64(a)
  {
  }

  /** Exact books stay exact through a cleanup, and the clamp has nothing to do. */
  lemma SweptExact(l: Ledger, now: int, ttl: int, maxMemory: int)
    requires Typed(l, maxMemory) && Exact(l, maxMemory)
    ensures
      var t := Swept(l, now, ttl);
      Exact(t, maxMemory) && t.mem == l.mem - (Memory(l.states) - Memory(t.states))
  {
    hide Total, StateSize, EstimateStateSize;
    var rest := Survivors(l.states, now, ttl);
    SurvivorsLess(l.states, now, ttl);
    MemoryNonNegative(rest);
    EstimatedExact(l.states);
    EstimatedExact(rest);
    WrapAdd(Memory(rest), 0);
  }

  /** Part of a table needs no more memory than all of it. */
  lemma {:induction false} PartLess(states: map<string, Entry>, gone: set<string>)
    ensures Memory(states - gone) <= Memory(states)
    decreases |gone|
  {
    hide Total, StateSize;
    if gone == {} {
      assert states - gone == states;
    } else {
      var k :| k in gone;
      PartLess(states, gone - {k});
      var more := states - (gone - {k});
      if k in more {
        TotalRemove(more, StateSize, k);
        SizePositive(states[k].windowSize);
        assert states - gone == more - {k};
      } else {
        assert states - gone == more;
      }
    }
  }

  lemma SurvivorsLess(states: map<string, Entry>, now: int, ttl: int)
    ensures Memory(Survivors(states, now, ttl)) <= Memory(states)
  {
    hide Total;
    var rest := Survivors(states, now, ttl);
    PartLess(states, states.Keys - rest.Keys);
    assert states - (states.Keys - rest.Keys) == rest;
  }

  /** Storing a state keeps exact books exact exactly when it stays within the budget. */
  lemma StoredExact(l: Ledger, key: string, e: Entry, maxMemory: int)
    requires Typed(l, maxMemory) && Exact(l, maxMemory) && key !in l.states && IsInt64(e.windowSize)
    ensures Exact(Stored(l, key, e), maxMemory) <==> Memory(Stored(l, key, e).states) <= maxMemory
  {
    hide Total, StateSize, EstimateStateSize;
    MemoryNonNegative(l.states);
    TotalInsert(l.states, StateSize, key, e);
    EstimateExact(e.windowSize);
    SizePositive(e.windowSize);
    WrapAdd(l.mem + StateSize(e.windowSize), 0);
  }

  lemma SweptTyped(l: Ledger, now: int, ttl: int, maxMemory: int)
    requires Typed(l, maxMemory)
    ensures Typed(Swept(l, now, ttl), maxMemory) && |Swept(l, now, ttl).states| <= |l.states|
  {
    hide Total, StateSize, EstimateStateSize;
    var rest := Survivors(l.states, now, ttl);
    SubsetSize(rest.Keys, l.states.Keys);
    WrapAdd(l.mem - (Estimated(l.states) - Estimated(rest)), 0);
  }

  lemma ObtainTyped(l: Ledger, key: string, windowSize: int, clock: Clock, limits: Limits)
    requires Typed(l, limits.maxMemory) && IsInt64(windowSize) && |l.states| <= limits.maxStates
    ensures
      var t := Obtain(l, key, windowSize, clock, limits).0;
      Typed(t, limits.maxMemory) && |t.states| <= limits.maxStates
  {
    hide Estimated, EstimateStateSize, Swept, Admits;
    if key in l.states {
      TotalTouch(l.states, StateSize, key, clock.access);
    } else {
      SweptTyped(l, clock.firstCleanup, limits.ttl / 2, limits.maxMemory);
      var l' := if |l.states| >= limits.maxStates then Swept(l, clock.firstCleanup, limits.ttl / 2) else l;
      SweptTyped(l', clock.secondCleanup, limits.ttl / 2, limits.maxMemory);
      var e := Entry(windowSize, clock.access);
      StoredTyped(l', key, e, limits.maxMemory);
      StoredTyped(Swept(l', clock.secondCleanup, limits.ttl / 2), key, e, limits.maxMemory);
    }
  }

  lemma StoredTyped(l: Ledger, key: string, e: Entry, maxMemory: int)
    requires Typed(l, maxMemory) && IsInt64(e.windowSize)
    ensures Typed(Stored(l, key, e), maxMemory) && |Stored(l, key, e).states| <= |l.states| + 1
  {
    hide EstimateStateSize;
    WrapAdd(l.mem + EstimateStateSize(e.windowSize), 0);
    if key in l.states {
      assert l.states[key := e].Keys == l.states.Keys;
    } else {
      TotalInsert(l.states, StateSize, key, e);
    }
  }

  /** A call on exact books leaves them exact exactly when what is then stored is within the budget. */
  lemma ObtainExact(l: Ledger, key: string, windowSize: int, clock: Clock, limits: Limits)
    requires Typed(l, limits.maxMemory) && Exact(l, limits.maxMemory) && IsInt64(windowSize)
    ensures
      var (t, stored) := Obtain(l, key, windowSize, clock, limits);
      && (Exact(t, limits.maxMemory) <==> Memory(t.states) <= limits.maxMemory)
      && (!stored || key in l.states ==> Exact(t, limits.maxMemory))
      && (SafeWindow(windowSize, limits.maxMemory) ==> Exact(t, limits.maxMemory))
  {
    hide Total, StateSize, EstimateStateSize, Swept, Admits, SafeWindow, Wrap64;
    if key in l.states {
      TotalTouch(l.states, StateSize, key, clock.access);
    } else {
      var l' := if |l.states| >= limits.maxStates then Swept(l, clock.firstCleanup, limits.ttl / 2) else l;
      SweptExact(l, clock.firstCleanup, limits.ttl / 2, limits.maxMemory);
      SweptTyped(l, clock.firstCleanup, limits.ttl / 2, limits.maxMemory);
      SweptKeys(l, clock.firstCleanup, limits.ttl / 2);
      StoreAffordableExact(l', key, Entry(windowSize, clock.access), clock.secondCleanup, limits);
    }
  }

  lemma SweptKeys(l: Ledger, now: int, ttl: int)
    ensures Swept(l, now, ttl).states == Survivors(l.states, now, ttl)
  {
  }

  lemma StoreAffordableExact(l: Ledger, key: string, e: Entry, now: int, limits: Limits)
    requires Typed(l, limits.maxMemory) && Exact(l, limits.maxMemory) && IsInt64(e.windowSize) && key !in l.states
    ensures
      var (t, stored) := StoreAffordable(l, key, e, now, limits);
      && (Exact(t, limits.maxMemory) <==> Memory(t.states) <= limits.maxMemory)
      && (!stored ==> Exact(t, limits.maxMemory))
      && (SafeWindow(e.windowSize, limits.maxMemory) ==> Exact(t, limits.maxMemory))
  {
    hide Total, StateSize, EstimateStateSize, Swept, Admits, SafeWindow, Wrap64, Stored;
    SweptExact(l, now, limits.ttl / 2, limits.maxMemory);
    SweptTyped(l, now, limits.ttl / 2, limits.maxMemory);
    SweptKeys(l, now, limits.ttl / 2);
    var l' := if Admits(l.mem, e.windowSize, limits.maxMemory) then l else Swept(l, now, limits.ttl / 2);
    StoredExact(l', key, e, limits.maxMemory);
    MemoryNonNegative(l'.states);
    TotalInsert(l'.states, StateSize, key, e);
    StoredStates(l', key, e);
    if SafeWindow(e.windowSize, limits.maxMemory) {
      SafeCheck(l'.mem, e.windowSize, limits.maxMemory);
    }
  }

  lemma StoredStates(l: Ledger, key: string, e: Entry)
    ensures Stored(l, key, e).states == l.states[key := e]
  {
  }

  /** No stored state is older than `ttl`. */
  ghost predicate AllYoung(states: map<string, Entry>, now: int, ttl: int) {
    forall k | k in states :: now - states[k].lastAccess <= ttl
  }

  /** What a call does to the table: other states stay as they are unless a forced cleanup found them older
      than half the TTL, and a state is refused only when a forced cleanup has left no state older than that and
      there is still no room. */
  lemma ObtainFacts(l: Ledger, key: string, windowSize: int, clock: Clock, limits: Limits)
    ensures
      var (t, stored) := Obtain(l, key, windowSize, clock, limits);
      && (stored <==> key in t.states)
      && (key in l.states ==> stored && t.states[key] == l.states[key].(lastAccess := clock.access))
      && (key !in l.states && stored ==> t.states[key] == Entry(windowSize, clock.access))
      && (forall k | k in t.states && k != key :: k in l.states && t.states[k] == l.states[k])
      && (forall k | k in l.states && k !in t.states ::
            || clock.firstCleanup - l.states[k].lastAccess > limits.ttl / 2
            || clock.secondCleanup - l.states[k].lastAccess > limits.ttl / 2)
      && (!stored ==>
            || (|t.states| >= limits.maxStates && AllYoung(t.states, clock.firstCleanup, limits.ttl / 2))
            || (!Admits(t.mem, windowSize, limits.maxMemory)
                && AllYoung(t.states, clock.secondCleanup, limits.ttl / 2)))
  {
    hide Estimated, Wrap64, EstimateStateSize, Admits, Clamped;
  }

  /** With exact books and a safe window size, a refusal means that the states younger than half the TTL alone
      leave no room: there are too many of them, or they need too much memory. */
  lemma RefusedOnlyWhenFull(l: Ledger, key: string, windowSize: int, clock: Clock, limits: Limits)
    requires Typed(l, limits.maxMemory) && Exact(l, limits.maxMemory) && IsInt64(windowSize)
    requires SafeWindow(windowSize, limits.maxMemory) && !Obtain(l, key, windowSize, clock, limits).1
    ensures
      var young := Obtain(l, key, windowSize, clock, limits).0.states;
      && (AllYoung(young, clock.firstCleanup, limits.ttl / 2) || AllYoung(young, clock.secondCleanup, limits.ttl / 2))
      && (|young| >= limits.maxStates || Memory(young) + StateSize(windowSize) > limits.maxMemory)
  {
    hide Obtain, Total, StateSize, EstimateStateSize, Admits, SafeWindow, Typed;
    ObtainFacts(l, key, windowSize, clock, limits);
    ObtainExact(l, key, windowSize, clock, limits);
    var t := Obtain(l, key, windowSize, clock, limits).0;
    MemoryNonNegative(t.states);
    BudgetHalf(l, limits.maxMemory);
    SafeCheck(t.mem, windowSize, limits.maxMemory);
  }

  lemma BudgetHalf(l: Ledger, maxMemory: int)
    requires Typed(l, maxMemory)
    ensures 0 <= maxMemory <= MAX_INT64 / 2
  {
  }

  // ----- Runs -----

  datatype Op = Call(key: string, windowSize: int, clock: Clock) | Cleanup(now: int)

  ghost function Next(l: Ledger, op: Op, limits: Limits): Ledger {
    match op
    case Call(key, windowSize, clock) => Obtain(l, key, windowSize, clock, limits).0
    case Cleanup(now) => Swept(l, now, limits.ttl)
  }

  /** The books after a sequence of operations on a new manager. */
  ghost function Run(ops: seq<Op>, limits: Limits): Ledger {
    if ops == [] then Ledger(map[], 0) else Next(Run(ops[..|ops| - 1], limits), ops[|ops| - 1], limits)
  }

  /** Window sizes are machine integers. */
  predicate TypedOps(ops: seq<Op>) {
    forall i | 0 <= i < |ops| && ops[i].Call? :: IsInt64(ops[i].windowSize)
  }

  lemma {:induction false} RunTyped(ops: seq<Op>, limits: Limits)
    requires TypedOps(ops) && 0 <= limits.maxMemory <= MAX_INT64 / 2
    ensures Typed(Run(ops, limits), limits.maxMemory) && |Run(ops, limits).states| <= limits.maxStates
  {
    hide Obtain, Swept, IsInt64;
    if ops == [] {
      assert IsInt64(0) by {
        WrapAdd(0, 0);
      }
    } else {
      var n := |ops| - 1;
      RunTyped(ops[..n], limits);
      var l := Run(ops[..n], limits);
      match ops[n]
      case Call(key, windowSize, clock) => ObtainTyped(l, key, windowSize, clock, limits);
      case Cleanup(now) => SweptTyped(l, now, limits.ttl, limits.maxMemory);
    }
  }

  /** One operation on exact books: they stay exact exactly when the table is within the budget. */
  lemma NextExact(l: Ledger, op: Op, limits: Limits)
    requires Typed(l, limits.maxMemory) && Exact(l, limits.maxMemory) && (op.Call? ==> IsInt64(op.windowSize))
    ensures Exact(Next(l, op, limits), limits.maxMemory) <==> Memory(Next(l, op, limits).states) <= limits.maxMemory
    ensures !op.Call? || SafeWindow(op.windowSize, limits.maxMemory) ==> Exact(Next(l, op, limits), limits.maxMemory)
  {
    hide Obtain, Swept, IsInt64, Memory, SafeWindow;
    match op
    case Call(key, windowSize, clock) => ObtainExact(l, key, windowSize, clock, limits);
    case Cleanup(now) => SweptExact(l, now, limits.ttl, limits.maxMemory);
  }

  /** In every run the number of states is within its limit, and the books have been exact so far exactly when
      no state of the table so far was beyond the budget: they are lost from the first such addition. */
  lemma {:induction false} ExactSoFarIff(ops: seq<Op>, limits: Limits)
    requires TypedOps(ops) && 0 <= limits.maxMemory <= MAX_INT64 / 2
    ensures |Run(ops, limits).states| <= limits.maxStates
    ensures (forall j | 0 <= j <= |ops| :: Exact(Run(ops[..j], limits), limits.maxMemory))
       <==> forall j | 0 <= j <= |ops| :: Memory(Run(ops[..j], limits).states) <= limits.maxMemory
  {
    hide Next, Memory, IsInt64;
    RunTyped(ops, limits);
    if ops == [] {
      assert ops[..0] == [];
      NewBooks(limits);
    } else {
      var n := |ops| - 1;
      assert ops[..|ops|] == ops;
      assert forall j | 0 <= j <= n :: ops[..n][..j] == ops[..j];
      ExactSoFarIff(ops[..n], limits);
      RunTyped(ops[..n], limits);
      assert ops[..n][..n] == ops[..n];
      if forall j | 0 <= j <= n :: Exact(Run(ops[..j], limits), limits.maxMemory) {
        NextExact(Run(ops[..n], limits), ops[n], limits);
      }
    }
  }

  lemma NewBooks(limits: Limits)
    requires 0 <= limits.maxMemory
    ensures Exact(Run([], limits), limits.maxMemory)
  {
  }

  /** With safe window sizes they are exact in every state of every run. */
  lemma {:induction false} SafeRunExact(ops: seq<Op>, limits: Limits)
    requires TypedOps(ops) && 0 <= limits.maxMemory <= MAX_INT64 / 2
    requires forall i | 0 <= i < |ops| && ops[i].Call? :: SafeWindow(ops[i].windowSize, limits.maxMemory)
    ensures Exact(Run(ops, limits), limits.maxMemory)
  {
    hide Next, Memory, IsInt64, SafeWindow;
    if ops == [] {
      NewBooks(limits);
    } else {
      var n := |ops| - 1;
      SafeRunExact(ops[..n], limits);
      RunTyped(ops[..n], limits);
      NextExact(Run(ops[..n], limits), ops[n], limits);
    }
  }

  lemma SizePositive(windowSize: int)
    ensures StateSize(windowSize) >= 200
  {
  }

  lemma {:induction false} SubsetSize(a: set<string>, b: set<string>)
    requires a <= b
    ensures |a| <= |b|
  {
    if a != {} {
      var x :| x in a;
      SubsetSize(a - {x}, b - {x});
    }
  }

  class AggregateManager {
    var states: map<string, Entry>
    var currentMem: int
    const maxStates: nat
    const maxMemory: int
    const defaultTTL: int

    function Books(): Ledger
      reads this
    {
      Ledger(states, currentMem)
    }

    function Bounds(): Limits {
      Limits(maxStates, maxMemory, defaultTTL)
    }

    ghost predicate Valid()
      reads this
    {
      Typed(Books(), maxMemory) && |states| <= maxStates
    }

    constructor ()
      ensures Valid() && Books() == Ledger(map[], 0)
      ensures Bounds() == Limits(10000, 100 * 1024 * 1024, 600_000_000_000)
    {
      states, currentMem := map[], 0;
      maxStates, maxMemory, defaultTTL := 10000, 100 * 1024 * 1024, 600_000_000_000;
    }

    /** Finds the states older than `ttl` and sums their estimates in 64-bit arithmetic. */
    method CollectExpired(now: int, ttl: int) returns (expired: set<string>, freed: int)
      requires Valid()
      ensures states - expired == Survivors(states, now, ttl)
      ensures freed == Freed(states, expired)
    {
      hide Freed, EstimateStateSize, Wrap64, Typed, Survivors;
      expired, freed := {}, 0;
      var todo := states.Keys;
      NothingFreed(states);
      while todo != {}
        invariant todo <= states.Keys && expired <= states.Keys - todo
        invariant forall k | k in states && k !in todo :: k in expired <==> now - states[k].lastAccess > ttl
        invariant freed == Freed(states, expired)
        decreases todo
      {
        var key :| key in todo;
        var state := states[key];
        if now - state.lastAccess > ttl {
          RemoveOneMore(states, expired, key);
          freed := Wrap64(freed + EstimateStateSize(state.windowSize));
          expired := expired + {key};
        }
        todo := todo - {key};
      }
      OthersSurvive(states, expired, now, ttl);
    }

    /** Removes the states older than `ttl`. */
    method Sweep(now: int, ttl: int)
      requires Valid()
      modifies this
      ensures Valid() && Books() == Swept(old(Books()), now, ttl)
      ensures Exact(old(Books()), maxMemory) ==> Exact(Books(), maxMemory)
    {
      hide Estimated, Wrap64, Typed, Survivors, Swept, Exact;
      SweptTyped(Books(), now, ttl, maxMemory);
      if Exact(Books(), maxMemory) {
        SweptExact(Books(), now, ttl, maxMemory);
      }
      var expired, freed := CollectExpired(now, ttl);
      SweptIs(Books(), expired, freed, now, ttl);
      states := states - expired;
      var remaining := Wrap64(currentMem - freed);
      if remaining < 0 {
        remaining := 0;
      }
      currentMem := remaining;
    }

    method CleanupExpiredStates(now: int)
      requires Valid()
      modifies this
      ensures Valid() && Books() == Next(old(Books()), Cleanup(now), Bounds())
    {
      Sweep(now, defaultTTL);
    }

    method ForceCleanup(now: int)
      requires Valid()
      modifies this
      ensures Valid() && Books() == Swept(old(Books()), now, defaultTTL / 2)
    {
      Sweep(now, defaultTTL / 2);
    }

    /** Returns the stored state for a key, creating it when there is room; otherwise a temporary state
        that is not stored. */
    method GetOrCreateState(key: string, windowSize: int, clock: Clock) returns (r: Entry, stored: bool)
      requires Valid() && IsInt64(windowSize)
      modifies this
      ensures Valid() && (Books(), stored) == Obtain(old(Books()), key, windowSize, clock, Bounds())
      ensures Books() == Next(old(Books()), Call(key, windowSize, clock), Bounds())
      ensures if stored then key in states && states[key] == r else r == Entry(windowSize, clock.access)
      ensures Exact(old(Books()), maxMemory) ==>
        && (Exact(Books(), maxMemory) <==> Memory(states) <= maxMemory)
        && (SafeWindow(windowSize, maxMemory) ==> Exact(Books(), maxMemory))
    {
      hide Swept, StoreAffordable, IsInt64, Exact, SafeWindow, Memory;
      if Exact(Books(), maxMemory) {
        ObtainExact(Books(), key, windowSize, clock, Bounds());
      }
      ObtainTyped(Books(), key, windowSize, clock, Bounds());
      ObtainFacts(Books(), key, windowSize, clock, Bounds());
      if key in states {
        r, stored := states[key].(lastAccess := clock.access), true;
        states := states[key := r];
        return;
      }
      r, stored := Entry(windowSize, clock.access), false;
      if |states| >= maxStates {
        ForceCleanup(clock.firstCleanup);
        if |states| >= maxStates {
          return;
        }
      }
      stored := StoreIfAffordable(key, r, clock.secondCleanup);
    }

    /** The memory part of creation: cleans up when the budget is exceeded, then stores or gives up. */
    method StoreIfAffordable(key: string, r: Entry, now: int) returns (stored: bool)
      requires Valid() && |states| < maxStates && IsInt64(r.windowSize)
      modifies this
      ensures (Books(), stored) == StoreAffordable(old(Books()), key, r, now, Bounds())
    {
      hide Swept, EstimateStateSize, Wrap64, IsInt64;
      var estimatedSize := EstimateStateSize(r.windowSize);
      if Wrap64(currentMem + estimatedSize) > maxMemory {
        ForceCleanup(now);
        if Wrap64(currentMem + estimatedSize) > maxMemory {
          return false;
        }
      }
      states := states[key := r];
      currentMem := Wrap64(currentMem + estimatedSize);
      stored := true;
    }
  }

  /** The estimates of the expired states, summed in 64-bit arithmetic. */
  ghost function Freed(states: map<string, Entry>, expired: set<string>): int {
    Wrap64(Estimated(states) - Estimated(states - expired))
  }

  lemma NothingFreed(states: map<string, Entry>)
    ensures Freed(states, {}) == 0
  {
    hide Estimated;
    assert states - {} == states;
  }

  lemma OthersSurvive(states: map<string, Entry>, expired: set<string>, now: int, ttl: int)
    requires forall k | k in states :: k in expired <==> now - states[k].lastAccess > ttl
    ensures states - expired == Survivors(states, now, ttl)
  {
  }

  lemma SweptIs(l: Ledger, expired: set<string>, freed: int, now: int, ttl: int)
    requires l.states - expired == Survivors(l.states, now, ttl)
    requires freed == Freed(l.states, expired)
    ensures Swept(l, now, ttl) == Ledger(l.states - expired, Clamped(Wrap64(l.mem - freed)))
  {
    hide Estimated, Wrap64, Survivors;
    WrapAdd(l.mem, Estimated(l.states) - Estimated(l.states - expired));
  }

  /** One more expired state in the sum of what is freed. */
  lemma RemoveOneMore(states: map<string, Entry>, expired: set<string>, key: string)
    requires key in states && key !in expired
    ensures Wrap64(Freed(states, expired) + EstimateStateSize(states[key].windowSize)) == Freed(states, expired + {key})
  {
    hide Total, EstimateStateSize, Wrap64;
    TotalRemove(states - expired, EstimateStateSize, key);
    assert states - expired - {key} == states - (expired + {key});
    WrapAdd(Estimated(states) - Estimated(states - expired), EstimateStateSize(states[key].windowSize));
  }

  /** A window of 2^60 slots is estimated as a negative size: it is admitted and breaks the budget. */
  lemma GiantWindowAdmitted()
    ensures
      var w := 0x1000_0000_0000_0000;
      EstimateStateSize(w) < 0 && Admits(0, w, 100 * 1024 * 1024) && StateSize(w) > 100 * 1024 * 1024
  {
  }

  /** The manager's own limits. */
  const STANDARD := Limits(10000, 100 * 1024 * 1024, 600_000_000_000)

  const GIANT := 0x1000_0000_0000_0000

  /** A small state, then a giant one, then a cleanup that finds only the small one expired. */
  function GiantOps(): seq<Op> {
    [Call("a", 0, Clock(0, 0, 0)), Call("b", GIANT, Clock(0, 0, 600_000_000_000)), Cleanup(600_000_000_001)]
  }

  lemma StoredAtOnce(l: Ledger, key: string, windowSize: int, clock: Clock, limits: Limits)
    requires key !in l.states && |l.states| < limits.maxStates && Admits(l.mem, windowSize, limits.maxMemory)
    ensures Obtain(l, key, windowSize, clock, limits) == (Stored(l, key, Entry(windowSize, clock.access)), true)
  {
    hide Admits, Swept, Stored;
  }

  lemma GiantSteps()
    ensures Obtain(Ledger(map[], 0), "a", 0, Clock(0, 0, 0), STANDARD).0 == Ledger(map["a" := Entry(0, 0)], 200)
    ensures Obtain(Ledger(map["a" := Entry(0, 0)], 200), "b", GIANT, Clock(0, 0, 600_000_000_000), STANDARD).0
         == Ledger(map["a" := Entry(0, 0), "b" := Entry(GIANT, 600_000_000_000)], 400 - 0x8000_0000_0000_0000)
  {
    hide Obtain;
    StoredAtOnce(Ledger(map[], 0), "a", 0, Clock(0, 0, 0), STANDARD);
    StoredAtOnce(Ledger(map["a" := Entry(0, 0)], 200), "b", GIANT, Clock(0, 0, 600_000_000_000), STANDARD);
    assert map["a" := Entry(0, 0)]["b" := Entry(GIANT, 600_000_000_000)]
        == map["a" := Entry(0, 0), "b" := Entry(GIANT, 600_000_000_000)];
  }

  lemma GiantSweep()
    ensures
      var both := map["a" := Entry(0, 0), "b" := Entry(GIANT, 600_000_000_000)];
      var rest := map["b" := Entry(GIANT, 600_000_000_000)];
      && Survivors(both, 600_000_000_001, STANDARD.ttl) == rest
      && Estimated(both) - Estimated(rest) == 200 && Memory(rest) == StateSize(GIANT)
      && Swept(Ledger(both, 400 - 0x8000_0000_0000_0000), 600_000_000_001, STANDARD.ttl) == Ledger(rest, 0)
  {
    var both := map["a" := Entry(0, 0), "b" := Entry(GIANT, 600_000_000_000)];
    var rest := map["b" := Entry(GIANT, 600_000_000_000)];
    hide Total;
    TotalRemove(both, EstimateStateSize, "a");
    TotalRemove(rest, StateSize, "b");
    assert both - {"a"} == rest && rest - {"b"} == map[];
    EmptyTotal(map[], StateSize);
    assert Survivors(both, 600_000_000_001, STANDARD.ttl) == rest;
  }

  /** In this run the clamp fires: the cleanup takes 200 off a negative count, and the manager then believes
      that nothing is in use although a state beyond the budget is stored. */
  lemma ClampFires()
    ensures
      var before, l := Run(GiantOps()[..2], STANDARD), Run(GiantOps(), STANDARD);
      && before.mem - 200 < 0 && l.mem == 0
      && "b" in l.states && Memory(l.states) > STANDARD.maxMemory
  {
    var ops := GiantOps();
    GiantSteps();
    GiantSweep();
    hide Obtain, Swept, Memory;
    assert ops[..2][..1] == ops[..1] && ops[..1][..0] == [];
    assert Run(ops[..1][..0], STANDARD) == Ledger(map[], 0);
    assert Run(ops[..1], STANDARD) == Ledger(map["a" := Entry(0, 0)], 200);
    assert Run(ops[..2], STANDARD) == Next(Run(ops[..1], STANDARD), ops[1], STANDARD);
    assert Run(ops, STANDARD) == Next(Run(ops[..2], STANDARD), ops[2], STANDARD);
  }

  /** Every window size below 2^60 - 2^48 is safe for the manager's 100 MB budget. */
  lemma OrdinaryWindowsSafe(windowSize: int)
    requires IsInt64(windowSize) && windowSize < 0x0fff_0000_0000_0000
    ensures SafeWindow(windowSize, 100 * 1024 * 1024)
  {
    EstimateExact(windowSize);
  }
}
