/** Worker selection by load: when the chosen worker is a least busy one. */
module WorkerSelection {
  import opened WorkerPool

  const NO_WORKER_BUSIER := 1_000_000

  ghost predicate LeastBusy(busy: seq<int>, w: int) {
    0 <= w < |busy| && forall i | 0 <= i < |busy| :: busy[w] <= busy[i]
  }

  /** The condition for a balanced choice: some worker is below the scan's starting bound, or the
      round-robin choice happens to be least busy. */
  ghost predicate Balanced(busy: seq<int>, start: nat) {
    (exists i :: 0 <= i < |busy| && busy[i] < NO_WORKER_BUSIER) || LeastBusy(busy, start)
  }

  /** Round robin with a load check, over one snapshot of the busy cells. The answer is always a worker,
      and it is a least busy one exactly on balanced snapshots. It is the worker whose turn it is if that one is
      idle, else the first of the least busy ones; if all are at the bound, the one whose turn it is again. */
  method SelectBestWorker(busy: seq<int>, nextWorker: nat) returns (best: nat)
    requires |busy| > 0 && forall i | 0 <= i < |busy| :: busy[i] >= 0
    ensures best < |busy|
    ensures LeastBusy(busy, best) <==> Balanced(busy, (nextWorker + 1) % |busy|)
    ensures
      var turn := (nextWorker + 1) % |busy|;
      if busy[turn] == 0 || forall i | 0 <= i < |busy| :: busy[i] >= NO_WORKER_BUSIER then best == turn
      else LeastBusy(busy, best) && forall i | 0 <= i < best :: busy[best] < busy[i]
  {
    var startIndex := (nextWorker + 1) % |busy|;
    if busy[startIndex] == 0 {
      return startIndex;
    }
    var minBusy := NO_WORKER_BUSIER;
    best := startIndex;
    for i := 0 to |busy|
      invariant best < |busy|
      invariant minBusy <= NO_WORKER_BUSIER
      invariant if minBusy == NO_WORKER_BUSIER then best == startIndex else busy[best] == minBusy
      invariant forall k | 0 <= k < i :: minBusy <= busy[k]
      invariant minBusy < NO_WORKER_BUSIER ==> best < i && forall k | 0 <= k < best :: busy[best] < busy[k]
      invariant minBusy > 0
    {
      if busy[i] < minBusy {
        minBusy, best := busy[i], i;
      }
      if busy[i] == 0 {
        return i;
      }
    }
  }

  function BusyCells(s: Pool): (b: seq<int>)
    ensures |b| == |s.workers| && forall w | 0 <= w < |b| :: b[w] == s.workers[w].busy
  {
    seq(|s.workers|, w requires 0 <= w < |s.workers| => s.workers[w].busy)
  }

  /** In every reachable state a least busy worker is one whose open batch is smallest, no batch exceeds
      the batch size, and a worker that is waiting has strictly less than a full batch. */
  lemma LeastBusyHasSmallestBatch(c: Config, moves: seq<Move>, w: nat)
    requires c.batchSize > 0 && w < c.workers
    ensures
      var s := Run(c, moves);
      && (LeastBusy(BusyCells(s), w) <==>
            forall v | 0 <= v < |s.workers| :: |s.workers[w].batch| <= |s.workers[v].batch|)
      && s.workers[w].busy == |s.workers[w].batch| <= c.batchSize
      && (s.workers[w].phase.Idle? ==> s.workers[w].busy < c.batchSize)
  {
    hide Run, CountersOk, WithinCapacity, Places;
    RunInv(c, moves, One());
    var s := Run(c, moves);
    var busy := BusyCells(s);
    assert forall v | 0 <= v < |s.workers| :: busy[v] == s.workers[v].busy && WorkerOk(s.workers[v], c.batchSize);
  }

  /** For batch sizes up to one million the selection on a snapshot of any reachable state is therefore
      always balanced. */
  lemma SelectionBalanced(c: Config, moves: seq<Move>, start: nat)
    requires 0 < c.batchSize <= NO_WORKER_BUSIER && start < c.workers
    ensures Balanced(BusyCells(Run(c, moves)), start)
  {
    hide Run, CountersOk, WithinCapacity, Places;
    RunInv(c, moves, One());
    var s := Run(c, moves);
    var busy := BusyCells(s);
    assert forall v | 0 <= v < |s.workers| :: busy[v] == s.workers[v].busy && WorkerOk(s.workers[v], c.batchSize);
  }

  /** Two workers above the bound: the round-robin choice is returned although it is the busier one. */
  lemma BusierWorkerChosen()
    ensures !Balanced([NO_WORKER_BUSIER + 1, NO_WORKER_BUSIER], 0)
  {
    var busy := [NO_WORKER_BUSIER + 1, NO_WORKER_BUSIER];
    assert busy[0] > busy[1];
  }

  // ----- Larger batches can be unbalanced -----

  /** Worker `w` waits, and nothing is on its way. */
  predicate Ready(s: Pool, w: nat) {
    && Shaped(s) && w < |s.queues| && s.config.queueCap > 0
    && s.dispatcher == [] && s.dispatching.Selecting? && s.queues[w] == [] && s.workers[w].phase.Idle?
  }

  /** Worker `w` with one more task in its batch. */
  function Grown(g: Worker, task: nat, batchSize: nat): Worker {
    g.(busy := g.busy + 1, batch := g.batch + [task],
       phase := if |g.batch| + 1 >= batchSize then Processing(false) else Idle)
  }

  lemma Offer(s: Pool, w: nat)
    requires Ready(s, w)
    ensures
      var k := |s.calls|;
      Next(Next(s, Submit(false)), Advance(k, w, false))
      == s.(calls := s.calls + [Call(false, Counting)], dispatcher := [k])
  {
    var k := |s.calls|;
    assert (s.calls + [Call(false, Trying)])[k := Call(false, Counting)] == s.calls + [Call(false, Counting)];
    assert s.dispatcher + [k] == [k];
  }

  lemma HandOver(s: Pool, w: nat, k: nat)
    requires Shaped(s) && w < |s.queues| && s.dispatcher == [k] && s.dispatching.Selecting?
    requires s.queues[w] == [] && s.workers[w].phase.Idle?
    ensures
      Next(Next(s, Dispatch(w, true)), Dispatch(w, true)) ==
        if s.config.workerCap > 0 then s.(dispatcher := [], queues := s.queues[w := [k]])
        else s.(dispatcher := [], workers := s.workers[w := s.workers[w].(phase := Holding(k))])
  {
    assert [k][1..] == [] && [] + [k] == [k];
  }

  lemma TakeUp(s: Pool, w: nat, k: nat)
    requires Shaped(s) && w < |s.queues| && s.queues[w] == [k] && s.workers[w].phase.Idle?
    ensures Next(s, Work(w, true))
         == s.(queues := s.queues[w := []], workers := s.workers[w := s.workers[w].(phase := Holding(k))])
  {
    assert [k][1..] == [];
  }

  lemma PutInBatch(s: Pool, w: nat, k: nat)
    requires Shaped(s) && w < |s.queues| && s.workers[w].phase == Holding(k)
    ensures Next(s, Work(w, true)) == s.(workers := s.workers[w := Grown(s.workers[w], k, s.config.batchSize)])
  {
  }

  /** One task submitted, dispatched to worker `w` and put in its batch. */
  lemma Feed(c: Config, moves: seq<Move>, w: nat) returns (more: seq<Move>)
    requires c.batchSize > 0 && Ready(Run(c, moves), w)
    ensures
      var s, t := Run(c, moves), Run(c, more);
      && t.dispatcher == [] && t.dispatching.Selecting? && t.queues == s.queues
      && exists k :: t.workers == s.workers[w := Grown(s.workers[w], k, c.batchSize)]
  {
    hide Next, Run;
    var s := Run(c, moves);
    var k := |s.calls|;
    Offer(s, w);
    RunThen(c, moves, Submit(false));
    RunThen(c, moves + [Submit(false)], Advance(k, w, false));
    var a := moves + [Submit(false)] + [Advance(k, w, false)];
    HandOver(Run(c, a), w, k);
    RunThen(c, a, Dispatch(w, true));
    RunThen(c, a + [Dispatch(w, true)], Dispatch(w, true));
    more := a + [Dispatch(w, true)] + [Dispatch(w, true)];
    if c.workerCap > 0 {
      TakeUp(Run(c, more), w, k);
      RunThen(c, more, Work(w, true));
      more := more + [Work(w, true)];
      assert s.queues[w := [k]][w := []] == s.queues;
    }
    PutInBatch(Run(c, more), w, k);
    RunThen(c, more, Work(w, true));
    more := more + [Work(w, true)];
    assert Run(c, more).workers == s.workers[w := Grown(s.workers[w], k, c.batchSize)];
  }

  /** All workers wait with the given batch sizes and nothing is on its way. */
  ghost predicate AllWaiting(s: Pool, sizes: seq<nat>) {
    && Shaped(s) && s.config.queueCap > 0 && |sizes| == |s.workers|
    && s.dispatcher == [] && s.dispatching.Selecting?
    && (forall w | 0 <= w < |s.queues| :: s.queues[w] == [])
    && (forall w | 0 <= w < |s.workers| :: s.workers[w].phase.Idle? && |s.workers[w].batch| == sizes[w])
  }

  lemma {:induction false} FillTo(c: Config, moves: seq<Move>, sizes: seq<nat>, w: nat, n: nat)
    returns (more: seq<Move>)
    requires c.batchSize > 0 && AllWaiting(Run(c, moves), sizes) && w < |sizes| && sizes[w] <= n < c.batchSize
    ensures AllWaiting(Run(c, more), sizes[w := n])
    decreases n - sizes[w]
  {
    hide Run;
    if sizes[w] == n {
      more := moves;
      assert sizes[w := n] == sizes;
    } else {
      more := Feed(c, moves, w);
      more := FillTo(c, more, sizes[w := sizes[w] + 1], w, n);
      assert sizes[w := sizes[w] + 1][w := n] == sizes[w := n];
    }
  }

  /** The first `k` workers filled to `n`. */
  function FilledSizes(workers: nat, k: nat, n: nat): (sizes: seq<nat>)
    ensures |sizes| == workers && forall w | 0 <= w < workers :: sizes[w] == if w < k then n else 0
  {
    seq(workers, w => if w < k then n else 0)
  }

  lemma {:induction false} FillAll(c: Config, k: nat, n: nat) returns (moves: seq<Move>)
    requires 0 <= n < c.batchSize && c.queueCap > 0 && k <= c.workers
    ensures AllWaiting(Run(c, moves), FilledSizes(c.workers, k, n))
  {
    if k == 0 {
      moves := [];
    } else {
      hide Run, AllWaiting;
      moves := FillAll(c, k - 1, n);
      moves := FillTo(c, moves, FilledSizes(c.workers, k - 1, n), k - 1, n);
      assert FilledSizes(c.workers, k - 1, n)[k - 1 := n] == FilledSizes(c.workers, k, n);
    }
  }

  /** With larger batches and a second worker some reachable snapshot is not balanced. */
  lemma UnbalancedSnapshot(c: Config) returns (moves: seq<Move>)
    requires c.batchSize > NO_WORKER_BUSIER && c.workers > 1 && c.queueCap > 0
    ensures !Balanced(BusyCells(Run(c, moves)), 0)
  {
    hide Run, CountersOk, WithinCapacity, Places;
    var sizes := FilledSizes(c.workers, c.workers, NO_WORKER_BUSIER);
    var filled := FillAll(c, c.workers, NO_WORKER_BUSIER);
    var s := Run(c, filled);
    moves := Feed(c, filled, 0);
    RunInv(c, moves, One());
    var t := Run(c, moves);
    assert forall v | 0 <= v < |t.workers| :: WorkerOk(t.workers[v], c.batchSize);
    assert t.workers[1] == s.workers[1] && |t.workers[0].batch| == NO_WORKER_BUSIER + 1;
    assert forall v | 0 <= v < |t.workers| :: |t.workers[v].batch| >= NO_WORKER_BUSIER;
  }

  /** Selection is balanced on every snapshot of every run exactly when batches hold at most one million
      tasks or there is only one worker. */
  lemma SelectionBalancedIff(c: Config)
    requires c.batchSize > 0 && c.queueCap > 0 && c.workers > 0
    ensures (forall moves, start | 0 <= start < c.workers :: Balanced(BusyCells(Run(c, moves)), start))
       <==> c.batchSize <= NO_WORKER_BUSIER || c.workers == 1
  {
    hide Run, Balanced;
    if c.batchSize <= NO_WORKER_BUSIER {
      forall moves, start | 0 <= start < c.workers
        ensures Balanced(BusyCells(Run(c, moves)), start)
      {
        SelectionBalanced(c, moves, start);
      }
    } else if c.workers == 1 {
      forall moves, start | 0 <= start < c.workers
        ensures Balanced(BusyCells(Run(c, moves)), start)
      {
        OneWorkerBalanced(BusyCells(Run(c, moves)));
      }
    } else {
      var moves := UnbalancedSnapshot(c);
    }
  }

  lemma OneWorkerBalanced(busy: seq<int>)
    requires |busy| == 1
    ensures Balanced(busy, 0)
  {
  }
}
