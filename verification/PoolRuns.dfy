/** What runs of the worker pool do: outcomes, batches, order, drops, priorities and the time before Stop. */
module PoolRuns {
  import opened WorkerPool

  // ----- Which counter a task ends in -----

  /** The move executes a task. */
  predicate Executes(s: Pool, m: Move) {
    && m.Work? && m.worker < |s.workers| && m.worker < |s.queues|
    && s.workers[m.worker].phase.Processing? && s.workers[m.worker].next < |s.workers[m.worker].batch|
  }

  /** How many executions of a run had the given outcome. */
  function Executed(c: Config, moves: seq<Move>, outcome: bool): nat
    requires c.batchSize > 0
  {
    if moves == [] then 0
    else
      var front, m := moves[..|moves| - 1], moves[|moves| - 1];
      Executed(c, front, outcome) + if Executes(Run(c, front), m) && m.success == outcome then 1 else 0
  }

  function TotalOk(workers: seq<Worker>): nat {
    if workers == [] then 0 else TotalOk(workers[..|workers| - 1]) + workers[|workers| - 1].ok
  }

  function TotalBad(workers: seq<Worker>): nat {
    if workers == [] then 0 else TotalBad(workers[..|workers| - 1]) + workers[|workers| - 1].bad
  }

  lemma {:induction false} TotalsUpdate(workers: seq<Worker>, w: nat, g: Worker)
    requires w < |workers|
    ensures TotalOk(workers[w := g]) == TotalOk(workers) - workers[w].ok + g.ok
    ensures TotalBad(workers[w := g]) == TotalBad(workers) - workers[w].bad + g.bad
  {
    var n := |workers| - 1;
    if w < n {
      assert workers[w := g][..n] == workers[..n][w := g];
      TotalsUpdate(workers[..n], w, g);
    } else {
      assert workers[w := g][..n] == workers[..n];
    }
  }

  /** Completed and failed tasks, published or about to be, against the number of executions of either outcome;
      dropped and refused tasks count as failed. */
  ghost predicate OutcomesOk(s: Pool, good: nat, bad: nat) {
    && s.completedTasks + TotalOk(s.workers) == good
    && s.failedTasks + TotalBad(s.workers) == bad + |s.dropped| + CountStage(s.calls, IsRefused)
  }

  /** One worker move: a success counts on the one side, a failure on the other. */
  lemma WorkerOutcome(s: Pool, w: nat, success: bool)
    requires |s.workers| == |s.queues| && w < |s.queues|
    ensures
      var t, n := WorkerMove(s, w, success), if Executes(s, Work(w, success)) then 1 else 0;
      && t.completedTasks + t.workers[w].ok == s.completedTasks + s.workers[w].ok + (if success then n else 0)
      && t.failedTasks + t.workers[w].bad == s.failedTasks + s.workers[w].bad + (if success then 0 else n)
      && |t.ran| == |s.ran| + n
  {
  }

  lemma SendTotals(s: Pool, w: nat, task: nat)
    requires w < |s.queues| && |s.workers| == |s.queues|
    ensures
      var t := Send(s, w, task);
      TotalOk(t.workers) == TotalOk(s.workers) && TotalBad(t.workers) == TotalBad(s.workers)
  {
    hide TotalOk, TotalBad;
    TotalsUpdate(s.workers, w, s.workers[w].(phase := Holding(task)));
  }

  lemma AdvanceOutcome(s: Pool, c: nat, w: nat, timeout: bool, good: nat, bad: nat)
    requires |s.workers| == |s.queues| && c < |s.calls| && w < |s.queues| && OutcomesOk(s, good, bad)
    ensures OutcomesOk(AdvanceCall(s, c, w, timeout), good, bad)
  {
    hide TotalOk, TotalBad, CountStage, Send, Room;
    var t, stage := AdvanceCall(s, c, w, timeout), s.calls[c].stage;
    if stage.Forcing? && !timeout && stage.worker < |s.queues| && Room(s, stage.worker, true) {
      SendTotals(s, stage.worker, c);
      SendFrame(s, stage.worker, c);
      StageCounts(s.calls, c, s.calls[c].(stage := Counting));
    } else {
      StageCounts(s.calls, c, t.calls[c]);
    }
  }

  lemma DispatchOutcome(s: Pool, w: nat, meets: bool, good: nat, bad: nat)
    requires |s.workers| == |s.queues| && w < |s.queues| && OutcomesOk(s, good, bad)
    ensures OutcomesOk(DispatcherMove(s, w, meets), good, bad)
  {
    hide TotalOk, TotalBad, CountStage, Send, Room;
    var d := s.dispatching;
    if d.Sending? && d.worker < |s.queues| && Room(s, d.worker, meets) {
      SendTotals(s, d.worker, d.task);
      SendFrame(s, d.worker, d.task);
    } else if d.Alternatives? && d.next < |s.queues| && d.next != d.exclude && Room(s, d.next, meets) {
      SendTotals(s, d.next, d.task);
      SendFrame(s, d.next, d.task);
    }
  }

  lemma WorkOutcome(s: Pool, w: nat, success: bool, good: nat, bad: nat)
    requires |s.workers| == |s.queues| && w < |s.queues| && OutcomesOk(s, good, bad)
    ensures
      var n := if Executes(s, Work(w, success)) then 1 else 0;
      OutcomesOk(WorkerMove(s, w, success), good + (if success then n else 0), bad + (if success then 0 else n))
  {
    hide TotalOk, TotalBad, CountStage, WorkerMove, Executes;
    WorkerOutcome(s, w, success);
    OneWorkerFrame(s, w, success);
    TotalsUpdate(s.workers, w, WorkerMove(s, w, success).workers[w]);
  }

  lemma OtherOutcome(s: Pool, m: Move, good: nat, bad: nat)
    requires Shaped(s) && OutcomesOk(s, good, bad) && !m.Advance? && !m.Dispatch? && !m.Work?
    ensures OutcomesOk(Next(s, m), good, bad)
  {
    hide TotalOk, TotalBad;
    match m
    case Submit(high) => assert (s.calls + [Call(high, Trying)])[..|s.calls|] == s.calls;
    case BatchTimer(w) =>
      if w < |s.workers| {
        TotalsUpdate(s.workers, w, TimerMove(s, w).workers[w]);
      }
    case ExitWorker(w) =>
      if w < |s.workers| {
        TotalsUpdate(s.workers, w, ExitMove(s, w).workers[w]);
      }
    case _ =>
  }

  /** In every interleaving the completed tasks are the successful executions and the failed ones are the failed
      executions, the dropped and the refused tasks, once all outcomes are published. */
  lemma {:induction false} OutcomesCounted(c: Config, moves: seq<Move>)
    requires c.batchSize > 0
    ensures OutcomesOk(Run(c, moves), Executed(c, moves, true), Executed(c, moves, false))
  {
    if moves == [] {
      NoOutcomes(Init(c).workers);
    } else {
      hide Next, OutcomesOk, Executes;
      var n := |moves| - 1;
      var s, m := Run(c, moves[..n]), moves[n];
      OutcomesCounted(c, moves[..n]);
      NextOutcome(s, m, Executed(c, moves[..n], true), Executed(c, moves[..n], false));
    }
  }

  lemma NextOutcome(s: Pool, m: Move, good: nat, bad: nat)
    requires Shaped(s) && OutcomesOk(s, good, bad)
    ensures
      var n := if Executes(s, m) then 1 else 0;
      OutcomesOk(Next(s, m), good + (if n == 1 && m.success then 1 else 0),
                 bad + (if n == 1 && !m.success then 1 else 0))
  {
    hide AdvanceCall, DispatcherMove, WorkerMove, OutcomesOk;
    match m
    case Advance(c, w, timeout) =>
      if c < |s.calls| && w < |s.queues| {
        AdvanceOutcome(s, c, w, timeout, good, bad);
      }
    case Dispatch(w, meets) =>
      if w < |s.queues| {
        DispatchOutcome(s, w, meets, good, bad);
      }
    case Work(w, success) =>
      if w < |s.queues| {
        WorkOutcome(s, w, success, good, bad);
      }
    case _ => OtherOutcome(s, m, good, bad);
  }

  lemma {:induction false} NoOutcomes(workers: seq<Worker>)
    requires forall w | 0 <= w < |workers| :: workers[w] == FRESH_WORKER
    ensures TotalOk(workers) == 0 && TotalBad(workers) == 0
  {
    if workers != [] {
      NoOutcomes(workers[..|workers| - 1]);
    }
  }

  // ----- A batch is processed -----

  /** The state after further moves. */
  function Continue(s: Pool, moves: seq<Move>): (t: Pool)
    requires Shaped(s)
    ensures Shaped(t)
  {
    if moves == [] then s
    else
      var t := Continue(s, moves[..|moves| - 1]);
      NextShaped(t, moves[|moves| - 1]);
      Next(t, moves[|moves| - 1])
  }

  lemma ContinueThen(s: Pool, moves: seq<Move>, m: Move)
    requires Shaped(s)
    ensures Continue(s, moves + [m]) == Next(Continue(s, moves), m)
  {
    assert (moves + [m])[..|moves|] == moves;
  }

  /** One execution of worker `w` per outcome. */
  function Works(w: nat, outcomes: seq<bool>): (moves: seq<Move>)
    ensures |moves| == |outcomes| && forall i | 0 <= i < |outcomes| :: moves[i] == Work(w, outcomes[i])
  {
    seq(|outcomes|, i requires 0 <= i < |outcomes| => Work(w, outcomes[i]))
  }

  function CountOf(outcomes: seq<bool>, outcome: bool): nat {
    if outcomes == [] then 0
    else CountOf(outcomes[..|outcomes| - 1], outcome) + if outcomes[|outcomes| - 1] == outcome then 1 else 0
  }

  /** Worker `w` has executed the first tasks of its batch with the given outcomes. */
  function Partly(s: Pool, w: nat, outcomes: seq<bool>, stopping: bool): Pool
    requires w < |s.workers| && |outcomes| <= |s.workers[w].batch|
  {
    var g := s.workers[w];
    s.(ran := s.ran + g.batch[..|outcomes|],
       workers := s.workers[w := g.(phase := Processing(stopping), next := |outcomes|,
                                    ok := CountOf(outcomes, true), bad := CountOf(outcomes, false))])
  }

  lemma ExecuteOne(s: Pool, w: nat, outcomes: seq<bool>, stopping: bool, success: bool)
    requires Shaped(s) && w < |s.workers| && |outcomes| < |s.workers[w].batch|
    ensures Next(Partly(s, w, outcomes, stopping), Work(w, success)) == Partly(s, w, outcomes + [success], stopping)
  {
    var batch := s.workers[w].batch;
    assert (outcomes + [success])[..|outcomes|] == outcomes;
    assert batch[..|outcomes| + 1] == batch[..|outcomes|] + [batch[|outcomes|]];
    assert s.ran + batch[..|outcomes|] + [batch[|outcomes|]] == s.ran + batch[..|outcomes| + 1];
  }

  /** What makes a waiting worker process its batch: the timer, or cancellation, for the last time. */
  function Trigger(w: nat, stopping: bool): Move {
    if stopping then ExitWorker(w) else BatchTimer(w)
  }

  lemma {:induction false} ExecuteAll(s: Pool, w: nat, outcomes: seq<bool>, stopping: bool)
    requires Shaped(s) && w < |s.workers| && |outcomes| <= |s.workers[w].batch| && (stopping ==> s.cancelled)
    requires s.workers[w].phase.Idle? && s.workers[w].next == s.workers[w].ok == s.workers[w].bad == 0
    requires s.workers[w].batch != []
    ensures Continue(s, [Trigger(w, stopping)] + Works(w, outcomes)) == Partly(s, w, outcomes, stopping)
  {
    hide Next, Trigger;
    if outcomes == [] {
      TriggerStarts(s, w, stopping);
      ContinueThen(s, [], Trigger(w, stopping));
      assert [] + [Trigger(w, stopping)] == [Trigger(w, stopping)] + Works(w, []);
    } else {
      var n := |outcomes| - 1;
      ExecuteAll(s, w, outcomes[..n], stopping);
      ExecuteOne(s, w, outcomes[..n], stopping, outcomes[n]);
      var moves := [Trigger(w, stopping)] + Works(w, outcomes[..n]);
      ContinueThen(s, moves, Work(w, outcomes[n]));
      assert moves + [Work(w, outcomes[n])] == [Trigger(w, stopping)] + Works(w, outcomes);
      assert outcomes[..n] + [outcomes[n]] == outcomes;
    }
  }

  lemma TriggerStarts(s: Pool, w: nat, stopping: bool)
    requires Shaped(s) && w < |s.workers| && s.workers[w].batch != [] && (stopping ==> s.cancelled)
    requires s.workers[w].phase.Idle? && s.workers[w].next == s.workers[w].ok == s.workers[w].bad == 0
    ensures Next(s, Trigger(w, stopping)) == Partly(s, w, [], stopping)
  {
    assert s.ran + s.workers[w].batch[..0] == s.ran;
  }

  /** Worker `w` has executed its batch and is publishing the outcomes. */
  function Publishing(s: Pool, w: nat, phase: WorkerPhase, ok: nat, bad: nat, completed: int, failed: int): Pool
    requires w < |s.workers|
  {
    var g := s.workers[w];
    s.(ran := s.ran + g.batch, completedTasks := completed, failedTasks := failed,
       workers := s.workers[w := g.(phase := phase, next := |g.batch|, ok := ok, bad := bad)])
  }

  lemma AllExecuted(s: Pool, w: nat, outcomes: seq<bool>, stopping: bool)
    requires w < |s.workers| && |outcomes| == |s.workers[w].batch|
    ensures Partly(s, w, outcomes, stopping)
         == Publishing(s, w, Processing(stopping), CountOf(outcomes, true), CountOf(outcomes, false),
                       s.completedTasks, s.failedTasks)
  {
    assert s.workers[w].batch[..|outcomes|] == s.workers[w].batch;
  }

  lemma PublishSteps(s: Pool, w: nat, stopping: bool, ok: nat, bad: nat, completed: int, failed: int)
    requires Shaped(s) && w < |s.workers|
    ensures Next(Publishing(s, w, Processing(stopping), ok, bad, completed, failed), Work(w, true))
         == Publishing(s, w, FlushingCompleted(stopping), ok, bad, completed, failed)
    ensures Next(Publishing(s, w, FlushingCompleted(stopping), ok, bad, completed, failed), Work(w, true))
         == Publishing(s, w, FlushingFailed(stopping), 0, bad, completed + ok, failed)
    ensures Next(Publishing(s, w, FlushingFailed(stopping), ok, bad, completed, failed), Work(w, true))
         == Publishing(s, w, if stopping then Exited else Clearing, ok, 0, completed, failed + bad)
  {
  }

  /** Worker `w` has executed its batch and waits with an empty one. */
  function Processed(s: Pool, w: nat, completed: int, failed: int): Pool
    requires w < |s.workers|
  {
    s.(ran := s.ran + s.workers[w].batch, completedTasks := completed, failedTasks := failed,
       workers := s.workers[w := FRESH_WORKER])
  }

  lemma ClearStep(s: Pool, w: nat, completed: int, failed: int)
    requires Shaped(s) && w < |s.workers|
    ensures Next(Publishing(s, w, Clearing, 0, 0, completed, failed), Work(w, true))
         == Processed(s, w, completed, failed)
  {
  }

  /** The timer, the executions, and four more moves that publish and clear. */
  function BatchMoves(w: nat, outcomes: seq<bool>): seq<Move> {
    [Trigger(w, false)] + Works(w, outcomes) + [Work(w, true)] + [Work(w, true)] + [Work(w, true)] + [Work(w, true)]
  }

  /** When the batch timer fires, the waiting worker executes its whole batch in order, publishes how many tasks
      succeeded and how many failed, and starts again with an empty batch. */
  lemma BatchProcessed(s: Pool, w: nat, outcomes: seq<bool>)
    requires Inv(s) && w < |s.workers| && s.workers[w].phase.Idle? && s.workers[w].batch != []
    requires |outcomes| == |s.workers[w].batch|
    ensures Continue(s, BatchMoves(w, outcomes))
         == Processed(s, w, s.completedTasks + CountOf(outcomes, true), s.failedTasks + CountOf(outcomes, false))
  {
    hide Next, Inv, Continue, Publishing, Partly, Processed, Works, CountOf, Fourfold;
    IdleIsClean(s, w);
    ExecuteAll(s, w, outcomes, false);
    AllExecuted(s, w, outcomes, false);
    FourMore(s, [Trigger(w, false)] + Works(w, outcomes), Work(w, true));
    PublishAll(s, w, CountOf(outcomes, true), CountOf(outcomes, false));
  }

  lemma IdleIsClean(s: Pool, w: nat)
    requires Inv(s) && w < |s.workers| && s.workers[w].phase.Idle?
    ensures Shaped(s) && s.workers[w].next == s.workers[w].ok == s.workers[w].bad == 0
  {
    assert WorkerOk(s.workers[w], s.config.batchSize);
  }

  /** The same move four times. */
  function Fourfold(s: Pool, m: Move): Pool
    requires Shaped(s)
  {
    NextShaped(s, m);
    NextShaped(Next(s, m), m);
    NextShaped(Next(Next(s, m), m), m);
    Next(Next(Next(Next(s, m), m), m), m)
  }

  lemma FourMore(s: Pool, moves: seq<Move>, m: Move)
    requires Shaped(s)
    ensures Continue(s, moves + [m] + [m] + [m] + [m]) == Fourfold(Continue(s, moves), m)
  {
    hide Next, Continue;
    ContinueThen(s, moves, m);
    ContinueThen(s, moves + [m], m);
    ContinueThen(s, moves + [m] + [m], m);
    ContinueThen(s, moves + [m] + [m] + [m], m);
  }

  lemma PublishAll(s: Pool, w: nat, ok: nat, bad: nat)
    requires Shaped(s) && w < |s.workers|
    ensures Shaped(Publishing(s, w, Processing(false), ok, bad, s.completedTasks, s.failedTasks))
    ensures Fourfold(Publishing(s, w, Processing(false), ok, bad, s.completedTasks, s.failedTasks), Work(w, true))
         == Processed(s, w, s.completedTasks + ok, s.failedTasks + bad)
  {
    assert Shaped(Publishing(s, w, Processing(false), ok, bad, s.completedTasks, s.failedTasks));
    hide Next, Publishing, Processed;
    PublishSteps(s, w, false, ok, bad, s.completedTasks, s.failedTasks);
    PublishSteps(s, w, false, 0, bad, s.completedTasks + ok, s.failedTasks);
    ClearStep(s, w, s.completedTasks + ok, s.failedTasks + bad);
  }

  /** After Stop a waiting worker executes its open batch once more, publishes the outcomes and returns. */
  lemma WorkerLeaves(s: Pool, w: nat, outcomes: seq<bool>)
    requires Inv(s) && w < |s.workers| && s.workers[w].phase.Idle? && s.workers[w].batch != [] && s.cancelled
    requires |outcomes| == |s.workers[w].batch|
    ensures Continue(s, [Trigger(w, true)] + Works(w, outcomes) + [Work(w, true)] + [Work(w, true)] + [Work(w, true)])
         == Publishing(s, w, Exited, 0, 0, s.completedTasks + CountOf(outcomes, true),
                       s.failedTasks + CountOf(outcomes, false))
  {
    hide Next, Inv, Continue, Publishing, Partly, Works, CountOf, Trigger;
    IdleIsClean(s, w);
    ExecuteAll(s, w, outcomes, true);
    AllExecuted(s, w, outcomes, true);
    var ok, bad, moves := CountOf(outcomes, true), CountOf(outcomes, false), [Trigger(w, true)] + Works(w, outcomes);
    PublishSteps(s, w, true, ok, bad, s.completedTasks, s.failedTasks);
    PublishSteps(s, w, true, 0, bad, s.completedTasks + ok, s.failedTasks);
    ContinueThen(s, moves, Work(w, true));
    ContinueThen(s, moves + [Work(w, true)], Work(w, true));
    ContinueThen(s, moves + [Work(w, true)] + [Work(w, true)], Work(w, true));
  }

  // ----- First come, first served -----

  /** The tasks of a worker in the order in which it will execute them. */
  function LineOf(g: Worker, queue: seq<nat>): seq<nat> {
    (if g.next <= |g.batch| then g.batch[g.next..] else []) + (if g.phase.Holding? then [g.phase.task] else []) + queue
  }

  function Line(s: Pool, w: nat): seq<nat>
    requires w < |s.workers| && w < |s.queues|
  {
    LineOf(s.workers[w], s.queues[w])
  }

  /** From one state to the next a line stays as it is, gets a task at its end, or loses its first task, which
      is executed. */
  ghost predicate LineMoves(s: Pool, t: Pool, w: nat)
    requires w < |s.workers| && w < |s.queues| && w < |t.workers| && w < |t.queues|
  {
    || Line(t, w) == Line(s, w)
    || (exists x :: Line(t, w) == Line(s, w) + [x])
    || (Line(s, w) != [] && Line(t, w) == Line(s, w)[1..] && t.ran == s.ran + [Line(s, w)[0]])
  }

  lemma SendLine(s: Pool, v: nat, task: nat, meets: bool, w: nat)
    requires |s.workers| == |s.queues| && v < |s.queues| && w < |s.queues| && Room(s, v, meets)
    ensures Line(Send(s, v, task), w) == if w == v then Line(s, w) + [task] else Line(s, w)
  {
    if w == v {
      var g := s.workers[w];
      if |s.queues[w]| >= s.config.workerCap {
        assert s.queues[w] == [];
      }
    }
  }

  lemma AdvanceLine(s: Pool, c: nat, v: nat, timeout: bool, w: nat)
    requires Shaped(s) && c < |s.calls| && v < |s.queues| && w < |s.queues|
    ensures LineMoves(s, AdvanceCall(s, c, v, timeout), w)
  {
    hide Send, Room, LineOf;
    var stage := s.calls[c].stage;
    if stage.Forcing? && !timeout && stage.worker < |s.queues| && Room(s, stage.worker, true) {
      SendLine(s, stage.worker, c, true, w);
      SendFrame(s, stage.worker, c);
    }
  }

  lemma DispatchLine(s: Pool, v: nat, meets: bool, w: nat)
    requires Shaped(s) && v < |s.queues| && w < |s.queues|
    ensures LineMoves(s, DispatcherMove(s, v, meets), w)
  {
    hide Send, Room, LineOf;
    var d := s.dispatching;
    if d.Sending? && d.worker < |s.queues| && Room(s, d.worker, meets) {
      SendLine(s, d.worker, d.task, meets, w);
      SendFrame(s, d.worker, d.task);
    } else if d.Alternatives? && d.next < |s.queues| && d.next != d.exclude && Room(s, d.next, meets) {
      SendLine(s, d.next, d.task, meets, w);
      SendFrame(s, d.next, d.task);
    }
  }

  /** A worker's own move on its line: an execution takes its first task, anything else leaves it. */
  ghost predicate LineStep(s: Pool, t: Pool, w: nat, success: bool)
    requires w < |s.workers| && w < |s.queues| && w < |t.workers| && w < |t.queues|
  {
    if Executes(s, Work(w, success))
    then Line(s, w) != [] && Line(t, w) == Line(s, w)[1..] && t.ran == s.ran + [Line(s, w)[0]]
    else Line(t, w) == Line(s, w)
  }

  lemma RunLine(s: Pool, w: nat, success: bool)
    requires |s.workers| == |s.queues| && w < |s.queues| && s.workers[w].phase.Processing?
    requires s.workers[w].next <= |s.workers[w].batch|
    ensures LineStep(s, WorkerMove(s, w, success), w, success)
  {
    var g := s.workers[w];
    if g.next < |g.batch| {
      assert g.batch[g.next..] == [g.batch[g.next]] + g.batch[g.next + 1..];
      assert Line(s, w) == [g.batch[g.next]] + (g.batch[g.next + 1..] + s.queues[w]);
    }
  }

  lemma TakeLine(s: Pool, w: nat, success: bool)
    requires |s.workers| == |s.queues| && w < |s.queues| && s.workers[w].phase.Idle?
    requires s.workers[w].next == 0
    ensures LineStep(s, WorkerMove(s, w, success), w, success)
  {
    var q := s.queues[w];
    assert q != [] ==> [q[0]] + q[1..] == q;
  }

  lemma BatchLine(s: Pool, w: nat, success: bool)
    requires |s.workers| == |s.queues| && w < |s.queues| && s.workers[w].phase.Holding? && s.workers[w].next == 0
    ensures LineStep(s, WorkerMove(s, w, success), w, success)
  {
    var g := s.workers[w];
    assert (g.batch + [g.phase.task])[0..] == g.batch[0..] + [g.phase.task];
  }

  lemma RestLine(s: Pool, w: nat, success: bool)
    requires |s.workers| == |s.queues| && w < |s.queues| && WorkerOk(s.workers[w], s.config.batchSize)
    requires !s.workers[w].phase.Processing? && !s.workers[w].phase.Idle? && !s.workers[w].phase.Holding?
    ensures LineStep(s, WorkerMove(s, w, success), w, success)
  {
  }

  lemma OwnLine(s: Pool, w: nat, success: bool)
    requires |s.workers| == |s.queues| && w < |s.queues| && WorkerOk(s.workers[w], s.config.batchSize)
    ensures LineStep(s, WorkerMove(s, w, success), w, success)
  {
    hide WorkerMove, LineStep;
    match s.workers[w].phase
    case Idle => TakeLine(s, w, success);
    case Holding(_) => BatchLine(s, w, success);
    case Processing(_) => RunLine(s, w, success);
    case _ => RestLine(s, w, success);
  }

  lemma WorkLine(s: Pool, v: nat, success: bool, w: nat)
    requires Inv(s) && v < |s.queues| && w < |s.queues|
    ensures LineMoves(s, WorkerMove(s, v, success), w)
  {
    assert WorkerOk(s.workers[v], s.config.batchSize);
    hide Inv, WorkerMove, LineOf, Executes;
    OneWorkerFrame(s, v, success);
    if v == w {
      OwnLine(s, w, success);
    }
  }

  /** Every worker executes its tasks in the order in which they were handed to it. */
  lemma FirstComeFirstServed(c: Config, moves: seq<Move>, m: Move, w: nat)
    requires c.batchSize > 0 && w < c.workers
    ensures LineMoves(Run(c, moves), Next(Run(c, moves), m), w)
  {
    RunInv(c, moves, One());
    hide Run, Places, Submitted, AdvanceCall, DispatcherMove, WorkerMove, CountersOk, WithinCapacity;
    var s := Run(c, moves);
    NextShaped(s, m);
    match m
    case Advance(k, v, timeout) =>
      if k < |s.calls| && v < |s.queues| {
        AdvanceLine(s, k, v, timeout, w);
      }
    case Dispatch(v, meets) =>
      if v < |s.queues| {
        DispatchLine(s, v, meets, w);
      }
    case Work(v, success) =>
      if v < |s.queues| {
        WorkLine(s, v, success, w);
      }
    case _ =>
  }

  /** The dispatcher queue likewise: it stays, gets a task at its end, or loses its first task to the
      dispatcher. */
  lemma DispatcherInOrder(s: Pool, m: Move)
    requires Shaped(s)
    ensures
      var t := Next(s, m);
      || t.dispatcher == s.dispatcher
      || (m.Advance? && t.dispatcher == s.dispatcher + [m.call])
      || (s.dispatcher != [] && t.dispatcher == s.dispatcher[1..]
          && t.dispatching.Sending? && t.dispatching.task == s.dispatcher[0])
  {
    hide Room, WorkerMove, TimerMove, ExitMove;
    if m.Work? && m.worker < |s.queues| {
      OneWorkerFrame(s, m.worker, m.success);
    } else if m.BatchTimer? || m.ExitWorker? {
      TimersFrame(s, m.worker);
    }
  }

  lemma TimersFrame(s: Pool, w: nat)
    ensures w < |s.workers| ==> TimerMove(s, w).dispatcher == s.dispatcher && ExitMove(s, w).dispatcher == s.dispatcher
  {
  }

  // ----- A task is dropped only when no worker had room -----

  /** Move number `k` tried to hand the task to worker `i` and found no room. */
  predicate TriedAt(c: Config, moves: seq<Move>, k: nat, task: nat, i: nat)
    requires c.batchSize > 0 && k < |moves| && i < c.workers
  {
    var s, d := Run(c, moves[..k]), Run(c, moves[..k]).dispatching;
    && moves[k].Dispatch? && !Room(s, i, moves[k].meets)
    && (d == Sending(task, i) || (d.Alternatives? && d.task == task && d.next == i))
  }

  ghost predicate Tried(c: Config, moves: seq<Move>, task: nat, i: nat)
    requires c.batchSize > 0 && i < c.workers
  {
    exists k :: 0 <= k < |moves| && TriedAt(c, moves, k, task, i)
  }

  lemma TriedBefore(c: Config, moves: seq<Move>, m: Move, task: nat, i: nat)
    requires c.batchSize > 0 && i < c.workers && Tried(c, moves, task, i)
    ensures Tried(c, moves + [m], task, i)
  {
    hide Run, Room;
    var k :| 0 <= k < |moves| && TriedAt(c, moves, k, task, i);
    assert (moves + [m])[..k] == moves[..k];
    assert TriedAt(c, moves + [m], k, task, i);
  }

  lemma TriedNow(c: Config, moves: seq<Move>, m: Move, task: nat, i: nat)
    requires c.batchSize > 0 && i < c.workers && m.Dispatch? && !Room(Run(c, moves), i, m.meets)
    requires
      var d := Run(c, moves).dispatching;
      d == Sending(task, i) || (d.Alternatives? && d.task == task && d.next == i)
    ensures Tried(c, moves + [m], task, i)
  {
    hide Run, Room;
    assert (moves + [m])[..|moves|] == moves;
    assert TriedAt(c, moves + [m], |moves|, task, i);
  }

  /** All workers below `n`, and worker `exclude`, were tried in vain. */
  ghost predicate TriedAll(c: Config, moves: seq<Move>, task: nat, n: nat, exclude: nat)
    requires c.batchSize > 0
  {
    forall i | 0 <= i < c.workers && (i < n || i == exclude) :: Tried(c, moves, task, i)
  }

  ghost predicate DropsOk(c: Config, moves: seq<Move>)
    requires c.batchSize > 0
  {
    var s := Run(c, moves);
    && (match s.dispatching
        case Sending(_, b) => b < c.workers
        case Alternatives(task, exclude, n) => TriedAll(c, moves, task, n, exclude)
        case Dropping(task) => TriedAll(c, moves, task, c.workers, 0)
        case _ => true)
    && forall task | task in s.dropped :: TriedAll(c, moves, task, c.workers, 0)
  }

  /** Only dispatcher moves concern the dispatcher's hand and the drops. */
  lemma HandFrame(s: Pool, m: Move)
    requires Shaped(s) && !m.Dispatch?
    ensures Next(s, m).dropped == s.dropped
    ensures Next(s, m).dispatching == s.dispatching || Next(s, m).dispatching.Stopped?
  {
    hide Room;
  }

  lemma TriedAllBefore(c: Config, moves: seq<Move>, m: Move, task: nat, n: nat, exclude: nat)
    requires c.batchSize > 0 && TriedAll(c, moves, task, n, exclude)
    ensures TriedAll(c, moves + [m], task, n, exclude)
  {
    hide Tried;
    forall i | 0 <= i < c.workers && (i < n || i == exclude)
      ensures Tried(c, moves + [m], task, i)
    {
      TriedBefore(c, moves, m, task, i);
    }
  }

  lemma DispatchDrops(c: Config, moves: seq<Move>, w: nat, meets: bool)
    requires c.batchSize > 0 && w < c.workers && DropsOk(c, moves)
    ensures
      var s, t, all := Run(c, moves), DispatcherMove(Run(c, moves), w, meets), moves + [Dispatch(w, meets)];
      && (match t.dispatching
          case Sending(_, b) => b < c.workers
          case Alternatives(task, exclude, n) => TriedAll(c, all, task, n, exclude)
          case Dropping(task) => TriedAll(c, all, task, c.workers, 0)
          case _ => true)
      && (forall task | task in t.dropped ::
            task in s.dropped || (s.dispatching.Dropping? && s.dispatching.task == task))
  {
    hide Run, Room, Send, Tried;
    var s, m := Run(c, moves), Dispatch(w, meets);
    match s.dispatching
    case Sending(task, b) =>
      if Room(s, b, meets) {
        SendFrame(s, b, task);
      } else {
        TriedNow(c, moves, m, task, b);
      }
    case Alternatives(task, exclude, n) =>
      TriedAllBefore(c, moves, m, task, n, exclude);
      if n < c.workers && n != exclude {
        if Room(s, n, meets) {
          SendFrame(s, n, task);
        } else {
          TriedNow(c, moves, m, task, n);
        }
      }
    case _ =>
  }

  lemma {:induction false} DropsAreLastResort(c: Config, moves: seq<Move>)
    requires c.batchSize > 0
    ensures DropsOk(c, moves)
  {
    hide Next, TriedAll, DispatcherMove;
    if moves != [] {
      var n := |moves| - 1;
      var front, s, m := moves[..n], Run(c, moves[..n]), moves[n];
      assert front + [m] == moves;
      DropsAreLastResort(c, front);
      forall task | task in s.dropped
        ensures TriedAll(c, moves, task, c.workers, 0)
      {
        TriedAllBefore(c, front, m, task, c.workers, 0);
      }
      HandCarried(c, front, m);
    }
  }

  lemma HandCarried(c: Config, moves: seq<Move>, m: Move)
    requires c.batchSize > 0 && DropsOk(c, moves)
    ensures
      var s, t, all := Run(c, moves), Next(Run(c, moves), m), moves + [m];
      && (match t.dispatching
          case Sending(_, b) => b < c.workers
          case Alternatives(task, exclude, n) => TriedAll(c, all, task, n, exclude)
          case Dropping(task) => TriedAll(c, all, task, c.workers, 0)
          case _ => true)
      && (forall task | task in t.dropped :: task in s.dropped || TriedAll(c, all, task, c.workers, 0))
  {
    hide Run, TriedAll, DispatcherMove, AdvanceCall, WorkerMove, TimerMove, ExitMove;
    var s, d := Run(c, moves), Run(c, moves).dispatching;
    if d.Alternatives? {
      TriedAllBefore(c, moves, m, d.task, d.next, d.exclude);
    } else if d.Dropping? {
      TriedAllBefore(c, moves, m, d.task, c.workers, 0);
    }
    if m.Dispatch? && m.worker < c.workers {
      DispatchDrops(c, moves, m.worker, m.meets);
    } else if !m.Dispatch? {
      HandFrame(s, m);
    }
  }

  /** In every run a task was dropped only after the hand-over to every worker had failed for lack of room. */
  lemma DroppedAfterTryingAll(c: Config, moves: seq<Move>, task: nat, i: nat)
    requires c.batchSize > 0 && task in Run(c, moves).dropped && i < c.workers
    ensures Tried(c, moves, task, i)
  {
    hide Run;
    DropsAreLastResort(c, moves);
    assert TriedAll(c, moves, task, c.workers, 0);
  }

  // ----- Priorities -----

  /** At some point of the run call `k` was trying to force its task in. */
  ghost predicate ForcedOnce(c: Config, moves: seq<Move>, k: nat)
    requires c.batchSize > 0
  {
    exists n :: 0 <= n <= |moves| && ForcingAt(c, moves, n, k)
  }

  predicate ForcingAt(c: Config, moves: seq<Move>, n: nat, k: nat)
    requires c.batchSize > 0 && n <= |moves|
  {
    k < |Run(c, moves[..n]).calls| && Run(c, moves[..n]).calls[k].stage.Forcing?
  }

  lemma ForcedBefore(c: Config, moves: seq<Move>, m: Move, k: nat)
    requires c.batchSize > 0 && ForcedOnce(c, moves, k)
    ensures ForcedOnce(c, moves + [m], k)
  {
    hide Run;
    var n :| 0 <= n <= |moves| && ForcingAt(c, moves, n, k);
    assert (moves + [m])[..n] == moves[..n];
    assert ForcingAt(c, moves + [m], n, k);
  }

  /** How the stage of a call may change in one move. */
  lemma StageStep(s: Pool, m: Move, k: nat)
    requires Shaped(s) && k < |s.calls|
    ensures
      var t := Next(s, m);
      && k < |t.calls| && t.calls[k].high == s.calls[k].high
      && var a, b := s.calls[k].stage, t.calls[k].stage;
         && (b.Forcing? ==> a.Forcing? || (a.Waiting? && s.calls[k].high))
         && (b.Refusing? ==> a.Refusing? || a.Forcing? || (a.Waiting? && !s.calls[k].high))
         && (b.Refused? ==> a.Refused? || a.Refusing?)
  {
    hide Room, DispatcherMove, WorkerMove, TimerMove, ExitMove;
    if m.Advance? && m.call < |s.calls| && m.worker < |s.queues| {
      AdvanceStage(s, m.call, m.worker, m.timeout, k);
    } else if !m.Advance? {
      CallsFrame(s, m);
    }
  }

  lemma AdvanceStage(s: Pool, c: nat, w: nat, timeout: bool, k: nat)
    requires Shaped(s) && c < |s.calls| && w < |s.queues| && k < |s.calls|
    ensures
      var t := AdvanceCall(s, c, w, timeout);
      && |t.calls| == |s.calls| && t.calls[k].high == s.calls[k].high
      && var a, b := s.calls[k].stage, t.calls[k].stage;
         && (b.Forcing? ==> a.Forcing? || (a.Waiting? && s.calls[k].high))
         && (b.Refusing? ==> a.Refusing? || a.Forcing? || (a.Waiting? && !s.calls[k].high))
         && (b.Refused? ==> a.Refused? || a.Refusing?)
  {
    hide Room, Send;
    var stage := s.calls[c].stage;
    if stage.Forcing? && stage.worker < |s.queues| {
      SendFrame(s, stage.worker, c);
    }
  }

  lemma CallsFrame(s: Pool, m: Move)
    requires Shaped(s) && !m.Advance?
    ensures |Next(s, m).calls| >= |s.calls| && Next(s, m).calls[..|s.calls|] == s.calls
    ensures forall k | |s.calls| <= k < |Next(s, m).calls| :: Next(s, m).calls[k].stage.Trying?
  {
    hide Room;
    assert s.calls[..|s.calls|] == s.calls;
  }

  /** In every run only high-priority tasks are forced into a worker queue, and a high-priority task is refused
      only after that was tried. */
  lemma {:induction false} PrioritiesRespected(c: Config, moves: seq<Move>, k: nat)
    requires c.batchSize > 0 && k < |Run(c, moves).calls|
    ensures
      var call := Run(c, moves).calls[k];
      && (call.stage.Forcing? ==> call.high)
      && (call.high && (call.stage.Refusing? || call.stage.Refused?) ==> ForcedOnce(c, moves, k))
  {
    hide Next, ForcedOnce;
    if moves != [] {
      var n := |moves| - 1;
      var front, s, m := moves[..n], Run(c, moves[..n]), moves[n];
      assert front + [m] == moves;
      if k < |s.calls| {
        PrioritiesRespected(c, front, k);
        StageStep(s, m, k);
        if s.calls[k].stage.Forcing? {
          ForcedHere(c, front, k);
        }
        if ForcedOnce(c, front, k) {
          ForcedBefore(c, front, m, k);
        }
      } else {
        NewCallTries(s, m, k);
      }
    }
  }

  lemma ForcedHere(c: Config, moves: seq<Move>, k: nat)
    requires c.batchSize > 0 && k < |Run(c, moves).calls| && Run(c, moves).calls[k].stage.Forcing?
    ensures ForcedOnce(c, moves, k)
  {
    hide Run;
    assert moves[..|moves|] == moves;
    assert ForcingAt(c, moves, |moves|, k);
  }

  lemma NewCallTries(s: Pool, m: Move, k: nat)
    requires Shaped(s) && |s.calls| <= k < |Next(s, m).calls|
    ensures Next(s, m).calls[k].stage.Trying?
  {
    hide Room, Send;
    if m.Advance? && m.call < |s.calls| && m.worker < |s.queues| {
      AdvanceStage(s, m.call, m.worker, m.timeout, m.call);
    } else if !m.Advance? {
      CallsFrame(s, m);
    }
  }

  /** A waiting high-priority task whose wait times out goes to the chosen worker if that has room. */
  lemma ForcedIn(s: Pool, k: nat, w: nat)
    requires Shaped(s) && k < |s.calls| && s.calls[k].high && s.calls[k].stage.Waiting? && w < |s.queues|
    requires Room(s, w, true)
    ensures
      var t := Next(Next(s, Advance(k, w, true)), Advance(k, w, false));
      k < |t.calls| && t.calls[k].stage.Counting? && Line(t, w) == Line(s, w) + [k]
  {
    var u := Next(s, Advance(k, w, true));
    assert u == s.(calls := s.calls[k := Call(true, Forcing(w))]);
    SendLine(u, w, k, true, w);
    assert Line(u, w) == Line(s, w);
  }

  /** A task is taken in as soon as the dispatcher queue has room, at once or while its call waits, and is then
      counted; without room the call waits. */
  lemma TakenIn(s: Pool, k: nat, w: nat)
    requires Shaped(s) && k < |s.calls| && (s.calls[k].stage.Trying? || s.calls[k].stage.Waiting?) && w < |s.queues|
    ensures
      var t := Next(s, Advance(k, w, false));
      && k < |t.calls| && t.workers == s.workers && t.queues == s.queues && t.totalTasks == s.totalTasks
      && (if |s.dispatcher| < s.config.queueCap
          then t.calls[k].stage.Counting? && t.dispatcher == s.dispatcher + [k]
          else t.calls[k].stage.Waiting? && t.dispatcher == s.dispatcher)
  {
  }

  /** A task that was taken in is counted; a forced one that finds no room in time is refused and counted as
      failed. */
  lemma CountedOrRefused(s: Pool, k: nat, w: nat)
    requires Shaped(s) && k < |s.calls| && w < |s.queues|
    ensures s.calls[k].stage.Counting? ==>
      var t := Next(s, Advance(k, w, false));
      k < |t.calls| && t.calls[k].stage.Accepted? && t.totalTasks == s.totalTasks + 1
    ensures s.calls[k].stage.Forcing? ==>
      var t := Next(Next(s, Advance(k, w, true)), Advance(k, w, false));
      k < |t.calls| && t.calls[k].stage.Refused? && t.failedTasks == s.failedTasks + 1
  {
    hide Room;
  }

  // ----- Until Stop -----

  /** Nobody stops unless told to. */
  predicate StopsOk(s: Pool) {
    && (s.cancelled ==> s.stopClosed) && (s.dispatching.Stopped? ==> s.stopClosed)
    && forall w | 0 <= w < |s.workers| && Leaving(s.workers[w].phase) :: s.cancelled
  }

  /** The worker has returned or is about to. */
  predicate Leaving(phase: WorkerPhase) {
    match phase
    case Processing(stopping) => stopping
    case FlushingCompleted(stopping) => stopping
    case FlushingFailed(stopping) => stopping
    case Exited => true
    case _ => false
  }

  lemma OneWorkerLeaves(s: Pool, w: nat, success: bool)
    requires |s.workers| == |s.queues| && w < |s.queues|
    ensures
      var t := WorkerMove(s, w, success);
      && t.cancelled == s.cancelled && t.stopClosed == s.stopClosed && t.dispatching == s.dispatching
      && (Leaving(t.workers[w].phase) ==> Leaving(s.workers[w].phase))
  {
  }

  lemma StopsStep(s: Pool, m: Move)
    requires Shaped(s) && StopsOk(s)
    ensures StopsOk(Next(s, m)) && (Next(s, m).stopClosed ==> s.stopClosed || m.CloseStop?)
  {
    hide Room;
    match m
    case Work(w, success) =>
      hide WorkerMove, Leaving;
      if w < |s.queues| {
        OneWorkerLeaves(s, w, success);
        OneWorkerFrame(s, w, success);
      }
    case Advance(c, w, timeout) =>
      hide Leaving;
      if c < |s.calls| && w < |s.queues| {
        AdvanceStops(s, c, w, timeout);
      }
    case Dispatch(w, meets) =>
      hide Leaving;
      if w < |s.queues| {
        DispatchStops(s, w, meets);
      }
    case _ =>
  }

  lemma SendStops(s: Pool, w: nat, task: nat)
    requires w < |s.queues| && |s.workers| == |s.queues| && StopsOk(s)
    ensures StopsOk(Send(s, w, task))
  {
  }

  lemma AdvanceStops(s: Pool, c: nat, w: nat, timeout: bool)
    requires Shaped(s) && StopsOk(s) && c < |s.calls| && w < |s.queues|
    ensures StopsOk(AdvanceCall(s, c, w, timeout)) && AdvanceCall(s, c, w, timeout).stopClosed == s.stopClosed
  {
    hide Room, Send, Leaving;
    var stage := s.calls[c].stage;
    if stage.Forcing? && stage.worker < |s.queues| {
      SendFrame(s, stage.worker, c);
      SendStops(s, stage.worker, c);
    }
  }

  lemma DispatchStops(s: Pool, w: nat, meets: bool)
    requires Shaped(s) && StopsOk(s) && w < |s.queues|
    ensures StopsOk(DispatcherMove(s, w, meets)) && DispatcherMove(s, w, meets).stopClosed == s.stopClosed
  {
    hide Room, Send, Leaving;
    var d := s.dispatching;
    if d.Sending? && d.worker < |s.queues| {
      SendFrame(s, d.worker, d.task);
      SendStops(s, d.worker, d.task);
    } else if d.Alternatives? && d.next < |s.queues| {
      SendFrame(s, d.next, d.task);
      SendStops(s, d.next, d.task);
    }
  }

  /** As long as Stop has not been called the dispatcher and all workers go on. */
  lemma {:induction false} RunningUntilStop(c: Config, moves: seq<Move>)
    requires c.batchSize > 0
    ensures StopsOk(Run(c, moves))
    ensures CloseStop !in moves ==>
      var s := Run(c, moves);
      !s.dispatching.Stopped? && forall w | 0 <= w < |s.workers| :: !s.workers[w].phase.Exited?
  {
    StopOnly(c, moves);
  }

  lemma {:induction false} StopOnly(c: Config, moves: seq<Move>)
    requires c.batchSize > 0
    ensures StopsOk(Run(c, moves)) && (Run(c, moves).stopClosed ==> CloseStop in moves)
  {
    if moves != [] {
      hide Next, StopsOk;
      var n := |moves| - 1;
      StopOnly(c, moves[..n]);
      StopsStep(Run(c, moves[..n]), moves[n]);
      assert CloseStop in moves[..n] ==> CloseStop in moves;
      assert moves[n] in moves;
    }
  }
}
