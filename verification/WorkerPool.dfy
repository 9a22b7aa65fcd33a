/** The worker pool as a transition system: submitters, dispatcher, workers, batch timers and Stop
    interleave freely, each moving by one channel operation or one atomic counter update at a time. */
module WorkerPool {

  datatype Config = Config(workers: nat, queueCap: nat, workerCap: nat, batchSize: nat)

  /** An equal share of `q` for each of `n`, rounded down. */
  function Share(q: nat, n: nat): (r: nat)
    requires n > 0
    ensures n * r <= q < n * (r + 1)
  {
    assert q == n * (q / n) + q % n;
    q / n
  }

  /** Defaults and derived sizes; `cpus` is what the runtime reports. */
  function Configure(numWorkers: int, queueSize: int, batchSize: int, cpus: nat): (c: Config)
    requires cpus > 0
    ensures c.workers > 0 && c.queueCap > 0 && c.batchSize > 0
    ensures c.workers * c.workerCap <= c.queueCap < c.workers * (c.workerCap + 1)
    ensures c.workers == (if numWorkers > 0 then numWorkers else 2 * cpus)
    ensures c.queueCap == (if queueSize > 0 then queueSize else 1000)
    ensures c.batchSize == (if batchSize > 0 then batchSize else 10)
  {
    var n := if numWorkers <= 0 then cpus * 2 else numWorkers;
    var q := if queueSize <= 0 then 1000 else queueSize;
    Config(n, q, Share(q, n), if batchSize <= 0 then 10 else batchSize)
  }

  /** The stages of one SubmitTask call. */
  datatype Stage = Trying | Waiting | Forcing(worker: nat) | Counting | Refusing | Accepted | Refused

  /** Call number `c` submits task number `c`; `high` tells whether its rule is a high-priority one. */
  datatype Call = Call(high: bool, stage: Stage)

  datatype DispatcherPhase =
    | Selecting
    | Sending(task: nat, worker: nat)
    | Alternatives(task: nat, exclude: nat, next: nat)
    | Dropping(task: nat)
    | Stopped

  datatype WorkerPhase =
    | Idle
    | Holding(task: nat)
    | Processing(stopping: bool)
    | FlushingCompleted(stopping: bool)
    | FlushingFailed(stopping: bool)
    | Clearing
    | Exited

  /** A worker goroutine: its batch, how much of it has run, local outcome counts, and its busy cell. */
  datatype Worker = Worker(phase: WorkerPhase, batch: seq<nat>, next: nat, ok: nat, bad: nat, busy: int)

  datatype Pool = Pool(config: Config, calls: seq<Call>, dispatcher: seq<nat>, dispatching: DispatcherPhase,
                       queues: seq<seq<nat>>, workers: seq<Worker>,
                       totalTasks: int, completedTasks: int, failedTasks: int,
                       ran: seq<nat>, dropped: seq<nat>, stopClosed: bool, cancelled: bool)

  const FRESH_WORKER := Worker(Idle, [], 0, 0, 0, 0)

  function Init(c: Config): Pool {
    Pool(c, [], [], Selecting, seq(c.workers, _ => []), seq(c.workers, _ => FRESH_WORKER),
         0, 0, 0, [], [], false, false)
  }

  /** One move. `worker` is the outcome of a worker selection, `timeout` whether a waiting submitter gives
      up, `meets` whether an idle worker has reached its receive, `success` the result of running a task; all
      are free, as are the moments timers fire. */
  datatype Move =
    | Submit(high: bool)
    | Advance(call: nat, worker: nat, timeout: bool)
    | Dispatch(worker: nat, meets: bool)
    | StopDispatcher
    | Work(worker: nat, success: bool)
    | BatchTimer(worker: nat)
    | ExitWorker(worker: nat)
    | CloseStop
    | Cancel

  /** A send to a worker's channel can proceed: there is buffer space, or (`meets`) the worker has reached its
      receive (the only way through when the buffer has no capacity). */
  predicate Room(s: Pool, w: nat, meets: bool)
    requires w < |s.queues| && |s.workers| == |s.queues|
  {
    |s.queues[w]| < s.config.workerCap || (meets && s.queues[w] == [] && s.workers[w].phase.Idle?)
  }

  function Send(s: Pool, w: nat, task: nat): (r: Pool)
    requires w < |s.queues| && |s.workers| == |s.queues|
    ensures r.config == s.config && |r.queues| == |s.queues| && |r.workers| == |s.workers|
  {
    if |s.queues[w]| < s.config.workerCap then s.(queues := s.queues[w := s.queues[w] + [task]])
    else s.(workers := s.workers[w := s.workers[w].(phase := Holding(task))])
  }

  function SetStage(s: Pool, c: nat, stage: Stage): (r: Pool)
    requires c < |s.calls|
    ensures r.config == s.config && |r.queues| == |s.queues| && |r.workers| == |s.workers|
  {
    s.(calls := s.calls[c := s.calls[c].(stage := stage)])
  }

  /** SubmitTask, handleBackpressure and forceSubmitHighPriorityTask. */
  function AdvanceCall(s: Pool, c: nat, w: nat, timeout: bool): (r: Pool)
    requires c < |s.calls| && |s.workers| == |s.queues| && w < |s.queues|
    ensures r.config == s.config && |r.queues| == |s.queues| && |r.workers| == |s.workers|
  {
    match s.calls[c].stage
    case Trying =>
      if |s.dispatcher| < s.config.queueCap then SetStage(s.(dispatcher := s.dispatcher + [c]), c, Counting)
      else SetStage(s, c, Waiting)
    case Waiting =>
      if timeout then SetStage(s, c, if s.calls[c].high then Forcing(w) else Refusing)
      else if |s.dispatcher| < s.config.queueCap then SetStage(s.(dispatcher := s.dispatcher + [c]), c, Counting)
      else s
    case Forcing(b) =>
      if timeout then SetStage(s, c, Refusing)
      else if b < |s.queues| && Room(s, b, true) then SetStage(Send(s, b, c), c, Counting)
      else s
    case Counting => SetStage(s.(totalTasks := s.totalTasks + 1), c, Accepted)
    case Refusing => SetStage(s.(failedTasks := s.failedTasks + 1), c, Refused)
    case Accepted => s
    case Refused => s
  }

  /** dispatcherWorker and tryAlternativeWorkers. */
  function DispatcherMove(s: Pool, w: nat, meets: bool): (r: Pool)
    requires |s.workers| == |s.queues| && w < |s.queues|
    ensures r.config == s.config && |r.queues| == |s.queues| && |r.workers| == |s.workers|
  {
    match s.dispatching
    case Selecting =>
      if s.dispatcher == [] then s
      else s.(dispatcher := s.dispatcher[1..], dispatching := Sending(s.dispatcher[0], w))
    case Sending(task, b) =>
      if b < |s.queues| && Room(s, b, meets) then Send(s, b, task).(dispatching := Selecting)
      else s.(dispatching := Alternatives(task, b, 0))
    case Alternatives(task, exclude, i) =>
      if i >= |s.queues| then s.(dispatching := Dropping(task))
      else if i != exclude && Room(s, i, meets) then Send(s, i, task).(dispatching := Selecting)
      else s.(dispatching := Alternatives(task, exclude, i + 1))
    case Dropping(task) =>
      s.(failedTasks := s.failedTasks + 1, dropped := s.dropped + [task], dispatching := Selecting)
    case Stopped => s
  }

  function SetWorker(s: Pool, w: nat, g: Worker): (r: Pool)
    requires w < |s.workers|
    ensures r.config == s.config && |r.queues| == |s.queues| && |r.workers| == |s.workers|
  {
    s.(workers := s.workers[w := g])
  }

  /** The worker loop and processBatch. */
  function WorkerMove(s: Pool, w: nat, success: bool): (r: Pool)
    requires |s.workers| == |s.queues| && w < |s.queues|
    ensures r.config == s.config && |r.queues| == |s.queues| && |r.workers| == |s.workers|
  {
    var g := s.workers[w];
    match g.phase
    case Idle =>
      if s.queues[w] == [] then s
      else SetWorker(s.(queues := s.queues[w := s.queues[w][1..]]), w, g.(phase := Holding(s.queues[w][0])))
    case Holding(task) =>
      SetWorker(s, w, g.(busy := g.busy + 1, batch := g.batch + [task],
                         phase := if |g.batch| + 1 >= s.config.batchSize then Processing(false) else Idle))
    case Processing(stopping) =>
      if g.next < |g.batch| then
        SetWorker(s.(ran := s.ran + [g.batch[g.next]]), w,
                  if success then g.(next := g.next + 1, ok := g.ok + 1) else g.(next := g.next + 1, bad := g.bad + 1))
      else SetWorker(s, w, g.(phase := FlushingCompleted(stopping)))
    case FlushingCompleted(stopping) =>
      SetWorker(s.(completedTasks := s.completedTasks + g.ok), w, g.(ok := 0, phase := FlushingFailed(stopping)))
    case FlushingFailed(stopping) =>
      SetWorker(s.(failedTasks := s.failedTasks + g.bad), w,
                g.(bad := 0, phase := if stopping then Exited else Clearing))
    case Clearing => SetWorker(s, w, g.(batch := [], next := 0, busy := 0, phase := Idle))
    case Exited => s
  }

  /** The batch timer starts processing a non-empty batch; cancellation does too, for the last time. */
  function TimerMove(s: Pool, w: nat): (r: Pool)
    requires w < |s.workers|
    ensures r.config == s.config && |r.queues| == |s.queues| && |r.workers| == |s.workers|
  {
    var g := s.workers[w];
    if g.phase.Idle? && g.batch != [] then SetWorker(s, w, g.(phase := Processing(false))) else s
  }

  function ExitMove(s: Pool, w: nat): (r: Pool)
    requires w < |s.workers|
    ensures r.config == s.config && |r.queues| == |s.queues| && |r.workers| == |s.workers|
  {
    var g := s.workers[w];
    if g.phase.Idle? && s.cancelled then
      SetWorker(s, w, g.(phase := if g.batch != [] then Processing(true) else Exited))
    else s
  }

  predicate Shaped(s: Pool) {
    |s.queues| == |s.workers| == s.config.workers && s.config.batchSize > 0
  }

  function Next(s: Pool, m: Move): Pool
    requires Shaped(s)
  {
    match m
    case Submit(high) => s.(calls := s.calls + [Call(high, Trying)])
    case Advance(c, w, timeout) =>
      if c < |s.calls| && w < |s.queues| then AdvanceCall(s, c, w, timeout) else s
    case Dispatch(w, meets) => if w < |s.queues| then DispatcherMove(s, w, meets) else s
    case StopDispatcher =>
      if s.dispatching.Selecting? && (s.stopClosed || s.cancelled) then s.(dispatching := Stopped) else s
    case Work(w, success) => if w < |s.queues| then WorkerMove(s, w, success) else s
    case BatchTimer(w) => if w < |s.workers| then TimerMove(s, w) else s
    case ExitWorker(w) => if w < |s.workers| then ExitMove(s, w) else s
    case CloseStop => s.(stopClosed := true)
    case Cancel => s.(cancelled := s.cancelled || s.stopClosed)
  }

  lemma NextShaped(s: Pool, m: Move)
    requires Shaped(s)
    ensures Shaped(Next(s, m)) && Next(s, m).config == s.config
  {
    hide AdvanceCall, DispatcherMove, WorkerMove, TimerMove, ExitMove;
  }

  /** The state after any sequence of moves. */
  function Run(c: Config, moves: seq<Move>): (s: Pool)
    requires c.batchSize > 0
    ensures Shaped(s) && s.config == c
  {
    if moves == [] then Init(c)
    else
      var s := Run(c, moves[..|moves| - 1]);
      NextShaped(s, moves[|moves| - 1]);
      Next(s, moves[|moves| - 1])
  }

  // ----- Where every task is -----
  //
  // A place is measured by the total of a weight over the tasks in it. With the weight that singles
  // out one task this counts its occurrences; with weight one it counts tasks.

  function Weigh(tasks: seq<nat>, f: nat -> int): int {
    if tasks == [] then 0 else Weigh(tasks[..|tasks| - 1], f) + f(tasks[|tasks| - 1])
  }

  lemma WeighAppend(tasks: seq<nat>, task: nat, f: nat -> int)
    ensures Weigh(tasks + [task], f) == Weigh(tasks, f) + f(task)
  {
    assert (tasks + [task])[..|tasks|] == tasks;
  }

  lemma {:induction false} WeighHead(tasks: seq<nat>, f: nat -> int)
    requires tasks != []
    ensures Weigh(tasks, f) == f(tasks[0]) + Weigh(tasks[1..], f)
  {
    var n := |tasks| - 1;
    if n > 0 {
      WeighHead(tasks[..n], f);
      assert tasks[..n][1..] == tasks[1..][..n - 1];
    } else {
      assert tasks[..n] == [] && tasks[1..] == [];
    }
  }

  /** Stages in which the submitting call still has the task in hand, or has given it back. */
  predicate InHand(stage: Stage) {
    !stage.Counting? && !stage.Accepted?
  }

  function InCalls(calls: seq<Call>, f: nat -> int): int {
    if calls == [] then 0
    else InCalls(calls[..|calls| - 1], f) + if InHand(calls[|calls| - 1].stage) then f(|calls| - 1) else 0
  }

  function InDispatcher(d: DispatcherPhase, f: nat -> int): int {
    match d
    case Sending(task, _) => f(task)
    case Alternatives(task, _, _) => f(task)
    case Dropping(task) => f(task)
    case Selecting => 0
    case Stopped => 0
  }

  function InQueues(queues: seq<seq<nat>>, f: nat -> int): int {
    if queues == [] then 0 else InQueues(queues[..|queues| - 1], f) + Weigh(queues[|queues| - 1], f)
  }

  /** What a worker holds and has not run yet. */
  function InWorker(g: Worker, f: nat -> int): int {
    (if g.phase.Holding? then f(g.phase.task) else 0)
    + Weigh(if g.next <= |g.batch| then g.batch[g.next..] else [], f)
  }

  function InWorkers(workers: seq<Worker>, f: nat -> int): int {
    if workers == [] then 0 else InWorkers(workers[..|workers| - 1], f) + InWorker(workers[|workers| - 1], f)
  }

  /** Every place a task can be: with its submitter (or given back), in the dispatcher queue, in the
      dispatcher's hand, in a worker queue, with a worker, executed, or dropped. */
  function Places(s: Pool, f: nat -> int): int {
    InCalls(s.calls, f) + Weigh(s.dispatcher, f) + InDispatcher(s.dispatching, f)
    + InQueues(s.queues, f) + InWorkers(s.workers, f) + Weigh(s.ran, f) + Weigh(s.dropped, f)
  }

  /** Tasks `0 .. n`, once each. */
  function Submitted(n: nat, f: nat -> int): int {
    if n == 0 then 0 else Submitted(n - 1, f) + f(n - 1)
  }

  lemma {:induction false} CallsUpdate(calls: seq<Call>, c: nat, k: Call, f: nat -> int)
    requires c < |calls|
    ensures InCalls(calls[c := k], f)
         == InCalls(calls, f) - (if InHand(calls[c].stage) then f(c) else 0) + (if InHand(k.stage) then f(c) else 0)
  {
    var n := |calls| - 1;
    if c < n {
      assert calls[c := k][..n] == calls[..n][c := k];
      CallsUpdate(calls[..n], c, k, f);
    } else {
      assert calls[c := k][..n] == calls[..n];
    }
  }

  lemma {:induction false} QueuesUpdate(queues: seq<seq<nat>>, w: nat, q: seq<nat>, f: nat -> int)
    requires w < |queues|
    ensures InQueues(queues[w := q], f) == InQueues(queues, f) - Weigh(queues[w], f) + Weigh(q, f)
  {
    hide Weigh;
    var n := |queues| - 1;
    if w < n {
      assert queues[w := q][..n] == queues[..n][w := q];
      QueuesUpdate(queues[..n], w, q, f);
    } else {
      assert queues[w := q][..n] == queues[..n];
    }
  }

  lemma {:induction false} WorkersUpdate(workers: seq<Worker>, w: nat, g: Worker, f: nat -> int)
    requires w < |workers|
    ensures InWorkers(workers[w := g], f) == InWorkers(workers, f) - InWorker(workers[w], f) + InWorker(g, f)
  {
    hide InWorker;
    var n := |workers| - 1;
    if w < n {
      assert workers[w := g][..n] == workers[..n][w := g];
      WorkersUpdate(workers[..n], w, g, f);
    } else {
      assert workers[w := g][..n] == workers[..n];
    }
  }

  // ----- Workers keep their own books -----

  /** A worker's busy cell is the size of its open batch, which stays below the batch size except while
      it is being processed; local outcome counts cover exactly what has run and is not yet flushed. */
  predicate WorkerOk(g: Worker, batchSize: nat) {
    && g.busy == |g.batch| <= batchSize && g.next <= |g.batch|
    && match g.phase
       case Idle => g.next == g.ok == g.bad == 0 && |g.batch| < batchSize
       case Holding(_) => g.next == g.ok == g.bad == 0 && |g.batch| < batchSize
       case Processing(_) => g.ok + g.bad == g.next
       case FlushingCompleted(_) => g.ok + g.bad == g.next == |g.batch|
       case FlushingFailed(_) => g.ok == 0 && g.next == |g.batch|
       case Clearing => g.ok == g.bad == 0 && g.next == |g.batch|
       case Exited => g.ok == g.bad == 0 && g.next == |g.batch|
  }

  ghost predicate WorkersOk(s: Pool) {
    forall w | 0 <= w < |s.workers| :: WorkerOk(s.workers[w], s.config.batchSize)
  }

  ghost predicate WithinCapacity(s: Pool) {
    && |s.dispatcher| <= s.config.queueCap
    && forall w | 0 <= w < |s.queues| :: |s.queues[w]| <= s.config.workerCap
  }

  // ----- Counters -----

  function CountStage(calls: seq<Call>, p: Stage -> bool): nat {
    if calls == [] then 0 else CountStage(calls[..|calls| - 1], p) + if p(calls[|calls| - 1].stage) then 1 else 0
  }

  lemma {:induction false} CountStageUpdate(calls: seq<Call>, c: nat, k: Call, p: Stage -> bool)
    requires c < |calls|
    ensures CountStage(calls[c := k], p)
         == CountStage(calls, p) - (if p(calls[c].stage) then 1 else 0) + if p(k.stage) then 1 else 0
  {
    var n := |calls| - 1;
    if c < n {
      assert calls[c := k][..n] == calls[..n][c := k];
      CountStageUpdate(calls[..n], c, k, p);
    } else {
      assert calls[c := k][..n] == calls[..n];
    }
  }

  predicate IsAccepted(stage: Stage) { stage.Accepted? }
  predicate IsCounting(stage: Stage) { stage.Counting? }
  predicate IsRefused(stage: Stage) { stage.Refused? }

  /** Outcomes that workers have seen but not yet added to the shared counters. */
  function Unflushed(workers: seq<Worker>): nat {
    if workers == [] then 0
    else Unflushed(workers[..|workers| - 1]) + workers[|workers| - 1].ok + workers[|workers| - 1].bad
  }

  lemma {:induction false} UnflushedUpdate(workers: seq<Worker>, w: nat, g: Worker)
    requires w < |workers|
    ensures Unflushed(workers[w := g]) == Unflushed(workers) - workers[w].ok - workers[w].bad + g.ok + g.bad
  {
    var n := |workers| - 1;
    if w < n {
      assert workers[w := g][..n] == workers[..n][w := g];
      UnflushedUpdate(workers[..n], w, g);
    } else {
      assert workers[w := g][..n] == workers[..n];
    }
  }

  ghost predicate CountersOk(s: Pool) {
    && s.totalTasks == CountStage(s.calls, IsAccepted)
    && s.completedTasks + s.failedTasks + Unflushed(s.workers)
       == |s.ran| + |s.dropped| + CountStage(s.calls, IsRefused)
  }

  /** The books of the pool apart from where tasks are. */
  ghost predicate Inv(s: Pool) {
    Shaped(s) && WorkersOk(s) && WithinCapacity(s) && CountersOk(s)
  }

  // ----- Every move keeps the books -----

  lemma SendKeeps(s: Pool, w: nat, task: nat, meets: bool)
    requires Inv(s) && w < |s.queues| && Room(s, w, meets)
    ensures Inv(Send(s, w, task))
  {
    hide Unflushed, CountStage;
    if |s.queues[w]| >= s.config.workerCap {
      UnflushedUpdate(s.workers, w, s.workers[w].(phase := Holding(task)));
    }
  }

  lemma StageCounts(calls: seq<Call>, c: nat, k: Call)
    requires c < |calls|
    ensures CountStage(calls[c := k], IsAccepted)
         == CountStage(calls, IsAccepted)
            - (if calls[c].stage.Accepted? then 1 else 0) + (if k.stage.Accepted? then 1 else 0)
    ensures CountStage(calls[c := k], IsRefused)
         == CountStage(calls, IsRefused)
            - (if calls[c].stage.Refused? then 1 else 0) + (if k.stage.Refused? then 1 else 0)
  {
    CountStageUpdate(calls, c, k, IsAccepted);
    CountStageUpdate(calls, c, k, IsRefused);
  }

  lemma AdvanceCallKeeps(s: Pool, c: nat, w: nat, timeout: bool)
    requires Inv(s) && c < |s.calls| && w < |s.queues|
    ensures Inv(AdvanceCall(s, c, w, timeout))
  {
    hide Unflushed, CountStage, Send, WorkerOk, Room;
    var t := AdvanceCall(s, c, w, timeout);
    var stage := s.calls[c].stage;
    if stage.Forcing? && !timeout && stage.worker < |s.queues| && Room(s, stage.worker, true) {
      SendKeeps(s, stage.worker, c, true);
      SendFrame(s, stage.worker, c);
      StageCounts(s.calls, c, s.calls[c].(stage := Counting));
    } else {
      StageCounts(s.calls, c, t.calls[c]);
    }
  }

  lemma SendFrame(s: Pool, w: nat, task: nat)
    requires w < |s.queues| && |s.workers| == |s.queues|
    ensures
      var t := Send(s, w, task);
      t == s.(queues := t.queues, workers := t.workers) && |t.workers| == |t.queues| == |s.queues|
  {
  }

  lemma DispatcherMoveKeeps(s: Pool, w: nat, meets: bool)
    requires Inv(s) && w < |s.queues|
    ensures Inv(DispatcherMove(s, w, meets))
  {
    hide Unflushed, CountStage, Send, WorkerOk, Room;
    var d := s.dispatching;
    if d.Sending? && d.worker < |s.queues| && Room(s, d.worker, meets) {
      SendKeeps(s, d.worker, d.task, meets);
      SendFrame(s, d.worker, d.task);
    } else if d.Alternatives? && d.next < |s.queues| && d.next != d.exclude && Room(s, d.next, meets) {
      SendKeeps(s, d.next, d.task, meets);
      SendFrame(s, d.next, d.task);
    }
  }

  /** A worker's own books stay in order. */
  lemma OneWorkerOk(s: Pool, w: nat, success: bool)
    requires |s.workers| == |s.queues| && w < |s.queues| && s.config.batchSize > 0
    requires WorkerOk(s.workers[w], s.config.batchSize)
    ensures WorkerOk(WorkerMove(s, w, success).workers[w], s.config.batchSize)
  {
  }

  /** A worker move touches only its worker, its queue, the log and the outcome counters. */
  lemma OneWorkerFrame(s: Pool, w: nat, success: bool)
    requires |s.workers| == |s.queues| && w < |s.queues|
    ensures
      var t := WorkerMove(s, w, success);
      && t.workers == s.workers[w := t.workers[w]] && t.calls == s.calls && t.dispatcher == s.dispatcher
      && t.totalTasks == s.totalTasks && t.dropped == s.dropped
      && t.queues == s.queues[w := t.queues[w]] && |t.queues[w]| <= |s.queues[w]|
  {
    assert s.workers[w := s.workers[w]] == s.workers && s.queues[w := s.queues[w]] == s.queues;
  }

  /** Published and unpublished outcomes advance with the tasks run. */
  lemma OneWorkerOutcomes(s: Pool, w: nat, success: bool)
    requires |s.workers| == |s.queues| && w < |s.queues|
    ensures
      var t := WorkerMove(s, w, success);
      var g, h := s.workers[w], t.workers[w];
      t.completedTasks + t.failedTasks + h.ok + h.bad - |t.ran|
      == s.completedTasks + s.failedTasks + g.ok + g.bad - |s.ran|
  {
  }

  lemma WorkerMoveKeeps(s: Pool, w: nat, success: bool)
    requires Inv(s) && w < |s.queues|
    ensures Inv(WorkerMove(s, w, success))
  {
    hide Unflushed, CountStage, WorkerMove, WorkerOk;
    OneWorkerFrame(s, w, success);
    OneWorkerOutcomes(s, w, success);
    OneWorkerOk(s, w, success);
    UnflushedUpdate(s.workers, w, WorkerMove(s, w, success).workers[w]);
  }

  lemma TimerMoveKeeps(s: Pool, w: nat)
    requires Inv(s) && w < |s.workers|
    ensures Inv(TimerMove(s, w)) && Inv(ExitMove(s, w))
  {
    hide Unflushed, CountStage;
    UnflushedUpdate(s.workers, w, TimerMove(s, w).workers[w]);
    UnflushedUpdate(s.workers, w, ExitMove(s, w).workers[w]);
  }

  lemma SubmitKeeps(s: Pool, high: bool)
    requires Inv(s)
    ensures Inv(Next(s, Submit(high)))
  {
    hide Unflushed, WorkerOk;
    assert (s.calls + [Call(high, Trying)])[..|s.calls|] == s.calls;
  }

  lemma NextKeeps(s: Pool, m: Move)
    requires Inv(s)
    ensures Inv(Next(s, m))
  {
    hide Unflushed, CountStage, WorkerOk, AdvanceCall, DispatcherMove, WorkerMove, TimerMove, ExitMove;
    match m
    case Submit(high) => SubmitKeeps(s, high);
    case Advance(c, w, timeout) => if c < |s.calls| && w < |s.queues| { AdvanceCallKeeps(s, c, w, timeout); }
    case Dispatch(w, meets) => if w < |s.queues| { DispatcherMoveKeeps(s, w, meets); }
    case StopDispatcher =>
    case Work(w, success) => if w < |s.queues| { WorkerMoveKeeps(s, w, success); }
    case BatchTimer(w) => if w < |s.workers| { TimerMoveKeeps(s, w); }
    case ExitWorker(w) => if w < |s.workers| { TimerMoveKeeps(s, w); }
    case CloseStop =>
    case Cancel =>
  }

  // ----- No move loses or duplicates a task -----

  lemma SendMoves(s: Pool, w: nat, task: nat, meets: bool, f: nat -> int)
    requires Inv(s) && w < |s.queues| && Room(s, w, meets)
    ensures
      var t := Send(s, w, task);
      InQueues(t.queues, f) + InWorkers(t.workers, f) == InQueues(s.queues, f) + InWorkers(s.workers, f) + f(task)
  {
    hide InQueues, InWorkers, Weigh, CountersOk, WithinCapacity;
    if |s.queues[w]| < s.config.workerCap {
      QueuesUpdate(s.queues, w, s.queues[w] + [task], f);
      WeighAppend(s.queues[w], task, f);
    } else {
      WorkersUpdate(s.workers, w, s.workers[w].(phase := Holding(task)), f);
    }
  }

  lemma AdvanceCallMoves(s: Pool, c: nat, w: nat, timeout: bool, f: nat -> int)
    requires Inv(s) && c < |s.calls| && w < |s.queues|
    ensures Places(AdvanceCall(s, c, w, timeout), f) == Places(s, f)
      && |AdvanceCall(s, c, w, timeout).calls| == |s.calls|
  {
    hide InQueues, InWorkers, InCalls, Weigh, CountersOk, WithinCapacity, WorkersOk, Send, Room;
    var t := AdvanceCall(s, c, w, timeout);
    var stage := s.calls[c].stage;
    WeighAppend(s.dispatcher, c, f);
    if stage.Forcing? && !timeout && stage.worker < |s.queues| && Room(s, stage.worker, true) {
      SendMoves(s, stage.worker, c, true, f);
      SendFrame(s, stage.worker, c);
      CallsUpdate(s.calls, c, s.calls[c].(stage := Counting), f);
    } else {
      CallsUpdate(s.calls, c, t.calls[c], f);
    }
  }

  lemma DispatcherMoves(s: Pool, w: nat, meets: bool, f: nat -> int)
    requires Inv(s) && w < |s.queues|
    ensures Places(DispatcherMove(s, w, meets), f) == Places(s, f) && DispatcherMove(s, w, meets).calls == s.calls
  {
    hide InQueues, InWorkers, InCalls, Weigh, CountersOk, WithinCapacity, WorkersOk, Send, Room;
    var d := s.dispatching;
    if d.Selecting? && s.dispatcher != [] {
      WeighHead(s.dispatcher, f);
    } else if d.Sending? && d.worker < |s.queues| && Room(s, d.worker, meets) {
      SendMoves(s, d.worker, d.task, meets, f);
      SendFrame(s, d.worker, d.task);
    } else if d.Alternatives? && d.next < |s.queues| && d.next != d.exclude && Room(s, d.next, meets) {
      SendMoves(s, d.next, d.task, meets, f);
      SendFrame(s, d.next, d.task);
    } else if d.Dropping? {
      WeighAppend(s.dropped, d.task, f);
    }
  }

  lemma NothingLeft(f: nat -> int)
    ensures Weigh([], f) == 0
  {
  }

  lemma WorkerMoves(s: Pool, w: nat, success: bool, f: nat -> int)
    requires Inv(s) && w < |s.queues|
    ensures Places(WorkerMove(s, w, success), f) == Places(s, f) && WorkerMove(s, w, success).calls == s.calls
  {
    hide InQueues, InWorkers, InCalls, Weigh, CountersOk, WithinCapacity;
    var t, g := WorkerMove(s, w, success), s.workers[w];
    WorkersUpdate(s.workers, w, t.workers[w], f);
    NothingLeft(f);
    assert WorkerOk(g, s.config.batchSize);
    match g.phase
    case Idle =>
      if s.queues[w] != [] {
        QueuesUpdate(s.queues, w, s.queues[w][1..], f);
        WeighHead(s.queues[w], f);
      }
    case Holding(task) =>
      WeighAppend(g.batch, task, f);
      assert g.batch[0..] == g.batch && (g.batch + [task])[0..] == g.batch + [task];
    case Processing(stopping) =>
      if g.next < |g.batch| {
        WeighHead(g.batch[g.next..], f);
        assert g.batch[g.next..][1..] == g.batch[g.next + 1..];
        WeighAppend(s.ran, g.batch[g.next], f);
      }
    case FlushingCompleted(_) =>
    case FlushingFailed(_) =>
    case Clearing =>
      assert g.batch[g.next..] == [];
    case Exited =>
  }

  lemma TimerMoves(s: Pool, w: nat, f: nat -> int)
    requires Inv(s) && w < |s.workers|
    ensures Places(TimerMove(s, w), f) == Places(s, f) && TimerMove(s, w).calls == s.calls
    ensures Places(ExitMove(s, w), f) == Places(s, f) && ExitMove(s, w).calls == s.calls
  {
    hide InQueues, InWorkers, InCalls, Weigh, CountersOk, WithinCapacity, WorkersOk;
    WorkersUpdate(s.workers, w, TimerMove(s, w).workers[w], f);
    WorkersUpdate(s.workers, w, ExitMove(s, w).workers[w], f);
  }

  lemma NextConserves(s: Pool, m: Move, f: nat -> int)
    requires Inv(s) && Places(s, f) == Submitted(|s.calls|, f)
    ensures Places(Next(s, m), f) == Submitted(|Next(s, m).calls|, f)
  {
    hide InQueues, InWorkers, Weigh, CountersOk, WithinCapacity, WorkersOk, AdvanceCall, DispatcherMove,
      WorkerMove, TimerMove, ExitMove;
    match m
    case Submit(high) =>
      assert (s.calls + [Call(high, Trying)])[..|s.calls|] == s.calls;
    case Advance(c, w, timeout) => if c < |s.calls| && w < |s.queues| { AdvanceCallMoves(s, c, w, timeout, f); }
    case Dispatch(w, meets) => if w < |s.queues| { DispatcherMoves(s, w, meets, f); }
    case StopDispatcher =>
    case Work(w, success) => if w < |s.queues| { WorkerMoves(s, w, success, f); }
    case BatchTimer(w) => if w < |s.workers| { TimerMoves(s, w, f); }
    case ExitWorker(w) => if w < |s.workers| { TimerMoves(s, w, f); }
    case CloseStop =>
    case Cancel =>
  }

  // ----- What holds in every state of every interleaving -----

  lemma {:induction false} EmptyQueues(queues: seq<seq<nat>>, f: nat -> int)
    requires forall w | 0 <= w < |queues| :: queues[w] == []
    ensures InQueues(queues, f) == 0
  {
    if queues != [] {
      EmptyQueues(queues[..|queues| - 1], f);
    }
  }

  lemma {:induction false} FreshWorkers(workers: seq<Worker>, f: nat -> int)
    requires forall w | 0 <= w < |workers| :: workers[w] == FRESH_WORKER
    ensures InWorkers(workers, f) == 0 && Unflushed(workers) == 0
  {
    if workers != [] {
      FreshWorkers(workers[..|workers| - 1], f);
    }
  }

  /** The books and the conservation of every weight. */
  lemma {:induction false} RunInv(c: Config, moves: seq<Move>, f: nat -> int)
    requires c.batchSize > 0
    ensures Inv(Run(c, moves))
    ensures Places(Run(c, moves), f) == Submitted(|Run(c, moves).calls|, f)
  {
    hide Next, InQueues, InWorkers, Unflushed;
    if moves == [] {
      EmptyQueues(Init(c).queues, f);
      FreshWorkers(Init(c).workers, f);
    } else {
      hide Inv, Places, Submitted;
      var s := Run(c, moves[..|moves| - 1]);
      RunInv(c, moves[..|moves| - 1], f);
      NextKeeps(s, moves[|moves| - 1]);
      NextConserves(s, moves[|moves| - 1], f);
    }
  }

  /** The weight that singles out one task. */
  function Only(task: nat): nat -> int {
    t => if t == task then 1 else 0
  }

  function One(): nat -> int {
    t => 1
  }

  lemma {:induction false} SubmittedOnce(n: nat, task: nat)
    ensures Submitted(n, Only(task)) == if task < n then 1 else 0
    ensures Submitted(n, One()) == n
  {
    if n > 0 {
      SubmittedOnce(n - 1, task);
    }
  }

  /** Every submitted task is in exactly one place, and nothing else is anywhere. */
  lemma EveryTaskInOnePlace(c: Config, moves: seq<Move>, task: nat)
    requires c.batchSize > 0
    ensures
      var s := Run(c, moves);
      Places(s, Only(task)) == if task < |s.calls| then 1 else 0
  {
    hide Run, Places, Submitted, Inv;
    RunInv(c, moves, Only(task));
    SubmittedOnce(|Run(c, moves).calls|, task);
  }

  lemma {:induction false} WeightsNonNegative(s: seq<nat>, task: nat)
    ensures Weigh(s, Only(task)) >= 0
    ensures forall i | 0 <= i < |s| && s[i] == task :: Weigh(s, Only(task)) >= 1
    ensures forall i, j | 0 <= i < j < |s| && s[i] == s[j] == task :: Weigh(s, Only(task)) >= 2
    ensures Weigh(s, One()) == |s|
  {
    if s != [] {
      WeightsNonNegative(s[..|s| - 1], task);
    }
  }

  lemma {:induction false} PlacesNonNegative(calls: seq<Call>, queues: seq<seq<nat>>, workers: seq<Worker>, task: nat)
    ensures InCalls(calls, Only(task)) >= 0 && InQueues(queues, Only(task)) >= 0 && InWorkers(workers, Only(task)) >= 0
    decreases |calls| + |queues| + |workers|
  {
    if calls != [] {
      PlacesNonNegative(calls[..|calls| - 1], queues, workers, task);
    } else if queues != [] {
      PlacesNonNegative(calls, queues[..|queues| - 1], workers, task);
      WeightsNonNegative(queues[|queues| - 1], task);
    } else if workers != [] {
      var g := workers[|workers| - 1];
      PlacesNonNegative(calls, queues, workers[..|workers| - 1], task);
      WeightsNonNegative(if g.next <= |g.batch| then g.batch[g.next..] else [], task);
    }
  }

  /** No task is executed twice, and no executed task was dropped. */
  lemma NoTaskRunsTwice(c: Config, moves: seq<Move>, i: nat, j: nat)
    requires c.batchSize > 0 && i < |Run(c, moves).ran|
    ensures i < j < |Run(c, moves).ran| ==> Run(c, moves).ran[i] != Run(c, moves).ran[j]
    ensures j < |Run(c, moves).dropped| ==> Run(c, moves).ran[i] != Run(c, moves).dropped[j]
  {
    hide Run, Weigh, InCalls, InQueues, InWorkers;
    var s := Run(c, moves);
    var task := s.ran[i];
    EveryTaskInOnePlace(c, moves, task);
    PlacesNonNegative(s.calls, s.queues, s.workers, task);
    WeightsNonNegative(s.ran, task);
    WeightsNonNegative(s.dropped, task);
    WeightsNonNegative(s.dispatcher, task);
  }

  /** Tasks in the dispatcher queue, in the dispatcher's hand and in worker queues. */
  function Queued(s: Pool): int {
    |s.dispatcher| + InDispatcher(s.dispatching, One()) + InQueues(s.queues, One())
  }

  lemma {:induction false} CallsPartition(calls: seq<Call>)
    ensures |calls| == InCalls(calls, One()) + CountStage(calls, IsAccepted) + CountStage(calls, IsCounting)
  {
    if calls != [] {
      CallsPartition(calls[..|calls| - 1]);
    }
  }

  /** The books balance in every state: counted tasks, tasks about to be counted and refused tasks are
      the queued and held ones plus all outcomes, published or about to be. */
  lemma BooksBalance(c: Config, moves: seq<Move>)
    requires c.batchSize > 0
    ensures
      var s := Run(c, moves);
      s.totalTasks + CountStage(s.calls, IsCounting) + CountStage(s.calls, IsRefused)
      == Queued(s) + InWorkers(s.workers, One()) + s.completedTasks + s.failedTasks + Unflushed(s.workers)
  {
    hide Run, Weigh, InCalls, InQueues, InWorkers, CountStage, Unflushed, Submitted, WorkersOk, WithinCapacity;
    RunInv(c, moves, One());
    var s := Run(c, moves);
    SubmittedOnce(|s.calls|, 0);
    CallsPartition(s.calls);
    WeightsNonNegative(s.ran, 0);
    WeightsNonNegative(s.dropped, 0);
    WeightsNonNegative(s.dispatcher, 0);
  }

  function BatchTotal(workers: seq<Worker>): nat {
    if workers == [] then 0 else BatchTotal(workers[..|workers| - 1]) + |workers[|workers| - 1].batch|
  }

  lemma {:induction false} IdleWorkers(workers: seq<Worker>)
    requires forall w | 0 <= w < |workers| ::
      workers[w].phase.Idle? && workers[w].next == workers[w].ok == workers[w].bad == 0
    ensures Unflushed(workers) == 0 && InWorkers(workers, One()) == BatchTotal(workers)
  {
    if workers != [] {
      var g := workers[|workers| - 1];
      IdleWorkers(workers[..|workers| - 1]);
      WeightsNonNegative(g.batch[0..], 0);
    }
  }

  /** Between operations (no submitter mid-count, every worker waiting) the published counters satisfy
      total + refused = queued + batched + completed + failed. */
  lemma QuiescentBooks(c: Config, moves: seq<Move>)
    requires c.batchSize > 0
    requires
      var s := Run(c, moves);
      CountStage(s.calls, IsCounting) == 0 && forall w | 0 <= w < |s.workers| :: s.workers[w].phase.Idle?
    ensures
      var s := Run(c, moves);
      s.totalTasks + CountStage(s.calls, IsRefused)
      == Queued(s) + BatchTotal(s.workers) + s.completedTasks + s.failedTasks
  {
    hide Run, InQueues, InWorkers, CountStage, Unflushed, Queued, CountersOk, WithinCapacity;
    BooksBalance(c, moves);
    RunInv(c, moves, One());
    var s := Run(c, moves);
    assert forall w | 0 <= w < |s.workers| :: WorkerOk(s.workers[w], s.config.batchSize);
    IdleWorkers(s.workers);
  }

  // ----- After Stop -----

  /** The dispatcher and all workers have returned. */
  ghost predicate Halted(s: Pool) {
    s.dispatching.Stopped? && forall w | 0 <= w < |s.workers| :: s.workers[w].phase.Exited?
  }

  lemma HaltedStep(s: Pool, m: Move)
    requires Shaped(s) && Halted(s)
    ensures Halted(Next(s, m)) && Next(s, m).ran == s.ran && Next(s, m).dropped == s.dropped
  {
    if m.Advance? && m.call < |s.calls| && m.worker < |s.queues| {
      hide Halted;
      HaltedAdvance(s, m.call, m.worker, m.timeout);
    }
  }

  lemma HaltedAdvance(s: Pool, c: nat, w: nat, timeout: bool)
    requires Shaped(s) && Halted(s) && c < |s.calls| && w < |s.queues|
    ensures
      var t := AdvanceCall(s, c, w, timeout);
      Halted(t) && t.ran == s.ran && t.dropped == s.dropped
  {
    var stage := s.calls[c].stage;
    if stage.Forcing? && !timeout && stage.worker < |s.queues| && Room(s, stage.worker, true) {
      assert Send(s, stage.worker, c).workers == s.workers;
    }
  }

  /** Once dispatcher and workers have returned, nothing is run or dropped any more in any continuation. */
  lemma {:induction false} NothingRunsAfterStop(c: Config, moves: seq<Move>, more: seq<Move>)
    requires c.batchSize > 0 && Halted(Run(c, moves))
    ensures
      var s, t := Run(c, moves), Run(c, moves + more);
      Halted(t) && t.ran == s.ran && t.dropped == s.dropped
  {
    hide Next, Halted;
    if more == [] {
      assert moves + more == moves;
    } else {
      var n := |more| - 1;
      NothingRunsAfterStop(c, moves, more[..n]);
      assert (moves + more)[..|moves| + n] == moves + more[..n];
      HaltedStep(Run(c, moves + more[..n]), more[n]);
    }
  }

  lemma {:induction false} ExitedHoldNothing(workers: seq<Worker>, f: nat -> int)
    requires forall w | 0 <= w < |workers| :: workers[w].phase.Exited? && workers[w].next == |workers[w].batch|
    ensures InWorkers(workers, f) == 0
  {
    if workers != [] {
      ExitedHoldNothing(workers[..|workers| - 1], f);
    }
  }

  lemma {:induction false} WeighOnly(tasks: seq<nat>, task: nat)
    ensures Weigh(tasks, Only(task)) >= 0 && (Weigh(tasks, Only(task)) > 0 <==> task in tasks)
  {
    if tasks != [] {
      WeighOnly(tasks[..|tasks| - 1], task);
      assert task in tasks <==> task in tasks[..|tasks| - 1] || task == tasks[|tasks| - 1];
    }
  }

  lemma {:induction false} QueuesOnly(queues: seq<seq<nat>>, task: nat)
    ensures InQueues(queues, Only(task)) >= 0
    ensures InQueues(queues, Only(task)) > 0 <==> exists w :: 0 <= w < |queues| && task in queues[w]
  {
    if queues != [] {
      var n := |queues| - 1;
      QueuesOnly(queues[..n], task);
      WeighOnly(queues[n], task);
      if w :| 0 <= w < |queues| && task in queues[w] {
        assert w < n ==> task in queues[..n][w];
      }
    }
  }

  lemma {:induction false} CallsOnly(calls: seq<Call>, task: nat)
    ensures InCalls(calls, Only(task)) == if task < |calls| && InHand(calls[task].stage) then 1 else 0
  {
    if calls != [] {
      CallsOnly(calls[..|calls| - 1], task);
    }
  }

  /** In a halted pool a task that was handed over has run, was dropped, or is left in a queue. */
  lemma WhereAfterStop(c: Config, moves: seq<Move>, task: nat)
    requires c.batchSize > 0 && Halted(Run(c, moves))
    ensures
      var s := Run(c, moves);
      (task < |s.calls| && !InHand(s.calls[task].stage)) <==>
        (task in s.ran || task in s.dropped || task in s.dispatcher
         || exists w :: 0 <= w < |s.queues| && task in s.queues[w])
    ensures
      var s := Run(c, moves);
      task in s.ran || task in s.dropped ==>
        task !in s.dispatcher && forall w | 0 <= w < |s.queues| :: task !in s.queues[w]
  {
    hide Run, Weigh, InCalls, InQueues, InWorkers, Only, WithinCapacity, CountersOk;
    EveryTaskInOnePlace(c, moves, task);
    RunInv(c, moves, Only(task));
    var s := Run(c, moves);
    assert forall w | 0 <= w < |s.workers| :: WorkerOk(s.workers[w], s.config.batchSize);
    ExitedHoldNothing(s.workers, Only(task));
    CallsOnly(s.calls, task);
    QueuesOnly(s.queues, task);
    WeighOnly(s.dispatcher, task);
    WeighOnly(s.ran, task);
    WeighOnly(s.dropped, task);
  }

  /** So after Stop every task that was handed over has run or was dropped exactly when all queues are empty. */
  lemma AllDoneAfterStopIff(c: Config, moves: seq<Move>)
    requires c.batchSize > 0 && Halted(Run(c, moves))
    ensures
      var s := Run(c, moves);
      (forall t | 0 <= t < |s.calls| && !InHand(s.calls[t].stage) :: t in s.ran || t in s.dropped)
      <==> s.dispatcher == [] && forall w | 0 <= w < |s.queues| :: s.queues[w] == []
  {
    hide Run, Halted;
    var s := Run(c, moves);
    if s.dispatcher == [] && forall w | 0 <= w < |s.queues| :: s.queues[w] == [] {
      forall t | 0 <= t < |s.calls| && !InHand(s.calls[t].stage)
        ensures t in s.ran || t in s.dropped
      {
        WhereAfterStop(c, moves, t);
      }
    } else if s.dispatcher != [] {
      WhereAfterStop(c, moves, s.dispatcher[0]);
    } else {
      var w :| 0 <= w < |s.queues| && s.queues[w] != [];
      assert s.queues[w][0] in s.queues[w];
      WhereAfterStop(c, moves, s.queues[w][0]);
    }
  }

  lemma RunThen(c: Config, moves: seq<Move>, m: Move)
    requires c.batchSize > 0
    ensures Run(c, moves + [m]) == Next(Run(c, moves), m)
  {
    assert (moves + [m])[..|moves|] == moves;
  }

  /** The run below: one task is queued, the pool stops before it is dispatched. */
  lemma StopSteps(c: Config)
    requires c == Config(1, 1, 1, 1)
    ensures
      var s := Next(Next(Init(c), Submit(false)), Advance(0, 0, false));
      var t := Next(Next(Next(s, CloseStop), StopDispatcher), Cancel);
      && Next(t, ExitWorker(0)).dispatcher == [0] && Halted(Next(t, ExitWorker(0)))
      && Next(t, ExitWorker(0)).calls == [Call(false, Counting)] && Next(t, ExitWorker(0)).ran == []
      && Next(t, ExitWorker(0)).dropped == []
  {
  }

  function StopMoves(): seq<Move> {
    [Submit(false), Advance(0, 0, false), CloseStop, StopDispatcher, Cancel, ExitWorker(0)]
  }

  lemma RunPrefix(c: Config, moves: seq<Move>, k: nat)
    requires c.batchSize > 0 && k < |moves|
    ensures Run(c, moves[..k + 1]) == Next(Run(c, moves[..k]), moves[k])
  {
    assert moves[..k + 1] == moves[..k] + [moves[k]];
    RunThen(c, moves[..k], moves[k]);
  }

  /** Stop does not wait for the queue: a task that was handed over is neither run nor dropped. */
  lemma TaskLeftBehind(c: Config)
    requires c == Config(1, 1, 1, 1)
    ensures
      var s := Run(c, StopMoves());
      && Halted(s) && |s.calls| == 1 && !InHand(s.calls[0].stage) && 0 in s.dispatcher
      && 0 !in s.ran && 0 !in s.dropped
  {
    StopSteps(c);
    hide Next, Halted;
    var moves := StopMoves();
    assert moves[..0] == [];
    assert Run(c, []) == Init(c);
    hide Run, Init;
    RunPrefix(c, moves, 0);
    RunPrefix(c, moves, 1);
    RunPrefix(c, moves, 2);
    RunPrefix(c, moves, 3);
    RunPrefix(c, moves, 4);
    RunPrefix(c, moves, 5);
    assert moves[..6] == moves;
  }
}
