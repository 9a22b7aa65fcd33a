/** The sidecar client's request/response table: concurrent senders, deliveries, timeouts, connect and
    disconnect, interleaved at their lock-protected sections and channel operations. */
module IspClient {
  import opened Options

  /** A response message; `body` distinguishes messages with the same ID. */
  datatype Message = Message(id: string, body: int)

  /** A reply channel of capacity one. */
  datatype Channel = Channel(open: bool, buffer: Option<Message>)

  datatype Outcome = Reply(message: Message) | NilReply | Failed

  /** The stages of one SendRequest call. Its reply channel has the call's own number. */
  datatype Stage =
    | Registering
    | Sending
    | Awaiting
    | Unregistering(outcome: Outcome)
    | Closing(outcome: Outcome)
    | Returned(outcome: Outcome)

  datatype Request = Request(id: string, stage: Stage)

  /** Disconnect holds the connection lock from its first to its second section. */
  datatype Client = Client(connected: bool, disconnecting: bool, table: map<string, nat>, channels: seq<Channel>,
                           requests: seq<Request>, swept: set<nat>, sentOnClosed: bool, closedTwice: set<nat>)

  const INIT := Client(false, false, map[], [], [], {}, false, {})

  /** One move; `ok` resolves whether an operation that may fail succeeds. */
  datatype Move =
    | Connect
    | Call(id: string)
    | Proceed(request: nat, ok: bool)
    | TakeReply(request: nat)
    | Deliver(message: Message)
    | DisconnectBegin
    | DisconnectSweep

  /** A second close of a channel panics and ends the process. */
  predicate Crashed(s: Client) {
    s.sentOnClosed || s.closedTwice != {}
  }

  function SetStage(s: Client, r: nat, stage: Stage): Client
    requires r < |s.requests|
  {
    s.(requests := s.requests[r := s.requests[r].(stage := stage)])
  }

  /** SendRequest without the receive: register, send, give up, unregister, close. */
  function ProceedRequest(s: Client, r: nat, ok: bool): Client
    requires r < |s.requests| && r < |s.channels|
  {
    var id := s.requests[r].id;
    match s.requests[r].stage
    case Registering =>
      if id == "" then SetStage(s, r, Returned(Failed))
      else SetStage(s.(table := s.table[id := r]), r, Sending)
    case Sending =>
      if s.disconnecting then s
      else SetStage(s, r, if ok && s.connected then Awaiting else Unregistering(Failed))
    case Awaiting => SetStage(s, r, Unregistering(Failed))
    case Unregistering(outcome) => SetStage(s.(table := s.table - {id}), r, Closing(outcome))
    case Closing(outcome) =>
      if s.channels[r].open then
        SetStage(s.(channels := s.channels[r := s.channels[r].(open := false)]), r, Returned(outcome))
      else s.(closedTwice := s.closedTwice + {r})
    case Returned(_) => s
  }

  /** Receiving from the own reply channel; a closed empty channel yields no message. */
  function Receive(s: Client, r: nat): Client
    requires r < |s.requests| && r < |s.channels|
  {
    var ch := s.channels[r];
    if !s.requests[r].stage.Awaiting? then s
    else if ch.buffer.Some? then
      SetStage(s.(channels := s.channels[r := ch.(buffer := None)]), r, Unregistering(Reply(ch.buffer.value)))
    else if !ch.open then SetStage(s, r, Unregistering(NilReply))
    else s
  }

  /** handleMessage for a response: a non-blocking send to the registered channel. */
  function DeliverMessage(s: Client, m: Message): Client {
    if m.id == "" || m.id !in s.table then s
    else
      var r := s.table[m.id];
      if r >= |s.channels| then s
      else if !s.channels[r].open then s.(sentOnClosed := true)
      else if s.channels[r].buffer.Some? then s
      else s.(channels := s.channels[r := s.channels[r].(buffer := Some(m))])
  }

  /** Closes every registered channel and empties the table, under the table lock. */
  function Sweep(s: Client): Client {
    s.(channels := seq(|s.channels|, r requires 0 <= r < |s.channels| =>
         if r in s.table.Values then s.channels[r].(open := false) else s.channels[r]),
       swept := s.swept + (set r | r in s.table.Values),
       table := map[], disconnecting := false)
  }

  function Next(s: Client, m: Move): Client {
    if Crashed(s) then s
    else
      match m
      case Connect => if s.disconnecting then s else s.(connected := true)
      case Call(id) => s.(requests := s.requests + [Request(id, Registering)],
                          channels := s.channels + [Channel(true, None)])
      case Proceed(r, ok) => if r < |s.requests| && r < |s.channels| then ProceedRequest(s, r, ok) else s
      case TakeReply(r) => if r < |s.requests| && r < |s.channels| then Receive(s, r) else s
      case Deliver(message) => DeliverMessage(s, message)
      case DisconnectBegin =>
        if s.connected && !s.disconnecting then s.(connected := false, disconnecting := true) else s
      case DisconnectSweep => if s.disconnecting then Sweep(s) else s
  }

  function Run(moves: seq<Move>): Client {
    if moves == [] then INIT else Next(Run(moves[..|moves| - 1]), moves[|moves| - 1])
  }

  // ----- The invariant -----

  /** A request between its registration and its removal from the table. */
  predicate Registered(stage: Stage) {
    stage.Sending? || stage.Awaiting? || stage.Unregistering?
  }

  function OutcomeOf(stage: Stage): Outcome {
    match stage
    case Unregistering(o) => o
    case Closing(o) => o
    case Returned(o) => o
    case _ => Failed
  }

  /** Everything known about request `r`: its channel is open until it closes it itself unless a
      disconnect swept it, and only messages with its own ID ever reach it. */
  predicate RequestOk(s: Client, r: nat)
    requires r < |s.requests| && r < |s.channels|
  {
    var q, ch := s.requests[r], s.channels[r];
    && (ch.buffer.Some? ==> ch.buffer.value.id == q.id)
    && (OutcomeOf(q.stage).Reply? ==> OutcomeOf(q.stage).message.id == q.id)
    && (q.stage.Registering? ==> r !in s.swept)
    && (!q.stage.Returned? ==> (ch.open <==> r !in s.swept))
    && (OutcomeOf(q.stage).NilReply? ==> r in s.swept)
    && (q.stage.Returned? ==> !q.stage.outcome.NilReply?)
    && (Registered(q.stage) ==> q.id != "")
  }

  /** A table entry leads to a live request with that ID. */
  predicate EntryOk(s: Client, id: string)
    requires id in s.table
  {
    var r := s.table[id];
    r < |s.requests| && s.requests[r].id == id && Registered(s.requests[r].stage) && r !in s.swept
  }

  ghost predicate Inv(s: Client) {
    && |s.requests| == |s.channels|
    && !s.sentOnClosed
    && (forall r | 0 <= r < |s.requests| :: RequestOk(s, r))
    && (forall id | id in s.table :: EntryOk(s, id))
    && (forall r | r in s.swept :: r < |s.requests|)
    && (forall r | r in s.closedTwice :: r in s.swept)
  }

  lemma ProceedRequestOk(s: Client, r: nat, ok: bool, k: nat)
    requires r < |s.requests| == |s.channels| && k < |s.requests| && RequestOk(s, k)
    ensures |ProceedRequest(s, r, ok).requests| == |s.requests| == |ProceedRequest(s, r, ok).channels|
    ensures RequestOk(ProceedRequest(s, r, ok), k)
  {
    ProceedFrame(s, r, ok);
    var t := ProceedRequest(s, r, ok);
    if k != r {
      hide ProceedRequest;
      assert t.requests[k] == s.requests[k] && t.channels[k] == s.channels[k];
    }
  }

  /** A request's own move changes no other request or channel. */
  lemma ProceedFrame(s: Client, r: nat, ok: bool)
    requires r < |s.requests| == |s.channels|
    ensures
      var t := ProceedRequest(s, r, ok);
      && t.requests == s.requests[r := t.requests[r]] && t.channels == s.channels[r := t.channels[r]]
      && t.requests[r].id == s.requests[r].id && t.swept == s.swept
  {
    assert s.requests[r := s.requests[r]] == s.requests && s.channels[r := s.channels[r]] == s.channels;
  }

  lemma ProceedEntryOk(s: Client, r: nat, ok: bool, id: string)
    requires r < |s.requests| == |s.channels| && id in ProceedRequest(s, r, ok).table
    requires id in s.table ==> EntryOk(s, id)
    requires s.requests[r].stage.Registering? ==> r !in s.swept
    ensures EntryOk(ProceedRequest(s, r, ok), id)
  {
    ProceedFrame(s, r, ok);
    var t := ProceedRequest(s, r, ok);
    if t.table[id] != r {
      assert id in s.table && s.table[id] == t.table[id];
      hide ProceedRequest;
      assert t.requests[t.table[id]] == s.requests[s.table[id]];
    }
  }

  lemma RegisteringUnswept(s: Client, r: nat)
    requires r < |s.requests| && r < |s.channels| && RequestOk(s, r)
    ensures s.requests[r].stage.Registering? ==> r !in s.swept
    ensures s.requests[r].stage.Closing? && !s.channels[r].open ==> r in s.swept
  {
  }

  lemma ProceedKeeps(s: Client, r: nat, ok: bool)
    requires Inv(s) && r < |s.requests|
    ensures Inv(ProceedRequest(s, r, ok))
  {
    hide RequestOk, EntryOk;
    var t := ProceedRequest(s, r, ok);
    assert RequestOk(s, r);
    RegisteringUnswept(s, r);
    ProceedRequestOk(s, r, ok, r);
    forall k: nat | k < |s.requests|
      ensures RequestOk(t, k)
    {
      ProceedRequestOk(s, r, ok, k);
    }
    forall id | id in t.table
      ensures EntryOk(t, id)
    {
      assert id in s.table ==> EntryOk(s, id);
      ProceedEntryOk(s, r, ok, id);
    }
  }

  lemma ReceiveRequestOk(s: Client, r: nat, k: nat)
    requires r < |s.requests| == |s.channels| && k < |s.requests| && RequestOk(s, k)
    ensures |Receive(s, r).requests| == |s.requests| == |Receive(s, r).channels|
    ensures RequestOk(Receive(s, r), k)
  {
  }

  lemma ReceiveKeeps(s: Client, r: nat)
    requires Inv(s) && r < |s.requests|
    ensures Inv(Receive(s, r))
  {
    hide RequestOk;
    assert forall id | id in s.table :: EntryOk(s, id);
    ReceiveRequestOk(s, r, r);
    forall k: nat | k < |s.requests|
      ensures RequestOk(Receive(s, r), k)
    {
      ReceiveRequestOk(s, r, k);
    }
  }

  /** A delivery finds an open channel: it never sends on a closed one. */
  lemma DeliverKeeps(s: Client, m: Message)
    requires Inv(s)
    ensures Inv(DeliverMessage(s, m))
  {
    var t := DeliverMessage(s, m);
    if m.id in s.table {
      assert EntryOk(s, m.id) && RequestOk(s, s.table[m.id]);
    }
    assert forall id | id in t.table :: EntryOk(s, id) && EntryOk(t, id);
    forall k | 0 <= k < |t.requests|
      ensures RequestOk(t, k)
    {
      assert RequestOk(s, k);
    }
  }

  lemma SweepKeeps(s: Client)
    requires Inv(s)
    ensures Inv(Sweep(s))
  {
    var t := Sweep(s);
    forall r | r in s.table.Values
      ensures r < |s.requests| && Registered(s.requests[r].stage)
    {
      var id :| id in s.table && s.table[id] == r;
      assert EntryOk(s, id);
    }
    forall k | 0 <= k < |t.requests|
      ensures RequestOk(t, k)
    {
      assert RequestOk(s, k);
    }
  }

  lemma NextKeeps(s: Client, m: Move)
    requires Inv(s)
    ensures Inv(Next(s, m))
  {
    hide ProceedRequest, Receive, DeliverMessage, Sweep;
    if !Crashed(s) {
      assert forall id | id in s.table :: EntryOk(s, id);
      match m
      case Connect => assert forall r | 0 <= r < |s.requests| :: RequestOk(s, r) ==> RequestOk(Next(s, m), r);
      case Call(id) =>
        assert forall r | 0 <= r < |s.requests| :: RequestOk(s, r) ==> RequestOk(Next(s, m), r);
        assert RequestOk(Next(s, m), |s.requests|);
      case Proceed(r, ok) => if r < |s.requests| { ProceedKeeps(s, r, ok); }
      case TakeReply(r) => if r < |s.requests| { ReceiveKeeps(s, r); }
      case Deliver(message) => DeliverKeeps(s, message);
      case DisconnectBegin => assert forall r | 0 <= r < |s.requests| :: RequestOk(s, r) ==> RequestOk(Next(s, m), r);
      case DisconnectSweep => if s.disconnecting { SweepKeeps(s); }
    }
  }

  lemma {:induction false} RunInv(moves: seq<Move>)
    ensures Inv(Run(moves))
  {
    hide Inv, Next;
    if moves == [] {
      assert Inv(INIT) by {
        InitInv();
      }
    } else {
      RunInv(moves[..|moves| - 1]);
      NextKeeps(Run(moves[..|moves| - 1]), moves[|moves| - 1]);
    }
  }

  lemma InitInv()
    ensures Inv(INIT)
  {
  }

  // ----- What holds in every interleaving, colliding IDs included -----

  /** Every channel in the table is open, and no delivery ever sends on a closed channel. */
  lemma TableChannelsOpen(moves: seq<Move>, id: string)
    ensures !Run(moves).sentOnClosed
    ensures
      var s := Run(moves);
      id in s.table ==> s.table[id] < |s.channels| && s.channels[s.table[id]].open
  {
    hide Run;
    RunInv(moves);
    var s := Run(moves);
    if id in s.table {
      assert EntryOk(s, id) && RequestOk(s, s.table[id]);
    }
  }

  /** A request that returns a message returns one carrying its own ID. */
  lemma RepliesCarryOwnId(moves: seq<Move>, r: nat)
    requires r < |Run(moves).requests|
    ensures
      var q := Run(moves).requests[r];
      q.stage.Returned? && q.stage.outcome.Reply? ==> q.stage.outcome.message.id == q.id
  {
    hide Run;
    RunInv(moves);
    assert RequestOk(Run(moves), r);
  }

  /** No call returns without a message and without an error: a call that received nothing from a closed
      channel panics on closing it again before it can return. */
  lemma NeverReturnsNothing(moves: seq<Move>, r: nat)
    requires r < |Run(moves).requests|
    ensures
      var q := Run(moves).requests[r];
      q.stage.Returned? ==> q.stage.outcome != NilReply
  {
    hide Run;
    RunInv(moves);
    assert RequestOk(Run(moves), r);
  }

  // ----- When a registration is lost -----

  /** A call between registering and unregistering that no disconnect has swept. */
  predicate Live(s: Client, r: nat) {
    r < |s.requests| && Registered(s.requests[r].stage) && r !in s.swept
  }

  /** The table leads from the ID of request `r` to `r`, so a response finds it. */
  predicate Found(s: Client, r: nat)
    requires r < |s.requests|
  {
    s.requests[r].id in s.table && s.table[s.requests[r].id] == r
  }

  /** Another call with the same ID overwrites or deletes the table entry of `r`. */
  predicate Disturbs(s: Client, m: Move, r: nat) {
    && !Crashed(s) && r < |s.requests| && m.Proceed? && m.request < |s.requests| && m.request != r
    && s.requests[m.request].id == s.requests[r].id
    && (s.requests[m.request].stage.Registering? || s.requests[m.request].stage.Unregistering?)
  }

  /** A live request loses its table entry in a move exactly when the move disturbs it. */
  lemma LosesIff(s: Client, m: Move, r: nat)
    requires Inv(s) && Live(s, r) && Found(s, r)
    ensures r < |Next(s, m).requests|
    ensures Live(Next(s, m), r) ==> (Found(Next(s, m), r) <==> !Disturbs(s, m, r))
  {
    assert RequestOk(s, r);
    assert s.requests[r].id != "";
    LosesEntry(s, m, r);
  }

  lemma LosesEntry(s: Client, m: Move, r: nat)
    requires |s.requests| == |s.channels| && Live(s, r) && Found(s, r) && s.requests[r].id != ""
    ensures r < |Next(s, m).requests|
    ensures Live(Next(s, m), r) ==> (Found(Next(s, m), r) <==> !Disturbs(s, m, r))
  {
    hide ProceedRequest;
    if m.DisconnectSweep? {
      assert r in s.table.Values;
    } else if m.Proceed? && m.request < |s.requests| {
      ProceedEntries(s, m.request, m.ok, r);
    }
  }

  /** Requests keep their ID, and stages only advance. */
  lemma StagesAdvance(s: Client, m: Move, r: nat)
    requires |s.requests| == |s.channels| && r < |s.requests|
    ensures r < |Next(s, m).requests| && Next(s, m).requests[r].id == s.requests[r].id
    ensures !s.requests[r].stage.Registering? ==> !Next(s, m).requests[r].stage.Registering?
  {
  }

  /** A request comes alive by registering, which makes it found; once lost it is never found again. */
  lemma LostForGood(s: Client, m: Move, r: nat)
    requires |s.requests| == |s.channels| && r < |s.requests|
    ensures r < |Next(s, m).requests|
    ensures Live(Next(s, m), r) && !Live(s, r) ==> s.requests[r].stage.Registering? && Found(Next(s, m), r)
    ensures Live(Next(s, m), r) && Live(s, r) && !Found(s, r) ==> !Found(Next(s, m), r)
  {
    hide ProceedRequest;
    if m.Proceed? && m.request < |s.requests| {
      ProceedEntries(s, m.request, m.ok, r);
    }
  }

  lemma TableAfterProceed(s: Client, q: nat, ok: bool)
    requires |s.requests| == |s.channels| && q < |s.requests|
    ensures
      var t, id, stage := ProceedRequest(s, q, ok), s.requests[q].id, s.requests[q].stage;
      t.table == if stage.Registering? && id != "" then s.table[id := q]
                 else if stage.Unregistering? then s.table - {id} else s.table
  {
  }

  /** What a move of request `q` does to the table entry of request `r`. */
  lemma ProceedEntries(s: Client, q: nat, ok: bool, r: nat)
    requires |s.requests| == |s.channels| && q < |s.requests| && r < |s.requests|
    ensures
      var t := ProceedRequest(s, q, ok);
      && |t.requests| == |s.requests| && t.requests[r].id == s.requests[r].id && t.swept == s.swept
      && (Live(t, r) && !Live(s, r) ==> s.requests[r].stage.Registering? && Found(t, r))
      && (Live(t, r) && Live(s, r) && !Found(s, r) ==> !Found(t, r))
      && (!Crashed(s) && Live(t, r) && Live(s, r) && Found(s, r) && s.requests[r].id != "" ==>
            (Found(t, r) <==> !Disturbs(s, Proceed(q, ok), r)))
  {
    TableAfterProceed(s, q, ok);
    ProceedFrame(s, q, ok);
    if q != r {
      hide ProceedRequest;
      assert ProceedRequest(s, q, ok).requests[r] == s.requests[r];
    }
  }

  lemma {:induction false} StageHistory(moves: seq<Move>, k: nat, r: nat)
    requires k <= |moves| && r < |Run(moves[..k]).requests|
    ensures r < |Run(moves).requests| && Run(moves).requests[r].id == Run(moves[..k]).requests[r].id
    ensures Run(moves).requests[r].stage.Registering? ==> Run(moves[..k]).requests[r].stage.Registering?
    decreases |moves|
  {
    hide Next;
    if k == |moves| {
      assert moves[..k] == moves;
    } else {
      var n := |moves| - 1;
      assert moves[..n][..k] == moves[..k];
      StageHistory(moves[..n], k, r);
      SameLengths(moves[..n]);
      StagesAdvance(Run(moves[..n]), moves[n], r);
    }
  }

  lemma SameLengths(moves: seq<Move>)
    ensures |Run(moves).requests| == |Run(moves).channels|
  {
    hide Run;
    RunInv(moves);
  }

  /** The move numbered `k` of a run disturbs request `r` while it is registered. */
  predicate DisturbedAt(moves: seq<Move>, k: nat, r: nat)
    requires k < |moves|
  {
    Live(Run(moves[..k]), r) && Disturbs(Run(moves[..k]), moves[k], r)
  }

  /** A request that has yet to register was never disturbed. */
  lemma UndisturbedBefore(moves: seq<Move>, k: nat, r: nat)
    requires k < |moves| && r < |Run(moves).requests| && Run(moves).requests[r].stage.Registering?
    ensures !DisturbedAt(moves, k, r)
  {
    hide Run, Disturbs;
    if Live(Run(moves[..k]), r) {
      StageHistory(moves, k, r);
    }
  }

  lemma NewNotLive(s: Client, m: Move, r: nat)
    requires |s.requests| == |s.channels| && r >= |s.requests|
    ensures !Live(Next(s, m), r)
  {
  }

  /** In every run, colliding IDs included: a response finds a live request exactly when no other call
      with the same ID registered or unregistered since that request registered. */
  lemma {:induction false} FoundIffUndisturbed(moves: seq<Move>, r: nat)
    requires Live(Run(moves), r)
    ensures Found(Run(moves), r) <==> forall k | 0 <= k < |moves| :: !DisturbedAt(moves, k, r)
  {
    hide Next, Disturbs, Found;
    if moves != [] {
      var n := |moves| - 1;
      var front, s, m := moves[..n], Run(moves[..n]), moves[n];
      SameLengths(front);
      assert forall k | 0 <= k < n :: front[..k] == moves[..k];
      assert forall k | 0 <= k < n :: DisturbedAt(moves, k, r) <==> DisturbedAt(front, k, r);
      if r >= |s.requests| {
        NewNotLive(s, m, r);
      } else {
        LostForGood(s, m, r);
        if !Live(s, r) {
          forall k | 0 <= k < n
            ensures !DisturbedAt(front, k, r)
          {
            UndisturbedBefore(front, k, r);
          }
        } else {
          FoundIffUndisturbed(front, r);
          RunInv(front);
          assert DisturbedAt(moves, n, r) <==> Disturbs(s, m, r);
          if Found(s, r) {
            LosesIff(s, m, r);
          }
        }
      }
    }
  }

  // ----- Which request IDs are safe -----

  /** The IDs passed to SendRequest, in order. */
  function CalledIds(moves: seq<Move>): seq<string> {
    if moves == [] then []
    else
      var m := moves[|moves| - 1];
      CalledIds(moves[..|moves| - 1]) + if m.Call? then [m.id] else []
  }

  /** Every live request can be found. */
  ghost predicate NoneLost(s: Client) {
    forall r | 0 <= r < |s.requests| :: Live(s, r) ==> Found(s, r)
  }

  /** No ID is used twice, apart from the empty one, which is refused. */
  ghost predicate DistinctIds(ids: seq<string>) {
    forall i, j | 0 <= i < j < |ids| && ids[i] == ids[j] :: ids[i] == ""
  }

  lemma {:induction false} IdsOfRequests(moves: seq<Move>)
    ensures |Run(moves).requests| <= |CalledIds(moves)|
    ensures forall r | 0 <= r < |Run(moves).requests| :: Run(moves).requests[r].id == CalledIds(moves)[r]
    ensures !Crashed(Run(moves)) ==> |Run(moves).requests| == |CalledIds(moves)|
  {
    if moves != [] {
      var n := |moves| - 1;
      IdsOfRequests(moves[..n]);
      SameLengths(moves[..n]);
      IdsStep(Run(moves[..n]), moves[n]);
    }
  }

  lemma IdsStep(s: Client, m: Move)
    requires |s.requests| == |s.channels|
    ensures |Next(s, m).requests| == |s.requests| + if m.Call? && !Crashed(s) then 1 else 0
    ensures forall r | 0 <= r < |s.requests| :: Next(s, m).requests[r].id == s.requests[r].id
    ensures m.Call? && !Crashed(s) ==> Next(s, m).requests[|s.requests|].id == m.id
    ensures Crashed(s) ==> Crashed(Next(s, m))
  {
  }

  /** While IDs are distinct no registration is ever lost, so a response always finds its request. */
  lemma DistinctIdsStayFound(moves: seq<Move>)
    requires DistinctIds(CalledIds(moves))
    ensures NoneLost(Run(moves))
  {
    hide Run, CalledIds;
    var s := Run(moves);
    IdsOfRequests(moves);
    forall r | 0 <= r < |s.requests| && Live(s, r)
      ensures Found(s, r)
    {
      RunInv(moves);
      assert RequestOk(s, r);
      forall k | 0 <= k < |moves|
        ensures !DisturbedAt(moves, k, r)
      {
        NotDisturbed(moves, k, r);
      }
      FoundIffUndisturbed(moves, r);
    }
  }

  lemma NotDisturbed(moves: seq<Move>, k: nat, r: nat)
    requires k < |moves| && r < |Run(moves).requests| && Run(moves).requests[r].id != ""
    requires DistinctIds(CalledIds(moves))
    ensures !DisturbedAt(moves, k, r)
  {
    hide Run, CalledIds;
    if DisturbedAt(moves, k, r) {
      var q := moves[k].request;
      StageHistory(moves, k, r);
      StageHistory(moves, k, q);
      IdsOfRequests(moves);
    }
  }

  function Calls(ids: seq<string>): (moves: seq<Move>)
    ensures |moves| == |ids| && forall k | 0 <= k < |ids| :: moves[k] == Call(ids[k])
  {
    seq(|ids|, k requires 0 <= k < |ids| => Call(ids[k]))
  }

  /** All calls made, none registered yet. */
  function Waiting(ids: seq<string>): Client {
    INIT.(requests := seq(|ids|, k requires 0 <= k < |ids| => Request(ids[k], Registering)),
          channels := seq(|ids|, _ => Channel(true, None)))
  }

  lemma {:induction false} CallsRun(ids: seq<string>)
    ensures Run(Calls(ids)) == Waiting(ids) && CalledIds(Calls(ids)) == ids
  {
    if ids != [] {
      var n := |ids| - 1;
      CallsRun(ids[..n]);
      assert Calls(ids)[..n] == Calls(ids[..n]);
      assert Waiting(ids).requests == Waiting(ids[..n]).requests + [Request(ids[n], Registering)];
      assert Waiting(ids).channels == Waiting(ids[..n]).channels + [Channel(true, None)];
    }
  }

  lemma RunAppend(moves: seq<Move>, m: Move)
    ensures Run(moves + [m]) == Next(Run(moves), m)
    ensures CalledIds(moves + [m]) == CalledIds(moves) + if m.Call? then [m.id] else []
  {
    assert (moves + [m])[..|moves|] == moves;
  }

  /** The second of two calls with one ID overwrites the registration of the first. */
  lemma OverwriteLoses(ids: seq<string>, i: nat, j: nat)
    requires i < j < |ids| && ids[i] == ids[j] != ""
    ensures
      var s := Next(Next(Waiting(ids), Proceed(i, true)), Proceed(j, true));
      |s.requests| == |ids| && Live(s, i) && !Found(s, i)
  {
  }

  /** Whatever senders, receiver and disconnects do, every live request can be found: exactly when the IDs
      in use are distinct. */
  lemma SafeIdsIff(ids: seq<string>)
    ensures (forall moves | CalledIds(moves) == ids :: NoneLost(Run(moves))) <==> DistinctIds(ids)
  {
    hide Run, CalledIds, Next;
    if DistinctIds(ids) {
      forall moves | CalledIds(moves) == ids
        ensures NoneLost(Run(moves))
      {
        DistinctIdsStayFound(moves);
      }
    } else {
      var i, j :| 0 <= i < j < |ids| && ids[i] == ids[j] != "";
      var calls := Calls(ids);
      CallsRun(ids);
      RunAppend(calls, Proceed(i, true));
      RunAppend(calls + [Proceed(i, true)], Proceed(j, true));
      OverwriteLoses(ids, i, j);
      var moves := calls + [Proceed(i, true)] + [Proceed(j, true)];
      assert CalledIds(moves) == ids && !NoneLost(Run(moves));
    }
  }

  /** Two calls with the ID "a", both registered and waiting. */
  function BothWaiting(stage: Stage, table: map<string, nat>): Client {
    Client(true, false, table, [Channel(true, None), Channel(true, None)],
           [Request("a", stage), Request("a", Awaiting)], {}, false, {})
  }

  lemma CollisionSteps()
    ensures
      var s := Next(Next(Next(INIT, Connect), Call("a")), Call("a"));
      Next(Next(s, Proceed(0, true)), Proceed(0, true))
      == Client(true, false, map["a" := 0], [Channel(true, None), Channel(true, None)],
                [Request("a", Awaiting), Request("a", Registering)], {}, false, {})
    ensures
      var s := Client(true, false, map["a" := 0], [Channel(true, None), Channel(true, None)],
                      [Request("a", Awaiting), Request("a", Registering)], {}, false, {});
      Next(Next(s, Proceed(1, true)), Proceed(1, true)) == BothWaiting(Awaiting, map["a" := 1])
    ensures Next(BothWaiting(Awaiting, map["a" := 1]), Proceed(0, true))
         == BothWaiting(Unregistering(Failed), map["a" := 1])
    ensures Next(BothWaiting(Unregistering(Failed), map["a" := 1]), Proceed(0, true))
         == BothWaiting(Closing(Failed), map[])
  {
    assert map["a" := 1] - {"a"} == map[];
  }

  function CollisionMoves(): seq<Move> {
    [Connect, Call("a"), Call("a"), Proceed(0, true), Proceed(0, true), Proceed(1, true), Proceed(1, true),
     Proceed(0, true), Proceed(0, true)]
  }

  lemma CollisionRun()
    ensures Run(CollisionMoves()) == BothWaiting(Closing(Failed), map[])
  {
    hide Next, BothWaiting;
    CollisionSteps();
    var moves := CollisionMoves();
    assert moves[..0] == [];
    RunPrefix(moves, 0);
    RunPrefix(moves, 1);
    RunPrefix(moves, 2);
    RunPrefix(moves, 3);
    RunPrefix(moves, 4);
    RunPrefix(moves, 5);
    RunPrefix(moves, 6);
    RunPrefix(moves, 7);
    RunPrefix(moves, 8);
    assert moves[..9] == moves;
  }

  /** Such a run: two calls with one ID register and wait; the first times out and unregisters. The second
      still waits, but its entry is gone, so no response reaches it any more. */
  lemma TimeoutTakesOtherRegistration(body: int)
    ensures
      var s := Run(CollisionMoves());
      && |s.requests| == 2 && s.requests[1] == Request("a", Awaiting) && Live(s, 1) && !Found(s, 1)
      && Next(s, Deliver(Message("a", body))) == s
  {
    hide Run, CollisionMoves;
    CollisionRun();
  }

  // ----- A response reaches its request -----

  /** A request waiting with an empty channel gets the next response that carries its ID, and returns it. */
  lemma ResponseReturned(s: Client, r: nat, m: Message)
    requires Inv(s) && !Crashed(s) && Live(s, r) && Found(s, r) && s.requests[r].stage.Awaiting?
    requires r < |s.channels| && s.channels[r].buffer == None && m.id == s.requests[r].id
    ensures
      var t := Next(Next(Next(Next(s, Deliver(m)), TakeReply(r)), Proceed(r, true)), Proceed(r, true));
      !Crashed(t) && r < |t.requests| && t.requests[r].stage == Returned(Reply(m))
  {
    assert RequestOk(s, r);
    hide Inv, RequestOk;
    var a := Next(s, Deliver(m));
    assert a == s.(channels := s.channels[r := Channel(true, Some(m))]);
    var b := Next(a, TakeReply(r));
    assert !Crashed(b) && b.requests[r].stage == Unregistering(Reply(m)) && b.channels[r].open;
    var c := Next(b, Proceed(r, true));
    assert !Crashed(c) && c.requests[r].stage == Closing(Reply(m)) && c.channels[r].open;
  }

  /** A delivery that the table leads to request `r`. */
  predicate Delivers(s: Client, m: Move, r: nat) {
    !Crashed(s) && m.Deliver? && m.message.id != "" && m.message.id in s.table && s.table[m.message.id] == r
  }

  /** The first message of a run that was delivered to request `r`. */
  function FirstTo(moves: seq<Move>, r: nat): Option<Message> {
    if moves == [] then None
    else
      var front, m := moves[..|moves| - 1], moves[|moves| - 1];
      if FirstTo(front, r).Some? then FirstTo(front, r)
      else if Delivers(Run(front), m, r) then Some(m.message)
      else None
  }

  /** What a request holds or has taken is the first message delivered to it. */
  predicate Takes(s: Client, r: nat, first: Option<Message>)
    requires r < |s.requests| && r < |s.channels|
  {
    match s.requests[r].stage
    case Registering => first == None && s.channels[r].buffer == None
    case Sending => s.channels[r].buffer == first
    case Awaiting => s.channels[r].buffer == first
    case _ => OutcomeOf(s.requests[r].stage).Reply? ==> first == Some(OutcomeOf(s.requests[r].stage).message)
  }

  lemma ProceedTakes(s: Client, q: nat, ok: bool, r: nat, first: Option<Message>)
    requires |s.requests| == |s.channels| && q < |s.requests| && r < |s.requests| && Takes(s, r, first)
    ensures
      var t := ProceedRequest(s, q, ok);
      r < |t.requests| && r < |t.channels| && Takes(t, r, first)
  {
    ProceedFrame(s, q, ok);
    if q != r {
      hide ProceedRequest;
      var t := ProceedRequest(s, q, ok);
      assert t.requests[r] == s.requests[r] && t.channels[r] == s.channels[r];
    }
  }

  lemma ReceiveTakes(s: Client, q: nat, r: nat, first: Option<Message>)
    requires |s.requests| == |s.channels| && q < |s.requests| && r < |s.requests| && Takes(s, r, first)
    ensures
      var t := Receive(s, q);
      r < |t.requests| && r < |t.channels| && Takes(t, r, first)
  {
  }

  lemma DeliverTakes(s: Client, m: Message, r: nat, first: Option<Message>)
    requires Inv(s) && !Crashed(s) && r < |s.requests| && Takes(s, r, first)
    ensures
      var t := DeliverMessage(s, m);
      && r < |t.requests| && r < |t.channels|
      && Takes(t, r, if first.Some? then first else if Delivers(s, Deliver(m), r) then Some(m) else None)
  {
    assert RequestOk(s, r);
    if m.id in s.table {
      assert EntryOk(s, m.id);
      assert RequestOk(s, s.table[m.id]);
    }
    hide Inv, RequestOk;
  }

  lemma TakesStep(s: Client, m: Move, r: nat, first: Option<Message>)
    requires Inv(s) && r < |s.requests| && Takes(s, r, first)
    ensures
      var t := Next(s, m);
      && r < |t.requests| && r < |t.channels|
      && Takes(t, r, if first.Some? then first else if Delivers(s, m, r) then Some(m.message) else None)
  {
    InvFacts(s);
    hide Inv, ProceedRequest, Receive, DeliverMessage;
    if !Crashed(s) {
      match m
      case Proceed(q, ok) => if q < |s.requests| { ProceedTakes(s, q, ok, r, first); }
      case TakeReply(q) => if q < |s.requests| { ReceiveTakes(s, q, r, first); }
      case Deliver(message) => DeliverTakes(s, message, r, first);
      case _ =>
    }
  }

  lemma NewTakesNothing(s: Client, m: Move, r: nat)
    requires Inv(s) && |s.requests| <= r < |Next(s, m).requests|
    ensures r < |Next(s, m).channels| && Takes(Next(s, m), r, None) && !Delivers(s, m, r)
  {
    IdsStep(s, m);
  }

  lemma {:induction false} NoneBefore(moves: seq<Move>, r: nat)
    requires r >= |Run(moves).requests|
    ensures FirstTo(moves, r) == None
  {
    if moves != [] {
      var n := |moves| - 1;
      var s := Run(moves[..n]);
      RunInv(moves[..n]);
      InvFacts(s);
      IdsStep(s, moves[n]);
      NoneBefore(moves[..n], r);
      assert forall id | id in s.table :: EntryOk(s, id);
    }
  }

  /** In every run each request holds or has taken the first message delivered to it. */
  lemma {:induction false} TakesFirst(moves: seq<Move>, r: nat)
    requires r < |Run(moves).requests|
    ensures r < |Run(moves).channels| && Takes(Run(moves), r, FirstTo(moves, r))
  {
    hide Inv, Next, Takes, Delivers;
    var n := |moves| - 1;
    var s := Run(moves[..n]);
    RunInv(moves[..n]);
    if r < |s.requests| {
      TakesFirst(moves[..n], r);
      TakesStep(s, moves[n], r, FirstTo(moves[..n], r));
    } else {
      NoneBefore(moves[..n], r);
      NewTakesNothing(s, moves[n], r);
    }
  }

  /** So the message a call returns is the first one delivered to it, and a call that waits is given that
      message as soon as it receives. */
  lemma FirstMessageReturned(moves: seq<Move>, r: nat)
    requires r < |Run(moves).requests|
    ensures
      var s := Run(moves);
      var stage := s.requests[r].stage;
      && (stage.Returned? && stage.outcome.Reply? ==> FirstTo(moves, r) == Some(stage.outcome.message))
      && (stage.Awaiting? && FirstTo(moves, r).Some? && !Crashed(s) ==>
            var t := Next(s, TakeReply(r));
            r < |t.requests| && t.requests[r].stage == Unregistering(Reply(FirstTo(moves, r).value)))
  {
    hide Run, FirstTo;
    TakesFirst(moves, r);
  }

  // ----- Nothing is sent without a connection -----

  /** No request waits for or has a reply. */
  predicate NoReplies(s: Client) {
    && !s.connected && !s.disconnecting
    && forall r | 0 <= r < |s.requests| ::
         !s.requests[r].stage.Awaiting? && !OutcomeOf(s.requests[r].stage).Reply?
  }

  lemma StaysOffline(s: Client, m: Move)
    requires NoReplies(s) && m != Connect
    ensures NoReplies(Next(s, m))
  {
  }

  /** Before the first Connect no call gets as far as waiting, and none returns a message. */
  lemma {:induction false} OfflineNoReplies(moves: seq<Move>)
    requires Connect !in moves
    ensures NoReplies(Run(moves))
  {
    hide Next;
    if moves != [] {
      var n := |moves| - 1;
      assert forall m | m in moves[..n] :: m in moves;
      OfflineNoReplies(moves[..n]);
      StaysOffline(Run(moves[..n]), moves[n]);
    }
  }

  /** In every run a disconnect that is under way keeps the client offline until it is complete. */
  lemma {:induction false} OfflineWhileDisconnecting(moves: seq<Move>)
    ensures Run(moves).disconnecting ==> !Run(moves).connected
  {
    if moves != [] {
      OfflineWhileDisconnecting(moves[..|moves| - 1]);
    }
  }

  /** A disconnect keeps senders waiting until it has swept the table; afterwards their send fails. */
  lemma SendsWaitForDisconnect(s: Client, r: nat, ok: bool)
    requires |s.requests| == |s.channels| && r < |s.requests| && s.requests[r].stage.Sending? && !Crashed(s)
    ensures s.disconnecting ==> Next(s, Proceed(r, ok)) == s
    ensures !s.disconnecting && !s.connected ==>
      var t := Next(s, Proceed(r, ok));
      r < |t.requests| && t.requests[r].stage == Unregistering(Failed)
  {
  }

  /** Closing panics exactly for requests a disconnect swept while they were registered: a request about
      to close its channel panics if and only if it was swept. */
  lemma CloseTwiceIffSwept(moves: seq<Move>, r: nat)
    requires var s := Run(moves); !Crashed(s) && r < |s.requests| && s.requests[r].stage.Closing?
    ensures
      var s := Run(moves);
      r in Next(s, Proceed(r, true)).closedTwice <==> r in s.swept
  {
    hide Run;
    RunInv(moves);
    assert RequestOk(Run(moves), r);
  }

  /** Without a disconnect sweep no run ever crashes. */
  lemma {:induction false} NoSweepNoCrash(moves: seq<Move>)
    requires DisconnectSweep !in moves
    ensures !Crashed(Run(moves)) && Run(moves).swept == {}
  {
    hide Inv;
    if moves != [] {
      var n := |moves| - 1;
      assert forall m | m in moves[..n] :: m in moves;
      NoSweepNoCrash(moves[..n]);
      SweptOnlyBySweep(Run(moves[..n]), moves[n]);
    }
    RunInv(moves);
    InvFacts(Run(moves));
  }

  lemma InvFacts(s: Client)
    ensures Inv(s) ==> |s.requests| == |s.channels| && !s.sentOnClosed && forall r | r in s.closedTwice :: r in s.swept
  {
  }

  lemma SweptOnlyBySweep(s: Client, m: Move)
    requires !m.DisconnectSweep?
    ensures Next(s, m).swept == s.swept
  {
  }

  /** A disconnect with one request pending: the sweep closes its channel, the request receives nothing,
      returns no message and no error, and its own close panics. */
  lemma PendingRequestCrashes()
    ensures
      var moves := [Connect, Call("a"), Proceed(0, true), Proceed(0, true), DisconnectBegin, DisconnectSweep,
                    TakeReply(0), Proceed(0, true), Proceed(0, true)];
      Crashed(Run(moves)) && 0 in Run(moves).closedTwice
  {
    CrashSteps();
    hide Next;
    var moves := [Connect, Call("a"), Proceed(0, true), Proceed(0, true), DisconnectBegin, DisconnectSweep,
                  TakeReply(0), Proceed(0, true), Proceed(0, true)];
    assert moves[..0] == [];
    RunPrefix(moves, 0);
    RunPrefix(moves, 1);
    RunPrefix(moves, 2);
    RunPrefix(moves, 3);
    RunPrefix(moves, 4);
    RunPrefix(moves, 5);
    RunPrefix(moves, 6);
    RunPrefix(moves, 7);
    RunPrefix(moves, 8);
    assert moves[..9] == moves;
  }

  /** The states of that run. */
  function Pending(connected: bool, disconnecting: bool, stage: Stage): Client {
    Client(connected, disconnecting, map["a" := 0], [Channel(true, None)], [Request("a", stage)], {}, false, {})
  }

  function SweptPending(stage: Stage, closedTwice: set<nat>): Client {
    Client(false, false, map[], [Channel(false, None)], [Request("a", stage)], {0}, false, closedTwice)
  }

  lemma CrashSteps()
    ensures Next(Next(Next(INIT, Connect), Call("a")), Proceed(0, true)) == Pending(true, false, Sending)
    ensures Next(Pending(true, false, Sending), Proceed(0, true)) == Pending(true, false, Awaiting)
    ensures Next(Pending(true, false, Awaiting), DisconnectBegin) == Pending(false, true, Awaiting)
    ensures Next(Pending(false, true, Awaiting), DisconnectSweep) == SweptPending(Awaiting, {})
    ensures Next(SweptPending(Awaiting, {}), TakeReply(0)) == SweptPending(Unregistering(NilReply), {})
    ensures Next(SweptPending(Unregistering(NilReply), {}), Proceed(0, true)) == SweptPending(Closing(NilReply), {})
    ensures Next(SweptPending(Closing(NilReply), {}), Proceed(0, true)) == SweptPending(Closing(NilReply), {0})
  {
    var s := Pending(false, true, Awaiting);
    assert s.table["a"] == 0 && 0 in s.table.Values;
    assert Sweep(s).channels == [Channel(false, None)];
    assert Sweep(s).swept == {0};
    assert SweptPending(Awaiting, {}).table - {"a"} == map[];
  }

  lemma RunPrefix(moves: seq<Move>, k: nat)
    requires k < |moves|
    ensures Run(moves[..k + 1]) == Next(Run(moves[..k]), moves[k])
  {
    assert moves[..k + 1][..k] == moves[..k];
  }
}
