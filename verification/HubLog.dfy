/** What the goroutines did: every broadcast is accounted for once per recipient, and frames reach subscribed, open
    clients only. */
module HubLog {
  import opened Hub
  import opened HubProgress

  /** A client as its log entries make it. */
  function Replayed(log: seq<Entry>, conn: Conn): Client {
    if log == [] then NEW_CLIENT
    else
      var c, e := Replayed(log[..|log| - 1], conn), log[|log| - 1];
      if e.conn == conn then After(c, e.job, e.outcome) else c
  }

  predicate SameAs(c: Client, d: Client) {
    c.topics == d.topics && c.isClosing == d.isClosing
  }

  ghost predicate Replays(h: Hub) {
    && (forall conn :: conn in h.clients ==> SameAs(h.clients[conn], Replayed(h.log, conn)))
    && (forall e :: e in h.log ==> e.conn in h.clients && (e.id.DeliveryTo? ==> Addressed(h, e.id, e.conn, e.job)))
  }

  /** The outcome is the one the client's state at that moment calls for. */
  ghost predicate Justified(log: seq<Entry>, k: nat)
    requires k < |log|
  {
    log[k].outcome == OutcomeOf(Replayed(log[..k], log[k].conn), log[k].job, log[k].outcome.Written?)
  }

  ghost predicate AllJustified(log: seq<Entry>) {
    forall k :: 0 <= k < |log| ==> Justified(log, k)
  }

  function LogCount(log: seq<Entry>, id: TaskId): nat {
    if log == [] then 0 else LogCount(log[..|log| - 1], id) + if log[|log| - 1].id == id then 1 else 0
  }

  predicate Issued(h: Hub, id: TaskId) {
    match id
    case Numbered(n) => n < h.nextTask
    case DeliveryTo(b, conn) => b in h.recipients && conn in h.recipients[b]
  }

  predicate Pending(h: Hub, id: TaskId) {
    id in h.tasks && h.tasks[id].phase != Blocked
  }

  predicate Settled(h: Hub, id: TaskId) {
    Issued(h, id) && !Pending(h, id)
  }

  /** Each goroutine ever started has left exactly one entry, once it has acted, and nothing else has left any. */
  ghost predicate Accounted(h: Hub) {
    forall id :: LogCount(h.log, id) == if Settled(h, id) then 1 else 0
  }

  ghost predicate LogInv(h: Hub) {
    Replays(h) && AllJustified(h.log) && Accounted(h)
  }

  // ---------------------------------------------------------------- steps

  lemma ReplaysFrame(h: Hub, next: Hub)
    requires Replays(h) && next.log == h.log
    requires forall conn :: conn in h.clients ==> conn in next.clients && SameAs(next.clients[conn], h.clients[conn])
    requires forall conn :: conn in next.clients ==> conn in h.clients
    requires h.posted <= next.posted
    requires forall b :: b in h.recipients ==> b in next.recipients && next.recipients[b] == h.recipients[b]
    ensures Replays(next)
  {
  }

  lemma AccountedFrame(h: Hub, next: Hub)
    requires Accounted(h) && next.log == h.log
    requires forall id :: Settled(next, id) <==> Settled(h, id)
    ensures Accounted(next)
  {
  }

  lemma {:induction false} ReplayedNone(log: seq<Entry>, conn: Conn)
    requires forall e :: e in log ==> e.conn != conn
    ensures Replayed(log, conn) == NEW_CLIENT
  {
    if log != [] {
      assert log[|log| - 1] in log;
      ReplayedNone(log[..|log| - 1], conn);
    }
  }

  lemma RegisterLogged(h: Hub, conn: Conn)
    requires Inv(h) && LogInv(h) && IsAt(h, conn, Registering)
    ensures LogInv(Registered(h, conn))
  {
    var next := Registered(h, conn);
    assert ReaderInv(h, conn);
    ReplayedNone(h.log, conn);
    AccountedFrame(h, next);
  }

  lemma RequestLogged(h: Hub, conn: Conn)
    requires Inv(h) && LogInv(h) && conn in h.readers && h.readers[conn].Sending?
    ensures LogInv(Requested(h, conn))
  {
    var next := Requested(h, conn);
    ReplaysFrame(h, next);
    var id := Numbered(h.nextTask);
    assert id in h.tasks ==> TaskInv(h, id);
    AccountedFrame(h, next);
  }

  lemma BroadcastLogged(h: Hub, b: nat)
    requires Inv(h) && LogInv(h) && b in h.inbox
    ensures LogInv(Broadcasted(h, b))
  {
    var next := Broadcasted(h, b);
    ReplaysFrame(h, next);
    forall id ensures Settled(next, id) <==> Settled(h, id) {
      assert id in h.tasks ==> TaskInv(h, id);
    }
    AccountedFrame(h, next);
  }

  lemma AcquireLogged(h: Hub, id: TaskId)
    requires Inv(h) && LogInv(h) && InPhase(h, id, Waiting) && h.tasks[id].conn in h.clients
    ensures LogInv(Acquired(h, id))
  {
  }

  lemma UnregisterTaskLogged(h: Hub, id: TaskId)
    requires Inv(h) && LogInv(h) && InPhase(h, id, Blocked) && h.tasks[id].conn in h.clients
    ensures LogInv(UnregisteredByTask(h, id))
  {
    ReplaysFrame(h, UnregisteredByTask(h, id));
    AccountedFrame(h, UnregisteredByTask(h, id));
  }

  lemma LogCountNext(log: seq<Entry>, e: Entry, id: TaskId)
    ensures LogCount(log + [e], id) == LogCount(log, id) + if e.id == id then 1 else 0
  {
  }

  lemma ReplayedNext(log: seq<Entry>, e: Entry, conn: Conn)
    ensures Replayed(log + [e], conn)
         == if e.conn == conn then After(Replayed(log, conn), e.job, e.outcome) else Replayed(log, conn)
  {
  }

  lemma JustifiedNext(log: seq<Entry>, e: Entry)
    requires AllJustified(log) && e.outcome == OutcomeOf(Replayed(log, e.conn), e.job, e.outcome.Written?)
    ensures AllJustified(log + [e])
  {
    var longer := log + [e];
    forall k | 0 <= k < |longer| ensures Justified(longer, k) {
      assert longer[..k] == log[..k];
      assert k < |log| ==> Justified(log, k);
      assert log[..|log|] == log;
    }
  }

  lemma FinishSettles(h: Hub, id: TaskId, ok: bool, k: TaskId)
    requires Inv(h) && InPhase(h, id, Holding) && h.tasks[id].conn in h.clients
    ensures !Settled(h, id)
    ensures Settled(Finished(h, id, ok), k) <==> Settled(h, k) || k == id
  {
    assert TaskInv(h, id);
  }

  lemma FinishAccounted(h: Hub, id: TaskId, ok: bool)
    requires Inv(h) && Accounted(h) && InPhase(h, id, Holding) && h.tasks[id].conn in h.clients
    ensures Accounted(Finished(h, id, ok))
  {
    var t := h.tasks[id];
    var e := Entry(id, t.conn, t.job, OutcomeOf(h.clients[t.conn], t.job, ok));
    var next := Finished(h, id, ok);
    assert next.log == h.log + [e];
    forall k ensures LogCount(next.log, k) == if Settled(next, k) then 1 else 0 {
      LogCountNext(h.log, e, k);
      FinishSettles(h, id, ok, k);
      assert LogCount(h.log, k) == if Settled(h, k) then 1 else 0;
    }
  }

  lemma AfterSame(c: Client, d: Client, job: Job, outcome: Outcome)
    requires SameAs(c, d)
    ensures SameAs(After(c, job, outcome), After(d, job, outcome))
  {
  }

  lemma FinishedClient(h: Hub, id: TaskId, ok: bool, conn: Conn, outcome: Outcome)
    requires id in h.tasks && h.tasks[id].conn in h.clients && conn in h.clients
    requires outcome == OutcomeOf(h.clients[h.tasks[id].conn], h.tasks[id].job, ok)
    ensures conn in Finished(h, id, ok).clients
    ensures SameAs(Finished(h, id, ok).clients[conn],
                   if conn == h.tasks[id].conn then After(h.clients[conn], h.tasks[id].job, outcome)
                     else h.clients[conn])
  {
  }

  /** Topics and closing flag of every client after one more entry. */
  lemma ClientsReplay(h: Hub, id: TaskId, ok: bool, conn: Conn)
    requires Replays(h) && id in h.tasks && h.tasks[id].conn in h.clients && conn in h.clients
    ensures conn in Finished(h, id, ok).clients
    ensures SameAs(Finished(h, id, ok).clients[conn], Replayed(Finished(h, id, ok).log, conn))
  {
    var job, outcome := h.tasks[id].job, OutcomeOf(h.clients[h.tasks[id].conn], h.tasks[id].job, ok);
    FinishedClient(h, id, ok, conn, outcome);
    ReplayedNext(h.log, Entry(id, h.tasks[id].conn, job, outcome), conn);
    AfterSame(h.clients[conn], Replayed(h.log, conn), job, outcome);
  }

  lemma FinishReplays(h: Hub, id: TaskId, ok: bool)
    requires Inv(h) && Replays(h) && InPhase(h, id, Holding) && h.tasks[id].conn in h.clients
    ensures Replays(Finished(h, id, ok))
  {
    var next := Finished(h, id, ok);
    assert next.clients.Keys == h.clients.Keys;
    forall conn | conn in next.clients
      ensures SameAs(next.clients[conn], Replayed(next.log, conn))
    {
      ClientsReplay(h, id, ok, conn);
    }
    forall e | e in next.log
      ensures e.conn in next.clients && (e.id.DeliveryTo? ==> Addressed(next, e.id, e.conn, e.job))
    {
      assert e in h.log || (e.id == id && TaskInv(h, id));
    }
  }

  lemma FinishLogged(h: Hub, id: TaskId, ok: bool)
    requires Inv(h) && LogInv(h) && InPhase(h, id, Holding) && h.tasks[id].conn in h.clients
    ensures LogInv(Finished(h, id, ok))
  {
    var t := h.tasks[id];
    var e := Entry(id, t.conn, t.job, OutcomeOf(h.clients[t.conn], t.job, ok));
    assert SameAs(h.clients[t.conn], Replayed(h.log, t.conn));
    JustifiedNext(h.log, e);
    FinishAccounted(h, id, ok);
    FinishReplays(h, id, ok);
  }

  lemma UnloggedMove(h: Hub, next: Hub)
    requires LogInv(h) && next.log == h.log && next.clients == h.clients && next.tasks == h.tasks
    requires next.nextTask == h.nextTask && next.recipients == h.recipients && h.posted <= next.posted
    ensures LogInv(next)
  {
  }

  lemma StepLogged(h: Hub, s: Step)
    requires Inv(h) && LogInv(h) && Enabled(h, s)
    ensures LogInv(Apply(h, s))
  {
    match s
    case HubRegister(conn) => RegisterLogged(h, conn);
    case HubRequest(conn) => RequestLogged(h, conn);
    case HubBroadcast(b) => BroadcastLogged(h, b);
    case HubUnregisterTask(id) => UnregisterTaskLogged(h, id);
    case Acquire(id) => AcquireLogged(h, id);
    case Finish(id, ok) => FinishLogged(h, id, ok);
    case Connect(conn) => UnloggedMove(h, Apply(h, s));
    case ReaderSends(_, _) => UnloggedMove(h, Apply(h, s));
    case ReaderPings(_) => UnloggedMove(h, Apply(h, s));
    case ReaderStops(_) => UnloggedMove(h, Apply(h, s));
    case PostBroadcast(_) => UnloggedMove(h, Apply(h, s));
    case HubUnregisterReader(_) => UnloggedMove(h, Apply(h, s));
    case PingDone(_) => UnloggedMove(h, Apply(h, s));
  }

  lemma {:induction false} RunLogged(h: Hub, steps: seq<Step>)
    requires Inv(h) && LogInv(h) && Runs(h, steps)
    ensures LogInv(RunAll(h, steps))
    decreases |steps|
  {
    if steps != [] {
      StepKeeps(h, steps[0]);
      StepLogged(h, steps[0]);
      RunLogged(Apply(h, steps[0]), steps[1..]);
    }
  }

  // ---------------------------------------------------------------- what the log says

  lemma StartLogged()
    ensures Inv(EMPTY) && LogInv(EMPTY)
  {
  }

  /** In every run: once a broadcast's goroutines have acted, each connection registered when the hub received it has
      exactly one entry for it (written, not subscribed, closing or failed), and no other connection has any. */
  lemma EveryBroadcastAccounted(steps: seq<Step>, b: nat, conn: Conn)
    requires Runs(EMPTY, steps)
    requires var h := RunAll(EMPTY, steps); b in h.recipients && !Pending(h, DeliveryTo(b, conn))
    ensures var h := RunAll(EMPTY, steps);
            LogCount(h.log, DeliveryTo(b, conn)) == if conn in h.recipients[b] then 1 else 0
  {
    StartLogged();
    RunLogged(EMPTY, steps);
  }

  /** When nothing is outstanding, every broadcast ever posted is accounted for: each of its recipients has exactly one
      entry for it, under that broadcast's topic. */
  lemma DrainedBroadcasts(steps: seq<Step>, b: nat, conn: Conn)
    requires Runs(EMPTY, steps)
    requires var h := RunAll(EMPTY, steps); !Outstanding(h) && b < |h.posted|
    ensures var h := RunAll(EMPTY, steps);
            b in h.recipients && LogCount(h.log, DeliveryTo(b, conn)) == if conn in h.recipients[b] then 1 else 0
    ensures var h := RunAll(EMPTY, steps);
            forall e :: e in h.log && e.id == DeliveryTo(b, conn) ==> e.conn == conn && e.job == Deliver(h.posted[b])
  {
    var h := RunAll(EMPTY, steps);
    StartLogged();
    RunLogged(EMPTY, steps);
    assert DeliveryTo(b, conn) !in h.tasks;
    EveryBroadcastAccounted(steps, b, conn);
  }

  /** The connections a broadcast is for are those registered when the hub received it, for good. */
  lemma RecipientsFixed(h: Hub, s: Step, b: nat)
    requires Inv(h) && Enabled(h, s)
    ensures b in h.recipients ==> b in Apply(h, s).recipients && Apply(h, s).recipients[b] == h.recipients[b]
    ensures b !in h.recipients && b in Apply(h, s).recipients
        ==> s == HubBroadcast(b) && Apply(h, s).recipients[b] == h.registered
  {
  }

  /** A topic is in the set when the connection's last word on it was to join. */
  lemma {:induction false} LastWordCounts(log: seq<Entry>, conn: Conn, t: Topic)
    ensures t in Replayed(log, conn).topics
      <==> exists j :: 0 <= j < |log| && log[j].conn == conn && log[j].job == Join(t) && NoLeaveAfter(log, j, conn, t)
  {
    if log != [] {
      var init, last := log[..|log| - 1], log[|log| - 1];
      LastWordCounts(init, conn, t);
      forall j | 0 <= j < |init|
        ensures NoLeaveAfter(log, j, conn, t)
           <==> NoLeaveAfter(init, j, conn, t) && !(last.conn == conn && last.job == Leave(t))
      {
      }
      assert NoLeaveAfter(log, |init|, conn, t);
    }
  }

  ghost predicate NoLeaveAfter(log: seq<Entry>, j: nat, conn: Conn, t: Topic) {
    forall i :: j < i < |log| ==> !(log[i].conn == conn && log[i].job == Leave(t))
  }

  ghost predicate FailedBefore(log: seq<Entry>, k: nat, conn: Conn)
    requires k <= |log|
  {
    exists j :: 0 <= j < k && log[j].conn == conn && log[j].outcome.Failed?
  }

  lemma FailedNext(log: seq<Entry>, k: nat, conn: Conn)
    requires 0 < k <= |log|
    ensures FailedBefore(log, k, conn)
       <==> FailedBefore(log, k - 1, conn) || (log[k - 1].conn == conn && log[k - 1].outcome.Failed?)
  {
  }

  lemma ReplayedUpTo(log: seq<Entry>, k: nat, conn: Conn)
    requires 0 < k <= |log|
    ensures var before, e := Replayed(log[..k - 1], conn), log[k - 1];
            Replayed(log[..k], conn) == if e.conn == conn then After(before, e.job, e.outcome) else before
  {
    assert log[..k] == log[..k - 1] + [log[k - 1]];
    ReplayedNext(log[..k - 1], log[k - 1], conn);
  }

  lemma {:induction false} ClosingIsFailed(log: seq<Entry>, conn: Conn, k: nat)
    requires AllJustified(log) && k <= |log|
    ensures Replayed(log[..k], conn).isClosing <==> FailedBefore(log, k, conn)
  {
    if k > 0 {
      ClosingIsFailed(log, conn, k - 1);
      FailedNext(log, k, conn);
      ReplayedUpTo(log, k, conn);
      assert Justified(log, k - 1);
    }
  }

  /** The connection's last word on the topic before the entry was to join. */
  ghost predicate JoinedBefore(log: seq<Entry>, k: nat, conn: Conn, t: Topic)
    requires k <= |log|
  {
    exists j :: 0 <= j < k && log[j].conn == conn && log[j].job == Join(t) && NoLeaveAfter(log[..k], j, conn, t)
  }

  predicate Tried(e: Entry) {
    e.outcome.Written? || e.outcome.Failed?
  }

  /** A text frame is tried exactly on a client that has not failed a write before, a broadcast's exactly on one that is
      subscribed then; what is skipped is skipped for the reason given. */
  lemma FramesAreDue(log: seq<Entry>, k: nat)
    requires AllJustified(log) && k < |log|
    ensures var e := log[k];
            match e.job
            case Join(_) => e.outcome.Done?
            case Leave(_) => e.outcome.Done?
            case EchoBack =>
              if FailedBefore(log, k, e.conn) then e.outcome.Closing? else Tried(e)
            case Deliver(t) =>
              if FailedBefore(log, k, e.conn) then e.outcome.Closing?
              else if JoinedBefore(log, k, e.conn, t) then Tried(e)
              else e.outcome.NotSubscribed?
  {
    assert Justified(log, k);
    ClosingIsFailed(log, log[k].conn, k);
    if log[k].job.Deliver? { JoinedIsSubscribed(log, k, log[k].conn, log[k].job.topic); }
  }

  lemma JoinedIsSubscribed(log: seq<Entry>, k: nat, conn: Conn, t: Topic)
    requires k <= |log|
    ensures JoinedBefore(log, k, conn, t) <==> t in Replayed(log[..k], conn).topics
  {
    LastWordCounts(log[..k], conn, t);
    assert forall j :: 0 <= j < k ==> log[..k][j] == log[j];
  }

  /** A goroutine leaves one entry under its own name and job, and a frame that was tried is written exactly if the
      socket took it. */
  lemma WriteTells(h: Hub, id: TaskId, ok: bool)
    requires id in h.tasks && h.tasks[id].conn in h.clients
    ensures var log := Finished(h, id, ok).log;
            && |log| == |h.log| + 1 && log[..|h.log|] == h.log
            && (var e := log[|h.log|];
                && e.id == id && e.conn == h.tasks[id].conn && e.job == h.tasks[id].job
                && (e.outcome.Written? ==> ok) && (e.outcome.Failed? ==> !ok))
  {
  }

  /** A publisher's broadcast waits under the next number and its own topic; received, it starts one goroutine for each
      registered connection, with that topic, and touches nothing else. */
  lemma BroadcastReachesRegistered(h: Hub, t: Topic, conn: Conn)
    requires Inv(h)
    ensures var posted := Apply(h, PostBroadcast(t));
            && Inv(posted) && posted.posted == h.posted + [t] && posted.inbox == h.inbox + {|h.posted|}
            && posted.tasks == h.tasks && posted.registered == h.registered && posted.readers == h.readers
            && posted.clients == h.clients
    ensures var received := Apply(Apply(h, PostBroadcast(t)), HubBroadcast(|h.posted|));
            && received.inbox == h.inbox
            && (conn in h.registered ==>
                  DeliveryTo(|h.posted|, conn) in received.tasks
                  && received.tasks[DeliveryTo(|h.posted|, conn)] == Task(conn, Deliver(t), Waiting))
            && (conn !in h.registered ==> DeliveryTo(|h.posted|, conn) !in received.tasks)
            && forall id :: id in h.tasks ==> id in received.tasks && received.tasks[id] == h.tasks[id]
  {
    PostKeeps(h, t);
    forall id | id in h.tasks ensures !(id.DeliveryTo? && id.broadcast == |h.posted|) { assert TaskInv(h, id); }
    assert h.inbox + {|h.posted|} - {|h.posted|} == h.inbox;
  }

  /** What a connection and its reader do: connect, ask the hub for something, ping, and leave, as they say. */
  lemma ReadersMove(h: Hub, conn: Conn, req: Request)
    requires Inv(h)
    ensures conn !in h.readers ==> IsAt(Apply(h, Connect(conn)), conn, Registering)
    ensures IsAt(h, conn, Reading) ==> IsAt(Apply(h, ReaderSends(conn, req)), conn, Sending(req))
    ensures IsAt(h, conn, Reading) ==> IsAt(Apply(h, ReaderPings(conn)), conn, Pinging)
    ensures IsAt(h, conn, Reading) ==> IsAt(Apply(h, ReaderStops(conn)), conn, Leaving)
    ensures IsAt(h, conn, Pinging) && Unlocked(h, conn) ==> IsAt(Apply(h, PingDone(conn)), conn, Reading)
    ensures IsAt(h, conn, Registering) ==>
              var next := Apply(h, HubRegister(conn));
              && IsAt(next, conn, Reading) && next.registered == h.registered + {conn}
              && conn in next.clients && next.clients[conn].topics == {} && !next.clients[conn].isClosing
    ensures IsAt(h, conn, Leaving) ==>
              var next := Apply(h, HubUnregisterReader(conn));
              IsAt(next, conn, Gone) && next.registered == h.registered - {conn}
  {
  }

  /** IsClosing is never taken back. */
  lemma ClosingStays(h: Hub, s: Step, conn: Conn)
    requires Inv(h) && Enabled(h, s) && conn in h.clients && h.clients[conn].isClosing
    ensures conn in Apply(h, s).clients && Apply(h, s).clients[conn].isClosing
  {
    if s.HubRegister? { assert ReaderInv(h, s.conn); }
  }

  /** A connection that has left the hub's map. */
  predicate Unregistered(h: Hub, conn: Conn) {
    conn in h.clients && conn !in h.registered
  }

  /** Once unregistered, a connection never enters the map again, in any run. */
  lemma {:induction false} NeverReenters(h: Hub, steps: seq<Step>, conn: Conn)
    requires Inv(h) && Runs(h, steps) && Unregistered(h, conn)
    ensures Unregistered(RunAll(h, steps), conn)
    decreases |steps|
  {
    if steps != [] {
      StepKeeps(h, steps[0]);
      StaysOut(h, steps[0], conn);
      NeverReenters(Apply(h, steps[0]), steps[1..], conn);
    }
  }

  lemma StaysOut(h: Hub, s: Step, conn: Conn)
    requires Inv(h) && Enabled(h, s) && Unregistered(h, conn)
    ensures Unregistered(Apply(h, s), conn)
  {
    if s.HubRegister? { assert ReaderInv(h, s.conn); }
  }
}
