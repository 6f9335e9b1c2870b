/** The websocket hub as a transition system: one loop, a goroutine per action holding the client's mutex, and one
    reader per connection. */
module Hub {
  import opened ByteText

  /** Connections are identities: each connect is a new one, even where the library hands out a pooled object again. */
  type Conn = nat
  type Topic = string

  datatype Request = Subscribe(topic: Topic) | Unsubscribe(topic: Topic) | Echo

  /** Where a connection's reader stands: sending on Register, reading, sending a request to the hub, waiting for the
      mutex in the ping handler, sending on Unregister as it returns, or returned. */
  datatype Reader = Registering | Reading | Sending(req: Request) | Pinging | Leaving | Gone

  datatype TaskId = Numbered(n: nat) | DeliveryTo(broadcast: nat, to: Conn)

  datatype Client = Client(isClosing: bool, topics: set<Topic>, holder: Option<TaskId>)

  datatype Job = Join(topic: Topic) | Leave(topic: Topic) | EchoBack | Deliver(topic: Topic)

  /** Before the lock, holding it, or holding it while sending on Unregister. */
  datatype Phase = Waiting | Holding | Blocked

  datatype Task = Task(conn: Conn, job: Job, phase: Phase)

  datatype Outcome = Done | Written | NotSubscribed | Closing | Failed

  datatype Entry = Entry(id: TaskId, conn: Conn, job: Job, outcome: Outcome)

  /** `registered` are the keys of the hub's client map; a client outlives its removal from that map in the goroutines
      that point to it. Broadcasts are numbered as they are posted, and `inbox` holds those whose sender is still
      waiting for the hub; `log` says what the goroutines did under their locks. */
  datatype Hub = Hub(
    readers: map<Conn, Reader>,
    registered: set<Conn>,
    clients: map<Conn, Client>,
    tasks: map<TaskId, Task>,
    nextTask: nat,
    posted: seq<Topic>,
    inbox: set<nat>,
    recipients: map<nat, set<Conn>>,
    log: seq<Entry>)

  const EMPTY := Hub(map[], {}, map[], map[], 0, [], {}, map[], [])
  const NEW_CLIENT := Client(false, {}, None)

  datatype Step =
    // what clients and publishers may do at any time
    | Connect(conn: Conn)
    | ReaderSends(conn: Conn, req: Request)
    | ReaderPings(conn: Conn)
    | ReaderStops(conn: Conn)
    | PostBroadcast(topic: Topic)
    // one turn of the hub's loop
    | HubRegister(conn: Conn)
    | HubRequest(conn: Conn)
    | HubBroadcast(number: nat)
    | HubUnregisterReader(conn: Conn)
    | HubUnregisterTask(id: TaskId)
    // one move of a goroutine or of a ping handler
    | Acquire(id: TaskId)
    | Finish(id: TaskId, writeOk: bool)
    | PingDone(conn: Conn)

  predicate Internal(s: Step) {
    !(s.Connect? || s.ReaderSends? || s.ReaderPings? || s.ReaderStops? || s.PostBroadcast?)
  }

  predicate IsAt(h: Hub, conn: Conn, r: Reader) {
    conn in h.readers && h.readers[conn] == r
  }

  predicate InPhase(h: Hub, id: TaskId, phase: Phase) {
    id in h.tasks && h.tasks[id].phase == phase
  }

  predicate Unlocked(h: Hub, conn: Conn) {
    conn in h.clients ==> h.clients[conn].holder.None?
  }

  predicate Enabled(h: Hub, s: Step) {
    match s
    case Connect(conn) => conn !in h.readers
    case ReaderSends(conn, _) => IsAt(h, conn, Reading)
    case ReaderPings(conn) => IsAt(h, conn, Reading)
    case ReaderStops(conn) => IsAt(h, conn, Reading)
    case PostBroadcast(_) => true
    case HubRegister(conn) => IsAt(h, conn, Registering)
    case HubRequest(conn) => conn in h.readers && h.readers[conn].Sending?
    case HubBroadcast(b) => b in h.inbox
    case HubUnregisterReader(conn) => IsAt(h, conn, Leaving)
    case HubUnregisterTask(id) => InPhase(h, id, Blocked)
    case Acquire(id) => InPhase(h, id, Waiting) && Unlocked(h, h.tasks[id].conn)
    case Finish(id, _) => InPhase(h, id, Holding) && h.tasks[id].conn in h.clients
    case PingDone(conn) => IsAt(h, conn, Pinging) && Unlocked(h, conn)
  }

  predicate Subscription(job: Job) {
    job.Join? || job.Leave?
  }

  function JobOf(req: Request): Job {
    match req
    case Subscribe(t) => Join(t)
    case Unsubscribe(t) => Leave(t)
    case Echo => EchoBack
  }

  /** What a goroutine holding the lock does, given how its socket write would go. */
  function OutcomeOf(c: Client, job: Job, writeOk: bool): Outcome {
    match job
    case Join(_) => Done
    case Leave(_) => Done
    case EchoBack => if c.isClosing then Closing else if writeOk then Written else Failed
    case Deliver(t) =>
      if c.isClosing then Closing else if t !in c.topics then NotSubscribed else if writeOk then Written else Failed
  }

  function After(c: Client, job: Job, outcome: Outcome): Client {
    match job
    case Join(t) => c.(topics := c.topics + {t})
    case Leave(t) => c.(topics := c.topics - {t})
    case _ => c.(isClosing := c.isClosing || outcome.Failed?)
  }

  function MoveReader(h: Hub, conn: Conn, r: Reader): Hub {
    h.(readers := h.readers[conn := r])
  }

  function Registered(h: Hub, conn: Conn): Hub {
    MoveReader(h, conn, Reading).(registered := h.registered + {conn}, clients := h.clients[conn := NEW_CLIENT])
  }

  function Requested(h: Hub, conn: Conn): Hub
    requires conn in h.readers && h.readers[conn].Sending?
  {
    var next := MoveReader(h, conn, Reading);
    if conn !in h.registered then next
    else next.(tasks := h.tasks[Numbered(h.nextTask) := Task(conn, JobOf(h.readers[conn].req), Waiting)],
               nextTask := h.nextTask + 1)
  }

  function Deliveries(number: nat, topic: Topic, to: set<Conn>): (d: map<TaskId, Task>)
    ensures forall id :: id in d <==> id.DeliveryTo? && id.broadcast == number && id.to in to
    ensures forall id :: id in d ==> d[id] == Task(id.to, Deliver(topic), Waiting)
  {
    map c | c in to :: DeliveryTo(number, c) := Task(c, Deliver(topic), Waiting)
  }

  function Broadcasted(h: Hub, number: nat): Hub
    requires number < |h.posted|
  {
    h.(inbox := h.inbox - {number},
       tasks := h.tasks + Deliveries(number, h.posted[number], h.registered),
       recipients := h.recipients[number := h.registered])
  }

  function Posted(h: Hub, topic: Topic): Hub {
    h.(posted := h.posted + [topic], inbox := h.inbox + {|h.posted|})
  }

  function Acquired(h: Hub, id: TaskId): Hub
    requires id in h.tasks && h.tasks[id].conn in h.clients
  {
    var t := h.tasks[id];
    h.(tasks := h.tasks[id := t.(phase := Holding)],
       clients := h.clients[t.conn := h.clients[t.conn].(holder := Some(id))])
  }

  /** A failing write closes the client and leaves the goroutine sending on Unregister under its lock; anything else
      lets go of the lock. */
  function Finished(h: Hub, id: TaskId, writeOk: bool): Hub
    requires id in h.tasks && h.tasks[id].conn in h.clients
  {
    var t := h.tasks[id];
    var c := h.clients[t.conn];
    var outcome := OutcomeOf(c, t.job, writeOk);
    var next := h.(log := h.log + [Entry(id, t.conn, t.job, outcome)]);
    if outcome.Failed? then
      next.(clients := h.clients[t.conn := After(c, t.job, outcome)], tasks := h.tasks[id := t.(phase := Blocked)])
    else
      next.(clients := h.clients[t.conn := After(c, t.job, outcome).(holder := None)], tasks := h.tasks - {id})
  }

  function UnregisteredByTask(h: Hub, id: TaskId): Hub
    requires id in h.tasks && h.tasks[id].conn in h.clients
  {
    var conn := h.tasks[id].conn;
    h.(registered := h.registered - {conn}, tasks := h.tasks - {id},
       clients := h.clients[conn := h.clients[conn].(holder := None)])
  }

  ghost function Apply(h: Hub, s: Step): Hub
    requires Inv(h) && Enabled(h, s)
  {
    assert forall id :: id in h.tasks ==> TaskInv(h, id);
    match s
    case Connect(conn) => MoveReader(h, conn, Registering)
    case ReaderSends(conn, req) => MoveReader(h, conn, Sending(req))
    case ReaderPings(conn) => MoveReader(h, conn, Pinging)
    case ReaderStops(conn) => MoveReader(h, conn, Leaving)
    case PostBroadcast(topic) => Posted(h, topic)
    case HubRegister(conn) => Registered(h, conn)
    case HubRequest(conn) => Requested(h, conn)
    case HubBroadcast(b) => Broadcasted(h, b)
    case HubUnregisterReader(conn) => MoveReader(h, conn, Gone).(registered := h.registered - {conn})
    case HubUnregisterTask(id) => UnregisteredByTask(h, id)
    case Acquire(id) => Acquired(h, id)
    case Finish(id, ok) => Finished(h, id, ok)
    case PingDone(conn) => MoveReader(h, conn, Reading)
  }

  // What every run keeps.

  predicate Locks(t: Task) {
    t.phase != Waiting
  }

  /** A delivery of a received broadcast to one of its recipients. */
  predicate Addressed(h: Hub, id: TaskId, conn: Conn, job: Job)
    requires id.DeliveryTo?
  {
    && id.to == conn && id.broadcast < |h.posted| && job == Deliver(h.posted[id.broadcast])
    && id.broadcast in h.recipients && conn in h.recipients[id.broadcast]
  }

  /** A goroutine points to a client, and has its mutex exactly when it is past the lock. */
  predicate TaskInv(h: Hub, id: TaskId)
    requires id in h.tasks
  {
    var t := h.tasks[id];
    && t.conn in h.clients
    && (Locks(t) <==> h.clients[t.conn].holder == Some(id))
    && (t.phase == Blocked ==> h.clients[t.conn].isClosing && !Subscription(t.job))
    && (id.Numbered? ==> id.n < h.nextTask && !t.job.Deliver?)
    && (id.DeliveryTo? ==> Addressed(h, id, t.conn, t.job))
  }

  /** A held mutex is held by a goroutine of that client; a client whose write failed is about to be unregistered, or
      is. */
  predicate ClientInv(h: Hub, conn: Conn)
    requires conn in h.clients
  {
    var c := h.clients[conn];
    && (c.holder.Some? ==> c.holder.value in h.tasks && h.tasks[c.holder.value].conn == conn)
    && (c.isClosing && conn in h.registered ==> c.holder.Some? && InPhase(h, c.holder.value, Blocked))
  }

  /** A client exists from its registration on; a reader that has returned is not registered. */
  predicate ReaderInv(h: Hub, conn: Conn)
    requires conn in h.readers
  {
    && (h.readers[conn] == Registering <==> conn !in h.clients)
    && (h.readers[conn] == Registering || h.readers[conn] == Gone ==> conn !in h.registered)
  }

  ghost predicate Inv(h: Hub) {
    && (forall conn :: conn in h.readers ==> ReaderInv(h, conn))
    && (forall conn :: conn in h.clients ==> conn in h.readers && ClientInv(h, conn))
    && (forall conn :: conn in h.registered ==> conn in h.clients)
    && (forall id :: id in h.tasks ==> TaskInv(h, id))
    && (forall b :: b in h.inbox ==> b < |h.posted|)
    && (forall b: nat :: b in h.recipients <==> b < |h.posted| && b !in h.inbox)
  }

  lemma ReaderMoveKeeps(h: Hub, conn: Conn, r: Reader)
    requires Inv(h) && conn in h.readers && h.readers[conn] != Registering && r != Registering
    requires r == Gone ==> conn !in h.registered
    ensures Inv(MoveReader(h, conn, r))
  {
  }

  lemma ConnectKeeps(h: Hub, conn: Conn)
    requires Inv(h) && conn !in h.readers
    ensures Inv(MoveReader(h, conn, Registering))
  {
  }

  lemma RegisterKeeps(h: Hub, conn: Conn)
    requires Inv(h) && IsAt(h, conn, Registering)
    ensures Inv(Registered(h, conn))
  {
    var next := Registered(h, conn);
    assert ReaderInv(h, conn);
    forall k | k in next.readers ensures ReaderInv(next, k) { assert ReaderInv(h, k); }
    forall k | k in next.clients
      ensures k in next.readers && ClientInv(next, k)
    {
      assert k != conn ==> ClientInv(h, k);
    }
    forall id | id in next.tasks ensures TaskInv(next, id) { assert TaskInv(h, id); }
  }

  lemma SpawnKeeps(h: Hub, conn: Conn, job: Job)
    requires Inv(h) && conn in h.registered && !job.Deliver?
    ensures Inv(h.(tasks := h.tasks[Numbered(h.nextTask) := Task(conn, job, Waiting)], nextTask := h.nextTask + 1))
  {
    var id := Numbered(h.nextTask);
    var next := h.(tasks := h.tasks[id := Task(conn, job, Waiting)], nextTask := h.nextTask + 1);
    assert id in h.tasks ==> TaskInv(h, id);
    assert ClientInv(h, conn);
    forall k | k in next.readers ensures ReaderInv(next, k) { assert ReaderInv(h, k); }
    forall k | k in next.clients ensures k in next.readers && ClientInv(next, k) { assert ClientInv(h, k); }
    forall k | k in next.tasks ensures TaskInv(next, k) { assert k != id ==> TaskInv(h, k); }
  }

  lemma BroadcastKeeps(h: Hub, b: nat)
    requires Inv(h) && b in h.inbox
    ensures Inv(Broadcasted(h, b))
  {
    var next := Broadcasted(h, b);
    var added := Deliveries(b, h.posted[b], h.registered);
    forall id | id in h.tasks ensures id !in added { assert TaskInv(h, id); }
    forall k | k in next.readers ensures ReaderInv(next, k) { assert ReaderInv(h, k); }
    forall k | k in next.clients ensures k in next.readers && ClientInv(next, k) { assert ClientInv(h, k); }
    forall id | id in next.tasks ensures TaskInv(next, id) {
      if id in added { assert ClientInv(h, id.to); } else { assert TaskInv(h, id); }
    }
  }

  lemma AcquireKeeps(h: Hub, id: TaskId)
    requires Inv(h) && InPhase(h, id, Waiting) && h.tasks[id].conn in h.clients && Unlocked(h, h.tasks[id].conn)
    ensures Inv(Acquired(h, id))
  {
    var next := Acquired(h, id);
    forall k | k in next.readers ensures ReaderInv(next, k) { assert ReaderInv(h, k); }
    forall k | k in next.clients ensures k in next.readers && ClientInv(next, k) { assert ClientInv(h, k); }
    forall k | k in next.tasks ensures TaskInv(next, k) { assert TaskInv(h, k); }
  }

  /** Letting go of the mutex and ending. */
  lemma ReleaseKeeps(h: Hub, id: TaskId, c: Client)
    requires Inv(h) && id in h.tasks && h.tasks[id].conn in h.clients && Locks(h.tasks[id])
    requires c.holder.None? && (c.isClosing ==> h.tasks[id].conn !in h.registered)
    requires h.clients[h.tasks[id].conn].isClosing ==> c.isClosing
    ensures Inv(h.(tasks := h.tasks - {id}, clients := h.clients[h.tasks[id].conn := c]))
  {
    var next := h.(tasks := h.tasks - {id}, clients := h.clients[h.tasks[id].conn := c]);
    assert TaskInv(h, id);
    forall k | k in next.readers ensures ReaderInv(next, k) { assert ReaderInv(h, k); }
    forall k | k in next.clients ensures k in next.readers && ClientInv(next, k) { assert ClientInv(h, k); }
    forall k | k in next.tasks ensures TaskInv(next, k) { assert TaskInv(h, k); }
  }

  lemma FailKeeps(h: Hub, id: TaskId)
    requires Inv(h) && InPhase(h, id, Holding) && h.tasks[id].conn in h.clients && !Subscription(h.tasks[id].job)
    ensures var t := h.tasks[id];
            Inv(h.(tasks := h.tasks[id := t.(phase := Blocked)],
                   clients := h.clients[t.conn := h.clients[t.conn].(isClosing := true)]))
  {
    var t := h.tasks[id];
    var next := h.(tasks := h.tasks[id := t.(phase := Blocked)],
                   clients := h.clients[t.conn := h.clients[t.conn].(isClosing := true)]);
    forall k | k in next.readers ensures ReaderInv(next, k) { assert ReaderInv(h, k); }
    forall k | k in next.clients ensures k in next.readers && ClientInv(next, k) { assert ClientInv(h, k); }
    forall k | k in next.tasks ensures TaskInv(next, k) { assert TaskInv(h, k); }
  }

  lemma LogKeeps(h: Hub, log: seq<Entry>)
    requires Inv(h)
    ensures Inv(h.(log := log))
  {
  }

  lemma UnregisterKeeps(h: Hub, conn: Conn)
    requires Inv(h)
    ensures Inv(h.(registered := h.registered - {conn}))
  {
  }

  lemma FinishKeeps(h: Hub, id: TaskId, ok: bool)
    requires Inv(h) && InPhase(h, id, Holding) && h.tasks[id].conn in h.clients
    ensures Inv(Finished(h, id, ok))
  {
    var t := h.tasks[id];
    var c := h.clients[t.conn];
    var outcome := OutcomeOf(c, t.job, ok);
    var log := h.log + [Entry(id, t.conn, t.job, outcome)];
    LogKeeps(h, log);
    assert ClientInv(h, t.conn) && TaskInv(h, id);
    if outcome.Failed? {
      FailKeeps(h.(log := log), id);
    } else {
      ReleaseKeeps(h.(log := log), id, After(c, t.job, outcome).(holder := None));
    }
  }

  lemma RequestKeeps(h: Hub, conn: Conn)
    requires Inv(h) && conn in h.readers && h.readers[conn].Sending?
    ensures Inv(Requested(h, conn))
  {
    ReaderMoveKeeps(h, conn, Reading);
    if conn in h.registered { SpawnKeeps(MoveReader(h, conn, Reading), conn, JobOf(h.readers[conn].req)); }
  }

  lemma UnregisterReaderKeeps(h: Hub, conn: Conn)
    requires Inv(h) && IsAt(h, conn, Leaving)
    ensures Inv(MoveReader(h, conn, Gone).(registered := h.registered - {conn}))
  {
    UnregisterKeeps(h, conn);
    ReaderMoveKeeps(h.(registered := h.registered - {conn}), conn, Gone);
  }

  lemma StepKeeps(h: Hub, s: Step)
    requires Inv(h) && Enabled(h, s)
    ensures Inv(Apply(h, s))
  {
    match s
    case Connect(conn) => ConnectKeeps(h, conn);
    case ReaderSends(conn, req) => ReaderMoveKeeps(h, conn, Sending(req));
    case ReaderPings(conn) => ReaderMoveKeeps(h, conn, Pinging);
    case ReaderStops(conn) => ReaderMoveKeeps(h, conn, Leaving);
    case PostBroadcast(topic) => PostKeeps(h, topic);
    case HubRegister(conn) => RegisterKeeps(h, conn);
    case HubRequest(conn) => RequestKeeps(h, conn);
    case HubBroadcast(b) => BroadcastKeeps(h, b);
    case HubUnregisterReader(conn) => UnregisterReaderKeeps(h, conn);
    case HubUnregisterTask(id) => UnregisterTaskKeeps(h, id);
    case Acquire(id) => assert TaskInv(h, id); AcquireKeeps(h, id);
    case Finish(id, ok) => FinishKeeps(h, id, ok);
    case PingDone(conn) => ReaderMoveKeeps(h, conn, Reading);
  }

  lemma PostKeeps(h: Hub, topic: Topic)
    requires Inv(h)
    ensures Inv(Posted(h, topic))
  {
  }

  lemma UnregisterTaskKeeps(h: Hub, id: TaskId)
    requires Inv(h) && InPhase(h, id, Blocked) && h.tasks[id].conn in h.clients
    ensures Inv(UnregisteredByTask(h, id))
  {
    var conn := h.tasks[id].conn;
    UnregisterKeeps(h, conn);
    ReleaseKeeps(h.(registered := h.registered - {conn}), id, h.clients[conn].(holder := None));
  }

  // Runs.

  /** Steps that can be taken one after the other. */
  ghost predicate Runs(h: Hub, steps: seq<Step>)
    requires Inv(h)
    decreases |steps|
  {
    steps == [] || (Enabled(h, steps[0]) && (StepKeeps(h, steps[0]); Runs(Apply(h, steps[0]), steps[1..])))
  }

  ghost function RunAll(h: Hub, steps: seq<Step>): (r: Hub)
    requires Inv(h) && Runs(h, steps)
    ensures Inv(r)
    decreases |steps|
  {
    if steps == [] then h
    else
      StepKeeps(h, steps[0]);
      RunAll(Apply(h, steps[0]), steps[1..])
  }

  lemma RunCons(h: Hub, s: Step, rest: seq<Step>)
    requires Inv(h) && Enabled(h, s)
    ensures Inv(Apply(h, s))
    ensures Runs(Apply(h, s), rest) ==> Runs(h, [s] + rest) && RunAll(h, [s] + rest) == RunAll(Apply(h, s), rest)
  {
    StepKeeps(h, s);
    assert ([s] + rest)[1..] == rest;
  }
}
