/** The hub never gets stuck, and without new input it finishes all outstanding work. */
module HubProgress {
  import opened ByteText
  import opened Hub

  /** Something the hub, a goroutine or a reader has still to do. */
  ghost predicate Outstanding(h: Hub) {
    || (exists id :: id in h.tasks)
    || (exists b :: b in h.inbox)
    || (exists conn :: conn in h.readers && Busy(h.readers[conn]))
  }

  predicate Busy(r: Reader) {
    r.Registering? || r.Sending? || r.Pinging? || r.Leaving?
  }

  /** Whoever holds a mutex can move: it is writing, or sending to the hub, which listens whatever mutexes are held. */
  lemma TaskCanMove(h: Hub, id: TaskId) returns (s: Step)
    requires Inv(h) && id in h.tasks
    ensures Internal(s) && Enabled(h, s)
    ensures s.Acquire? ==> s.id == id
  {
    assert TaskInv(h, id);
    var conn := h.tasks[id].conn;
    match h.tasks[id].phase
    case Blocked => s := HubUnregisterTask(id);
    case Holding => s := Finish(id, true);
    case Waiting =>
      assert ClientInv(h, conn);
      match h.clients[conn].holder
      case None => s := Acquire(id);
      case Some(other) => s := HolderCanMove(h, other);
  }

  lemma HolderCanMove(h: Hub, id: TaskId) returns (s: Step)
    requires Inv(h) && id in h.tasks && (exists conn :: conn in h.clients && h.clients[conn].holder == Some(id))
    ensures Internal(s) && Enabled(h, s) && !s.Acquire?
  {
    assert TaskInv(h, id);
    var conn :| conn in h.clients && h.clients[conn].holder == Some(id);
    assert ClientInv(h, conn);
    s := if h.tasks[id].phase == Blocked then HubUnregisterTask(id) else Finish(id, true);
  }

  lemma ReaderCanMove(h: Hub, conn: Conn) returns (s: Step)
    requires Inv(h) && conn in h.readers && Busy(h.readers[conn])
    ensures Internal(s) && Enabled(h, s) && !s.Acquire?
  {
    match h.readers[conn]
    case Registering => s := HubRegister(conn);
    case Sending(_) => s := HubRequest(conn);
    case Leaving => s := HubUnregisterReader(conn);
    case Pinging =>
      if Unlocked(h, conn) {
        s := PingDone(conn);
      } else {
        assert ClientInv(h, conn);
        s := HolderCanMove(h, h.clients[conn].holder.value);
      }
  }

  /** Deadlock freedom: with work outstanding, some step other than new input is enabled. */
  lemma NeverStuck(h: Hub) returns (s: Step)
    requires Inv(h) && Outstanding(h)
    ensures Internal(s) && Enabled(h, s)
  {
    if id :| id in h.tasks {
      s := TaskCanMove(h, id);
    } else if b :| b in h.inbox {
      s := HubBroadcast(b);
    } else {
      var conn :| conn in h.readers && Busy(h.readers[conn]);
      s := ReaderCanMove(h, conn);
    }
  }

  /** With nothing outstanding, every client whose write failed has left the hub's map. */
  lemma ClosedHasLeft(h: Hub, conn: Conn)
    requires Inv(h) && !Outstanding(h) && conn in h.clients && h.clients[conn].isClosing
    ensures conn !in h.registered
  {
    assert ClientInv(h, conn);
  }

  // ---------------------------------------------------------------- counting what is left

  function Matching<K(!new), V>(m: map<K, V>, p: V -> bool): (r: set<K>)
    ensures forall k :: k in r <==> k in m && p(m[k])
  {
    set k | k in m && p(m[k])
  }

  function Count<K(!new), V>(m: map<K, V>, p: V -> bool): nat {
    |Matching(m, p)|
  }

  function One(b: bool): nat {
    if b then 1 else 0
  }

  lemma CountUpdated<K(!new), V>(m: map<K, V>, k: K, v: V, p: V -> bool)
    requires k in m
    ensures Count(m[k := v], p) + One(p(m[k])) == Count(m, p) + One(p(v))
  {
    var rest := Matching(m, p) - {k};
    assert Matching(m, p) == if p(m[k]) then rest + {k} else rest;
    assert Matching(m[k := v], p) == if p(v) then rest + {k} else rest;
  }

  lemma CountAdded<K(!new), V>(m: map<K, V>, k: K, v: V, p: V -> bool)
    requires k !in m
    ensures Count(m[k := v], p) == Count(m, p) + One(p(v))
  {
    assert Matching(m[k := v], p) == if p(v) then Matching(m, p) + {k} else Matching(m, p);
  }

  lemma CountRemoved<K(!new), V>(m: map<K, V>, k: K, p: V -> bool)
    requires k in m
    ensures Count(m - {k}, p) + One(p(m[k])) == Count(m, p)
  {
    assert Matching(m - {k}, p) == Matching(m, p) - {k};
  }

  lemma CountJoined<K(!new), V>(m: map<K, V>, more: map<K, V>, p: V -> bool)
    requires m.Keys !! more.Keys
    ensures Count(m + more, p) == Count(m, p) + Count(more, p)
  {
    assert Matching(m + more, p) == Matching(m, p) + Matching(more, p);
    assert Matching(m, p) !! Matching(more, p);
  }

  predicate Any(t: Task) { true }
  predicate NotBlocked(t: Task) { t.phase != Blocked }
  predicate NotStarted(t: Task) { t.phase == Waiting }

  /** Steps a goroutine may still take. */
  function TaskWork(tasks: map<TaskId, Task>): nat {
    Count(tasks, Any) + Count(tasks, NotBlocked) + Count(tasks, NotStarted)
  }

  predicate IsSending(r: Reader) { r.Sending? }

  function ReaderWork(readers: map<Conn, Reader>): nat {
    Count(readers, Busy) + 3 * Count(readers, IsSending)
  }

  /** A broadcast not yet received may start one goroutine for each connection. */
  function InboxWork(waiting: nat, connections: nat): nat {
    waiting * (3 * connections + 1)
  }

  /** A bound on the internal steps left. */
  function Potential(h: Hub): nat {
    TaskWork(h.tasks) + ReaderWork(h.readers) + InboxWork(|h.inbox|, |h.readers|)
  }

  function Weight(t: Task): nat {
    1 + One(NotBlocked(t)) + One(NotStarted(t))
  }

  lemma TaskUpdated(tasks: map<TaskId, Task>, id: TaskId, t: Task)
    requires id in tasks
    ensures TaskWork(tasks[id := t]) + Weight(tasks[id]) == TaskWork(tasks) + Weight(t)
  {
    CountUpdated(tasks, id, t, Any);
    CountUpdated(tasks, id, t, NotBlocked);
    CountUpdated(tasks, id, t, NotStarted);
  }

  lemma TaskAdded(tasks: map<TaskId, Task>, id: TaskId, t: Task)
    requires id !in tasks
    ensures TaskWork(tasks[id := t]) == TaskWork(tasks) + Weight(t)
  {
    CountAdded(tasks, id, t, Any);
    CountAdded(tasks, id, t, NotBlocked);
    CountAdded(tasks, id, t, NotStarted);
  }

  lemma TaskRemoved(tasks: map<TaskId, Task>, id: TaskId)
    requires id in tasks
    ensures TaskWork(tasks - {id}) + Weight(tasks[id]) == TaskWork(tasks)
  {
    CountRemoved(tasks, id, Any);
    CountRemoved(tasks, id, NotBlocked);
    CountRemoved(tasks, id, NotStarted);
  }

  function ReaderWeight(r: Reader): nat {
    One(Busy(r)) + 3 * One(IsSending(r))
  }

  lemma ReaderUpdated(readers: map<Conn, Reader>, conn: Conn, r: Reader)
    requires conn in readers
    ensures ReaderWork(readers[conn := r]) + ReaderWeight(readers[conn]) == ReaderWork(readers) + ReaderWeight(r)
    ensures |readers[conn := r]| == |readers|
  {
    CountUpdated(readers, conn, r, Busy);
    CountUpdated(readers, conn, r, IsSending);
    assert readers[conn := r].Keys == readers.Keys;
    assert |readers[conn := r]| == |readers[conn := r].Keys| && |readers| == |readers.Keys|;
  }

  lemma SubsetCount<T>(a: set<T>, b: set<T>)
    requires a <= b
    ensures |a| <= |b|
  {
    assert b == a + (b - a) && a !! (b - a);
  }

  lemma {:induction false} DeliveriesCount(number: nat, topic: Topic, to: set<Conn>)
    ensures |Deliveries(number, topic, to)| == |to|
  {
    var d := Deliveries(number, topic, to);
    if to == {} {
      assert d == map[];
    } else {
      var c :| c in to;
      var rest := Deliveries(number, topic, to - {c});
      DeliveriesCount(number, topic, to - {c});
      assert d.Keys == rest.Keys + {DeliveryTo(number, c)} && DeliveryTo(number, c) !in rest.Keys;
      assert |d| == |d.Keys| && |rest| == |rest.Keys|;
    }
  }

  lemma DeliveriesWork(number: nat, topic: Topic, to: set<Conn>)
    ensures TaskWork(Deliveries(number, topic, to)) == 3 * |to|
  {
    var d := Deliveries(number, topic, to);
    DeliveriesCount(number, topic, to);
    assert |d| == |d.Keys|;
    assert Matching(d, Any) == d.Keys && Matching(d, NotBlocked) == d.Keys && Matching(d, NotStarted) == d.Keys;
  }

  lemma BroadcastWork(h: Hub, b: nat)
    requires Inv(h) && b in h.inbox
    ensures TaskWork(Broadcasted(h, b).tasks) <= TaskWork(h.tasks) + 3 * |h.readers|
  {
    var added := Deliveries(b, h.posted[b], h.registered);
    forall id | id in h.tasks ensures id !in added { assert TaskInv(h, id); }
    CountJoined(h.tasks, added, Any);
    CountJoined(h.tasks, added, NotBlocked);
    CountJoined(h.tasks, added, NotStarted);
    DeliveriesWork(b, h.posted[b], h.registered);
    forall conn | conn in h.registered ensures conn in h.readers.Keys { assert conn in h.clients; }
    SubsetCount(h.registered, h.readers.Keys);
    assert |h.readers| == |h.readers.Keys|;
  }

  lemma Received(inbox: set<nat>, b: nat, connections: nat)
    requires b in inbox
    ensures InboxWork(|inbox - {b}|, connections) + 3 * connections + 1 == InboxWork(|inbox|, connections)
  {
  }

  /** Receiving a broadcast pays for the goroutines it starts. */
  lemma BroadcastPays(h: Hub, b: nat)
    requires Inv(h) && b in h.inbox
    ensures Potential(Broadcasted(h, b)) < Potential(h)
  {
    BroadcastWork(h, b);
    Received(h.inbox, b, |h.readers|);
  }

  lemma ReaderPays(h: Hub, conn: Conn, r: Reader, tasks: map<TaskId, Task>, next: Hub)
    requires conn in h.readers && next.readers == h.readers[conn := r] && next.inbox == h.inbox && next.tasks == tasks
    requires TaskWork(tasks) + ReaderWeight(r) < TaskWork(h.tasks) + ReaderWeight(h.readers[conn])
    ensures Potential(next) < Potential(h)
  {
    ReaderUpdated(h.readers, conn, r);
  }

  lemma TaskPays(h: Hub, next: Hub)
    requires next.readers == h.readers && next.inbox == h.inbox && TaskWork(next.tasks) < TaskWork(h.tasks)
    ensures Potential(next) < Potential(h)
  {
  }

  lemma RequestPays(h: Hub, conn: Conn)
    requires Inv(h) && conn in h.readers && h.readers[conn].Sending?
    ensures Potential(Requested(h, conn)) < Potential(h)
  {
    var id := Numbered(h.nextTask);
    assert id in h.tasks ==> TaskInv(h, id);
    if conn in h.registered { TaskAdded(h.tasks, id, Task(conn, JobOf(h.readers[conn].req), Waiting)); }
    ReaderPays(h, conn, Reading, Requested(h, conn).tasks, Requested(h, conn));
  }

  lemma RegisterPays(h: Hub, conn: Conn)
    requires IsAt(h, conn, Registering)
    ensures Potential(Registered(h, conn)) < Potential(h)
  {
    ReaderPays(h, conn, Reading, h.tasks, Registered(h, conn));
  }

  lemma ReturnPays(h: Hub, conn: Conn, r: Reader)
    requires conn in h.readers && Busy(h.readers[conn]) && !Busy(r)
    ensures Potential(MoveReader(h, conn, r)) < Potential(h)
  {
    ReaderPays(h, conn, r, h.tasks, MoveReader(h, conn, r));
  }

  lemma UnregisterTaskPays(h: Hub, id: TaskId)
    requires id in h.tasks && h.tasks[id].conn in h.clients
    ensures Potential(UnregisteredByTask(h, id)) < Potential(h)
  {
    TaskRemoved(h.tasks, id);
    TaskPays(h, UnregisteredByTask(h, id));
  }

  lemma AcquirePays(h: Hub, id: TaskId)
    requires InPhase(h, id, Waiting) && h.tasks[id].conn in h.clients
    ensures Potential(Acquired(h, id)) < Potential(h)
  {
    TaskUpdated(h.tasks, id, h.tasks[id].(phase := Holding));
    TaskPays(h, Acquired(h, id));
  }

  lemma FinishPays(h: Hub, id: TaskId, ok: bool)
    requires InPhase(h, id, Holding) && h.tasks[id].conn in h.clients
    ensures Potential(Finished(h, id, ok)) < Potential(h)
  {
    TaskUpdated(h.tasks, id, h.tasks[id].(phase := Blocked));
    TaskRemoved(h.tasks, id);
    TaskPays(h, Finished(h, id, ok));
  }

  /** Every step but new input uses up some of the potential, whichever of them runs and however its write goes. */
  lemma InternalStepPays(h: Hub, s: Step)
    requires Inv(h) && Internal(s) && Enabled(h, s)
    ensures Potential(Apply(h, s)) < Potential(h)
  {
    match s
    case HubRegister(conn) => RegisterPays(h, conn);
    case HubRequest(conn) => RequestPays(h, conn);
    case HubBroadcast(b) => BroadcastPays(h, b);
    case HubUnregisterReader(conn) => ReturnPays(h, conn, Gone);
    case HubUnregisterTask(id) => UnregisterTaskPays(h, id);
    case Acquire(id) => AcquirePays(h, id);
    case Finish(id, ok) => FinishPays(h, id, ok);
    case PingDone(conn) => ReturnPays(h, conn, Reading);
  }

  // ---------------------------------------------------------------- schedules

  /** A run without new input. */
  ghost predicate Schedule(h: Hub, steps: seq<Step>)
    requires Inv(h)
  {
    Runs(h, steps) && forall s :: s in steps ==> Internal(s)
  }

  /** Without new input, no schedule is longer than the potential it starts with. */
  lemma {:induction false} SchedulesEnd(h: Hub, steps: seq<Step>)
    requires Inv(h) && Schedule(h, steps)
    ensures |steps| + Potential(RunAll(h, steps)) <= Potential(h)
    decreases |steps|
  {
    if steps != [] {
      StepKeeps(h, steps[0]);
      InternalStepPays(h, steps[0]);
      SchedulesEnd(Apply(h, steps[0]), steps[1..]);
    }
  }

  /** A schedule that cannot be continued has done everything. */
  lemma StoppedMeansDrained(h: Hub, steps: seq<Step>)
    requires Inv(h) && Schedule(h, steps)
    requires forall s :: Internal(s) ==> !Enabled(RunAll(h, steps), s)
    ensures !Outstanding(RunAll(h, steps))
  {
    if Outstanding(RunAll(h, steps)) {
      var s := NeverStuck(RunAll(h, steps));
    }
  }

  /** From every reachable state the outstanding work can be finished. */
  lemma {:induction false} CanDrain(h: Hub) returns (steps: seq<Step>)
    requires Inv(h)
    ensures Schedule(h, steps) && !Outstanding(RunAll(h, steps))
    decreases Potential(h)
  {
    steps := [];
    if Outstanding(h) {
      var s := NeverStuck(h);
      StepKeeps(h, s);
      InternalStepPays(h, s);
      var rest := CanDrain(Apply(h, s));
      steps := [s] + rest;
      assert steps[1..] == rest;
    }
  }
}
