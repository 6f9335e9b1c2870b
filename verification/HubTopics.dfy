/** What a client's topics are bound to end as, whatever is scheduled next, and when that is decided. */
module HubTopics {
  import opened Hub

  /** A goroutine of the connection has this job, and stands before the lock, has it, or unregisters under it. */
  ghost predicate Works(h: Hub, conn: Conn, job: Job, phase: Phase) {
    exists id :: id in h.tasks && h.tasks[id] == Task(conn, job, phase)
  }

  /** A registered connection's reader is sending the hub this job, a subscription. From a connection that is not
      registered the hub ignores it. */
  predicate Sends(h: Hub, conn: Conn, job: Job) {
    conn in h.registered && conn in h.readers && h.readers[conn].Sending?
    && JobOf(h.readers[conn].req) == job && Subscription(job)
  }

  /** What the topic ends as without the request still being sent, if any: goroutines before the lock come last, and
      then the one that has it. */
  ghost predicate Due(h: Hub, conn: Conn, t: Topic)
    requires conn in h.clients
  {
    || Works(h, conn, Join(t), Waiting)
    || (!Works(h, conn, Leave(t), Waiting)
        && (Works(h, conn, Join(t), Holding) || (t in h.clients[conn].topics && !Works(h, conn, Leave(t), Holding))))
  }

  /** A goroutine before the lock has the job, or the hub is about to start one. */
  ghost predicate Pending(h: Hub, conn: Conn, job: Job) {
    Works(h, conn, job, Waiting) || Sends(h, conn, job)
  }

  /** What the topic ends as, when that is decided. */
  ghost predicate FinallyIn(h: Hub, conn: Conn, t: Topic)
    requires conn in h.clients
  {
    Sends(h, conn, Join(t)) || (Due(h, conn, t) && !Sends(h, conn, Leave(t)))
  }

  // ---------------------------------------------------------------- losing a request

  /** The client has the topic at some moment of some schedule, before any request still being sent. */
  ghost predicate MayHave(h: Hub, conn: Conn, t: Topic)
    requires conn in h.clients
  {
    || Works(h, conn, Join(t), Waiting) || Works(h, conn, Join(t), Holding)
    || (t in h.clients[conn].topics && !Works(h, conn, Leave(t), Holding))
  }

  /** The goroutine is unregistering its connection, or its write may still fail. */
  ghost predicate MayFail(h: Hub, id: TaskId)
    requires id in h.tasks && h.tasks[id].conn in h.clients
  {
    var task := h.tasks[id];
    match task.job
    case EchoBack => true
    case Deliver(t) =>
      (match task.phase
       case Waiting => MayHave(h, task.conn, t)
       case Holding => t in h.clients[task.conn].topics
       case Blocked => true)
    case _ => false
  }

  ghost predicate FailsAt(h: Hub, conn: Conn, id: TaskId)
    requires conn in h.clients
  {
    id in h.tasks && h.tasks[id].conn == conn && MayFail(h, id)
  }

  ghost predicate FailsOn(h: Hub, conn: Conn, b: nat)
    requires conn in h.clients
  {
    b in h.inbox && b < |h.posted| && MayHave(h, conn, h.posted[b])
  }

  /** Some goroutine of the connection, or one the hub will start for a broadcast, can unregister it. */
  ghost predicate CanBeCutOff(h: Hub, conn: Conn)
    requires conn in h.clients
  {
    (exists id :: FailsAt(h, conn, id)) || exists b: nat :: FailsOn(h, conn, b)
  }

  /** No subscription to the topic and no opposite one are both still to take the lock; and a request that can be lost
      with its connection asks for what is due anyway. */
  ghost predicate Decided(h: Hub, conn: Conn, t: Topic)
    requires conn in h.clients
  {
    && !(Pending(h, conn, Join(t)) && Pending(h, conn, Leave(t)))
    && (CanBeCutOff(h, conn) ==>
          (Sends(h, conn, Join(t)) ==> Due(h, conn, t)) && (Sends(h, conn, Leave(t)) ==> !Due(h, conn, t)))
  }

  // ---------------------------------------------------------------- steps

  /** The same subscription goroutines stand where they stood, and the topics are the same. */
  ghost predicate Neutral(h: Hub, next: Hub) {
    && (forall id :: id in h.tasks && Subscription(h.tasks[id].job)
          ==> id in next.tasks && next.tasks[id] == h.tasks[id])
    && (forall id :: id in next.tasks && Subscription(next.tasks[id].job)
          ==> id in h.tasks && h.tasks[id] == next.tasks[id])
    && (forall c :: c in h.clients ==> c in next.clients && next.clients[c].topics == h.clients[c].topics)
  }

  lemma NeutralWorks(h: Hub, next: Hub, conn: Conn, job: Job, phase: Phase)
    requires Neutral(h, next) && Subscription(job)
    ensures Works(next, conn, job, phase) <==> Works(h, conn, job, phase)
  {
  }

  lemma NeutralBroadcast(h: Hub, b: nat)
    requires Inv(h) && b in h.inbox
    ensures Neutral(h, Broadcasted(h, b))
  {
    forall id | id in h.tasks ensures id !in Deliveries(b, h.posted[b], h.registered) { assert TaskInv(h, id); }
  }

  lemma NeutralRegister(h: Hub, conn: Conn)
    requires Inv(h) && IsAt(h, conn, Registering)
    ensures Neutral(h, Registered(h, conn))
  {
    assert ReaderInv(h, conn);
  }

  /** A request that is an echo, or that the hub ignores. */
  lemma NeutralRequest(h: Hub, conn: Conn)
    requires Inv(h) && conn in h.readers && h.readers[conn].Sending? && !Sends(h, conn, JobOf(h.readers[conn].req))
    ensures Neutral(h, Requested(h, conn))
  {
    assert Numbered(h.nextTask) in h.tasks ==> TaskInv(h, Numbered(h.nextTask));
  }

  lemma NeutralUnregister(h: Hub, id: TaskId)
    requires Inv(h) && InPhase(h, id, Blocked) && h.tasks[id].conn in h.clients
    ensures Neutral(h, UnregisteredByTask(h, id))
  {
    assert TaskInv(h, id);
  }

  lemma NeutralFinish(h: Hub, id: TaskId, ok: bool)
    requires InPhase(h, id, Holding) && h.tasks[id].conn in h.clients && !Subscription(h.tasks[id].job)
    ensures Neutral(h, Finished(h, id, ok))
  {
  }

  lemma NeutralAcquire(h: Hub, id: TaskId)
    requires id in h.tasks && h.tasks[id].conn in h.clients && !Subscription(h.tasks[id].job)
    ensures Neutral(h, Acquired(h, id))
  {
  }

  /** A step by which a subscription goroutine starts, takes the lock, or ends. */
  predicate Decisive(h: Hub, s: Step) {
    match s
    case HubRequest(conn) => conn in h.readers && h.readers[conn].Sending? && Sends(h, conn, JobOf(h.readers[conn].req))
    case Acquire(id) => id in h.tasks && Subscription(h.tasks[id].job)
    case Finish(id, _) => id in h.tasks && Subscription(h.tasks[id].job)
    case _ => false
  }

  lemma NeutralSteps(h: Hub, s: Step)
    requires Inv(h) && Internal(s) && Enabled(h, s) && !Decisive(h, s)
    ensures Neutral(h, Apply(h, s))
  {
    match s
    case HubRegister(conn) => NeutralRegister(h, conn);
    case HubRequest(conn) => NeutralRequest(h, conn);
    case HubBroadcast(b) => NeutralBroadcast(h, b);
    case HubUnregisterTask(id) => NeutralUnregister(h, id);
    case Acquire(id) => NeutralAcquire(h, id);
    case Finish(id, ok) => NeutralFinish(h, id, ok);
    case HubUnregisterReader(_) => assert Neutral(h, Apply(h, s));
    case PingDone(_) => assert Neutral(h, Apply(h, s));
  }

  lemma RequestWorks(h: Hub, c: Conn, conn: Conn, job: Job, phase: Phase)
    requires Inv(h) && c in h.readers && h.readers[c].Sending? && Sends(h, c, JobOf(h.readers[c].req))
    ensures Works(Requested(h, c), conn, job, phase)
       <==> Works(h, conn, job, phase) || (conn == c && job == JobOf(h.readers[c].req) && phase == Waiting)
  {
    var next, id := Requested(h, c), Numbered(h.nextTask);
    assert id in h.tasks ==> TaskInv(h, id);
    assert next.tasks == h.tasks[id := Task(c, JobOf(h.readers[c].req), Waiting)];
    if Works(h, conn, job, phase) {
      var k :| k in h.tasks && h.tasks[k] == Task(conn, job, phase);
      assert next.tasks[k] == Task(conn, job, phase);
    }
    assert next.tasks[id] == Task(c, JobOf(h.readers[c].req), Waiting);
  }

  lemma AcquireWorks(h: Hub, id: TaskId, conn: Conn, job: Job)
    requires Inv(h) && InPhase(h, id, Waiting) && h.tasks[id].conn in h.clients && Unlocked(h, h.tasks[id].conn)
    ensures var next, c, j := Acquired(h, id), h.tasks[id].conn, h.tasks[id].job;
            && (Works(next, conn, job, Waiting) ==> Works(h, conn, job, Waiting))
            && (Works(h, conn, job, Waiting) ==> Works(next, conn, job, Waiting) || (conn == c && job == j))
            && (Works(next, conn, job, Holding) <==> Works(h, conn, job, Holding) || (conn == c && job == j))
            && !Works(h, c, job, Holding)
  {
    var next, c, j := Acquired(h, id), h.tasks[id].conn, h.tasks[id].job;
    assert next.tasks[id] == Task(c, j, Holding);
    forall k | k in h.tasks && k != id ensures next.tasks[k] == h.tasks[k] {}
    forall k | k in h.tasks && h.tasks[k].conn == c ensures h.tasks[k].phase != Holding { assert TaskInv(h, k); }
  }

  lemma FinishWorks(h: Hub, id: TaskId, ok: bool, conn: Conn, job: Job)
    requires Inv(h) && InPhase(h, id, Holding) && h.tasks[id].conn in h.clients && Subscription(h.tasks[id].job)
    ensures var next, c := Finished(h, id, ok), h.tasks[id].conn;
            && (Works(next, conn, job, Waiting) <==> Works(h, conn, job, Waiting))
            && (Works(next, conn, job, Holding) <==> Works(h, conn, job, Holding) && conn != c)
            && (Works(h, c, job, Holding) <==> job == h.tasks[id].job)
  {
    var next, c := Finished(h, id, ok), h.tasks[id].conn;
    assert next.tasks == h.tasks - {id};
    assert TaskInv(h, id);
    forall k | k in h.tasks && h.tasks[k].conn == c && h.tasks[k].phase == Holding
      ensures k == id
    {
      assert TaskInv(h, k);
    }
    if k :| k in h.tasks && h.tasks[k] == Task(conn, job, Waiting) { assert next.tasks[k] == h.tasks[k]; }
    if k :| k in h.tasks && h.tasks[k] == Task(conn, job, Holding) && conn != c { assert next.tasks[k] == h.tasks[k]; }
  }

  // ---------------------------------------------------------------- what is due

  ghost predicate Contested(h: Hub, conn: Conn, t: Topic) {
    Works(h, conn, Join(t), Waiting) && Works(h, conn, Leave(t), Waiting)
  }

  lemma NeutralKeepsDue(h: Hub, next: Hub, conn: Conn, t: Topic)
    requires Neutral(h, next) && conn in h.clients
    ensures conn in next.clients && (Due(next, conn, t) <==> Due(h, conn, t))
            && (MayHave(next, conn, t) <==> MayHave(h, conn, t))
    ensures Works(next, conn, Join(t), Waiting) <==> Works(h, conn, Join(t), Waiting)
    ensures Works(next, conn, Leave(t), Waiting) <==> Works(h, conn, Leave(t), Waiting)
  {
    NeutralWorks(h, next, conn, Join(t), Waiting);
    NeutralWorks(h, next, conn, Leave(t), Waiting);
    NeutralWorks(h, next, conn, Join(t), Holding);
    NeutralWorks(h, next, conn, Leave(t), Holding);
  }

  lemma AcquireKeepsDue(h: Hub, id: TaskId, conn: Conn, t: Topic)
    requires Inv(h) && InPhase(h, id, Waiting) && h.tasks[id].conn in h.clients && Unlocked(h, h.tasks[id].conn)
    requires conn in h.clients
    ensures var next := Acquired(h, id);
            && (Works(next, conn, Join(t), Waiting) ==> Works(h, conn, Join(t), Waiting))
            && (Works(next, conn, Leave(t), Waiting) ==> Works(h, conn, Leave(t), Waiting))
            && (MayHave(next, conn, t) ==> MayHave(h, conn, t))
            && (!Contested(h, conn, t) ==> (Due(next, conn, t) <==> Due(h, conn, t)))
  {
    AcquireWorks(h, id, conn, Join(t));
    AcquireWorks(h, id, conn, Leave(t));
  }

  lemma FinishKeepsDue(h: Hub, id: TaskId, ok: bool, conn: Conn, t: Topic)
    requires Inv(h) && InPhase(h, id, Holding) && h.tasks[id].conn in h.clients && Subscription(h.tasks[id].job)
    requires conn in h.clients
    ensures var next := Finished(h, id, ok);
            && conn in next.clients
            && (Works(next, conn, Join(t), Waiting) <==> Works(h, conn, Join(t), Waiting))
            && (Works(next, conn, Leave(t), Waiting) <==> Works(h, conn, Leave(t), Waiting))
            && (MayHave(next, conn, t) ==> MayHave(h, conn, t))
            && (Due(next, conn, t) <==> Due(h, conn, t))
  {
    FinishWorks(h, id, ok, conn, Join(t));
    FinishWorks(h, id, ok, conn, Leave(t));
    FinishTopics(h, id, ok, conn);
  }

  lemma FinishTopics(h: Hub, id: TaskId, ok: bool, conn: Conn)
    requires id in h.tasks && h.tasks[id].conn in h.clients && conn in h.clients
    ensures conn in Finished(h, id, ok).clients
    ensures Finished(h, id, ok).clients[conn].topics
         == if conn == h.tasks[id].conn then After(h.clients[conn], h.tasks[id].job, Done).topics
           else h.clients[conn].topics
  {
  }

  /** Unless the hub receives a subscription of this connection, a step leaves what is due as it was, when it is not
      contested, and makes nothing contested and no further topic possible. */
  lemma StepKeepsDue(h: Hub, s: Step, conn: Conn, t: Topic)
    requires Inv(h) && Internal(s) && Enabled(h, s) && conn in h.clients
    requires s == HubRequest(conn) ==> !Decisive(h, s)
    ensures var next := Apply(h, s);
            && conn in next.clients
            && (Works(next, conn, Join(t), Waiting) ==> Works(h, conn, Join(t), Waiting))
            && (Works(next, conn, Leave(t), Waiting) ==> Works(h, conn, Leave(t), Waiting))
            && (MayHave(next, conn, t) ==> MayHave(h, conn, t))
            && (!Contested(h, conn, t) ==> (Due(next, conn, t) <==> Due(h, conn, t)))
  {
    if !Decisive(h, s) {
      NeutralSteps(h, s);
      NeutralKeepsDue(h, Apply(h, s), conn, t);
    } else {
      match s
      case Acquire(id) => AcquireKeepsDue(h, id, conn, t);
      case Finish(id, ok) => FinishKeepsDue(h, id, ok, conn, t);
      case HubRequest(c) =>
        RequestWorks(h, c, conn, Join(t), Waiting);
        RequestWorks(h, c, conn, Leave(t), Waiting);
        RequestWorks(h, c, conn, Join(t), Holding);
        RequestWorks(h, c, conn, Leave(t), Holding);
    }
  }

  // ---------------------------------------------------------------- keeping and losing requests

  lemma SentBefore(h: Hub, s: Step, conn: Conn, job: Job)
    requires Inv(h) && Internal(s) && Enabled(h, s) && Sends(Apply(h, s), conn, job)
    ensures Sends(h, conn, job) && s != HubRequest(conn)
  {
  }

  /** A request disappears when the hub receives it, or when a goroutine unregisters its connection. */
  lemma LostByFailure(h: Hub, s: Step, conn: Conn, job: Job)
    requires Inv(h) && Internal(s) && Enabled(h, s) && conn in h.clients && s != HubRequest(conn)
    requires Sends(h, conn, job) && !Sends(Apply(h, s), conn, job)
    ensures CanBeCutOff(h, conn)
  {
    if s.HubUnregisterTask? {
      assert TaskInv(h, s.id);
      assert h.tasks[s.id].conn == conn ==> FailsAt(h, conn, s.id);
    }
  }

  lemma AcquiredFailedBefore(h: Hub, id: TaskId, conn: Conn, k: TaskId)
    requires Inv(h) && InPhase(h, id, Waiting) && h.tasks[id].conn in h.clients && Unlocked(h, h.tasks[id].conn)
    requires conn in h.clients && FailsAt(Acquired(h, id), conn, k)
    ensures FailsAt(h, conn, k)
  {
    var next := Acquired(h, id);
    if next.tasks[k].job.Deliver? {
      var t := next.tasks[k].job.topic;
      AcquireKeepsDue(h, id, conn, t);
      AcquireWorks(h, id, conn, Leave(t));
    }
  }

  lemma FinishedFailedBefore(h: Hub, id: TaskId, ok: bool, conn: Conn, k: TaskId)
    requires Inv(h) && InPhase(h, id, Holding) && h.tasks[id].conn in h.clients && conn in h.clients
    requires conn in Finished(h, id, ok).clients && FailsAt(Finished(h, id, ok), conn, k)
    ensures FailsAt(h, conn, k)
  {
    var next := Finished(h, id, ok);
    assert k in h.tasks && next.tasks[k].job == h.tasks[k].job && (k != id ==> next.tasks[k] == h.tasks[k]);
    assert TaskInv(h, id) && TaskInv(h, k);
    FinishTopics(h, id, ok, conn);
    if next.tasks[k].job.Deliver? {
      var t := next.tasks[k].job.topic;
      if Subscription(h.tasks[id].job) {
        FinishKeepsDue(h, id, ok, conn, t);
      } else {
        NeutralFinish(h, id, ok);
        NeutralKeepsDue(h, next, conn, t);
      }
    }
  }

  lemma NeutralFailedBefore(h: Hub, next: Hub, conn: Conn, k: TaskId)
    requires Neutral(h, next) && conn in h.clients && k in h.tasks && k in next.tasks && next.tasks[k] == h.tasks[k]
    requires FailsAt(next, conn, k)
    ensures FailsAt(h, conn, k)
  {
    var job := h.tasks[k].job;
    if job.Deliver? { NeutralKeepsDue(h, next, conn, job.topic); }
  }

  lemma BroadcastFailedBefore(h: Hub, b: nat, conn: Conn, k: TaskId)
    requires Inv(h) && b in h.inbox && conn in h.clients && FailsAt(Broadcasted(h, b), conn, k)
    ensures CanBeCutOff(h, conn)
  {
    var next := Broadcasted(h, b);
    NeutralBroadcast(h, b);
    if k in Deliveries(b, h.posted[b], h.registered) {
      NeutralKeepsDue(h, next, conn, h.posted[b]);
      assert FailsOn(h, conn, b);
    } else {
      NeutralFailedBefore(h, next, conn, k);
    }
  }

  lemma RequestFailedBefore(h: Hub, c: Conn, conn: Conn, k: TaskId)
    requires Inv(h) && c in h.readers && h.readers[c].Sending? && c != conn && conn in h.clients
    requires FailsAt(Requested(h, c), conn, k)
    ensures FailsAt(h, conn, k)
  {
    var next := Requested(h, c);
    assert k in h.tasks && next.tasks[k] == h.tasks[k];
    var job := h.tasks[k].job;
    if job.Deliver? { StepKeepsDue(h, HubRequest(c), conn, job.topic); }
  }

  lemma FailedBefore(h: Hub, s: Step, conn: Conn, k: TaskId)
    requires Inv(h) && Internal(s) && Enabled(h, s) && s != HubRequest(conn) && conn in h.clients
    requires conn in Apply(h, s).clients && FailsAt(Apply(h, s), conn, k)
    ensures CanBeCutOff(h, conn)
  {
    if s.HubBroadcast? {
      BroadcastFailedBefore(h, s.number, conn, k);
    } else if s.HubRequest? {
      RequestFailedBefore(h, s.conn, conn, k);
    } else if s.Acquire? {
      AcquiredFailedBefore(h, s.id, conn, k);
    } else if s.Finish? {
      FinishedFailedBefore(h, s.id, s.writeOk, conn, k);
    } else {
      NeutralSteps(h, s);
      NeutralFailedBefore(h, Apply(h, s), conn, k);
    }
  }

  lemma CutOffBefore(h: Hub, s: Step, conn: Conn)
    requires Inv(h) && Internal(s) && Enabled(h, s) && s != HubRequest(conn) && conn in h.clients
    requires conn in Apply(h, s).clients && CanBeCutOff(Apply(h, s), conn)
    ensures CanBeCutOff(h, conn)
  {
    var next := Apply(h, s);
    if k :| FailsAt(next, conn, k) {
      FailedBefore(h, s, conn, k);
    } else {
      var b: nat :| FailsOn(next, conn, b);
      assert next.posted == h.posted;
      StepKeepsDue(h, s, conn, h.posted[b]);
      assert FailsOn(h, conn, b);
    }
  }

  // ---------------------------------------------------------------- what is decided stays decided

  lemma ReceivedAsSent(h: Hub, conn: Conn, job: Job, t: Topic)
    requires Inv(h) && conn in h.clients && Sends(h, conn, job) && Decided(h, conn, t)
    ensures var next := Requested(h, conn);
            conn in next.clients && Decided(next, conn, t) && (FinallyIn(next, conn, t) <==> FinallyIn(h, conn, t))
  {
    RequestWorks(h, conn, conn, Join(t), Waiting);
    RequestWorks(h, conn, conn, Leave(t), Waiting);
    RequestWorks(h, conn, conn, Join(t), Holding);
    RequestWorks(h, conn, conn, Leave(t), Holding);
  }

  lemma StepKeepsFinal(h: Hub, s: Step, conn: Conn, t: Topic)
    requires Inv(h) && Internal(s) && Enabled(h, s) && conn in h.clients && Decided(h, conn, t)
    ensures var next := Apply(h, s);
            conn in next.clients && Decided(next, conn, t) && (FinallyIn(next, conn, t) <==> FinallyIn(h, conn, t))
  {
    if s == HubRequest(conn) && Decisive(h, s) {
      ReceivedAsSent(h, conn, JobOf(h.readers[conn].req), t);
    } else {
      StepKeepsDue(h, s, conn, t);
      OthersKeepFinal(h, s, conn, t, Apply(h, s));
    }
  }

  lemma SendsAfter(h: Hub, s: Step, conn: Conn, job: Job)
    requires Inv(h) && Internal(s) && Enabled(h, s) && conn in h.clients
    requires s == HubRequest(conn) ==> !Decisive(h, s)
    ensures Sends(Apply(h, s), conn, job) ==> Sends(h, conn, job) && s != HubRequest(conn)
    ensures Sends(h, conn, job) ==> Sends(Apply(h, s), conn, job) || CanBeCutOff(h, conn)
  {
    if Sends(Apply(h, s), conn, job) {
      SentBefore(h, s, conn, job);
    } else if Sends(h, conn, job) {
      LostByFailure(h, s, conn, job);
    }
  }

  lemma OthersKeepFinal(h: Hub, s: Step, conn: Conn, t: Topic, next: Hub)
    requires Inv(h) && Internal(s) && Enabled(h, s) && conn in h.clients && Decided(h, conn, t) && next == Apply(h, s)
    requires s == HubRequest(conn) ==> !Decisive(h, s)
    requires conn in next.clients && (Due(next, conn, t) <==> Due(h, conn, t))
    requires Works(next, conn, Join(t), Waiting) ==> Works(h, conn, Join(t), Waiting)
    requires Works(next, conn, Leave(t), Waiting) ==> Works(h, conn, Leave(t), Waiting)
    ensures Decided(next, conn, t) && (FinallyIn(next, conn, t) <==> FinallyIn(h, conn, t))
  {
    SendsAfter(h, s, conn, Join(t));
    SendsAfter(h, s, conn, Leave(t));
    if CanBeCutOff(next, conn) && s != HubRequest(conn) { CutOffBefore(h, s, conn); }
  }
}
