/** Finishing schedules: exactly when they all leave a client with the same topics. */
module HubOutcomes {
  import opened Hub
  import opened HubProgress
  import opened HubTopics

  // ---------------------------------------------------------------- finishing schedules

  ghost predicate Finishes(h: Hub, steps: seq<Step>)
    requires Inv(h)
  {
    Schedule(h, steps) && !Outstanding(RunAll(h, steps))
  }

  predicate Subscribed(h: Hub, conn: Conn, t: Topic) {
    conn in h.clients && t in h.clients[conn].topics
  }

  /** If it finishes, the schedule leaves the client with the topic, or without it. */
  ghost predicate EndsWith(h: Hub, steps: seq<Step>, conn: Conn, t: Topic, member: bool)
    requires Inv(h)
  {
    Finishes(h, steps) ==> (Subscribed(RunAll(h, steps), conn, t) <==> member)
  }

  lemma FinishesCons(h: Hub, s: Step, rest: seq<Step>)
    requires Inv(h) && Internal(s) && Enabled(h, s)
    ensures Inv(Apply(h, s))
    ensures Finishes(Apply(h, s), rest)
        ==> Finishes(h, [s] + rest) && RunAll(h, [s] + rest) == RunAll(Apply(h, s), rest)
  {
    RunCons(h, s, rest);
  }

  lemma {:induction false} ScheduleKeepsFinal(h: Hub, steps: seq<Step>, conn: Conn, t: Topic)
    requires Inv(h) && Schedule(h, steps) && conn in h.clients && Decided(h, conn, t)
    ensures var last := RunAll(h, steps);
            conn in last.clients && Decided(last, conn, t) && (FinallyIn(last, conn, t) <==> FinallyIn(h, conn, t))
    decreases |steps|
  {
    if steps != [] {
      assert steps[0] in steps;
      StepKeeps(h, steps[0]);
      StepKeepsFinal(h, steps[0], conn, t);
      assert forall s :: s in steps[1..] ==> s in steps;
      ScheduleKeepsFinal(Apply(h, steps[0]), steps[1..], conn, t);
    }
  }

  lemma DrainedTopics(h: Hub, conn: Conn, t: Topic)
    requires !Outstanding(h) && conn in h.clients
    ensures FinallyIn(h, conn, t) <==> t in h.clients[conn].topics
  {
  }

  lemma EndsAsDecided(h: Hub, steps: seq<Step>, conn: Conn, t: Topic)
    requires Inv(h) && conn in h.clients && Decided(h, conn, t) && Finishes(h, steps)
    ensures conn in RunAll(h, steps).clients && (Subscribed(RunAll(h, steps), conn, t) <==> FinallyIn(h, conn, t))
  {
    ScheduleKeepsFinal(h, steps, conn, t);
    DrainedTopics(RunAll(h, steps), conn, t);
  }

  // ---------------------------------------------------------------- a goroutine that runs last

  lemma Untouched(h: Hub, s: Step, id: TaskId)
    requires Inv(h) && Internal(s) && Enabled(h, s) && InPhase(h, id, Waiting) && s != Acquire(id)
    ensures id in Apply(h, s).tasks && Apply(h, s).tasks[id] == h.tasks[id]
  {
    assert TaskInv(h, id);
    if s.HubBroadcast? { assert id !in Deliveries(s.number, h.posted[s.number], h.registered); }
  }

  /** Something is to be done besides this goroutine. */
  ghost predicate OthersWait(h: Hub, id: TaskId) {
    || (exists k :: k in h.tasks && k != id)
    || (exists b :: b in h.inbox)
    || (exists conn :: conn in h.readers && Busy(h.readers[conn]))
  }

  /** A goroutine before the lock holds up nobody: as long as there is anything else to do, some step leaves it
      there. */
  lemma OthersCanMove(h: Hub, id: TaskId) returns (s: Step)
    requires Inv(h) && InPhase(h, id, Waiting) && OthersWait(h, id)
    ensures Internal(s) && Enabled(h, s) && s != Acquire(id)
  {
    if k :| k in h.tasks && k != id {
      s := TaskCanMove(h, k);
    } else if b :| b in h.inbox {
      s := HubBroadcast(b);
    } else {
      var conn :| conn in h.readers && Busy(h.readers[conn]);
      s := ReaderCanMove(h, conn);
    }
  }

  lemma EndAlone(h: Hub, id: TaskId) returns (steps: seq<Step>)
    requires Inv(h) && InPhase(h, id, Waiting) && Subscription(h.tasks[id].job) && !OthersWait(h, id)
    ensures Finishes(h, steps)
    ensures Subscribed(RunAll(h, steps), h.tasks[id].conn, h.tasks[id].job.topic) <==> h.tasks[id].job.Join?
  {
    var conn := h.tasks[id].conn;
    assert TaskInv(h, id) && ClientInv(h, conn);
    var holding := Acquired(h, id);
    var done := Finished(holding, id, true);
    assert done.tasks == map[];
    FinishesCons(h, Acquire(id), [Finish(id, true)] + []);
    FinishesCons(holding, Finish(id, true), []);
    steps := [Acquire(id)] + ([Finish(id, true)] + []);
  }

  /** Any goroutine still before the lock can be the last to run. */
  lemma {:induction false} CanBeLast(h: Hub, id: TaskId) returns (steps: seq<Step>)
    requires Inv(h) && InPhase(h, id, Waiting) && Subscription(h.tasks[id].job)
    ensures Finishes(h, steps)
    ensures Subscribed(RunAll(h, steps), h.tasks[id].conn, h.tasks[id].job.topic) <==> h.tasks[id].job.Join?
    decreases Potential(h)
  {
    if OthersWait(h, id) {
      var s := OthersCanMove(h, id);
      Untouched(h, s, id);
      StepKeeps(h, s);
      InternalStepPays(h, s);
      var rest := CanBeLast(Apply(h, s), id);
      FinishesCons(h, s, rest);
      steps := [s] + rest;
    } else {
      steps := EndAlone(h, id);
    }
  }

  /** So can one the hub has yet to start. */
  lemma PendingLast(h: Hub, conn: Conn, job: Job) returns (steps: seq<Step>)
    requires Inv(h) && Subscription(job) && Pending(h, conn, job)
    ensures Finishes(h, steps) && (Subscribed(RunAll(h, steps), conn, job.topic) <==> job.Join?)
  {
    if id :| id in h.tasks && h.tasks[id] == Task(conn, job, Waiting) {
      steps := CanBeLast(h, id);
    } else {
      var next := Requested(h, conn);
      StepKeeps(h, HubRequest(conn));
      assert next.tasks[Numbered(h.nextTask)] == Task(conn, job, Waiting);
      var rest := CanBeLast(next, Numbered(h.nextTask));
      FinishesCons(h, HubRequest(conn), rest);
      steps := [HubRequest(conn)] + rest;
    }
  }

  // ---------------------------------------------------------------- a request that is lost

  lemma FinishKeepsMayHave(h: Hub, id: TaskId, conn: Conn, t: Topic)
    requires Inv(h) && InPhase(h, id, Holding) && h.tasks[id].conn == conn && conn in h.clients && MayHave(h, conn, t)
    requires !OutcomeOf(h.clients[conn], h.tasks[id].job, true).Failed?
    ensures conn in Finished(h, id, true).clients && MayHave(Finished(h, id, true), conn, t)
  {
    FinishTopics(h, id, true, conn);
    if Subscription(h.tasks[id].job) {
      FinishWorks(h, id, true, conn, Join(t));
      FinishWorks(h, id, true, conn, Leave(t));
    } else {
      NeutralFinish(h, id, true);
      NeutralKeepsDue(h, Finished(h, id, true), conn, t);
    }
  }

  /** While the mutex is held: by a goroutine whose write can fail, or by one that cannot and lets go. */
  lemma HolderFails(h: Hub, id: TaskId, conn: Conn) returns (s: Step)
    requires Inv(h) && InPhase(h, id, Holding) && h.tasks[id].conn == conn && conn in h.clients && conn in h.registered
    requires CanBeCutOff(h, conn)
    ensures s.Finish? && Enabled(h, s) && conn in Apply(h, s).clients && CanBeCutOff(Apply(h, s), conn)
  {
    assert TaskInv(h, id) && ClientInv(h, conn);
    if MayFail(h, id) {
      s := Finish(id, false);
      assert FailsAt(Finished(h, id, false), conn, id);
    } else {
      s := Finish(id, true);
      var next := Finished(h, id, true);
      if k :| FailsAt(h, conn, k) {
        assert TaskInv(h, k) && k != id;
        if h.tasks[k].job.Deliver? && h.tasks[k].phase == Waiting {
          FinishKeepsMayHave(h, id, conn, h.tasks[k].job.topic);
        }
        assert FailsAt(next, conn, k);
      } else {
        var b: nat :| FailsOn(h, conn, b);
        FinishKeepsMayHave(h, id, conn, h.posted[b]);
        assert FailsOn(next, conn, b);
      }
    }
  }

  lemma NobodyHolds(h: Hub, conn: Conn, job: Job)
    requires Inv(h) && conn in h.clients && h.clients[conn].holder.None?
    ensures !Works(h, conn, job, Holding) && !Works(h, conn, job, Blocked)
  {
    forall id | id in h.tasks && h.tasks[id].conn == conn
      ensures h.tasks[id].phase == Waiting
    {
      assert TaskInv(h, id);
    }
  }

  /** While it is free: the goroutine takes it, or the one that subscribes it first, or the hub starts it. */
  lemma WaiterFails(h: Hub, conn: Conn) returns (s: Step)
    requires Inv(h) && conn in h.clients && conn in h.registered && h.clients[conn].holder.None? && CanBeCutOff(h, conn)
    ensures (s.Acquire? || s.HubBroadcast?) && Enabled(h, s) && conn in Apply(h, s).clients
            && CanBeCutOff(Apply(h, s), conn)
  {
    if id :| FailsAt(h, conn, id) {
      assert TaskInv(h, id);
      if h.tasks[id].job.EchoBack? || h.tasks[id].job.topic in h.clients[conn].topics {
        s := Acquire(id);
        assert FailsAt(Acquired(h, id), conn, id);
      } else {
        var t := h.tasks[id].job.topic;
        NobodyHolds(h, conn, Join(t));
        var k :| k in h.tasks && h.tasks[k] == Task(conn, Join(t), Waiting);
        s := Acquire(k);
        assert Acquired(h, k).tasks[k] == Task(conn, Join(t), Holding);
        assert FailsAt(Acquired(h, k), conn, id);
      }
    } else {
      var b: nat :| FailsOn(h, conn, b);
      s := HubBroadcast(b);
      NeutralBroadcast(h, b);
      NeutralKeepsDue(h, Broadcasted(h, b), conn, h.posted[b]);
      assert FailsAt(Broadcasted(h, b), conn, DeliveryTo(b, conn));
    }
  }

  /** A step towards losing the connection, without receiving its request. */
  lemma CutOffStep(h: Hub, conn: Conn) returns (s: Step)
    requires Inv(h) && conn in h.clients && conn in h.registered && CanBeCutOff(h, conn)
    ensures Internal(s) && Enabled(h, s) && s != HubRequest(conn) && conn in Apply(h, s).clients
    ensures conn in Apply(h, s).registered ==> CanBeCutOff(Apply(h, s), conn)
  {
    assert ClientInv(h, conn);
    match h.clients[conn].holder
    case None => s := WaiterFails(h, conn);
    case Some(id) =>
      assert TaskInv(h, id);
      if h.tasks[id].phase == Blocked {
        s := HubUnregisterTask(id);
      } else {
        s := HolderFails(h, id, conn);
      }
  }

  lemma OneRequest(h: Hub, conn: Conn, one: Job, other: Job)
    requires Sends(h, conn, one) && Sends(h, conn, other)
    ensures one == other
  {
  }

  /** A request that can be lost is lost in some schedule that finishes, and the topic ends as it was due without it. */
  lemma {:induction false} CanBeLost(h: Hub, conn: Conn, job: Job, t: Topic) returns (steps: seq<Step>)
    requires Inv(h) && conn in h.clients && Sends(h, conn, job) && CanBeCutOff(h, conn) && !Contested(h, conn, t)
    ensures Finishes(h, steps) && (Subscribed(RunAll(h, steps), conn, t) <==> Due(h, conn, t))
    decreases Potential(h)
  {
    var s := CutOffStep(h, conn);
    StepKeeps(h, s);
    InternalStepPays(h, s);
    StepKeepsDue(h, s, conn, t);
    var next, rest := Apply(h, s), [];
    if Sends(next, conn, job) {
      rest := CanBeLost(next, conn, job, t);
    } else {
      rest := CanDrain(next);
      NothingSent(h, s, conn, job, Join(t));
      NothingSent(h, s, conn, job, Leave(t));
      EndsAsDecided(next, rest, conn, t);
    }
    FinishesCons(h, s, rest);
    steps := [s] + rest;
  }

  lemma NothingSent(h: Hub, s: Step, conn: Conn, job: Job, other: Job)
    requires Inv(h) && Internal(s) && Enabled(h, s) && Sends(h, conn, job) && !Sends(Apply(h, s), conn, job)
    ensures !Sends(Apply(h, s), conn, other)
  {
    if Sends(Apply(h, s), conn, other) {
      SentBefore(h, s, conn, other);
      OneRequest(h, conn, job, other);
    }
  }

  // ---------------------------------------------------------------- exactly when schedules agree

  /** What is not decided ends both ways. */
  lemma BothWays(h: Hub, conn: Conn, t: Topic) returns (one: seq<Step>, other: seq<Step>)
    requires Inv(h) && conn in h.clients && !Decided(h, conn, t)
    ensures Finishes(h, one) && Subscribed(RunAll(h, one), conn, t)
    ensures Finishes(h, other) && !Subscribed(RunAll(h, other), conn, t)
  {
    if Pending(h, conn, Join(t)) && Pending(h, conn, Leave(t)) {
      one := PendingLast(h, conn, Join(t));
      other := PendingLast(h, conn, Leave(t));
    } else if Sends(h, conn, Join(t)) {
      one := PendingLast(h, conn, Join(t));
      other := CanBeLost(h, conn, Join(t), t);
    } else {
      one := CanBeLost(h, conn, Leave(t), t);
      other := PendingLast(h, conn, Leave(t));
    }
  }

  /** Every schedule that finishes leaves the client with the topic, or every one without it, if and only if that is
      decided so. */
  lemma EndsIff(h: Hub, conn: Conn, t: Topic, member: bool)
    requires Inv(h) && conn in h.clients
    ensures (forall steps :: EndsWith(h, steps, conn, t, member))
       <==> Decided(h, conn, t) && (FinallyIn(h, conn, t) <==> member)
  {
    if Decided(h, conn, t) {
      forall steps | Finishes(h, steps) ensures Subscribed(RunAll(h, steps), conn, t) <==> FinallyIn(h, conn, t) {
        EndsAsDecided(h, steps, conn, t);
      }
      var some := CanDrain(h);
      assert EndsWith(h, some, conn, t, member) ==> (FinallyIn(h, conn, t) <==> member);
    } else {
      var one, other := BothWays(h, conn, t);
      assert !(EndsWith(h, one, conn, t, member) && EndsWith(h, other, conn, t, member));
    }
  }

  ghost predicate AgreeOn(h: Hub, one: seq<Step>, other: seq<Step>, conn: Conn, t: Topic)
    requires Inv(h)
  {
    Finishes(h, one) && Finishes(h, other) ==>
      (Subscribed(RunAll(h, one), conn, t) <==> Subscribed(RunAll(h, other), conn, t))
  }

  /** The finishing schedules agree on a topic if and only if it is decided; when no request is being sent, that is if
      and only if no subscription and opposite one are both before the lock. */
  lemma AgreeIff(h: Hub, conn: Conn, t: Topic)
    requires Inv(h) && conn in h.clients
    ensures (forall one, other :: AgreeOn(h, one, other, conn, t)) <==> Decided(h, conn, t)
    ensures (forall job :: !Sends(h, conn, job)) ==> (Decided(h, conn, t) <==> !Contested(h, conn, t))
  {
    if Decided(h, conn, t) {
      forall one, other | Finishes(h, one) && Finishes(h, other) ensures AgreeOn(h, one, other, conn, t) {
        EndsAsDecided(h, one, conn, t);
        EndsAsDecided(h, other, conn, t);
      }
    } else {
      var one, other := BothWays(h, conn, t);
      assert !AgreeOn(h, one, other, conn, t);
    }
  }

  ghost predicate SameTopics(h: Hub, one: seq<Step>, other: seq<Step>, conn: Conn)
    requires Inv(h)
  {
    Finishes(h, one) && Finishes(h, other) ==>
      var a, b := RunAll(h, one), RunAll(h, other);
      conn in a.clients && conn in b.clients && a.clients[conn].topics == b.clients[conn].topics
  }

  lemma AllDecidedSameTopics(h: Hub, conn: Conn, one: seq<Step>, other: seq<Step>)
    requires Inv(h) && conn in h.clients && Finishes(h, one) && Finishes(h, other) && forall t :: Decided(h, conn, t)
    ensures SameTopics(h, one, other, conn)
  {
    EndsAsDecided(h, one, conn, "");
    EndsAsDecided(h, other, conn, "");
    forall t ensures t in RunAll(h, one).clients[conn].topics <==> t in RunAll(h, other).clients[conn].topics {
      EndsAsDecided(h, one, conn, t);
      EndsAsDecided(h, other, conn, t);
    }
  }

  /** Every schedule that finishes leaves the client with the same topics if and only if every topic is decided. */
  lemma DrainsAgreeIff(h: Hub, conn: Conn)
    requires Inv(h) && conn in h.clients
    ensures (forall one, other :: SameTopics(h, one, other, conn)) <==> forall t :: Decided(h, conn, t)
  {
    if t :| !Decided(h, conn, t) {
      var one, other := BothWays(h, conn, t);
      assert !SameTopics(h, one, other, conn);
    } else {
      forall one, other | Finishes(h, one) && Finishes(h, other) ensures SameTopics(h, one, other, conn) {
        AllDecidedSameTopics(h, conn, one, other);
      }
    }
  }

  /** A subscription, or its opposite, before the lock or still being sent takes effect in every schedule that
      finishes if and only if its topic is decided. */
  lemma SubscriptionTakesEffectIff(h: Hub, conn: Conn, job: Job)
    requires Inv(h) && conn in h.clients && Subscription(job) && Pending(h, conn, job)
    ensures (forall steps :: EndsWith(h, steps, conn, job.topic, job.Join?)) <==> Decided(h, conn, job.topic)
  {
    EndsIff(h, conn, job.topic, job.Join?);
  }

  /** A registered connection that sends a subscribe ends with the topic in some schedule that finishes; in every one
      if and only if no goroutine that renounces it is before the lock, and the topic is due anyway if the connection
      can be unregistered first. */
  lemma SubscribeTakesEffectIff(h: Hub, conn: Conn, t: Topic) returns (steps: seq<Step>)
    requires Inv(h) && conn in h.registered && IsAt(h, conn, Sending(Subscribe(t)))
    ensures conn in h.clients
    ensures Finishes(h, steps) && Subscribed(RunAll(h, steps), conn, t)
    ensures (forall s :: EndsWith(h, s, conn, t, true))
       <==> !Works(h, conn, Leave(t), Waiting) && (CanBeCutOff(h, conn) ==> Due(h, conn, t))
  {
    steps := PendingLast(h, conn, Join(t));
    EndsIff(h, conn, t, true);
  }

  /** One that sends an unsubscribe ends without it, likewise. */
  lemma UnsubscribeTakesEffectIff(h: Hub, conn: Conn, t: Topic) returns (steps: seq<Step>)
    requires Inv(h) && conn in h.registered && IsAt(h, conn, Sending(Unsubscribe(t)))
    ensures conn in h.clients
    ensures Finishes(h, steps) && !Subscribed(RunAll(h, steps), conn, t)
    ensures (forall s :: EndsWith(h, s, conn, t, false))
       <==> !Works(h, conn, Join(t), Waiting) && (CanBeCutOff(h, conn) ==> !Due(h, conn, t))
  {
    steps := PendingLast(h, conn, Leave(t));
    EndsIff(h, conn, t, false);
  }

  /** An echo starts one goroutine that writes to the sender; from a connection that is not registered the hub takes any
      request and does nothing. */
  lemma EchoIsServed(h: Hub, conn: Conn)
    requires Inv(h) && conn in h.readers && h.readers[conn].Sending?
    ensures var next := Apply(h, HubRequest(conn));
            && next.readers == h.readers[conn := Reading]
            && next.registered == h.registered && next.clients == h.clients
            && next.posted == h.posted && next.inbox == h.inbox && next.log == h.log
            && (conn !in h.registered ==> next.tasks == h.tasks)
            && (conn in h.registered && h.readers[conn].req.Echo? ==>
                  && Numbered(h.nextTask) !in h.tasks
                  && next.tasks == h.tasks[Numbered(h.nextTask) := Task(conn, EchoBack, Waiting)])
  {
    assert Numbered(h.nextTask) in h.tasks ==> TaskInv(h, Numbered(h.nextTask));
  }

  function Opposite(job: Job): Job
    requires Subscription(job)
  {
    if job.Join? then Leave(job.topic) else Join(job.topic)
  }

  /** One that has the lock does so if and only if no opposite one is still to take it. */
  lemma HolderTakesEffectIff(h: Hub, conn: Conn, job: Job)
    requires Inv(h) && conn in h.clients && Subscription(job) && Works(h, conn, job, Holding)
    ensures (forall steps :: EndsWith(h, steps, conn, job.topic, job.Join?)) <==> !Pending(h, conn, Opposite(job))
  {
    EndsIff(h, conn, job.topic, job.Join?);
    if Works(h, conn, Opposite(job), Holding) { OneHolder(h, conn, job, Opposite(job)); }
  }

  lemma OneHolder(h: Hub, conn: Conn, one: Job, other: Job)
    requires Inv(h) && Works(h, conn, one, Holding) && Works(h, conn, other, Holding)
    ensures one == other
  {
    var i :| i in h.tasks && h.tasks[i] == Task(conn, one, Holding);
    var k :| k in h.tasks && h.tasks[k] == Task(conn, other, Holding);
    assert TaskInv(h, i) && TaskInv(h, k);
  }

  // ---------------------------------------------------------------- how they disagree

  /** A subscribe and an unsubscribe before the lock, or one of them still being sent: two schedules that finish leave
      different topics, whoever has the lock now. */
  lemma ConflictsDiverge(h: Hub, conn: Conn, t: Topic) returns (one: seq<Step>, other: seq<Step>)
    requires Inv(h) && Pending(h, conn, Join(t)) && Pending(h, conn, Leave(t))
    ensures Finishes(h, one) && Subscribed(RunAll(h, one), conn, t)
    ensures Finishes(h, other) && !Subscribed(RunAll(h, other), conn, t)
  {
    one := PendingLast(h, conn, Join(t));
    other := PendingLast(h, conn, Leave(t));
  }

  /** An echo of the sender under way decides whether its subscription counts: received first it takes effect, and when
      the echo's write fails first the hub ignores it. Both schedules finish. */
  lemma FailedEchoDecides(h: Hub, conn: Conn, echo: TaskId, t: Topic) returns (one: seq<Step>, other: seq<Step>)
    requires Inv(h) && conn in h.clients && Sends(h, conn, Join(t)) && !Due(h, conn, t)
    requires echo in h.tasks && h.tasks[echo].conn == conn && h.tasks[echo].job == EchoBack
    ensures Finishes(h, one) && Subscribed(RunAll(h, one), conn, t)
    ensures Finishes(h, other) && !Subscribed(RunAll(h, other), conn, t)
  {
    assert FailsAt(h, conn, echo);
    one, other := BothWays(h, conn, t);
  }

  /** So does a broadcast the hub has yet to receive, on a topic the sender has. */
  lemma FailedBroadcastDecides(h: Hub, conn: Conn, b: nat, t: Topic) returns (one: seq<Step>, other: seq<Step>)
    requires Inv(h) && conn in h.clients && Sends(h, conn, Join(t)) && !Due(h, conn, t)
    requires b in h.inbox && b < |h.posted| && MayHave(h, conn, h.posted[b])
    ensures Finishes(h, one) && Subscribed(RunAll(h, one), conn, t)
    ensures Finishes(h, other) && !Subscribed(RunAll(h, other), conn, t)
  {
    assert FailsOn(h, conn, b);
    one, other := BothWays(h, conn, t);
  }
}
