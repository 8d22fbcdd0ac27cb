/** The job workers of Core/Job.cpp on top of the lock-free queue: threads that pop and run jobs until they are
    told to stop, and an owner for each that stops it and waits for its end. One step is one access of the
    queue, one event call, or the start or end of a job; a job may push further jobs. Auto-reset events are
    flags that a successful wait clears.
*/
module Jobs {
  import opened AtomicQueue
  import opened AtomicQueueInvariant

  /** Where JobThread::Update is: at the wait for the stop event, in PopJob, in Update of a job, or at its end. */
  datatype Phase = Waiting | Popping | Running(ticket: int, job: int) | Ending | Exited

  /** Where JobThread::Release is: not called, waiting for the end event, or past its wait. */
  datatype Owner = Holding | Joining | Passed

  datatype Worker = Worker(phase: Phase, stop: bool, end: bool, owner: Owner)

  /** The queue with its threads, the workers among them, and the jobs started so far with the ranks of their pops. */
  datatype System = System(q: State, workers: map<nat, Worker>, started: seq<(int, int)>)

  datatype Action =
    | ClientPush(tid: nat, item: int)  // PushJob on a thread that is no worker
    | JobPush(tid: nat, item: int)     // PushJob within a job
    | Work(tid: nat)                   // JobThread::Update
    | Own(tid: nat)                    // JobThread::Release

  predicate Enabled(s: System, a: Action) {
    match a
    case ClientPush(tid, item) => tid in s.q.threads && tid !in s.workers && item != 0
    case JobPush(tid, item) => tid in s.workers && tid in s.q.threads && s.workers[tid].phase.Running? && item != 0
    case Work(tid) =>
      && tid in s.workers && tid in s.q.threads && !s.workers[tid].phase.Exited?
      && (s.workers[tid].phase.Running? ==> !InCall(s.q.threads[tid].l.pc))
    case Own(tid) => tid in s.workers && (s.workers[tid].owner.Holding?
                                          || (s.workers[tid].owner.Joining? && s.workers[tid].end))
  }

  /** The result of PopJob: a job, or none. */
  predicate Got(l: Local) {
    l.pc == Returned(true) && l.item != 0
  }

  function Act(v: Variant, s: System, a: Action): System
    requires Enabled(s, a) && |s.q.w.g.buff| > 0
  {
    match a
    case ClientPush(tid, item) => s.(q := Step(v, s.q, tid, Push, item))
    case JobPush(tid, item) => s.(q := Step(v, s.q, tid, Push, item))
    case Work(tid) => DoWork(v, s, tid)
    case Own(tid) =>
      var w := s.workers[tid];
      s.(workers := s.workers[tid := if w.owner.Holding? then w.(stop := true, owner := Joining)
                              else w.(end := false, owner := Passed)])
  }

  function DoWork(v: Variant, s: System, tid: nat): System
    requires Enabled(s, Work(tid)) && |s.q.w.g.buff| > 0
  {
    var w, th := s.workers[tid], s.q.threads[tid];
    match w.phase
    case Waiting =>
      if w.stop then s.(workers := s.workers[tid := w.(stop := false, phase := Ending)])
      else s.(q := Step(v, s.q, tid, Pop, 0), workers := s.workers[tid := w.(phase := Popping)])
    case Popping =>
      if InCall(th.l.pc) then s.(q := Step(v, s.q, tid, Pop, 0))
      else if Got(th.l) then
        s.(workers := s.workers[tid := w.(phase := Running(th.hist.ticket, th.l.item))],
           started := s.started + [(th.hist.ticket, th.l.item)])
      else s.(workers := s.workers[tid := w.(phase := Waiting)])
    case Running(_, _) => s.(workers := s.workers[tid := w.(phase := Waiting)])
    case Ending => s.(workers := s.workers[tid := w.(phase := Exited, end := true)])
    case Exited => s
  }

  ghost predicate Start(s: System, size: nat) {
    && Init(s.q, size) && s.started == [] && s.workers.Keys <= s.q.threads.Keys
    && forall k :: k in s.workers ==> s.workers[k] == Worker(Waiting, false, false, Holding)
  }

  ghost predicate IsJobRun(v: Variant, run: seq<System>, actions: seq<Action>, size: nat) {
    && |run| == |actions| + 1 && size > 0 && Start(run[0], size)
    && forall i :: 0 <= i < |actions| ==> ActAt(v, run, actions, i)
  }

  ghost predicate ActAt(v: Variant, run: seq<System>, actions: seq<Action>, i: nat)
    requires i < |actions| && |run| == |actions| + 1
  {
    |run[i].q.w.g.buff| > 0 && Enabled(run[i], actions[i]) && run[i + 1] == Act(v, run[i], actions[i])
  }

  // ---------- The invariant ----------

  /** The events, the worker and its owner agree on how far the shutdown is. */
  predicate EventsOk(w: Worker) {
    match w.owner
    case Holding => !w.stop && !w.end && !w.phase.Ending? && !w.phase.Exited?
    case Joining =>
      if w.stop then !w.end && !w.phase.Ending? && !w.phase.Exited?
      else (w.phase.Ending? && !w.end) || (w.phase.Exited? && w.end)
    case Passed => !w.stop && !w.end && w.phase.Exited?
  }

  /** A worker is in a call of the queue only in PopJob, or in a push of its job. */
  predicate ThreadOk(w: Worker, l: Local) {
    match w.phase
    case Popping => !l.pc.Idle? && l.op.Pop?
    case Running(_, _) => InCall(l.pc) ==> l.op.Push?
    case _ => !InCall(l.pc)
  }

  /** The worker's pop has taken effect, and its job was not started yet. */
  predicate Holds(w: Worker, th: Thread, t: int) {
    w.phase.Popping? && th.hist.ticket == t >= 0
  }

  ghost predicate WorkersOk(s: System) {
    && s.workers.Keys <= s.q.threads.Keys
    && (forall k :: k in s.workers ==> EventsOk(s.workers[k]) && ThreadOk(s.workers[k], s.q.threads[k].l))
    && (forall k :: k in s.q.threads && k !in s.workers && InCall(s.q.threads[k].l.pc) ==> s.q.threads[k].l.op.Push?)
  }

  ghost predicate Started(s: System, t: int) {
    exists i :: 0 <= i < |s.started| && s.started[i].0 == t
  }

  ghost predicate HeldBy(s: System, k: nat, t: int) {
    k in s.workers && k in s.q.threads && Holds(s.workers[k], s.q.threads[k], t)
  }

  /** Every pop that took effect is either started, exactly once, or in the hands of one worker. */
  ghost predicate Accounted(s: System) {
    && (forall i :: 0 <= i < |s.started| ==>
          0 <= s.started[i].0 < |s.q.w.popped| && s.started[i].1 == s.q.w.popped[s.started[i].0])
    && (forall i, j :: 0 <= i < j < |s.started| ==> s.started[i].0 != s.started[j].0)
    && (forall k, t :: HeldBy(s, k, t) ==> !Started(s, t))
    && (forall t :: 0 <= t < |s.q.w.popped| ==> Started(s, t) || exists k :: HeldBy(s, k, t))
  }

  ghost predicate JobInv(v: Variant, s: System) {
    Inv(v, s.q) && WorkersOk(s) && Accounted(s)
  }

  // ---------- Steps of the queue ----------

  /** What a step of one thread does to the tickets and to the items taken. */
  lemma QueueStep(v: Variant, q: State, tid: nat, op: Op, item: int)
    requires Inv(v, q) && tid in q.threads && ItemOk(op, item)
    ensures var q' := Step(v, q, tid, op, item);
            && Inv(v, q') && q'.threads.Keys == q.threads.Keys
            && forall k :: k in q.threads && k != tid ==>
                 q'.threads[k].l == q.threads[k].l && q'.threads[k].hist.ticket == q.threads[k].hist.ticket
  {
    assert Next(v, q, Step(v, q, tid, op, item));
    NextInv(v, q, Step(v, q, tid, op, item));
  }

  /** The thread that steps: it begins a call, goes on, or takes the next item. */
  lemma OwnQueueStep(v: Variant, q: State, tid: nat, op: Op, item: int)
    requires Inv(v, q) && tid in q.threads && ItemOk(op, item)
    ensures var q' := Step(v, q, tid, op, item);
            var th, th' := q.threads[tid], q'.threads[tid];
            if !InCall(th.l.pc) then
              q'.w.popped == q.w.popped && th'.l.op == op && InCall(th'.l.pc) && th'.hist.ticket == -1
            else
              && th'.l.op == th.l.op && !th'.l.pc.Idle?
              && ((q'.w.popped == q.w.popped && (th.l.op.Pop? ==> th'.hist.ticket == th.hist.ticket))
                  || (th.l.op.Pop? && th.hist.ticket == -1 && |q'.w.popped| == |q.w.popped| + 1
                      && th'.hist.ticket == |q.w.popped|
                      && q'.w.popped[..|q.w.popped|] == q.w.popped))
  {
    hide Inv, WorldInv, ThreadInv, WorldAfter, ThreadAfter;
    InvParts(v, q);
    var th := q.threads[tid];
    if InCall(th.l.pc) {
      TicketDrawn(v, q.w, th);
      PoppedStep(v, q.w, th);
      StepParts(v, q, tid, op, item);
    }
  }

  lemma InvParts(v: Variant, q: State)
    requires Inv(v, q)
    ensures WorldInv(q.w) && |q.w.g.buff| > 0 && forall k :: k in q.threads ==> ThreadInv(v, q.w, q.threads[k])
  {
  }

  lemma StepParts(v: Variant, q: State, tid: nat, op: Op, item: int)
    requires tid in q.threads && |q.w.g.buff| > 0 && InCall(q.threads[tid].l.pc)
    ensures var q', th, th' := Step(v, q, tid, op, item), q.threads[tid], ThreadAfter(v, q.w, q.threads[tid]);
            && q'.w == WorldAfter(v, q.w, th.l) && tid in q'.threads
            && q'.threads[tid].l == th'.l && q'.threads[tid].hist.ticket == th'.hist.ticket && !th'.l.pc.Idle?
  {
  }

  lemma PoppedStep(v: Variant, w: World, th: Thread)
    requires WorldInv(w) && InCall(th.l.pc) && ThreadInv(v, w, th)
    ensures var w', th' := WorldAfter(v, w, th.l), ThreadAfter(v, w, th);
            if th'.l.pc.PopFinish? then
              && th.l.op.Pop? && |w'.popped| == |w.popped| + 1 && w'.popped[..|w.popped|] == w.popped
              && th.hist.ticket == -1 && th'.hist.ticket == |w.popped|
            else w'.popped == w.popped && (th.l.op.Pop? ==> th'.hist.ticket == th.hist.ticket)
  {
    hide WorldInv, Known, Fillable, Takable, RoundKnows, CountsOk, SeenOk;
    HasSlots(w);
  }

  // ---------- The invariant is kept ----------

  /** A change that leaves the started jobs and what workers hold alone. */
  lemma AccountedSame(s: System, s': System)
    requires Accounted(s) && s'.started == s.started && s'.q.w.popped == s.q.w.popped
    requires forall k, t :: HeldBy(s, k, t) <==> HeldBy(s', k, t)
    ensures Accounted(s')
  {
    forall t | 0 <= t < |s'.q.w.popped|
      ensures Started(s', t) || exists k :: HeldBy(s', k, t)
    {
      if !Started(s, t) {
        var k :| HeldBy(s, k, t);
        assert HeldBy(s', k, t);
      }
      assert Started(s, t) ==> Started(s', t);
    }
    assert forall t :: Started(s', t) <==> Started(s, t);
  }

  lemma PushKeeps(v: Variant, s: System, tid: nat, item: int)
    requires JobInv(v, s) && tid in s.q.threads && item != 0
    requires tid in s.workers ==> s.workers[tid].phase.Running?
    ensures JobInv(v, s.(q := Step(v, s.q, tid, Push, item)))
  {
    hide Inv, Step, Accounted, EventsOk;
    InvParts(v, s.q);
    var s' := s.(q := Step(v, s.q, tid, Push, item));
    QueueStep(v, s.q, tid, Push, item);
    OwnQueueStep(v, s.q, tid, Push, item);
    assert InCall(s.q.threads[tid].l.pc) ==> s.q.threads[tid].l.op.Push?;
    forall k, t
      ensures HeldBy(s, k, t) <==> HeldBy(s', k, t)
    {
    }
    AccountedSame(s, s');
  }

  lemma EventsInPop(w: Worker)
    requires EventsOk(w) && w.phase.Waiting?
    ensures EventsOk(w.(phase := Popping))
  {
  }

  /** The worker goes on in its wait, its pop or its end without taking an item. */
  lemma BeginPopKeeps(v: Variant, s: System, tid: nat)
    requires JobInv(v, s) && Enabled(s, Work(tid)) && s.workers[tid].phase.Waiting? && !s.workers[tid].stop
    ensures JobInv(v, DoWork(v, s, tid))
  {
    hide Inv, Step, Accounted, EventsOk;
    InvParts(v, s.q);
    EventsInPop(s.workers[tid]);
    var s' := DoWork(v, s, tid);
    QueueStep(v, s.q, tid, Pop, 0);
    OwnQueueStep(v, s.q, tid, Pop, 0);
    forall k, t
      ensures HeldBy(s, k, t) <==> HeldBy(s', k, t)
    {
    }
    AccountedSame(s, s');
  }

  lemma PopStepKeeps(v: Variant, s: System, tid: nat)
    requires JobInv(v, s) && Enabled(s, Work(tid)) && s.workers[tid].phase.Popping? && InCall(s.q.threads[tid].l.pc)
    ensures JobInv(v, DoWork(v, s, tid))
  {
    hide Inv, Step, Accounted;
    InvParts(v, s.q);
    var s' := DoWork(v, s, tid);
    QueueStep(v, s.q, tid, Pop, 0);
    OwnQueueStep(v, s.q, tid, Pop, 0);
    assert s.q.threads[tid].l.op.Pop?;
    if s'.q.w.popped == s.q.w.popped {
      forall k, t
        ensures HeldBy(s, k, t) <==> HeldBy(s', k, t)
      {
      }
      AccountedSame(s, s');
    } else {
      TakenKeeps(v, s, s', tid);
    }
  }

  /** A pop has taken effect: its rank is new, and the worker holds it. */
  lemma TakenKeeps(v: Variant, s: System, s': System, tid: nat)
    requires Accounted(s) && tid in s.workers && tid in s.q.threads && s'.started == s.started
        && s'.workers == s.workers
    requires s'.q.threads.Keys == s.q.threads.Keys && s.workers[tid].phase.Popping?
        && s'.q.threads[tid].hist.ticket == |s.q.w.popped|
    requires forall k :: k in s.q.threads && k != tid ==> s'.q.threads[k].hist.ticket == s.q.threads[k].hist.ticket
    requires |s'.q.w.popped| == |s.q.w.popped| + 1 && s'.q.w.popped[..|s.q.w.popped|] == s.q.w.popped
    requires s.q.threads[tid].hist.ticket == -1
    ensures Accounted(s')
  {
    assert forall t :: Started(s', t) <==> Started(s, t);
    forall i | 0 <= i < |s'.started|
      ensures s'.started[i].0 < |s'.q.w.popped| && s'.started[i].1 == s'.q.w.popped[s'.started[i].0]
    {
      assert s'.q.w.popped[s'.started[i].0] == s'.q.w.popped[..|s.q.w.popped|][s'.started[i].0];
    }
    forall k, t
      ensures HeldBy(s', k, t) <==> HeldBy(s, k, t) || (k == tid && t == |s.q.w.popped|)
    {
    }
    forall t | 0 <= t < |s'.q.w.popped|
      ensures Started(s', t) || exists k :: HeldBy(s', k, t)
    {
      if t == |s.q.w.popped| {
        assert HeldBy(s', tid, t);
      } else if !Started(s, t) {
        var k :| HeldBy(s, k, t);
        assert HeldBy(s', k, t);
      }
    }
  }

  /** PopJob has returned. */
  lemma PoppedKeeps(v: Variant, s: System, tid: nat)
    requires JobInv(v, s) && Enabled(s, Work(tid)) && s.workers[tid].phase.Popping? && !InCall(s.q.threads[tid].l.pc)
    ensures JobInv(v, DoWork(v, s, tid))
  {
    var s', th := DoWork(v, s, tid), s.q.threads[tid];
    assert ThreadInv(v, s.q.w, th) && TicketOk(s.q.w, th.l, th.hist.ticket);
    if Got(th.l) {
      StartedKeeps(v, s, s', tid);
    } else {
      NothingPopped(v, s, tid);
      forall k, t
        ensures HeldBy(s, k, t) <==> HeldBy(s', k, t)
      {
      }
      AccountedSame(s, s');
    }
  }

  lemma TakenIsNotZero(w: World, t: int)
    requires WorldInv(w)
    ensures 0 <= t < |w.popped| ==> w.popped[t] != 0
  {
    if 0 <= t < |w.popped| { assert w.popped[t] == w.pushed[t]; }
  }

  /** PopJob returns no job only if its pop took no item: items are not 0. */
  lemma NothingPopped(v: Variant, s: System, tid: nat)
    requires JobInv(v, s) && tid in s.workers && tid in s.q.threads && s.workers[tid].phase.Popping?
    requires !InCall(s.q.threads[tid].l.pc) && !Got(s.q.threads[tid].l)
    ensures s.q.threads[tid].hist.ticket == -1
  {
    var th := s.q.threads[tid];
    assert ThreadInv(v, s.q.w, th) && TicketOk(s.q.w, th.l, th.hist.ticket);
    TakenIsNotZero(s.q.w, th.hist.ticket);
  }

  /** The job that PopJob hands to a worker, and to no other. */
  lemma InHand(v: Variant, s: System, tid: nat)
    requires Inv(v, s.q) && WorkersOk(s) && Enabled(s, Work(tid)) && s.workers[tid].phase.Popping?
    requires Got(s.q.threads[tid].l)
    ensures var th := s.q.threads[tid];
            && 0 <= th.hist.ticket < |s.q.w.popped| && s.q.w.popped[th.hist.ticket] == th.l.item
            && HeldBy(s, tid, th.hist.ticket) && forall k :: HeldBy(s, k, th.hist.ticket) ==> k == tid
  {
    var th := s.q.threads[tid];
    assert ThreadInv(v, s.q.w, th) && TicketOk(s.q.w, th.l, th.hist.ticket);
    assert HeldBy(s, tid, th.hist.ticket);
    forall k | k in s.q.threads && k != tid
      ensures !HeldBy(s, k, th.hist.ticket)
    {
      assert Apart(th, s.q.threads[k]);
    }
  }

  lemma StartedKeeps(v: Variant, s: System, s': System, tid: nat)
    requires JobInv(v, s) && Enabled(s, Work(tid)) && s.workers[tid].phase.Popping? && !InCall(s.q.threads[tid].l.pc)
    requires Got(s.q.threads[tid].l) && s' == DoWork(v, s, tid)
    ensures JobInv(v, s')
  {
    hide Inv;
    InHand(v, s, tid);
    var th := s.q.threads[tid];
    var ticket := th.hist.ticket;
    assert s'.started[|s.started|] == (ticket, th.l.item);
    forall t
      ensures Started(s', t) <==> Started(s, t) || t == ticket
    {
      if Started(s, t) {
        var i :| 0 <= i < |s.started| && s.started[i].0 == t;
        assert s'.started[i].0 == t;
      }
    }
    forall k, t | HeldBy(s', k, t)
      ensures HeldBy(s, k, t) && t != ticket
    {
      assert HeldBy(s, k, t) && k != tid;
    }
    forall t | 0 <= t < |s'.q.w.popped|
      ensures Started(s', t) || exists k :: HeldBy(s', k, t)
    {
      if !Started(s', t) {
        var k :| HeldBy(s, k, t);
        assert HeldBy(s', k, t);
      }
    }
    forall i, j | 0 <= i < j < |s'.started|
      ensures s'.started[i].0 != s'.started[j].0
    {
      if j == |s.started| { assert s.started[i].0 == ticket ==> Started(s, ticket); }
    }
  }

  /** Steps that do not touch the queue. */
  lemma QuietKeeps(v: Variant, s: System, s': System, tid: nat)
    requires JobInv(v, s) && tid in s.workers && s'.q == s.q && s'.started == s.started
    requires s'.workers.Keys == s.workers.Keys
        && forall k :: k in s.workers && k != tid ==> s'.workers[k] == s.workers[k]
    requires EventsOk(s'.workers[tid]) && ThreadOk(s'.workers[tid], s.q.threads[tid].l)
    requires s'.workers[tid].phase.Popping? <==> s.workers[tid].phase.Popping?
    ensures JobInv(v, s')
  {
    forall k, t
      ensures HeldBy(s, k, t) <==> HeldBy(s', k, t)
    {
    }
    AccountedSame(s, s');
  }

  lemma WorkKeeps(v: Variant, s: System, tid: nat)
    requires JobInv(v, s) && Enabled(s, Work(tid))
    ensures JobInv(v, DoWork(v, s, tid))
  {
    var w := s.workers[tid];
    if w.phase.Popping? {
      if InCall(s.q.threads[tid].l.pc) { PopStepKeeps(v, s, tid); } else { PoppedKeeps(v, s, tid); }
    } else if w.phase.Waiting? && !w.stop {
      BeginPopKeeps(v, s, tid);
    } else {
      QuietKeeps(v, s, DoWork(v, s, tid), tid);
    }
  }

  lemma ActKeeps(v: Variant, s: System, a: Action)
    requires JobInv(v, s) && Enabled(s, a)
    ensures |s.q.w.g.buff| > 0 && JobInv(v, Act(v, s, a))
  {
    match a {
      case ClientPush(tid, item) => PushKeeps(v, s, tid, item);
      case JobPush(tid, item) => PushKeeps(v, s, tid, item);
      case Work(tid) => WorkKeeps(v, s, tid);
      case Own(tid) => QuietKeeps(v, s, Act(v, s, a), tid);
    }
  }

  lemma {:induction false} RunJobInv(v: Variant, run: seq<System>, actions: seq<Action>, size: nat, i: nat)
    requires IsJobRun(v, run, actions, size) && i <= |actions|
    ensures JobInv(v, run[i])
  {
    if i == 0 {
      InitInv(v, run[0].q, size);
    } else {
      RunJobInv(v, run, actions, size, i - 1);
      assert ActAt(v, run, actions, i - 1);
      ActKeeps(v, run[i - 1], actions[i - 1]);
    }
  }

  // ---------- What holds of every run ----------

  /** Every job that was started is an accepted push, the one whose rank is that of its
      pop, and no push is started twice.
   */
  lemma StartedOnce(v: Variant, run: seq<System>, actions: seq<Action>, size: nat, i: nat)
    requires IsJobRun(v, run, actions, size) && i <= |actions|
    ensures var s := run[i];
            && (forall n :: 0 <= n < |s.started| ==>
                  0 <= s.started[n].0 < |s.q.w.pushed| && s.started[n].1 == s.q.w.pushed[s.started[n].0])
            && (forall m, n :: 0 <= m < n < |s.started| ==> s.started[m].0 != s.started[n].0)
  {
    RunJobInv(v, run, actions, size, i);
    var s := run[i];
    forall n | 0 <= n < |s.started|
      ensures 0 <= s.started[n].0 < |s.q.w.pushed| && s.started[n].1 == s.q.w.pushed[s.started[n].0]
    {
      assert s.q.w.popped[s.started[n].0] == s.q.w.pushed[..|s.q.w.popped|][s.started[n].0];
    }
  }

  /** Once Release is past its wait, its worker has left Update for good: it takes no
      further step, and every event is off.
   */
  lemma ReleasedIsOver(v: Variant, run: seq<System>, actions: seq<Action>, size: nat, k: nat, i: nat, j: nat)
    requires IsJobRun(v, run, actions, size) && i <= j <= |actions|
    requires k in run[i].workers && run[i].workers[k].owner.Passed?
    ensures k in run[j].workers && run[j].workers[k] == Worker(Exited, false, false, Passed)
    ensures j < |actions| ==>
              !(actions[j].Work? && actions[j].tid == k) && !(actions[j].JobPush? && actions[j].tid == k)
    decreases j
  {
    hide JobInv, Act, Enabled;
    RunJobInv(v, run, actions, size, j);
    if i < j {
      ReleasedIsOver(v, run, actions, size, k, i, j - 1);
      assert ActAt(v, run, actions, j - 1);
      OverStays(v, run[j - 1], actions[j - 1], k);
    } else {
      PassedIsOver(v, run[i], k);
    }
    if j < |actions| {
      assert ActAt(v, run, actions, j);
      OverIsStill(run[j], actions[j], k);
    }
  }

  lemma PassedIsOver(v: Variant, s: System, k: nat)
    requires JobInv(v, s) && k in s.workers && s.workers[k].owner.Passed?
    ensures s.workers[k] == Worker(Exited, false, false, Passed)
  {
  }

  lemma OverStays(v: Variant, s: System, a: Action, k: nat)
    requires Enabled(s, a) && |s.q.w.g.buff| > 0 && k in s.workers
        && s.workers[k] == Worker(Exited, false, false, Passed)
    ensures k in Act(v, s, a).workers && Act(v, s, a).workers[k] == s.workers[k]
  {
  }

  lemma OverIsStill(s: System, a: Action, k: nat)
    requires Enabled(s, a) && k in s.workers && s.workers[k] == Worker(Exited, false, false, Passed)
    ensures !(a.Work? && a.tid == k) && !(a.JobPush? && a.tid == k)
  {
  }

  /** When all workers have left, every item that was taken from the queue was started: a stop loses no job in hand. */
  lemma NoneLost(v: Variant, run: seq<System>, actions: seq<Action>, size: nat, i: nat, t: int)
    requires IsJobRun(v, run, actions, size) && i <= |actions|
    requires forall k :: k in run[i].workers ==> run[i].workers[k].phase.Exited?
    ensures 0 <= t < |run[i].q.w.popped| <==> Started(run[i], t)
  {
    RunJobInv(v, run, actions, size, i);
    var s := run[i];
    if 0 <= t < |s.q.w.popped| {
      assert Started(s, t) || exists k :: HeldBy(s, k, t);
    }
  }
}
