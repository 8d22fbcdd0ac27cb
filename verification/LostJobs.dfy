/** Jobs that JobManager::PushJob of Core/Job.cpp loses: it does not look at the result of Push, so a job pushed to a
    full queue is gone, and its Update is never called.
*/
module LostJobs {
  import opened AtomicQueue
  import opened AtomicQueueInvariant
  import opened AtomicQueueTheorems
  import opened AtomicQueueAlone
  import opened Jobs

  ghost predicate Acts(v: Variant, run: seq<System>, actions: seq<Action>) {
    |run| == |actions| + 1 && forall i :: 0 <= i < |actions| ==> ActAt(v, run, actions, i)
  }

  lemma ActsOn(v: Variant, run: seq<System>, actions: seq<Action>, a: Action)
    requires Acts(v, run, actions) && Enabled(run[|actions|], a) && |run[|actions|].q.w.g.buff| > 0
    ensures Acts(v, run + [Act(v, run[|actions|], a)], actions + [a])
  {
    var run', actions' := run + [Act(v, run[|actions|], a)], actions + [a];
    forall i | 0 <= i < |actions'|
      ensures ActAt(v, run', actions', i)
    {
      assert i < |actions| ==> ActAt(v, run, actions, i);
    }
  }

  /** A client outside a call. */
  ghost predicate Free(s: System, tid: nat) {
    tid in s.q.threads && tid !in s.workers && !InCall(s.q.threads[tid].l.pc)
  }

  /** Only the queue and thread `tid` differ. */
  ghost predicate OnlyPushed(s: System, s': System, tid: nat) {
    && s'.workers == s.workers && s'.started == s.started && s'.q.w.popped == s.q.w.popped
    && |s'.q.w.g.buff| == |s.q.w.g.buff| && s'.q.threads.Keys == s.q.threads.Keys
    && forall k :: k in s.q.threads && k != tid ==> s'.q.threads[k].l == s.q.threads[k].l
  }

  lemma OnlyPushedTwice(s: System, s': System, s'': System, tid: nat)
    requires OnlyPushed(s, s', tid) && OnlyPushed(s', s'', tid)
    ensures OnlyPushed(s, s'', tid)
  {
  }

  function Min(a: nat, b: nat): nat {
    if a <= b then a else b
  }

  ghost predicate RoomOk(w: World) {
    |w.popped| <= |w.pushed| && |w.Queue()| <= |w.g.buff|
  }

  /** What the queue takes of the jobs. */
  function Kept(w: World, jobs: seq<int>): (r: seq<int>)
    requires |w.Queue()| <= |w.g.buff|
  {
    jobs[..Min(|jobs|, |w.g.buff| - |w.Queue()|)]
  }

  /** The client is outside a call; its last one was PushJob of `job`, and this is the result of Push. */
  ghost predicate Returns(s: System, tid: nat, job: int, ok: bool) {
    Free(s, tid) && s.q.threads[tid].l.item == job && s.q.threads[tid].l.pc == Returned(ok)
  }

  lemma ClientStep(v: Variant, s: System, tid: nat, job: int)
    requires |s.q.w.g.buff| > 0 && tid in s.q.threads && tid !in s.workers && job != 0
    ensures var s' := Act(v, s, ClientPush(tid, job));
            && s'.q == Step(v, s.q, tid, Push, job) && s'.workers == s.workers && s'.started == s.started
            && forall k :: k in s.q.threads && k != tid ==> k in s'.q.threads && s'.q.threads[k].l == s.q.threads[k].l
    ensures Act(v, s, ClientPush(tid, job)).q.threads.Keys == s.q.threads.Keys
  {
  }

  /** PushJob has begun in `s` and has come to `s'`. */
  ghost predicate Underway(v: Variant, s: System, s': System, tid: nat, job: int, n: nat) {
    Pushing(v, s.q.w, s'.q, tid, job, n) && OnlyPushed(s, s', tid)
  }

  lemma JobBegins(v: Variant, s: System, tid: nat, job: int)
    requires Inv(v, s.q) && Free(s, tid) && job != 0
    ensures |s.q.w.g.buff| > 0 && Underway(v, s, Act(v, s, ClientPush(tid, job)), tid, job, 0)
  {
    hide WorldInv, ThreadInv, PushingThread, TicketsDistinct, Act;
    HasSlots(s.q.w);
    ClientStep(v, s, tid, job);
    PushingBegins(v, s.q, tid, job);
  }

  lemma JobGoesOn(v: Variant, s: System, s': System, tid: nat, job: int, n: nat)
    requires Underway(v, s, s', tid, job, n) && tid !in s.workers && InCall(s'.q.threads[tid].l.pc) && job != 0
    ensures n <= 40 && |s'.q.w.g.buff| > 0 && Underway(v, s, Act(v, s', ClientPush(tid, job)), tid, job, n + 1)
  {
    hide WorldInv, ThreadInv, PushingThread, TicketsDistinct, Act;
    HasSlots(s'.q.w);
    ClientStep(v, s', tid, job);
    PushingEnds(v, s.q.w, s'.q, tid, job, n);
    PushingGoesOn(v, s.q.w, s'.q, tid, job, n);
  }

  lemma JobEnds(v: Variant, s: System, s': System, tid: nat, job: int, n: nat)
    requires Underway(v, s, s', tid, job, n) && tid !in s.workers && !InCall(s'.q.threads[tid].l.pc)
    ensures Inv(v, s'.q) && Returns(s', tid, job, !s.q.w.Full())
    ensures s'.q.w.pushed == s.q.w.pushed + if s.q.w.Full() then [] else [job]
  {
    PushingEnds(v, s.q.w, s'.q, tid, job, n);
  }

  lemma PushJob(v: Variant, run: seq<System>, actions: seq<Action>, tid: nat, job: int)
    returns (run': seq<System>, actions': seq<Action>)
    requires Acts(v, run, actions) && job != 0 && Inv(v, run[|actions|].q) && Free(run[|actions|], tid)
    ensures Acts(v, run', actions') && run <= run' && actions <= actions'
    ensures forall i :: |actions| <= i < |actions'| ==> actions'[i] == ClientPush(tid, job)
    ensures Inv(v, run'[|actions'|].q) && OnlyPushed(run[|actions|], run'[|actions'|], tid)
    ensures Returns(run'[|actions'|], tid, job, !run[|actions|].q.w.Full())
    ensures run'[|actions'|].q.w.pushed == run[|actions|].q.w.pushed + if run[|actions|].q.w.Full() then [] else [job]
  {
    hide Inv, Act, ActAt, Pushing;
    var s, a, n := run[|actions|], ClientPush(tid, job), 0;
    JobBegins(v, s, tid, job);
    ActsOn(v, run, actions, a);
    var s' := Act(v, s, a);
    run', actions' := run + [s'], actions + [a];
    while InCall(s'.q.threads[tid].l.pc)
      invariant Acts(v, run', actions') && run <= run' && actions <= actions' && s' == run'[|actions'|]
      invariant forall i :: |actions| <= i < |actions'| ==> actions'[i] == a
      invariant tid in s'.q.threads && Underway(v, s, s', tid, job, n)
      decreases 41 - n
    {
      JobGoesOn(v, s, s', tid, job, n);
      ActsOn(v, run', actions', a);
      s' := Act(v, s', a);
      run', actions', n := run' + [s'], actions' + [a], n + 1;
    }
    JobEnds(v, s, s', tid, job, n);
  }

  lemma NoJobs(s: System, tid: nat)
    requires RoomOk(s.q.w)
    ensures OnlyPushed(s, s, tid) && Kept(s.q.w, []) == []
  {
  }

  lemma KeptOne(s: System, s': System, tid: nat, jobs: seq<int>, job: int)
    requires RoomOk(s.q.w) && OnlyPushed(s, s', tid) && s'.q.w.pushed == s.q.w.pushed + Kept(s.q.w, jobs)
    ensures Kept(s.q.w, jobs + [job]) == Kept(s.q.w, jobs) + if s'.q.w.Full() then [] else [job]
    ensures s'.q.w.Full() <==> |jobs| >= |Kept(s.q.w, jobs + [job])|
  {
    var w, w' := s.q.w, s'.q.w;
    var all := jobs + [job];
    assert |w'.Queue()| == |w.Queue()| + |Kept(w, jobs)|;
    assert jobs == all[..|jobs|];
  }

  /** The client pushes jobs one after the other, and no other thread moves. For each the run goes on to the state after
      PushJob: the first jobs are taken, as many as there was room for, and all others are lost.
   */
  lemma {:induction false} PushJobs(v: Variant, run: seq<System>, actions: seq<Action>, tid: nat, jobs: seq<int>)
    returns (run': seq<System>, actions': seq<Action>, ends: seq<nat>)
    requires Acts(v, run, actions) && 0 !in jobs && Inv(v, run[|actions|].q) && Free(run[|actions|], tid)
    requires RoomOk(run[|actions|].q.w)
    ensures Acts(v, run', actions') && run <= run' && actions <= actions'
    ensures forall i :: |actions| <= i < |actions'| ==> actions'[i].ClientPush? && actions'[i].item in jobs
    ensures Inv(v, run'[|actions'|].q) && Free(run'[|actions'|], tid)
        && OnlyPushed(run[|actions|], run'[|actions'|], tid)
    ensures run'[|actions'|].q.w.pushed == run[|actions|].q.w.pushed + Kept(run[|actions|].q.w, jobs)
    ensures |ends| == |jobs| && forall k :: 0 <= k < |jobs| ==> ends[k] < |run'|
    ensures forall k :: 0 <= k < |jobs| ==> Returns(run'[ends[k]], tid, jobs[k], k < |Kept(run[|actions|].q.w, jobs)|)
    decreases |jobs|
  {
    hide Inv, ActAt, OnlyPushed, Kept;
    if jobs == [] {
      run', actions', ends := run, actions, [];
      NoJobs(run[|actions|], tid);
    } else {
      var n := |jobs| - 1;
      var run1, actions1, ends1 := PushJobs(v, run, actions, tid, jobs[..n]);
      run', actions' := PushJob(v, run1, actions1, tid, jobs[n]);
      ends := ends1 + [|actions'|];
      assert jobs == jobs[..n] + [jobs[n]];
      KeptOne(run[|actions|], run1[|actions1|], tid, jobs[..n], jobs[n]);
      OnlyPushedTwice(run[|actions|], run1[|actions1|], run'[|actions'|], tid);
    }
  }

  // ---------- What becomes of a lost job ----------

  /** The job was never stored, and no thread is about to store it. */
  ghost predicate Absent(q: State, job: int) {
    job !in q.w.pushed && forall k :: k in q.threads && InCall(q.threads[k].l.pc) && q.threads[k].l.op.Push? ==>
      q.threads[k].l.item != job
  }

  predicate PushesJob(a: Action, job: int) {
    (a.ClientPush? || a.JobPush?) && a.item == job
  }

  lemma AbsentAccess(v: Variant, w: World, th: Thread, job: int)
    requires WorldInv(w) && ThreadInv(v, w, th) && InCall(th.l.pc) && job !in w.pushed
        && (th.l.op.Push? ==> th.l.item != job)
    ensures job !in WorldAfter(v, w, th.l).pushed
    ensures var l' := ThreadAfter(v, w, th).l; l'.op == th.l.op && (InCall(l'.pc) ==> l'.item == th.l.item)
  {
    hide WorldInv, Known, Fillable, Takable, RoundKnows, CountsOk;
    HasSlots(w);
  }

  lemma AbsentStep(v: Variant, q: State, tid: nat, op: Op, item: int, job: int)
    requires Inv(v, q) && tid in q.threads && Absent(q, job) && (op.Push? ==> item != job)
    ensures |q.w.g.buff| > 0 && Absent(Step(v, q, tid, op, item), job)
  {
    hide WorldInv, ThreadInv, TicketsDistinct, WorldAfter, ThreadAfter;
    HasSlots(q.w);
    if InCall(q.threads[tid].l.pc) { AbsentAccess(v, q.w, q.threads[tid], job); }
  }

  lemma AbsentAct(v: Variant, s: System, a: Action, job: int)
    requires Inv(v, s.q) && Enabled(s, a) && Absent(s.q, job) && !PushesJob(a, job)
    ensures |s.q.w.g.buff| > 0 && Absent(Act(v, s, a).q, job)
  {
    hide Inv, Absent, Step;
    InvParts(v, s.q);
    match a {
      case ClientPush(tid, item) => AbsentStep(v, s.q, tid, Push, item, job);
      case JobPush(tid, item) => AbsentStep(v, s.q, tid, Push, item, job);
      case Work(tid) => AbsentStep(v, s.q, tid, Pop, 0, job);
      case Own(tid) =>
    }
  }

  /** A job that was not stored is never started, unless it is pushed again. */
  lemma {:induction false} LostForGood(v: Variant, run: seq<System>, actions: seq<Action>, size: nat, i: nat, j: nat,
                                       job: int)
    requires IsJobRun(v, run, actions, size) && i <= j <= |actions| && Absent(run[i].q, job)
    requires forall m :: i <= m < j ==> !PushesJob(actions[m], job)
    ensures Absent(run[j].q, job) && forall n :: 0 <= n < |run[j].started| ==> run[j].started[n].1 != job
    decreases j
  {
    hide Inv, Act;
    StartedOnce(v, run, actions, size, j);
    if i < j {
      LostForGood(v, run, actions, size, i, j - 1, job);
      RunJobInv(v, run, actions, size, j - 1);
      assert ActAt(v, run, actions, j - 1);
      AbsentAct(v, run[j - 1], actions[j - 1], job);
    }
  }

  /** From the start, one client pushes jobs while no other thread moves: exactly the first `size` are stored, Push
      returns false for every other one, and what was not stored is lost.
   */
  lemma JobsAreLost(v: Variant, s: System, size: nat, tid: nat, jobs: seq<int>)
    returns (run: seq<System>, actions: seq<Action>, ends: seq<nat>)
    requires size > 0 && Start(s, size) && tid in s.q.threads && tid !in s.workers && 0 !in jobs
    ensures IsJobRun(v, run, actions, size) && run[0] == s && |ends| == |jobs|
    ensures forall k :: 0 <= k < |jobs| ==> ends[k] < |run| && Returns(run[ends[k]], tid, jobs[k], k < size)
    ensures run[|actions|].q.w.pushed == jobs[..Min(|jobs|, size)]
    ensures forall job :: Absent(run[|actions|].q, job) <==> job !in jobs[..Min(|jobs|, size)]
  {
    hide Inv, Act, ActAt;
    InitInv(v, s.q, size);
    run, actions, ends := PushJobs(v, [s], [], tid, jobs);
    assert [s] <= run;
  }

  // ---------- Why Push returned false ----------

  ghost predicate CallsAt(run: seq<System>, tid: nat, i: nat)
    requires i < |run|
  {
    tid in run[i].q.threads && InCall(run[i].q.threads[tid].l.pc)
  }

  /** The index of the state with which the current or last call of a thread began. */
  ghost function CallStart(run: seq<System>, tid: nat, i: nat): (c: nat)
    requires i < |run|
    ensures c <= i
  {
    if i == 0 || (CallsAt(run, tid, i) && !CallsAt(run, tid, i - 1)) then i else CallStart(run, tid, i - 1)
  }

  lemma SeenFullStep(v: Variant, q: State, q': State, tid: nat)
    requires Inv(v, q) && Next(v, q, q') && tid in q.threads && tid in q'.threads && !q'.threads[tid].l.pc.Idle?
    ensures q'.threads[tid].hist.sawFull ==>
              q'.w.Full() || (!q.threads[tid].l.pc.Idle? && q.threads[tid].hist.sawFull
                              && !(InCall(q'.threads[tid].l.pc) && !InCall(q.threads[tid].l.pc)))
  {
    hide Inv, Next;
    if InCall(q'.threads[tid].l.pc) && !InCall(q.threads[tid].l.pc) {
      SeenAtBegin(v, q, q', tid);
    } else {
      SeenStep(v, q, q', tid);
    }
  }

  /** An action is a step of the queue, or leaves it alone. */
  lemma ActNext(v: Variant, s: System, a: Action)
    requires Inv(v, s.q) && Enabled(s, a) && |s.q.w.g.buff| > 0
    ensures Act(v, s, a).q == s.q || Next(v, s.q, Act(v, s, a).q)
    ensures Act(v, s, a).q.threads.Keys == s.q.threads.Keys && |Act(v, s, a).q.w.g.buff| == |s.q.w.g.buff|
  {
    hide Inv;
    if Act(v, s, a).q != s.q {
      match a {
        case ClientPush(tid, item) => assert Next(v, s.q, Step(v, s.q, tid, Push, item));
        case JobPush(tid, item) => assert Next(v, s.q, Step(v, s.q, tid, Push, item));
        case Work(tid) => assert Next(v, s.q, Step(v, s.q, tid, Pop, 0));
        case Own(tid) =>
      }
      NextInv(v, s.q, Act(v, s, a).q);
    }
  }

  ghost predicate FullAt(run: seq<System>, i: nat, size: nat)
    requires i < |run|
  {
    |run[i].q.w.Queue()| == size
  }

  lemma {:induction false} SawFull(v: Variant, run: seq<System>, actions: seq<Action>, size: nat, i: nat, tid: nat)
    requires IsJobRun(v, run, actions, size) && i <= |actions| && tid in run[i].q.threads
    ensures |run[i].q.w.g.buff| == size
    ensures var th := run[i].q.threads[tid];
            !th.l.pc.Idle? && th.hist.sawFull ==> exists j :: CallStart(run, tid, i) <= j <= i && FullAt(run, j, size)
  {
    hide Inv, Act, Next, Enabled;
    if i > 0 {
      RunJobInv(v, run, actions, size, i - 1);
      assert ActAt(v, run, actions, i - 1);
      ActNext(v, run[i - 1], actions[i - 1]);
      SawFull(v, run, actions, size, i - 1, tid);
      var th := run[i].q.threads[tid];
      if run[i].q != run[i - 1].q && !th.l.pc.Idle? && th.hist.sawFull {
        SeenFullStep(v, run[i - 1].q, run[i].q, tid);
        if run[i].q.w.Full() { assert FullAt(run, i, size); }
      }
    }
  }

  /** In any run of the job system, a Push that returned false stored nothing, and at some moment of the
      call the queue held `size` jobs.
   */
  lemma FullQueueDrops(v: Variant, run: seq<System>, actions: seq<Action>, size: nat, i: nat, tid: nat)
    requires IsJobRun(v, run, actions, size) && i <= |actions| && tid in run[i].q.threads
    requires run[i].q.threads[tid].l.op.Push? && run[i].q.threads[tid].l.pc == Returned(false)
    ensures run[i].q.threads[tid].hist.ticket == -1
    ensures exists j :: CallStart(run, tid, i) <= j <= i && FullAt(run, j, size)
  {
    hide Inv;
    RunJobInv(v, run, actions, size, i);
    InvParts(v, run[i].q);
    ResultKnown(v, run[i].q.w, run[i].q.threads[tid]);
    SawFull(v, run, actions, size, i, tid);
  }
}
