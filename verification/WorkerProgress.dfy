/** What the workers of Core/Job.cpp get done: a worker that moves while all others stand still starts the oldest stored
    job, and from every reachable state with a worker that was not told to stop, all stored jobs can still be started.
*/
module WorkerProgress {
  import opened AtomicQueue
  import opened AtomicQueueInvariant
  import opened AtomicQueueTheorems
  import opened AtomicQueueAlone
  import opened Jobs
  import opened LostJobs

  // ---------- One worker moves ----------

  ghost predicate SameOthers(q: State, q': State, k: nat) {
    q'.threads.Keys == q.threads.Keys &&
    forall j :: j in q.threads && j != k ==>
      q'.threads[j].l == q.threads[j].l && q'.threads[j].hist.ticket == q.threads[j].hist.ticket
  }

  /** Only worker `k`, its thread and the queue differ, and the worker was not told anything. */
  ghost predicate OnlyWorked(s: System, s': System, k: nat) {
    && k in s.workers && k in s'.workers && s'.workers == s.workers[k := s.workers[k].(phase := s'.workers[k].phase)]
    && SameOthers(s.q, s'.q, k)
    && s.started <= s'.started && s.q.w.pushed <= s'.q.w.pushed && s.q.w.popped <= s'.q.w.popped
  }

  lemma OnlyWorkedTwice(s: System, s': System, s'': System, k: nat)
    requires OnlyWorked(s, s', k) && OnlyWorked(s', s'', k)
    ensures OnlyWorked(s, s'', k)
  {
    assert s.started <= s'.started <= s''.started;
    assert s.q.w.pushed <= s'.q.w.pushed <= s''.q.w.pushed;
    assert s.q.w.popped <= s'.q.w.popped <= s''.q.w.popped;
  }

  /** The worker is on its way through its loop. */
  predicate Live(s: System, k: nat) {
    k in s.workers && k in s.q.threads && !s.workers[k].phase.Ending? && !s.workers[k].phase.Exited?
  }

  /** The worker is on its way through its loop, and was not told to stop. */
  predicate Able(s: System, k: nat) {
    Live(s, k) && !s.workers[k].stop
  }

  lemma Histories(v: Variant, q: State, tid: nat, op: Op, item: int)
    requires Inv(v, q) && tid in q.threads && ItemOk(op, item)
    ensures |q.w.g.buff| > 0
    ensures var q' := Step(v, q, tid, op, item); q.w.pushed <= q'.w.pushed && q.w.popped <= q'.w.popped
  {
    assert Next(v, q, Step(v, q, tid, op, item));
    NextInv(v, q, Step(v, q, tid, op, item));
  }

  /** A move of an able worker: it goes on in its loop, or its job pushes. */
  predicate Moves(a: Action, k: nat) {
    a == Work(k) || (a.JobPush? && a.tid == k)
  }

  /** The worker is on its way through its loop, and not at its wait with the stop event set. */
  predicate Going(s: System, k: nat) {
    Live(s, k) && (s.workers[k].phase.Waiting? ==> !s.workers[k].stop)
  }

  lemma Move(v: Variant, s: System, a: Action, k: nat)
    requires JobInv(v, s) && Going(s, k) && Moves(a, k) && Enabled(s, a)
    ensures |s.q.w.g.buff| > 0 && JobInv(v, Act(v, s, a)) && OnlyWorked(s, Act(v, s, a), k)
    ensures Live(Act(v, s, a), k) && (Able(s, k) ==> Able(Act(v, s, a), k))
  {
    hide Inv, WorkersOk, Accounted, Step;
    ActKeeps(v, s, a);
    if a.JobPush? {
      QueueStep(v, s.q, k, Push, a.item);
      Histories(v, s.q, k, Push, a.item);
    } else if s.workers[k].phase.Waiting? || InCall(s.q.threads[k].l.pc) {
      QueueStep(v, s.q, k, Pop, 0);
      Histories(v, s.q, k, Pop, 0);
    }
  }

  // ---------- A worker takes a job ----------

  /** Worker `k` began PopJob in `s` and has come to `s'` with `n` accesses. */
  ghost predicate Takes(v: Variant, s: System, s': System, k: nat, n: nat) {
    && JobInv(v, s') && Able(s', k) && AtomicQueueAlone.Popping(v, s.q.w, s'.q, k, n)
    && OnlyWorked(s, s', k) && s'.workers[k].phase.Popping? && s'.started == s.started
    && s'.q.threads[k].hist.ticket == if s'.q.w.popped == s.q.w.popped then -1 else |s.q.w.popped|
  }

  lemma TakeBegins(v: Variant, s: System, k: nat)
    requires JobInv(v, s) && Able(s, k) && s.workers[k].phase.Waiting?
    ensures |s.q.w.g.buff| > 0 && Enabled(s, Work(k)) && Takes(v, s, Act(v, s, Work(k)), k, 0)
  {
    hide Inv, WorkersOk, Accounted, Step, AtomicQueueAlone.Popping;
    assert ThreadOk(s.workers[k], s.q.threads[k].l) by { WorkerOk(v, s, k); }
    Move(v, s, Work(k), k);
    PoppingBegins(v, s.q, k);
    OwnQueueStep(v, s.q, k, Pop, 0);
  }

  lemma WorkerOk(v: Variant, s: System, k: nat)
    requires JobInv(v, s) && k in s.workers
    ensures k in s.q.threads && EventsOk(s.workers[k]) && ThreadOk(s.workers[k], s.q.threads[k].l)
  {
  }

  lemma TakeGoesOn(v: Variant, s: System, s': System, k: nat, n: nat)
    requires Takes(v, s, s', k, n) && InCall(s'.q.threads[k].l.pc)
    ensures n <= 40 && |s'.q.w.g.buff| > 0 && Enabled(s', Work(k)) && Takes(v, s, Act(v, s', Work(k)), k, n + 1)
  {
    hide Inv, WorkersOk, Accounted, Step, AtomicQueueAlone.Popping;
    WorkerOk(v, s', k);
    Move(v, s', Work(k), k);
    OnlyWorkedTwice(s, s', Act(v, s', Work(k)), k);
    PoppingEnds(v, s.q.w, s'.q, k, n);
    PoppingGoesOn(v, s.q.w, s'.q, k, n);
    OwnQueueStep(v, s'.q, k, Pop, 0);
  }

  /** What has come of it: the oldest job is running, or there was none. */
  ghost predicate Took(s: System, s': System, k: nat) {
    && OnlyWorked(s, s', k) && s'.q.w.pushed == s.q.w.pushed && k in s'.q.threads && !InCall(s'.q.threads[k].l.pc)
    && if s.q.w.Queue() == [] then
         s'.workers[k].phase.Waiting? && s'.started == s.started && s'.q.w.popped == s.q.w.popped
       else
         && s'.workers[k].phase == Running(|s.q.w.popped|, s.q.w.Queue()[0])
         && s'.started == s.started + [(|s.q.w.popped|, s.q.w.Queue()[0])]
         && s'.q.w.popped == s.q.w.popped + [s.q.w.Queue()[0]]
  }

  lemma OldestNotZero(v: Variant, s: System)
    requires Inv(v, s.q) && s.q.w.Queue() != []
    ensures s.q.w.Queue()[0] != 0
  {
  }

  lemma TakeEnds(v: Variant, s: System, s': System, k: nat, n: nat)
    requires JobInv(v, s) && Takes(v, s, s', k, n) && !InCall(s'.q.threads[k].l.pc)
    ensures n <= 40 && |s'.q.w.g.buff| > 0 && Enabled(s', Work(k))
    ensures var s'' := Act(v, s', Work(k)); JobInv(v, s'') && Able(s'', k) && Took(s, s'', k)
  {
    hide Inv, WorkersOk, Accounted, Step;
    WorkerOk(v, s', k);
    Move(v, s', Work(k), k);
    OnlyWorkedTwice(s, s', Act(v, s', Work(k)), k);
    PoppingEnds(v, s.q.w, s'.q, k, n);
    if s.q.w.Queue() != [] { OldestNotZero(v, s); }
  }

  /** The second run goes on from the first with moves of worker `k` through its loop. */
  ghost predicate WorksOn(v: Variant, run: seq<System>, actions: seq<Action>, run': seq<System>, actions': seq<Action>,
                          k: nat) {
    && Acts(v, run', actions') && run <= run' && actions <= actions'
    && forall i :: |actions| <= i < |actions'| ==> actions'[i] == Work(k)
  }

  ghost function Last(run: seq<System>): System
    requires run != []
  {
    run[|run| - 1]
  }

  lemma WorksOnSelf(v: Variant, run: seq<System>, actions: seq<Action>, k: nat)
    requires Acts(v, run, actions)
    ensures WorksOn(v, run, actions, run, actions, k) && run != [] && Last(run) == run[|actions|]
  {
  }

  lemma WorksOnOne(v: Variant, run: seq<System>, actions: seq<Action>, run': seq<System>, actions': seq<Action>, k: nat)
    requires WorksOn(v, run, actions, run', actions', k) && run' != []
    requires Enabled(Last(run'), Work(k)) && |Last(run').q.w.g.buff| > 0
    ensures var s := Act(v, Last(run'), Work(k));
            WorksOn(v, run, actions, run' + [s], actions' + [Work(k)], k) && Last(run' + [s]) == s
  {
    hide Act, Enabled;
    ActsOn(v, run', actions', Work(k));
  }

  lemma WorksOnTwice(v: Variant, run: seq<System>, actions: seq<Action>, run1: seq<System>, actions1: seq<Action>,
                     run': seq<System>, actions': seq<Action>, k: nat)
    requires WorksOn(v, run, actions, run1, actions1, k) && WorksOn(v, run1, actions1, run', actions', k)
    ensures WorksOn(v, run, actions, run', actions', k)
  {
    hide Acts;
    assert run <= run1 <= run' && actions <= actions1 <= actions';
    forall i | |actions| <= i < |actions'|
      ensures actions'[i] == Work(k)
    {
      assert i < |actions1| ==> actions'[i] == actions1[i];
    }
  }

  /** A worker that waits and moves alone has started the oldest stored job within 42 actions, or is back at its wait if
      there is none.
   */
  lemma TakeOne(v: Variant, run: seq<System>, actions: seq<Action>, k: nat)
    returns (run': seq<System>, actions': seq<Action>)
    requires Acts(v, run, actions) && JobInv(v, run[|actions|]) && Able(run[|actions|], k)
    requires run[|actions|].workers[k].phase.Waiting?
    ensures WorksOn(v, run, actions, run', actions', k) && run' != [] && |actions'| <= |actions| + 42
    ensures JobInv(v, Last(run')) && Able(Last(run'), k) && Took(run[|actions|], Last(run'), k)
  {
    WorksOnSelf(v, run, actions, k);
    hide JobInv, Act, Enabled, AtomicQueueAlone.Popping, OnlyWorked, Able, Took, Acts, WorksOn, Last;
    var s, n := Last(run), 0;
    TakeBegins(v, s, k);
    WorksOnOne(v, run, actions, run, actions, k);
    var s' := Act(v, s, Work(k));
    run', actions' := run + [s'], actions + [Work(k)];
    TakesThread(v, s, s', k, n);
    while InCall(s'.q.threads[k].l.pc)
      invariant WorksOn(v, run, actions, run', actions', k) && run' != []
      invariant s' == Last(run') && |actions'| == |actions| + 1 + n && n <= 40
      invariant k in s'.q.threads && Takes(v, s, s', k, n)
      decreases 40 - n
    {
      TakeGoesOn(v, s, s', k, n);
      WorksOnOne(v, run, actions, run', actions', k);
      s' := Act(v, s', Work(k));
      run', actions', n := run' + [s'], actions' + [Work(k)], n + 1;
      TakesThread(v, s, s', k, n);
    }
    TakeEnds(v, s, s', k, n);
    WorksOnOne(v, run, actions, run', actions', k);
    run', actions' := run' + [Act(v, s', Work(k))], actions' + [Work(k)];
  }

  lemma TakesThread(v: Variant, s: System, s': System, k: nat, n: nat)
    requires Takes(v, s, s', k, n)
    ensures k in s'.q.threads && n <= 40
  {
    PoppingEnds(v, s.q.w, s'.q, k, n);
  }

  // ---------- A worker empties the queue ----------

  lemma JobOver(v: Variant, s: System, k: nat)
    requires JobInv(v, s) && Live(s, k) && s.workers[k].phase.Running? && !InCall(s.q.threads[k].l.pc)
    ensures |s.q.w.g.buff| > 0 && Enabled(s, Work(k))
    ensures var s' := Act(v, s, Work(k));
            && JobInv(v, s') && Live(s', k) && (Able(s, k) ==> Able(s', k)) && OnlyWorked(s, s', k)
            && s'.workers[k].phase.Waiting? && s'.q == s.q && s'.started == s.started
  {
    hide JobInv;
    Move(v, s, Work(k), k);
  }

  /** The items of the queue with their ranks. */
  function Ranked(rank: nat, items: seq<int>): (r: seq<(int, int)>)
    ensures |r| == |items|
    ensures forall i :: 0 <= i < |items| ==> r[i] == (rank + i, items[i])
  {
    seq(|items|, i requires 0 <= i < |items| => (rank + i, items[i]))
  }

  /** Every stored job has been started, in the order of the queue, and the worker is back at its wait. */
  ghost predicate Emptied(s: System, s': System, k: nat) {
    && OnlyWorked(s, s', k) && s'.workers[k].phase.Waiting? && s'.q.w.Queue() == []
    && s'.started == s.started + Ranked(|s.q.w.popped|, s.q.w.Queue()) && s'.q.w.pushed == s.q.w.pushed
  }

  lemma QueueParts(v: Variant, s: System)
    requires JobInv(v, s)
    ensures |s.q.w.popped| <= |s.q.w.pushed| && s.q.w.pushed == s.q.w.popped + s.q.w.Queue()
  {
  }

  /** A whole round of the worker's loop has started the oldest stored job. */
  ghost predicate Rounded(s: System, s': System, k: nat) {
    && OnlyWorked(s, s', k) && s'.workers[k].phase.Waiting? && s'.q.w.pushed == s.q.w.pushed && s.q.w.Queue() != []
    && s'.started == s.started + [(|s.q.w.popped|, s.q.w.Queue()[0])]
    && s'.q.w.popped == s.q.w.popped + [s.q.w.Queue()[0]]
  }

  lemma RankedTail(rank: nat, items: seq<int>)
    requires items != []
    ensures Ranked(rank, items) == [(rank, items[0])] + Ranked(rank + 1, items[1..])
  {
  }

  lemma RoundedQueue(v: Variant, s: System, s': System, k: nat)
    requires JobInv(v, s) && Rounded(s, s', k)
    ensures s'.q.w.Queue() == s.q.w.Queue()[1..] && |s'.q.w.Queue()| == |s.q.w.Queue()| - 1
  {
    hide OnlyWorked;
    QueueParts(v, s);
  }

  /** What the worker does after a round completes what it does from before it. */
  lemma EmptiedLater(v: Variant, s: System, s1: System, s': System, k: nat)
    requires JobInv(v, s) && Rounded(s, s1, k) && Emptied(s1, s', k)
    ensures Emptied(s, s', k)
  {
    hide JobInv, OnlyWorked, Ranked, Inv;
    OnlyWorkedTwice(s, s1, s', k);
    RoundedQueue(v, s, s1, k);
    var n, items := |s.q.w.popped|, s.q.w.Queue();
    RankedTail(n, items);
    assert s'.started == (s.started + [(n, items[0])]) + Ranked(n + 1, items[1..]);
    assert s'.started == s.started + ([(n, items[0])] + Ranked(n + 1, items[1..]));
  }

  lemma Round(v: Variant, run: seq<System>, actions: seq<Action>, k: nat)
    returns (run': seq<System>, actions': seq<Action>)
    requires Acts(v, run, actions) && JobInv(v, run[|actions|]) && Able(run[|actions|], k)
    requires run[|actions|].workers[k].phase.Waiting? && run[|actions|].q.w.Queue() != []
    ensures WorksOn(v, run, actions, run', actions', k) && run' != [] && |actions'| <= |actions| + 43
    ensures JobInv(v, Last(run')) && Able(Last(run'), k) && Rounded(run[|actions|], Last(run'), k)
  {
    WorksOnSelf(v, run, actions, k);
    hide JobInv, Act, Enabled, OnlyWorked, Able, Took, Acts, Rounded, WorksOn, Last, Live;
    var s := Last(run);
    run', actions' := TakeOne(v, run, actions, k);
    var s1 := Last(run');
    TookOutside(s, s1, k);
    AbleLives(s1, k);
    JobOver(v, s1, k);
    WorksOnOne(v, run, actions, run', actions', k);
    RoundDone(s, s1, Act(v, s1, Work(k)), k);
    run', actions' := run' + [Act(v, s1, Work(k))], actions' + [Work(k)];
  }

  lemma AbleLives(s: System, k: nat)
    requires Able(s, k)
    ensures Live(s, k)
  {
  }

  lemma RoundDone(s: System, s1: System, s2: System, k: nat)
    requires s.q.w.Queue() != [] && Took(s, s1, k) && OnlyWorked(s1, s2, k)
    requires s2.workers[k].phase.Waiting? && s2.q == s1.q && s2.started == s1.started
    ensures Rounded(s, s2, k)
  {
    hide OnlyWorked;
    OnlyWorkedTwice(s, s1, s2, k);
    OnlyHas(s1, s2, k);
  }

  lemma OnlyHas(s: System, s': System, k: nat)
    requires OnlyWorked(s, s', k)
    ensures k in s.workers && k in s'.workers
  {
  }

  /** A worker that waits and moves alone, in jobs that push no others, starts all stored jobs in the order in which
      they were stored, with at most 43 actions for each.
   */
  lemma {:induction false} EmptyQueue(v: Variant, run: seq<System>, actions: seq<Action>, k: nat)
    returns (run': seq<System>, actions': seq<Action>)
    requires Acts(v, run, actions) && JobInv(v, run[|actions|]) && Able(run[|actions|], k)
    requires run[|actions|].workers[k].phase.Waiting?
    ensures WorksOn(v, run, actions, run', actions', k) && run' != []
    ensures |actions'| <= |actions| + 43 * |run[|actions|].q.w.Queue()|
    ensures JobInv(v, Last(run')) && Able(Last(run'), k) && Emptied(run[|actions|], Last(run'), k)
    decreases |run[|actions|].q.w.Queue()|
  {
    WorksOnSelf(v, run, actions, k);
    hide JobInv, OnlyWorked, Able, Acts, Emptied, Rounded, WorksOn, Last;
    var s := Last(run);
    if s.q.w.Queue() == [] {
      run', actions' := run, actions;
      NoneToEmpty(s, k);
    } else {
      var run1, actions1 := Round(v, run, actions, k);
      WorksOnActs(v, run, actions, run1, actions1, k);
      var s1 := Last(run1);
      RoundedQueue(v, s, s1, k);
      RoundedWaits(s, s1, k);
      run', actions' := EmptyQueue(v, run1, actions1, k);
      WorksOnTwice(v, run, actions, run1, actions1, run', actions', k);
      EmptiedLater(v, s, s1, Last(run'), k);
    }
  }

  lemma WorksOnActs(v: Variant, run: seq<System>, actions: seq<Action>, run': seq<System>, actions': seq<Action>,
                    k: nat)
    requires WorksOn(v, run, actions, run', actions', k) && run' != []
    ensures Acts(v, run', actions') && |run'| == |actions'| + 1 && Last(run') == run'[|actions'|]
  {
  }

  lemma RoundedWaits(s: System, s': System, k: nat)
    requires Rounded(s, s', k)
    ensures k in s'.workers && s'.workers[k].phase.Waiting?
  {
  }

  lemma TookOutside(s: System, s': System, k: nat)
    requires Took(s, s', k)
    ensures k in s'.q.threads && !InCall(s'.q.threads[k].l.pc)
    ensures k in s'.workers && (s.q.w.Queue() != [] ==> s'.workers[k].phase.Running?)
  {
  }

  lemma NoneToEmpty(s: System, k: nat)
    requires s.q.w.Queue() == [] && Able(s, k) && s.workers[k].phase.Waiting?
    ensures Emptied(s, s, k)
  {
    assert s.started + [] == s.started;
    assert Ranked(|s.q.w.popped|, []) == [];
  }

  // ---------- From any reachable state ----------

  predicate Finishes(pc: PC) {
    pc.PushFinish? || pc.PopFinish?
  }

  /** An access of a call: it has an effect only once, and then one more access ends it. */
  lemma AccessCounts(v: Variant, q: State, tid: nat, op: Op, item: int)
    requires tid in q.threads && |q.w.g.buff| > 0 && InCall(q.threads[tid].l.pc)
    ensures var q' := Step(v, q, tid, op, item);
            var th, th' := q.threads[tid], q'.threads[tid];
            && q'.w.Ops() == q.w.Ops() + (if Finishes(th'.l.pc) then 1 else 0) && !th'.l.pc.Idle?
            && (Finishes(th.l.pc) ==> !InCall(th'.l.pc) && !Finishes(th'.l.pc))
            && th'.hist.steps == th.hist.steps + 1 && th'.hist.ops == th.hist.ops
  {
  }

  lemma CallBound(v: Variant, q: State, tid: nat)
    requires Inv(v, q) && tid in q.threads && !q.threads[tid].l.pc.Idle?
    ensures q.threads[tid].hist.steps <= 16 * (q.w.Ops() - q.threads[tid].hist.ops) + 24
  {
    var th := q.threads[tid];
    assert ThreadInv(v, q.w, th) && RoundKnows(q.w, th) && CountsOk(th);
    assert q.w.Clock() <= 2 * q.w.Ops();
  }

  /** The move that goes on with the call of a worker. */
  function NextMove(w: Worker, k: nat): Action {
    if w.phase.Popping? then Work(k) else JobPush(k, 1)
  }

  /** Worker `k` was in a call in `s` and has come to `s'`; `limit` bounds the accesses of the call. */
  ghost predicate Nears(v: Variant, s: System, s': System, k: nat, limit: int) {
    && JobInv(v, s') && Live(s', k) && OnlyWorked(s, s', k) && s'.workers == s.workers && s'.started == s.started
    && !s'.q.threads[k].l.pc.Idle?
    && (s'.q.w.Ops() == s.q.w.Ops()
        || (s'.q.w.Ops() == s.q.w.Ops() + 1
            && (Finishes(s'.q.threads[k].l.pc) || !InCall(s'.q.threads[k].l.pc))))
    && limit == 16 * (s.q.w.Ops() + 1 - s'.q.threads[k].hist.ops) + 24
  }

  lemma NearsBound(v: Variant, s: System, s': System, k: nat, limit: int)
    requires Nears(v, s, s', k, limit)
    ensures k in s'.q.threads && s'.q.threads[k].hist.steps <= limit
  {
    hide WorkersOk, Accounted, Inv;
    CallBound(v, s'.q, k);
  }

  lemma NearsStep(v: Variant, s: System, s': System, k: nat, limit: int)
    requires Nears(v, s, s', k, limit) && InCall(s'.q.threads[k].l.pc)
    requires s.workers[k].phase.Popping? || s.workers[k].phase.Running?
    ensures |s'.q.w.g.buff| > 0 && Enabled(s', NextMove(s.workers[k], k))
    ensures var s'' := Act(v, s', NextMove(s.workers[k], k));
            Nears(v, s, s'', k, limit) && s''.q.threads[k].hist.steps == s'.q.threads[k].hist.steps + 1
  {
    hide WorkersOk, Accounted, Inv, Step;
    var a := NextMove(s.workers[k], k);
    Move(v, s', a, k);
    OnlyWorkedTwice(s, s', Act(v, s', a), k);
    if a.Work? { AccessCounts(v, s'.q, k, Pop, 0); } else { AccessCounts(v, s'.q, k, Push, 1); }
  }

  lemma NearsStart(v: Variant, s: System, k: nat) returns (limit: int)
    requires JobInv(v, s) && Live(s, k) && InCall(s.q.threads[k].l.pc)
    ensures Nears(v, s, s, k, limit)
  {
    limit := 16 * (s.q.w.Ops() + 1 - s.q.threads[k].hist.ops) + 24;
  }

  /** The second run goes on from the first with moves of worker `k`. */
  ghost predicate Extends(v: Variant, run: seq<System>, actions: seq<Action>, run': seq<System>, actions': seq<Action>,
                          k: nat) {
    && Acts(v, run', actions') && run <= run' && actions <= actions'
    && forall i :: |actions| <= i < |actions'| ==> Moves(actions'[i], k)
  }

  lemma ExtendsSelf(v: Variant, run: seq<System>, actions: seq<Action>, k: nat)
    requires Acts(v, run, actions)
    ensures Extends(v, run, actions, run, actions, k) && run != [] && Last(run) == run[|actions|]
  {
  }

  lemma ExtendsOne(v: Variant, run: seq<System>, actions: seq<Action>, run': seq<System>, actions': seq<Action>, k: nat,
                   a: Action)
    requires Extends(v, run, actions, run', actions', k) && run' != [] && Moves(a, k)
    requires Enabled(Last(run'), a) && |Last(run').q.w.g.buff| > 0
    ensures var s := Act(v, Last(run'), a);
            Extends(v, run, actions, run' + [s], actions' + [a], k) && Last(run' + [s]) == s
  {
    hide Act, Enabled, Moves;
    ActsOn(v, run', actions', a);
  }

  /** The call of a worker ends if the worker moves alone. */
  lemma FinishCall(v: Variant, run: seq<System>, actions: seq<Action>, run1: seq<System>, actions1: seq<Action>, k: nat)
    returns (run': seq<System>, actions': seq<Action>)
    requires Extends(v, run, actions, run1, actions1, k) && run1 != [] && JobInv(v, Last(run1)) && Live(Last(run1), k)
    requires var s := Last(run1);
             InCall(s.q.threads[k].l.pc) && (s.workers[k].phase.Popping? || s.workers[k].phase.Running?)
    ensures Extends(v, run, actions, run', actions', k) && run' != []
    ensures var s, s' := Last(run1), Last(run');
            && JobInv(v, s') && Live(s', k) && OnlyWorked(s, s', k) && s'.workers == s.workers
            && !InCall(s'.q.threads[k].l.pc)
  {
    hide JobInv, Act, Enabled, Nears, Extends, Last;
    var s := Last(run1);
    var limit := NearsStart(v, s, k);
    run', actions' := run1, actions1;
    var s', a := s, NextMove(s.workers[k], k);
    NearsBound(v, s, s', k, limit);
    while InCall(s'.q.threads[k].l.pc)
      invariant Extends(v, run, actions, run', actions', k) && run' != []
      invariant s' == Last(run') && Nears(v, s, s', k, limit) && k in s'.q.threads
      invariant s'.q.threads[k].hist.steps <= limit
      decreases limit - s'.q.threads[k].hist.steps
    {
      NearsStep(v, s, s', k, limit);
      ExtendsOne(v, run, actions, run', actions', k, a);
      s' := Act(v, s', a);
      NearsBound(v, s, s', k, limit);
      run', actions' := run' + [s'], actions' + [a];
    }
    NearsEnd(v, s, s', k, limit);
  }

  lemma NearsEnd(v: Variant, s: System, s': System, k: nat, limit: int)
    requires Nears(v, s, s', k, limit)
    ensures JobInv(v, s') && Live(s', k) && OnlyWorked(s, s', k) && s'.workers == s.workers
  {
  }

  /** PopJob has returned: the worker runs its job, or is back at its wait. */
  lemma PopOver(v: Variant, s: System, k: nat)
    requires JobInv(v, s) && Live(s, k) && s.workers[k].phase.Popping? && !InCall(s.q.threads[k].l.pc)
    ensures |s.q.w.g.buff| > 0 && Enabled(s, Work(k))
    ensures var s' := Act(v, s, Work(k));
            && JobInv(v, s') && OnlyWorked(s, s', k) && s'.q == s.q && Live(s', k)
            && (s'.workers[k].phase.Running? || s'.workers[k].phase.Waiting?)
  {
    hide JobInv;
    Move(v, s, Work(k), k);
  }

  /** A worker comes back to its wait if it moves alone. */
  lemma ToWait(v: Variant, run: seq<System>, actions: seq<Action>, k: nat)
    returns (run': seq<System>, actions': seq<Action>)
    requires Acts(v, run, actions) && JobInv(v, run[|actions|]) && Live(run[|actions|], k)
    ensures Extends(v, run, actions, run', actions', k) && run' != []
    ensures var s, s' := run[|actions|], Last(run');
            JobInv(v, s') && Live(s', k) && OnlyWorked(s, s', k) && s'.workers[k].phase.Waiting?
  {
    ExtendsSelf(v, run, actions, k);
    hide JobInv, Act, Enabled, Extends, OnlyWorked, Last, Acts;
    var s := Last(run);
    run', actions' := run, actions;
    OnlySelf(s, k);
    if InCall(s.q.threads[k].l.pc) {
      WorkerOk(v, s, k);
      run', actions' := FinishCall(v, run, actions, run, actions, k);
    }
    if Last(run').workers[k].phase.Popping? { run', actions' := AfterPop(v, run, actions, run', actions', s, k); }
    if Last(run').workers[k].phase.Running? { run', actions' := AfterJob(v, run, actions, run', actions', s, k); }
  }

  lemma AfterPop(v: Variant, run: seq<System>, actions: seq<Action>, run1: seq<System>, actions1: seq<Action>,
                 s: System, k: nat)
    returns (run': seq<System>, actions': seq<Action>)
    requires Extends(v, run, actions, run1, actions1, k) && run1 != [] && JobInv(v, Last(run1)) && Live(Last(run1), k)
    requires OnlyWorked(s, Last(run1), k) && !InCall(Last(run1).q.threads[k].l.pc)
    requires Last(run1).workers[k].phase.Popping?
    ensures Extends(v, run, actions, run', actions', k) && run' != []
    ensures JobInv(v, Last(run')) && Live(Last(run'), k) && OnlyWorked(s, Last(run'), k)
    ensures !InCall(Last(run').q.threads[k].l.pc)
    ensures Last(run').workers[k].phase.Running? || Last(run').workers[k].phase.Waiting?
  {
    hide JobInv, Act, Enabled, Extends, OnlyWorked, Last;
    var s1 := Last(run1);
    PopOver(v, s1, k);
    ExtendsOne(v, run, actions, run1, actions1, k, Work(k));
    OnlyWorkedTwice(s, s1, Act(v, s1, Work(k)), k);
    run', actions' := run1 + [Act(v, s1, Work(k))], actions1 + [Work(k)];
  }

  lemma AfterJob(v: Variant, run: seq<System>, actions: seq<Action>, run1: seq<System>, actions1: seq<Action>,
                 s: System, k: nat)
    returns (run': seq<System>, actions': seq<Action>)
    requires Extends(v, run, actions, run1, actions1, k) && run1 != [] && JobInv(v, Last(run1)) && Live(Last(run1), k)
    requires OnlyWorked(s, Last(run1), k) && !InCall(Last(run1).q.threads[k].l.pc)
    requires Last(run1).workers[k].phase.Running?
    ensures Extends(v, run, actions, run', actions', k) && run' != []
    ensures JobInv(v, Last(run')) && Live(Last(run'), k) && OnlyWorked(s, Last(run'), k)
    ensures Last(run').workers[k].phase.Waiting?
  {
    hide JobInv, Act, Enabled, Extends, OnlyWorked, Last;
    var s1 := Last(run1);
    JobOver(v, s1, k);
    ExtendsOne(v, run, actions, run1, actions1, k, Work(k));
    OnlyWorkedTwice(s, s1, Act(v, s1, Work(k)), k);
    run', actions' := run1 + [Act(v, s1, Work(k))], actions1 + [Work(k)];
  }

  lemma OnlySelf(s: System, k: nat)
    requires k in s.workers
    ensures OnlyWorked(s, s, k)
  {
  }

  // ---------- Jobs in the hands of other workers ----------

  /** The worker's pop has taken effect, and its job was not started yet. */
  predicate Holder(s: System, j: nat) {
    j in s.workers && j in s.q.threads && s.workers[j].phase.Popping? && s.q.threads[j].hist.ticket >= 0
  }

  function Holders(s: System): set<nat> {
    set j | j in s.workers && Holder(s, j)
  }

  /** The second run goes on from the first with moves of workers and their jobs. */
  ghost predicate GoesOn(v: Variant, run: seq<System>, actions: seq<Action>, run': seq<System>, actions': seq<Action>) {
    && Acts(v, run', actions') && run <= run' && actions <= actions'
    && forall i :: |actions| <= i < |actions'| ==> actions'[i].Work? || actions'[i].JobPush?
  }

  lemma GoesOnOne(v: Variant, run: seq<System>, actions: seq<Action>, run': seq<System>, actions': seq<Action>, k: nat)
    requires GoesOn(v, run, actions, run', actions') && run' != []
    requires Enabled(Last(run'), Work(k)) && |Last(run').q.w.g.buff| > 0
    ensures var s := Act(v, Last(run'), Work(k));
            GoesOn(v, run, actions, run' + [s], actions' + [Work(k)]) && Last(run' + [s]) == s
  {
    hide Act, Enabled;
    ActsOn(v, run', actions', Work(k));
  }

  /** A pop that has taken effect is one access from its return. */
  lemma HeldReturns(v: Variant, s: System, j: nat)
    requires JobInv(v, s) && Holder(s, j) && InCall(s.q.threads[j].l.pc)
    ensures |s.q.w.g.buff| > 0 && Enabled(s, Work(j))
    ensures var s' := Act(v, s, Work(j));
            && JobInv(v, s') && OnlyWorked(s, s', j) && Holder(s', j) && !InCall(s'.q.threads[j].l.pc)
  {
    hide WorkersOk, Accounted, Step, Inv;
    WorkerOk(v, s, j);
    Move(v, s, Work(j), j);
    OwnQueueStep(v, s.q, j, Pop, 0);
    HeldFinishes(v, s.q, j);
    AccessCounts(v, s.q, j, Pop, 0);
  }

  lemma HeldFinishes(v: Variant, q: State, j: nat)
    requires Inv(v, q) && j in q.threads && InCall(q.threads[j].l.pc) && q.threads[j].hist.ticket >= 0
    ensures Finishes(q.threads[j].l.pc)
  {
    var th := q.threads[j];
    assert ThreadInv(v, q.w, th) && TicketOk(q.w, th.l, th.hist.ticket);
  }

  /** Once it has returned, the worker starts its job. */
  lemma HeldStarts(v: Variant, s: System, j: nat)
    requires JobInv(v, s) && Holder(s, j) && !InCall(s.q.threads[j].l.pc)
    ensures |s.q.w.g.buff| > 0 && Enabled(s, Work(j))
    ensures var s' := Act(v, s, Work(j)); JobInv(v, s') && OnlyWorked(s, s', j) && !Holder(s', j)
  {
    hide WorkersOk, Accounted, Inv;
    if !Got(s.q.threads[j].l) { NothingPopped(v, s, j); }
    Move(v, s, Work(j), j);
  }

  lemma HoldersLess(s: System, s': System, j: nat)
    requires OnlyWorked(s, s', j) && Holder(s, j) && !Holder(s', j)
    ensures Holders(s') == Holders(s) - {j} && |Holders(s')| == |Holders(s)| - 1
  {
    assert forall i :: i in s.workers && i != j ==> (Holder(s, i) <==> Holder(s', i));
    assert Holders(s') == Holders(s) - {j};
  }

  /** The state has moved on, worker `k` waits, and its stop event is not set. */
  ghost predicate Awaits(v: Variant, s: System, s': System, k: nat) {
    && JobInv(v, s') && Able(s', k) && s'.workers[k].phase.Waiting?
    && s.started <= s'.started && s.q.w.pushed <= s'.q.w.pushed
  }

  lemma AwaitsStep(v: Variant, s: System, s1: System, s2: System, j: nat, k: nat)
    requires Awaits(v, s, s1, k) && OnlyWorked(s1, s2, j) && JobInv(v, s2) && j != k
    ensures Awaits(v, s, s2, k)
  {
    assert s.started <= s1.started <= s2.started;
    assert s.q.w.pushed <= s1.q.w.pushed <= s2.q.w.pushed;
  }

  /** One worker starts the job that it holds. */
  lemma SettleOne(v: Variant, run: seq<System>, actions: seq<Action>, run1: seq<System>, actions1: seq<Action>,
                  s: System, j: nat, k: nat)
    returns (run': seq<System>, actions': seq<Action>)
    requires GoesOn(v, run, actions, run1, actions1) && run1 != [] && Awaits(v, s, Last(run1), k)
    requires Holder(Last(run1), j)
    ensures GoesOn(v, run, actions, run', actions') && run' != [] && Awaits(v, s, Last(run'), k)
    ensures |Holders(Last(run'))| < |Holders(Last(run1))|
  {
    AwaitsJobs(v, s, Last(run1), k);
    hide JobInv, Act, Enabled, GoesOn, OnlyWorked, Last, Awaits, Holders;
    var s0 := Last(run1);
    run', actions' := run1, actions1;
    var s1 := s0;
    OnlySelf(s0, j);
    if InCall(s0.q.threads[j].l.pc) {
      HeldReturns(v, s0, j);
      GoesOnOne(v, run, actions, run', actions', j);
      s1 := Act(v, s0, Work(j));
      run', actions' := run' + [s1], actions' + [Work(j)];
    }
    HeldStarts(v, s1, j);
    GoesOnOne(v, run, actions, run', actions', j);
    var s2 := Act(v, s1, Work(j));
    run', actions' := run' + [s2], actions' + [Work(j)];
    OnlyWorkedTwice(s0, s1, s2, j);
    HoldersLess(s0, s2, j);
    AwaitsStep(v, s, s0, s2, j, k);
  }

  lemma AwaitsJobs(v: Variant, s: System, s': System, k: nat)
    requires Awaits(v, s, s', k)
    ensures JobInv(v, s') && Able(s', k) && s'.workers[k].phase.Waiting? && !Holder(s', k)
  {
  }

  /** All workers that hold a job start it. */
  lemma {:induction false} SettleAll(v: Variant, run: seq<System>, actions: seq<Action>, run1: seq<System>,
                                     actions1: seq<Action>, s: System, k: nat)
    returns (run': seq<System>, actions': seq<Action>)
    requires GoesOn(v, run, actions, run1, actions1) && run1 != [] && Awaits(v, s, Last(run1), k)
    ensures GoesOn(v, run, actions, run', actions') && run' != [] && Awaits(v, s, Last(run'), k)
    ensures Holders(Last(run')) == {}
    decreases |Holders(Last(run1))|
  {
    hide GoesOn, Last, Awaits, Holder;
    if Holders(Last(run1)) == {} {
      run', actions' := run1, actions1;
    } else {
      var j :| j in Holders(Last(run1));
      var run2, actions2 := SettleOne(v, run, actions, run1, actions1, s, j, k);
      run', actions' := SettleAll(v, run, actions, run2, actions2, s, k);
    }
  }

  // ---------- All stored jobs can still be started ----------

  /** Every job that is stored has been started. */
  ghost predicate AllStarted(s: System) {
    forall t :: 0 <= t < |s.q.w.pushed| ==> Started(s, t)
  }

  lemma NothingLeft(v: Variant, s: System)
    requires JobInv(v, s) && s.q.w.Queue() == [] && Holders(s) == {}
    ensures AllStarted(s)
  {
    QueueParts(v, s);
    forall k, t
      ensures !HeldBy(s, k, t)
    {
      if HeldBy(s, k, t) { HeldIsHolder(s, k, t); }
    }
  }

  lemma HeldIsHolder(s: System, k: nat, t: int)
    requires HeldBy(s, k, t)
    ensures k in Holders(s)
  {
  }

  lemma EmptiedHolders(s: System, s': System, k: nat)
    requires Emptied(s, s', k) && Holders(s) == {}
    ensures Holders(s') == {}
  {
    forall j | j in s'.workers
      ensures !Holder(s', j)
    {
      assert j !in Holders(s);
    }
  }

  /** From every reachable state with a worker that was not told to stop, whatever the other threads were doing, the run
      can go on by moves of workers and their jobs alone to a state in which all stored jobs have been started.
   */
  lemma AllCanStart(v: Variant, run: seq<System>, actions: seq<Action>, size: nat, k: nat)
    returns (run': seq<System>, actions': seq<Action>)
    requires IsJobRun(v, run, actions, size) && Able(run[|actions|], k)
    ensures IsJobRun(v, run', actions', size) && run <= run' && actions <= actions'
    ensures forall i :: |actions| <= i < |actions'| ==> actions'[i].Work? || actions'[i].JobPush?
    ensures run[|actions|].q.w.pushed <= run'[|actions'|].q.w.pushed
    ensures run'[|actions'|].q.w.Queue() == [] && AllStarted(run'[|actions'|])
  {
    RunJobInv(v, run, actions, size, |actions|);
    JobRunActs(v, run, actions, size);
    hide JobInv, ActAt, Start, Able, Awaits, Emptied, Acts, GoesOn, Extends, IsJobRun, AllStarted, Holders, OnlyWorked,
      Last;
    var s := run[|actions|];
    var run1, actions1 := ToWait(v, run, actions, k);
    Waits(v, run, actions, run1, actions1, k);
    var run2, actions2 := SettleAll(v, run, actions, run1, actions1, s, k);
    run', actions' := EmptyAfter(v, run, actions, run2, actions2, s, k);
    Finally(v, s, Last(run2), Last(run'), k);
    GoesOnRun(v, run, actions, run', actions', size);
  }

  lemma JobRunActs(v: Variant, run: seq<System>, actions: seq<Action>, size: nat)
    requires IsJobRun(v, run, actions, size)
    ensures Acts(v, run, actions) && |run| == |actions| + 1
  {
  }

  lemma GoesOnRun(v: Variant, run: seq<System>, actions: seq<Action>, run': seq<System>, actions': seq<Action>,
                  size: nat)
    requires IsJobRun(v, run, actions, size) && GoesOn(v, run, actions, run', actions')
    ensures IsJobRun(v, run', actions', size) && |run'| == |actions'| + 1 && Last(run') == run'[|actions'|]
    ensures run <= run' && actions <= actions'
    ensures forall i :: |actions| <= i < |actions'| ==> actions'[i].Work? || actions'[i].JobPush?
  {
  }

  lemma EmptyAfter(v: Variant, run: seq<System>, actions: seq<Action>, run1: seq<System>, actions1: seq<Action>,
                   s: System, k: nat)
    returns (run': seq<System>, actions': seq<Action>)
    requires GoesOn(v, run, actions, run1, actions1) && run1 != [] && Awaits(v, s, Last(run1), k)
    ensures GoesOn(v, run, actions, run', actions') && run' != []
    ensures JobInv(v, Last(run')) && Emptied(Last(run1), Last(run'), k)
  {
    AwaitsJobs(v, s, Last(run1), k);
    GoesOnActs(v, run, actions, run1, actions1);
    hide JobInv, Able, Emptied, Awaits, Acts, Last, GoesOn, WorksOn;
    run', actions' := EmptyQueue(v, run1, actions1, k);
    GoesOnMore(v, run, actions, run1, actions1, run', actions', k);
  }

  lemma GoesOnActs(v: Variant, run: seq<System>, actions: seq<Action>, run': seq<System>, actions': seq<Action>)
    requires GoesOn(v, run, actions, run', actions') && run' != []
    ensures Acts(v, run', actions') && |run'| == |actions'| + 1 && Last(run') == run'[|actions'|]
  {
  }

  lemma GoesOnMore(v: Variant, run: seq<System>, actions: seq<Action>, run1: seq<System>, actions1: seq<Action>,
                   run': seq<System>, actions': seq<Action>, k: nat)
    requires GoesOn(v, run, actions, run1, actions1) && WorksOn(v, run1, actions1, run', actions', k)
    ensures GoesOn(v, run, actions, run', actions')
  {
    hide Acts;
    assert run <= run1 <= run' && actions <= actions1 <= actions';
    forall i | |actions| <= i < |actions'|
      ensures actions'[i].Work? || actions'[i].JobPush?
    {
      assert i < |actions1| ==> actions'[i] == actions1[i];
    }
  }

  lemma Waits(v: Variant, run: seq<System>, actions: seq<Action>, run1: seq<System>, actions1: seq<Action>, k: nat)
    requires Extends(v, run, actions, run1, actions1, k) && run1 != [] && |run| == |actions| + 1
    requires var s, s' := run[|actions|], Last(run1);
             JobInv(v, s') && Able(s, k) && Live(s', k) && OnlyWorked(s, s', k) && s'.workers[k].phase.Waiting?
    ensures GoesOn(v, run, actions, run1, actions1) && Awaits(v, run[|actions|], Last(run1), k)
  {
    hide JobInv, Acts;
  }

  lemma Finally(v: Variant, s: System, s1: System, s2: System, k: nat)
    requires Awaits(v, s, s1, k) && Holders(s1) == {} && Emptied(s1, s2, k) && JobInv(v, s2)
    ensures s.q.w.pushed <= s2.q.w.pushed && s2.q.w.Queue() == [] && AllStarted(s2)
  {
    hide JobInv;
    EmptiedHolders(s1, s2, k);
    NothingLeft(v, s2);
  }

  // ---------- A worker is told to stop ----------

  /** A waiting worker that was told to stop is at its end after two actions of its own, and sets its end event. */
  lemma StopsInTwo(v: Variant, s: System, k: nat)
    requires JobInv(v, s) && k in s.workers && s.workers[k].phase.Waiting? && s.workers[k].stop
    ensures |s.q.w.g.buff| > 0 && Enabled(s, Work(k)) && Enabled(Act(v, s, Work(k)), Work(k))
    ensures var s' := Act(v, Act(v, s, Work(k)), Work(k));
            && s'.workers == s.workers[k := s.workers[k].(stop := false, end := true, phase := Exited)]
            && s'.q == s.q && s'.started == s.started
  {
    hide Inv, Accounted;
    WorkerOk(v, s, k);
    InvParts(v, s.q);
  }

  /** The workers that are at their end take nothing: once all of them are, no job is started any more, and what is
      stored stays in the queue.
   */
  lemma {:induction false} LeftForGood(v: Variant, run: seq<System>, actions: seq<Action>, size: nat, i: nat, j: nat)
    requires IsJobRun(v, run, actions, size) && i <= j <= |actions|
    requires forall k :: k in run[i].workers ==> run[i].workers[k].phase.Exited?
    ensures run[j].started == run[i].started && run[j].q.w.popped == run[i].q.w.popped
    ensures forall k :: k in run[j].workers ==> run[j].workers[k].phase.Exited?
    decreases j
  {
    hide JobInv, Act, Start;
    if i < j {
      LeftForGood(v, run, actions, size, i, j - 1);
      RunJobInv(v, run, actions, size, j - 1);
      assert ActAt(v, run, actions, j - 1);
      LeftStep(v, run[j - 1], actions[j - 1]);
    }
  }

  lemma LeftStep(v: Variant, s: System, a: Action)
    requires JobInv(v, s) && Enabled(s, a) && forall k :: k in s.workers ==> s.workers[k].phase.Exited?
    ensures |s.q.w.g.buff| > 0
    ensures var s' := Act(v, s, a);
            && s'.started == s.started && s'.q.w.popped == s.q.w.popped
            && forall k :: k in s'.workers ==> s'.workers[k].phase.Exited?
  {
    hide Inv, Accounted, Step;
    InvParts(v, s.q);
    if a.ClientPush? { OwnQueueStep(v, s.q, a.tid, Push, a.item); }
  }

  // ---------- Release ends ----------

  /** The second run goes on from the first with moves of worker `k` and its owner. */
  ghost predicate Winds(v: Variant, run: seq<System>, actions: seq<Action>, run': seq<System>, actions': seq<Action>,
                        k: nat) {
    && Acts(v, run', actions') && run <= run' && actions <= actions'
    && forall i :: |actions| <= i < |actions'| ==> Moves(actions'[i], k) || actions'[i] == Own(k)
  }

  lemma WindsOne(v: Variant, run: seq<System>, actions: seq<Action>, run': seq<System>, actions': seq<Action>, k: nat,
                 a: Action)
    requires Winds(v, run, actions, run', actions', k) && run' != [] && (a == Work(k) || a == Own(k))
    requires JobInv(v, Last(run')) && Enabled(Last(run'), a)
    ensures |Last(run').q.w.g.buff| > 0
    ensures var s := Act(v, Last(run'), a);
            Winds(v, run, actions, run' + [s], actions' + [a], k) && Last(run' + [s]) == s && JobInv(v, s)
  {
    ActKeeps(v, Last(run'), a);
    assert Moves(Work(k), k);
    hide Act, Enabled, JobInv, Moves;
    ActsOn(v, run', actions', a);
  }

  predicate Halts(w: Worker) {
    w.phase.Waiting? || w.phase.Ending? || w.phase.Exited?
  }

  /** How far the end of a worker is away, once it is at its wait or past it. */
  function Left(w: Worker): nat
    requires Halts(w)
  {
    if w.owner.Passed? then 0
    else if w.phase.Exited? then 1
    else if w.phase.Ending? then 2
    else if w.stop then 3 else 4
  }

  /** The next action of the worker or its owner on the way there. */
  function Onward(w: Worker, k: nat): Action {
    if w.phase.Exited? || (w.phase.Waiting? && !w.stop) then Own(k) else Work(k)
  }

  predicate Halting(s: System, k: nat) {
    k in s.workers && k in s.q.threads && Halts(s.workers[k])
  }

  lemma OnwardStep(v: Variant, s: System, k: nat)
    requires JobInv(v, s) && Halting(s, k) && Left(s.workers[k]) > 0
    ensures |s.q.w.g.buff| > 0 && Enabled(s, Onward(s.workers[k], k))
    ensures var s' := Act(v, s, Onward(s.workers[k], k));
            && Halting(s', k) && k in s'.workers && Halts(s'.workers[k])
            && Left(s'.workers[k]) == Left(s.workers[k]) - 1
  {
    hide Inv, Accounted;
    WorkerOk(v, s, k);
    InvParts(v, s.q);
  }

  /** From every reachable state, the Release of a worker can come past its wait by actions of the worker, its job and
      its owner alone.
   */
  lemma ReleaseEnds(v: Variant, run: seq<System>, actions: seq<Action>, size: nat, k: nat)
    returns (run': seq<System>, actions': seq<Action>)
    requires IsJobRun(v, run, actions, size) && k in run[|actions|].workers
    ensures Acts(v, run', actions') && run <= run' && actions <= actions'
    ensures forall i :: |actions| <= i < |actions'| ==> Moves(actions'[i], k) || actions'[i] == Own(k)
    ensures run' != [] && k in Last(run').workers && Last(run').workers[k].owner.Passed?
  {
    RunJobInv(v, run, actions, size, |actions|);
    JobRunActs(v, run, actions, size);
    run', actions' := ToHalt(v, run, actions, k);
    hide JobInv, Act, Enabled, Acts, Winds, IsJobRun, Last, Left, Onward, Halting;
    HaltingFacts(Last(run'), k);
    while Left(Last(run').workers[k]) > 0
      invariant Winds(v, run, actions, run', actions', k) && run' != []
      invariant JobInv(v, Last(run')) && Halting(Last(run'), k)
      invariant k in Last(run').workers && Halts(Last(run').workers[k])
      decreases Left(Last(run').workers[k])
    {
      var s' := Last(run');
      OnwardStep(v, s', k);
      var a := Onward(s'.workers[k], k);
      WindsOne(v, run, actions, run', actions', k, a);
      run', actions' := run' + [Act(v, s', a)], actions' + [a];
    }
    WindsEnd(v, run, actions, run', actions', k);
    AllLeft(Last(run').workers[k]);
  }

  lemma HaltingFacts(s: System, k: nat)
    requires Halting(s, k)
    ensures k in s.workers && Halts(s.workers[k])
  {
  }

  lemma AllLeft(w: Worker)
    requires Halts(w) && Left(w) == 0
    ensures w.owner.Passed?
  {
  }

  /** The worker comes to its wait if it is on its way through its loop. */
  lemma ToHalt(v: Variant, run: seq<System>, actions: seq<Action>, k: nat)
    returns (run': seq<System>, actions': seq<Action>)
    requires Acts(v, run, actions) && JobInv(v, run[|actions|]) && k in run[|actions|].workers
    ensures Winds(v, run, actions, run', actions', k) && run' != []
    ensures JobInv(v, Last(run')) && Halting(Last(run'), k)
  {
    var s := run[|actions|];
    WorkerOk(v, s, k);
    WindsSelf(v, run, actions, k);
    hide JobInv, Acts, Winds, Last, Extends;
    run', actions' := run, actions;
    if Live(s, k) {
      run', actions' := ToWait(v, run, actions, k);
      ExtendsWinds(v, run, actions, run', actions', k);
    }
  }

  lemma WindsSelf(v: Variant, run: seq<System>, actions: seq<Action>, k: nat)
    requires Acts(v, run, actions)
    ensures Winds(v, run, actions, run, actions, k) && run != [] && Last(run) == run[|actions|]
  {
  }

  lemma ExtendsWinds(v: Variant, run: seq<System>, actions: seq<Action>, run': seq<System>, actions': seq<Action>,
                     k: nat)
    requires Extends(v, run, actions, run', actions', k)
    ensures Winds(v, run, actions, run', actions', k)
  {
  }

  lemma WindsEnd(v: Variant, run: seq<System>, actions: seq<Action>, run': seq<System>, actions': seq<Action>, k: nat)
    requires Winds(v, run, actions, run', actions', k)
    ensures Acts(v, run', actions') && run <= run' && actions <= actions'
    ensures forall i :: |actions| <= i < |actions'| ==> Moves(actions'[i], k) || actions'[i] == Own(k)
  {
  }
}
