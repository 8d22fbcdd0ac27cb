/** What the invariant gives for every run of the lock-free queue, under both variants of the code. */
module AtomicQueueTheorems {
  import opened AtomicQueue
  import opened AtomicQueueInvariant
  import opened Residues

  // ---------- Refinement of a bounded FIFO ----------

  lemma {:induction false} RunInv(v: Variant, run: seq<State>, size: nat, i: nat)
    requires IsRun(v, run, size) && i < |run|
    ensures Inv(v, run[i]) && |run[i].w.g.buff| == size
  {
    if i == 0 {
      InitInv(v, run[0], size);
    } else {
      RunInv(v, run, size, i - 1);
      assert StepAt(v, run, i - 1);
      NextInv(v, run[i - 1], run[i]);
    }
  }

  lemma NextKeys(v: Variant, s: State, s': State)
    requires Next(v, s, s')
    ensures s.threads.Keys == s'.threads.Keys
  {
  }

  lemma RelyTransitive(w: World, w': World, w'': World)
    requires Rely(w, w') && Rely(w', w'')
    ensures Rely(w, w'')
  {
  }

  lemma RunNext(v: Variant, run: seq<State>, size: nat, i: nat)
    requires IsRun(v, run, size) && i < |run| - 1
    ensures Inv(v, run[i]) && Next(v, run[i], run[i + 1])
    ensures Inv(v, run[i + 1]) && Rely(run[i].w, run[i + 1].w)
    ensures run[i].threads.Keys == run[i + 1].threads.Keys
  {
    RunInv(v, run, size, i);
    assert StepAt(v, run, i);
    NextInv(v, run[i], run[i + 1]);
    NextKeys(v, run[i], run[i + 1]);
  }

  lemma RunStepRely(v: Variant, run: seq<State>, size: nat, i: nat)
    requires IsRun(v, run, size) && i < |run| - 1
    ensures Rely(run[i].w, run[i + 1].w)
  {
    RunNext(v, run, size, i);
  }

  lemma {:induction false} RunRely(v: Variant, run: seq<State>, size: nat, i: nat, j: nat)
    requires IsRun(v, run, size) && i <= j < |run|
    ensures Rely(run[i].w, run[j].w)
    decreases j
  {
    if i < j {
      RunRely(v, run, size, i, j - 1);
      RunStepRely(v, run, size, j - 1);
      RelyTransitive(run[i].w, run[j - 1].w, run[j].w);
    }
  }

  /** Whatever the interleaving, items leave in the order in which they entered, none is lost, duplicated or invented,
      and there are never more than `size` of them.
   */
  lemma FifoOrder(v: Variant, run: seq<State>, size: nat, i: nat)
    requires IsRun(v, run, size) && i < |run|
    ensures run[i].w.pushed == run[i].w.popped + run[i].w.Queue()
    ensures |run[i].w.Queue()| <= size
  {
    RunInv(v, run, size, i);
  }

  /** A slot CAS succeeds only at the position that is next in line: a version match is never a coincidence. */
  lemma SlotCasOnTime(v: Variant, w: World, th: Thread)
    requires WorldInv(w) && ThreadInv(v, w, th)
    ensures th.l.pc.PushCas? && w.g.At(th.l.t) == th.l.a ==>
              th.l.t == |w.pushed| == w.g.tail && |w.Queue()| < |w.g.buff| && th.l.a.lower == 0
    ensures th.l.pc.PopCas? && w.g.At(th.l.h) == th.l.a ==>
              th.l.h == |w.popped| == w.g.head && |w.Queue()| > 0 && th.l.a.lower == w.Queue()[0]
  {
    if th.l.pc.PopCas? && w.g.At(th.l.h) == th.l.a { var w' := DequeueKeeps(w); }
  }

  lemma PushCasAppends(v: Variant, w: World, th: Thread)
    requires WorldInv(w) && ThreadInv(v, w, th) && th.l.pc.PushCas? && w.g.At(th.l.t) == th.l.a
    ensures |w.Queue()| < |w.g.buff| && WorldAfter(v, w, th.l).Queue() == w.Queue() + [th.l.item]
  {
    SlotCasOnTime(v, w, th);
  }

  lemma PopCasRemoves(v: Variant, w: World, th: Thread)
    requires WorldInv(w) && ThreadInv(v, w, th) && th.l.pc.PopCas? && w.g.At(th.l.h) == th.l.a
    ensures |w.Queue()| > 0 && th.l.a.lower == w.Queue()[0] && WorldAfter(v, w, th.l).Queue() == w.Queue()[1..]
  {
    SlotCasOnTime(v, w, th);
  }

  lemma OtherStepsKeepQueue(v: Variant, w: World, l: Local)
    requires WorldInv(w) && InCall(l.pc)
    requires l.pc.PushCas? ==> w.g.At(l.t) != l.a
    requires l.pc.PopCas? ==> w.g.At(l.h) != l.a
    ensures WorldAfter(v, w, l).Queue() == w.Queue()
  {
  }

  /** Each step is one step of the bounded FIFO or leaves it alone: only a slot CAS changes it, that of a Push appends
      the pushed item to a queue that is not full, that of a Pop removes the oldest item and is the one that reads it.
   */
  lemma StepRefinesFifo(v: Variant, s: State, tid: nat, op: Op, item: int)
    requires Inv(v, s) && tid in s.threads && ItemOk(op, item)
    ensures var l, q, q' := s.threads[tid].l, s.w.Queue(), Step(v, s, tid, op, item).w.Queue();
            if l.pc.PushCas? && s.w.g.At(l.t) == l.a then |q| < |s.w.g.buff| && q' == q + [l.item]
            else if l.pc.PopCas? && s.w.g.At(l.h) == l.a then |q| > 0 && l.a.lower == q[0] && q' == q[1..]
            else q' == q
  {
    var th := s.threads[tid];
    if th.l.pc.PushCas? && s.w.g.At(th.l.t) == th.l.a { PushCasAppends(v, s.w, th); }
    else if th.l.pc.PopCas? && s.w.g.At(th.l.h) == th.l.a { PopCasRemoves(v, s.w, th); }
    else if InCall(th.l.pc) { OtherStepsKeepQueue(v, s.w, th.l); }
  }

  /** Each counter lags its end of the abstract queue by at most one, also after every helping CAS. */
  lemma CountersLag(v: Variant, run: seq<State>, size: nat, i: nat)
    requires IsRun(v, run, size) && i < |run|
    ensures var w := run[i].w;
            && w.g.head <= w.g.tail <= w.g.head + size
            && |w.popped| - 1 <= w.g.head <= |w.popped|
            && |w.pushed| - 1 <= w.g.tail <= |w.pushed|
  {
    RunInv(v, run, size, i);
  }

  lemma {:induction false} VisitsInWindow(lo: nat, hi: nat, j: nat, s: nat, n: nat)
    requires n > 0 && lo <= hi <= lo + n && lo <= j < lo + n && j % n == s
    ensures Visits(hi, s, n) == Visits(lo, s, n) + if j < hi then 1 else 0
    decreases hi
  {
    if lo < hi {
      VisitsInWindow(lo, hi - 1, j, s, n);
      if (hi - 1) % n == s && hi - 1 != j {
        if j < hi - 1 { SameSlot(j, hi - 1, n); } else { SameSlot(hi - 1, j, n); }
      }
    }
  }

  /** The version of a slot counts its fills and empties, and the slot is full exactly if its version is odd. */
  lemma VersionParity(v: Variant, run: seq<State>, size: nat, i: nat, s: nat)
    requires IsRun(v, run, size) && i < |run| && s < size
    ensures |run[i].w.g.buff| == size
    ensures var w := run[i].w;
            && w.g.buff[s].upper == Visits(|w.pushed|, s, size) + Visits(|w.popped|, s, size)
            && (w.g.buff[s].lower != 0 <==> w.g.buff[s].upper % 2 == 1)
  {
    RunInv(v, run, size, i);
    var w := run[i].w;
    var j := WindowCovers(|w.popped|, size, s);
    VisitsInWindow(|w.popped|, |w.pushed|, j, s, size);
    assert w.g.At(j) == w.g.buff[s];
  }

  // ---------- Results of calls ----------

  /** The index of the state with which the current or last call of thread `k` began. */
  ghost function CallStart(run: seq<State>, k: nat, i: nat): (c: nat)
    requires i < |run| && forall j :: 0 <= j < |run| ==> k in run[j].threads
    ensures c <= i
  {
    if i == 0 || (InCall(run[i].threads[k].l.pc) && !InCall(run[i - 1].threads[k].l.pc)) then i
    else CallStart(run, k, i - 1)
  }

  ghost predicate HasThread(run: seq<State>, k: nat) {
    forall j :: 0 <= j < |run| ==> k in run[j].threads
  }

  /** What one step of the system does to one thread. */
  lemma ThreadNext(v: Variant, s: State, s': State, k: nat)
    requires Inv(v, s) && Next(v, s, s') && k in s.threads
    ensures k in s'.threads
    ensures var th, th' := s.threads[k], s'.threads[k];
      || th' == Watch(s'.w, th)
      || (InCall(th.l.pc) && th' == Watch(s'.w, ThreadAfter(v, s.w, th)))
      || (!InCall(th.l.pc) && InCall(th'.l.pc) && exists op, item :: th' == Watch(s'.w, Begin(s'.w, op, item)))
  {
    var tid, op, item :| tid in s.threads && ItemOk(op, item) && s' == Step(v, s, tid, op, item);
    if k == tid && !InCall(s.threads[k].l.pc) {
      assert s'.threads[k] == Watch(s'.w, Begin(s'.w, op, item));
    }
  }

  lemma SeenAfter(v: Variant, w: World, th: Thread)
    requires |w.g.buff| > 0 && InCall(th.l.pc)
    ensures ThreadAfter(v, w, th).hist.sawFull == th.hist.sawFull
    ensures ThreadAfter(v, w, th).hist.sawEmpty == th.hist.sawEmpty
    ensures !ThreadAfter(v, w, th).l.pc.Idle?
  {
  }

  lemma SeenStep(v: Variant, s: State, s': State, k: nat)
    requires Inv(v, s) && Next(v, s, s') && k in s.threads
    requires InCall(s.threads[k].l.pc) || (k in s'.threads && !InCall(s'.threads[k].l.pc))
    ensures k in s'.threads && (s'.threads[k].l.pc.Idle? <==> s.threads[k].l.pc.Idle?)
    ensures s'.threads[k].hist.sawFull ==> s.threads[k].hist.sawFull || s'.w.Full()
    ensures s'.threads[k].hist.sawEmpty ==> s.threads[k].hist.sawEmpty || s'.w.Empty()
  {
    ThreadNext(v, s, s', k);
    if InCall(s.threads[k].l.pc) { SeenAfter(v, s.w, s.threads[k]); }
  }

  lemma SeenAtBegin(v: Variant, s: State, s': State, k: nat)
    requires Inv(v, s) && Next(v, s, s') && k in s.threads
    requires !InCall(s.threads[k].l.pc) && k in s'.threads && InCall(s'.threads[k].l.pc)
    ensures s'.threads[k].hist.sawFull ==> s'.w.Full()
    ensures s'.threads[k].hist.sawEmpty ==> s'.w.Empty()
  {
    ThreadNext(v, s, s', k);
  }

  /** A call that has seen the queue full has seen it full at a moment between its beginning and now. */
  lemma {:induction false} SeenWitness(v: Variant, run: seq<State>, size: nat, k: nat, i: nat)
    requires IsRun(v, run, size) && i < |run| && HasThread(run, k) && !run[i].threads[k].l.pc.Idle?
    ensures run[i].threads[k].hist.sawFull ==> exists j :: CallStart(run, k, i) <= j <= i && run[j].w.Full()
    ensures run[i].threads[k].hist.sawEmpty ==> exists j :: CallStart(run, k, i) <= j <= i && run[j].w.Empty()
  {
    hide Inv, Next, World.Full, World.Empty;
    if i > 0 {
      RunNext(v, run, size, i - 1);
      if InCall(run[i].threads[k].l.pc) && !InCall(run[i - 1].threads[k].l.pc) {
        SeenAtBegin(v, run[i - 1], run[i], k);
      } else {
        SeenStep(v, run[i - 1], run[i], k);
        SeenWitness(v, run, size, k, i - 1);
      }
    }
  }

  lemma ResultKnown(v: Variant, w: World, th: Thread)
    requires WorldInv(w) && ThreadInv(v, w, th) && th.l.pc.Returned?
    ensures TicketOk(w, th.l, th.hist.ticket)
    ensures !th.l.pc.ok ==> if th.l.op.Push? then th.hist.sawFull else th.hist.sawEmpty
  {
  }

  /** A Push that returned true appended its item exactly once; one that returned false appended nothing, and at some
      moment of the call the queue held exactly `size` items.
   */
  lemma PushResult(v: Variant, run: seq<State>, size: nat, k: nat, i: nat)
    requires IsRun(v, run, size) && i < |run| && HasThread(run, k)
    requires run[i].threads[k].l.pc.Returned? && run[i].threads[k].l.op.Push?
    ensures var th := run[i].threads[k];
            if th.l.pc.ok then 0 <= th.hist.ticket < |run[i].w.pushed| && run[i].w.pushed[th.hist.ticket] == th.l.item
            else th.hist.ticket == -1 && exists j :: CallStart(run, k, i) <= j <= i && |run[j].w.Queue()| == size
  {
    RunInv(v, run, size, i);
    ResultKnown(v, run[i].w, run[i].threads[k]);
    SeenWitness(v, run, size, k, i);
    if !run[i].threads[k].l.pc.ok {
      var j :| CallStart(run, k, i) <= j <= i && run[j].w.Full();
      RunInv(v, run, size, j);
    }
  }

  /** A Pop that returned true hands out the item it removed; one that returned false removed nothing, and at some
      moment of the call the queue was empty.
   */
  lemma PopResult(v: Variant, run: seq<State>, size: nat, k: nat, i: nat)
    requires IsRun(v, run, size) && i < |run| && HasThread(run, k)
    requires run[i].threads[k].l.pc.Returned? && run[i].threads[k].l.op.Pop?
    ensures var th := run[i].threads[k];
            if th.l.pc.ok then 0 <= th.hist.ticket < |run[i].w.popped| && run[i].w.popped[th.hist.ticket] == th.l.item
            else th.hist.ticket == -1 && exists j :: CallStart(run, k, i) <= j <= i && run[j].w.Queue() == []
  {
    RunInv(v, run, size, i);
    ResultKnown(v, run[i].w, run[i].threads[k]);
    SeenWitness(v, run, size, k, i);
  }

  /** A ticket that was already drawn before a step was drawn by the same call. */
  lemma TicketHeldStep(v: Variant, s: State, s': State, k: nat)
    requires Inv(v, s) && Next(v, s, s') && k in s.threads && k in s'.threads && !s'.threads[k].l.pc.Idle?
    requires var th := s'.threads[k]; 0 <= th.hist.ticket < if th.l.op.Push? then |s.w.pushed| else |s.w.popped|
    ensures InCall(s'.threads[k].l.pc) ==> InCall(s.threads[k].l.pc)
    ensures s.threads[k].l.op == s'.threads[k].l.op && !s.threads[k].l.pc.Idle?
    ensures s.threads[k].hist.ticket == s'.threads[k].hist.ticket
  {
    ThreadNext(v, s, s', k);
    if InCall(s.threads[k].l.pc) { TicketDrawn(v, s.w, s.threads[k]); }
  }

  lemma TicketHeldRunStep(v: Variant, run: seq<State>, size: nat, k: nat, j: nat)
    requires IsRun(v, run, size) && j + 1 < |run| && HasThread(run, k) && !run[j + 1].threads[k].l.pc.Idle?
    requires var th := run[j + 1].threads[k];
             0 <= th.hist.ticket < if th.l.op.Push? then |run[j].w.pushed| else |run[j].w.popped|
    ensures CallStart(run, k, j) == CallStart(run, k, j + 1)
    ensures run[j].threads[k].l.op == run[j + 1].threads[k].l.op && !run[j].threads[k].l.pc.Idle?
    ensures run[j].threads[k].hist.ticket == run[j + 1].threads[k].hist.ticket
  {
    RunNext(v, run, size, j);
    TicketHeldStep(v, run[j], run[j + 1], k);
  }

  lemma {:induction false} TicketHeldBefore(v: Variant, run: seq<State>, size: nat, k: nat, i: nat, j: nat)
    requires IsRun(v, run, size) && i <= j < |run| && HasThread(run, k) && !run[j].threads[k].l.pc.Idle?
    requires var th := run[j].threads[k];
             0 <= th.hist.ticket < if th.l.op.Push? then |run[i].w.pushed| else |run[i].w.popped|
    ensures CallStart(run, k, i) == CallStart(run, k, j)
    ensures run[i].threads[k].l.op == run[j].threads[k].l.op && !run[i].threads[k].l.pc.Idle?
    ensures run[i].threads[k].hist.ticket == run[j].threads[k].hist.ticket
    decreases j
  {
    if i < j {
      RunRely(v, run, size, i, j - 1);
      TicketHeldRunStep(v, run, size, k, j - 1);
      TicketHeldBefore(v, run, size, k, i, j - 1);
    }
  }

  /** Each successful slot CAS belongs to one call of one thread: no item is handed out twice. */
  lemma TicketUnique(v: Variant, run: seq<State>, size: nat, k: nat, k': nat, i: nat, j: nat)
    requires IsRun(v, run, size) && i <= j < |run| && HasThread(run, k) && HasThread(run, k')
    requires run[i].threads[k].l.pc == Returned(true) && run[j].threads[k'].l.pc == Returned(true)
    requires run[i].threads[k].l.op == run[j].threads[k'].l.op
    requires run[i].threads[k].hist.ticket == run[j].threads[k'].hist.ticket
    ensures k == k' && CallStart(run, k, i) == CallStart(run, k', j)
  {
    RunInv(v, run, size, i);
    RunInv(v, run, size, j);
    var th := run[i].threads[k];
    assert TicketOk(run[i].w, th.l, th.hist.ticket);
    TicketHeldBefore(v, run, size, k', i, j);
    assert k != k' ==> Apart(run[i].threads[k], run[i].threads[k']);
  }

  // ---------- Progress ----------

  /** Lock freedom: the rounds a call abandons and the steps it takes are bounded by the operations that took effect
      since it began, so threads can only delay each other by getting work done.
   */
  lemma LockFree(v: Variant, run: seq<State>, size: nat, k: nat, i: nat)
    requires IsRun(v, run, size) && i < |run| && HasThread(run, k) && !run[i].threads[k].l.pc.Idle?
    ensures var h := run[i].threads[k].hist;
            && h.rounds <= 2 * (run[i].w.Ops() - h.ops) + 2
            && h.steps <= 16 * (run[i].w.Ops() - h.ops) + 24
  {
    RunInv(v, run, size, i);
    var th := run[i].threads[k];
    assert ThreadInv(v, run[i].w, th) && RoundKnows(run[i].w, th) && CountsOk(th);
    assert run[i].w.Clock() <= 2 * run[i].w.Ops();
  }

  // ---------- Why 0 must not be pushed ----------

  /** A Push of 0 would be accepted and counted as an item, but the slot still looks empty: a Pop that reads it there
      and goes on undisturbed does not come to take it.
   */
  lemma PushedZeroIsPassedOver(v: Variant, w: World, l: Local, p: Local)
    requires WorldInv(w) && l.pc.PushCas? && l.item == 0 && Fillable(w, l.t, l.a)
    requires w.g.At(l.t) == l.a && l.a.lower == 0
    requires p.pc.PopReadSlot? && p.h == l.t
    ensures var w' := WorldAfter(v, w, l);
            var p1 := Exec(v, w'.g, p).1;
            var p2 := Exec(v, w'.g, p1).1;
            && Exec(v, w.g, l).1.pc == PushFinish && w'.Queue() == w.Queue() + [0]
            && !p2.pc.PopCas? && (p2.pc.PopCheckEmpty? ==> !Exec(v, w'.g, p2).1.pc.PopCas?)
  {
    var w' := WorldAfter(v, w, l);
    assert w'.g.At(l.t) == Pack(0, l.a.upper + 1);
  }
}
