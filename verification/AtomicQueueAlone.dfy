/** Calls of the queue of Core/AtomicQueue.h that no other thread interferes with: they return after a bounded number of
    accesses. Push fails exactly if the queue was full when it began, Pop exactly if it was empty.
*/
module AtomicQueueAlone {
  import opened AtomicQueue
  import opened AtomicQueueInvariant
  import opened AtomicQueueTheorems

  // ---------- Push ----------

  /** Thread `tid` has made `n` accesses of a Push of `item` that began in the world `w`,
      and no other thread has moved.
   */
  ghost predicate Pushing(v: Variant, w: World, s: State, tid: nat, item: int, n: nat) {
    Inv(v, s) && tid in s.threads && s.w.popped == w.popped && |s.w.g.buff| == |w.g.buff|
      && PushingThread(w, s.w, s.threads[tid], item, n)
  }

  ghost predicate PushingThread(w: World, w': World, th: Thread, item: int, n: nat) {
    && !th.l.pc.Idle? && th.l.op.Push? && th.l.item == item && th.hist.ops == w.Ops() && th.hist.steps == n
    && if th.l.pc.PushFinish? || th.l.pc == Returned(true) then w'.pushed == w.pushed + [item] && !w.Full()
       else w'.pushed == w.pushed && (th.hist.sawFull ==> w.Full())
  }

  lemma PushingBegins(v: Variant, s: State, tid: nat, item: int)
    requires Inv(v, s) && tid in s.threads && !InCall(s.threads[tid].l.pc) && item != 0
    ensures Pushing(v, s.w, Step(v, s, tid, Push, item), tid, item, 0)
  {
    assert Next(v, s, Step(v, s, tid, Push, item));
    NextInv(v, s, Step(v, s, tid, Push, item));
  }

  /** What an access of a Push does to the items stored. */
  lemma PushAccessStores(v: Variant, w: World, th: Thread)
    requires WorldInv(w) && ThreadInv(v, w, th) && InCall(th.l.pc) && th.l.op.Push?
    ensures var w', pc, pc' := WorldAfter(v, w, th.l), th.l.pc, ThreadAfter(v, w, th).l.pc;
            && w'.popped == w.popped && |w'.g.buff| == |w.g.buff| && !pc'.Idle?
            && w'.pushed == w.pushed + (if pc'.PushFinish? then [th.l.item] else [])
            && (pc'.PushFinish? ==> !w.Full()) && (pc.PushFinish? <==> pc' == Returned(true)) && !pc.PopFinish?
  {
    hide WorldInv, Known, Fillable, RoundKnows, CountsOk;
    HasSlots(w);
    if th.l.pc.PushCas? && w.g.At(th.l.t) == th.l.a { SlotCasOnTime(v, w, th); }
  }

  lemma PushAccess(v: Variant, w: World, w1: World, th: Thread, item: int, n: nat)
    requires WorldInv(w1) && ThreadInv(v, w1, th) && InCall(th.l.pc) && PushingThread(w, w1, th, item, n)
    requires w1.popped == w.popped && |w1.g.buff| == |w.g.buff|
    ensures var w2, th2 := WorldAfter(v, w1, th.l), ThreadAfter(v, w1, th);
            w2.popped == w.popped && |w2.g.buff| == |w.g.buff| && PushingThread(w, w2, Watch(w2, th2), item, n + 1)
  {
    hide WorldInv, ThreadInv, WorldAfter, Exec;
    HasSlots(w1);
    PushAccessStores(v, w1, th);
    ExecKeepsCall(v, w1.g, th.l);
    HistoryKeepsSeen(w1, WorldAfter(v, w1, th.l), th.hist, Exec(v, w1.g, th.l).1.pc);
  }

  lemma PushingGoesOn(v: Variant, w: World, s: State, tid: nat, item: int, n: nat)
    requires Pushing(v, w, s, tid, item, n) && InCall(s.threads[tid].l.pc) && item != 0
    ensures |s.w.g.buff| > 0 && Pushing(v, w, Step(v, s, tid, Push, item), tid, item, n + 1)
  {
    hide WorldInv, ThreadInv, PushingThread, TicketsDistinct, WorldAfter, ThreadAfter;
    HasSlots(s.w);
    var s' := Step(v, s, tid, Push, item);
    assert Next(v, s, s');
    NextInv(v, s, s');
    PushAccess(v, w, s.w, s.threads[tid], item, n);
  }

  /** It makes at most 40 accesses, and its result says whether there was room when it began. */
  lemma PushingEnds(v: Variant, w: World, s: State, tid: nat, item: int, n: nat)
    requires Pushing(v, w, s, tid, item, n)
    ensures n <= 40
    ensures !InCall(s.threads[tid].l.pc) ==> s.threads[tid].l.pc == Returned(!w.Full())
  {
    var th := s.threads[tid];
    assert ThreadInv(v, s.w, th) && RoundKnows(s.w, th) && CountsOk(th);
    assert s.w.Clock() <= 2 * s.w.Ops();
  }

  // ---------- Pop ----------

  /** Thread `tid` has made `n` accesses of a Pop that began in the world `w`, and no other thread has moved. */
  ghost predicate Popping(v: Variant, w: World, s: State, tid: nat, n: nat) {
    Inv(v, s) && tid in s.threads && s.w.pushed == w.pushed && |s.w.g.buff| == |w.g.buff|
      && PoppingThread(w, s.w, s.threads[tid], n)
  }

  ghost predicate PoppingThread(w: World, w': World, th: Thread, n: nat) {
    && !th.l.pc.Idle? && th.l.op.Pop? && th.hist.ops == w.Ops() && th.hist.steps == n
    && if th.l.pc.PopFinish? || th.l.pc == Returned(true) then
         && !w.Empty() && w'.popped == w.popped + [w.Queue()[0]]
         && w.Queue()[0] == if th.l.pc.PopFinish? then th.l.a.lower else th.l.item
       else w'.popped == w.popped && (th.hist.sawEmpty ==> w.Empty())
  }

  lemma PoppingBegins(v: Variant, s: State, tid: nat)
    requires Inv(v, s) && tid in s.threads && !InCall(s.threads[tid].l.pc)
    ensures |s.w.g.buff| > 0 && Popping(v, s.w, Step(v, s, tid, Pop, 0), tid, 0)
  {
    HasSlots(s.w);
    assert Next(v, s, Step(v, s, tid, Pop, 0));
    NextInv(v, s, Step(v, s, tid, Pop, 0));
  }

  /** What an access of a Pop does to the items taken. */
  lemma PopAccessTakes(v: Variant, w: World, th: Thread)
    requires WorldInv(w) && ThreadInv(v, w, th) && InCall(th.l.pc) && th.l.op.Pop?
    ensures var w', l, l' := WorldAfter(v, w, th.l), th.l, ThreadAfter(v, w, th).l;
            && w'.pushed == w.pushed && |w'.g.buff| == |w.g.buff| && !l'.pc.Idle?
            && (if l'.pc.PopFinish? then !w.Empty() && l'.a.lower == w.Queue()[0]
                && w'.popped == w.popped + [w.Queue()[0]]
                else w'.popped == w.popped)
            && (l.pc.PopFinish? <==> l'.pc == Returned(true)) && (l.pc.PopFinish? ==> l'.item == l.a.lower)
  {
    hide WorldInv, Known, Takable, RoundKnows, CountsOk;
    HasSlots(w);
    if th.l.pc.PopCas? && w.g.At(th.l.h) == th.l.a { SlotCasOnTime(v, w, th); }
  }

  lemma PopAccess(v: Variant, w: World, w1: World, th: Thread, n: nat)
    requires WorldInv(w1) && ThreadInv(v, w1, th) && InCall(th.l.pc) && PoppingThread(w, w1, th, n)
    requires w1.pushed == w.pushed && |w1.g.buff| == |w.g.buff|
    ensures var w2, th2 := WorldAfter(v, w1, th.l), ThreadAfter(v, w1, th);
            w2.pushed == w.pushed && |w2.g.buff| == |w.g.buff| && PoppingThread(w, w2, Watch(w2, th2), n + 1)
  {
    hide WorldInv, ThreadInv, WorldAfter, Exec;
    HasSlots(w1);
    PopAccessTakes(v, w1, th);
    ExecKeepsCall(v, w1.g, th.l);
    HistoryKeepsSeen(w1, WorldAfter(v, w1, th.l), th.hist, Exec(v, w1.g, th.l).1.pc);
  }

  lemma PoppingGoesOn(v: Variant, w: World, s: State, tid: nat, n: nat)
    requires Popping(v, w, s, tid, n) && InCall(s.threads[tid].l.pc)
    ensures |s.w.g.buff| > 0 && Popping(v, w, Step(v, s, tid, Pop, 0), tid, n + 1)
  {
    hide WorldInv, ThreadInv, PoppingThread, TicketsDistinct, WorldAfter, ThreadAfter;
    HasSlots(s.w);
    var s' := Step(v, s, tid, Pop, 0);
    assert Next(v, s, s');
    NextInv(v, s, s');
    PopAccess(v, w, s.w, s.threads[tid], n);
  }

  lemma PoppingEnds(v: Variant, w: World, s: State, tid: nat, n: nat)
    requires Popping(v, w, s, tid, n)
    ensures n <= 40
    ensures !InCall(s.threads[tid].l.pc) ==> s.threads[tid].l.pc == Returned(!w.Empty())
  {
    var th := s.threads[tid];
    assert ThreadInv(v, s.w, th) && RoundKnows(s.w, th) && CountsOk(th);
    assert s.w.Clock() <= 2 * s.w.Ops();
  }

  // ---------- Over runs ----------

  /** From state `i` to state `j` of a run only thread `tid` moves: it begins a call and goes on with it. */
  ghost predicate Alone(v: Variant, run: seq<State>, tid: nat, op: Op, item: int, i: nat, j: nat) {
    && i < j < |run|
    && (forall m :: i <= m < j ==> MovesAt(v, run, tid, op, item, m))
    && (forall m :: i <= m < j ==> CallsAt(run, tid, m) == (m > i))
  }

  ghost predicate MovesAt(v: Variant, run: seq<State>, tid: nat, op: Op, item: int, m: nat)
    requires m + 1 < |run|
  {
    tid in run[m].threads && |run[m].w.g.buff| > 0 && run[m + 1] == Step(v, run[m], tid, op, item)
  }

  ghost predicate CallsAt(run: seq<State>, tid: nat, m: nat)
    requires m < |run|
  {
    tid in run[m].threads && InCall(run[m].threads[tid].l.pc)
  }

  lemma {:induction false} AlonePushes(v: Variant, run: seq<State>, size: nat, tid: nat, item: int, i: nat, j: nat)
    requires IsRun(v, run, size) && Alone(v, run, tid, Push, item, i, j) && item != 0
    ensures Pushing(v, run[i].w, run[j], tid, item, j - i - 1)
    decreases j
  {
    hide Pushing, Step, Inv, Init, Next;
    RunInv(v, run, size, i);
    assert MovesAt(v, run, tid, Push, item, j - 1) && CallsAt(run, tid, j - 1) == (j - 1 > i);
    if j - 1 == i {
      PushingBegins(v, run[i], tid, item);
    } else {
      AlonePushes(v, run, size, tid, item, i, j - 1);
      PushingGoesOn(v, run[i].w, run[j - 1], tid, item, j - i - 2);
    }
  }

  lemma {:induction false} AlonePops(v: Variant, run: seq<State>, size: nat, tid: nat, i: nat, j: nat)
    requires IsRun(v, run, size) && Alone(v, run, tid, Pop, 0, i, j)
    ensures Popping(v, run[i].w, run[j], tid, j - i - 1)
    decreases j
  {
    hide Popping, Step, Inv, Init, Next;
    RunInv(v, run, size, i);
    assert MovesAt(v, run, tid, Pop, 0, j - 1) && CallsAt(run, tid, j - 1) == (j - 1 > i);
    if j - 1 == i {
      PoppingBegins(v, run[i], tid);
    } else {
      AlonePops(v, run, size, tid, i, j - 1);
      PoppingGoesOn(v, run[i].w, run[j - 1], tid, j - i - 2);
    }
  }

  /** A Push that runs without interference returns within 41 steps, and it returns false exactly if the queue held
      `size` items when it began; otherwise its item is appended.
   */
  lemma PushAlone(v: Variant, run: seq<State>, size: nat, tid: nat, item: int, i: nat, j: nat)
    requires IsRun(v, run, size) && Alone(v, run, tid, Push, item, i, j) && item != 0
    ensures tid in run[j].threads && j - i <= 41 && (CallsAt(run, tid, j) ==> j - i < 41)
    ensures !CallsAt(run, tid, j) ==> (run[j].threads[tid].l.pc == Returned(false) <==> |run[i].w.Queue()| == size)
    ensures !CallsAt(run, tid, j) ==> run[j].threads[tid].l.pc.Returned?
    ensures !CallsAt(run, tid, j) ==>
              run[j].w.Queue() == run[i].w.Queue() + if |run[i].w.Queue()| == size then [] else [item]
  {
    hide Inv, Step, Init;
    AlonePushes(v, run, size, tid, item, i, j);
    PushingEnds(v, run[i].w, run[j], tid, item, j - i - 1);
    RunInv(v, run, size, i);
    FifoOrder(v, run, size, i);
    if CallsAt(run, tid, j) {
      PushingGoesOn(v, run[i].w, run[j], tid, item, j - i - 1);
      PushingEnds(v, run[i].w, Step(v, run[j], tid, Push, item), tid, item, j - i);
    }
    RunInv(v, run, size, j);
  }

  /** A Pop that runs without interference returns within 41 steps, and it returns false exactly if the queue was
      empty when it began; otherwise it hands out the oldest item and removes it.
   */
  lemma PopAlone(v: Variant, run: seq<State>, size: nat, tid: nat, i: nat, j: nat)
    requires IsRun(v, run, size) && Alone(v, run, tid, Pop, 0, i, j)
    ensures tid in run[j].threads && j - i <= 41 && (CallsAt(run, tid, j) ==> j - i < 41)
    ensures !CallsAt(run, tid, j) ==> run[j].threads[tid].l.pc.Returned?
    ensures !CallsAt(run, tid, j) ==>
              if run[i].w.Queue() == [] then run[j].threads[tid].l.pc == Returned(false) && run[j].w.Queue() == []
              else && run[j].threads[tid].l.pc == Returned(true) && run[j].threads[tid].l.item == run[i].w.Queue()[0]
                   && run[j].w.Queue() == run[i].w.Queue()[1..]
  {
    hide Inv, Step, Init;
    AlonePops(v, run, size, tid, i, j);
    PoppingEnds(v, run[i].w, run[j], tid, j - i - 1);
    RunInv(v, run, size, i);
    if CallsAt(run, tid, j) {
      PoppingGoesOn(v, run[i].w, run[j], tid, j - i - 1);
      PoppingEnds(v, run[i].w, Step(v, run[j], tid, Pop, 0), tid, j - i);
    }
    RunInv(v, run, size, j);
  }
}
