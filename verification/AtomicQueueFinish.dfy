/** The last access of a call of the queue of Core/AtomicQueue.h: a Push that has stored its item does not return before
    `tail` is past it, nor a Pop before `head` is past the item that it took.
*/
module AtomicQueueFinish {
  import opened AtomicQueue
  import opened AtomicQueueInvariant
  import opened AtomicQueueTheorems

  /** What the locals of a call that took effect have to do with its rank, and its counter once it has returned. */
  predicate Past(w: World, th: Thread) {
    && (th.l.pc.PushFinish? ==> th.hist.ticket == th.l.t)
    && (th.l.pc.PopFinish? ==> th.hist.ticket == th.l.h)
    && (th.l.pc == Returned(true) ==> th.hist.ticket < if th.l.op.Push? then w.g.tail else w.g.head)
  }

  lemma PastAccess(v: Variant, w: World, th: Thread)
    requires WorldInv(w) && ThreadInv(v, w, th) && InCall(th.l.pc) && Past(w, th)
    ensures Past(WorldAfter(v, w, th.l), ThreadAfter(v, w, th))
  {
    hide Known, Fillable, Takable, RoundKnows, CountsOk, SeenOk, Versions;
    HasSlots(w);
    SlotCasOnTime(v, w, th);
  }

  lemma PastLater(w: World, w': World, th: Thread)
    requires Past(w, th) && Rely(w, w')
    ensures Past(w', th) && Past(w', Watch(w', th))
  {
  }

  ghost predicate AllPast(q: State) {
    forall k :: k in q.threads ==> Past(q.w, q.threads[k])
  }

  lemma PastStep(v: Variant, q: State, q': State)
    requires Inv(v, q) && Next(v, q, q') && AllPast(q)
    ensures AllPast(q')
  {
    hide WorldInv, ThreadInv, TicketsDistinct, WorldAfter, ThreadAfter, Past;
    NextInv(v, q, q');
    var tid, op, item :| tid in q.threads && |q.w.g.buff| > 0 && ItemOk(op, item) && q' == Step(v, q, tid, op, item);
    if InCall(q.threads[tid].l.pc) { PastAccess(v, q.w, q.threads[tid]); }
    forall k | k in q'.threads
      ensures Past(q'.w, q'.threads[k])
    {
      if k != tid {
        PastLater(q.w, q'.w, q.threads[k]);
      } else if InCall(q.threads[k].l.pc) {
        WatchPast(q'.w, ThreadAfter(v, q.w, q.threads[k]));
      } else {
        BeginPast(q.w, q'.w, op, item);
      }
    }
  }

  lemma WatchPast(w: World, th: Thread)
    requires Past(w, th)
    ensures Past(w, Watch(w, th))
  {
  }

  lemma BeginPast(w: World, w': World, op: Op, item: int)
    ensures Past(w', Watch(w', Begin(w, op, item)))
  {
  }

  lemma {:induction false} RunPast(v: Variant, run: seq<State>, size: nat, i: nat)
    requires IsRun(v, run, size) && i < |run|
    ensures AllPast(run[i])
  {
    hide Inv, Next, Past;
    if i == 0 {
      InitPast(run[0], size);
    } else {
      RunPast(v, run, size, i - 1);
      RunNext(v, run, size, i - 1);
      PastStep(v, run[i - 1], run[i]);
    }
  }

  lemma InitPast(q: State, size: nat)
    requires Init(q, size)
    ensures AllPast(q)
  {
  }

  /** Whatever the other threads did: when Push has returned true, `tail` is past the position of its item, and when Pop
      has, `head` is past that of the item that it took.
   */
  lemma CounterHasPassed(v: Variant, run: seq<State>, size: nat, i: nat, k: nat)
    requires IsRun(v, run, size) && i < |run| && k in run[i].threads && run[i].threads[k].l.pc == Returned(true)
    ensures var w, th := run[i].w, run[i].threads[k];
            && 0 <= th.hist.ticket < (if th.l.op.Push? then w.g.tail else w.g.head)
            && (if th.l.op.Push? then th.hist.ticket < |w.pushed| && w.pushed[th.hist.ticket] == th.l.item
                else th.hist.ticket < |w.popped| && w.popped[th.hist.ticket] == th.l.item)
  {
    RunPast(v, run, size, i);
    RunInv(v, run, size, i);
    var th := run[i].threads[k];
    assert ThreadInv(v, run[i].w, th) && TicketOk(run[i].w, th.l, th.hist.ticket);
  }
}
