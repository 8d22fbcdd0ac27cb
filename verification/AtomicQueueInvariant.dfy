/** The invariant behind the queue: what every reachable world and every thread at every program counter satisfies,
    and that every step of every thread preserves it.
*/
module AtomicQueueInvariant {
  import opened AtomicQueue
  import opened Residues

  // ---------- Slots ----------

  /** How many of the positions 0..k fall on slot `s`. */
  function Visits(k: nat, s: nat, n: nat): nat
    requires n > 0
  {
    if k == 0 then 0 else Visits(k - 1, s, n) + if (k - 1) % n == s then 1 else 0
  }

  lemma {:induction false} VisitsMonotone(k: nat, k': nat, s: nat, n: nat)
    requires n > 0 && k <= k'
    ensures Visits(k, s, n) <= Visits(k', s, n)
    decreases k'
  {
    if k < k' { VisitsMonotone(k, k' - 1, s, n); }
  }

  lemma VisitsStrict(k: nat, j: nat, k': nat, n: nat)
    requires n > 0 && k <= j < k'
    ensures Visits(k, j % n, n) < Visits(k', j % n, n)
  {
    VisitsMonotone(k, j, j % n, n);
    VisitsMonotone(j + 1, k', j % n, n);
  }

  // ---------- The world ----------

  /** The counters lag the linearised operations by at most one, the window of `n` positions that starts at the oldest
      item holds the items in order followed by empty slots, and versions count fills and empties.
   */
  ghost predicate WorldInv(w: World) {
    var T, H, n := |w.pushed|, |w.popped|, |w.g.buff|;
    && n > 0
    && H <= T && w.popped == w.pushed[..H]
    && (forall i :: 0 <= i < T ==> w.pushed[i] != 0)
    && w.g.head <= H <= w.g.head + 1
    && w.g.tail <= T <= w.g.tail + 1
    && H <= w.g.tail
    && T <= w.g.head + n
    && (forall j {:trigger w.g.At(j)} :: H <= j < T ==> w.g.At(j).lower == w.pushed[j])
    && (forall j {:trigger w.g.At(j)} :: T <= j < H + n ==> w.g.At(j).lower == 0)
    && Versions(w)
  }

  ghost predicate Versions(w: World)
    requires |w.g.buff| > 0
  {
    forall s :: 0 <= s < |w.g.buff| ==>
      w.g.buff[s].upper == Visits(|w.pushed|, s, |w.g.buff|) + Visits(|w.popped|, s, |w.g.buff|)
  }

  /** What any steps of other threads may do to the world. */
  ghost predicate Rely(w: World, w': World) {
    && |w.g.buff| == |w'.g.buff|
    && w.g.head <= w'.g.head && w.g.tail <= w'.g.tail
    && w.pushed <= w'.pushed && w.popped <= w'.popped
  }

  lemma SlotAt(w: World, k: nat)
    requires WorldInv(w)
    ensures w.g.At(k).upper == Visits(|w.pushed|, k % |w.g.buff|, |w.g.buff|)
        + Visits(|w.popped|, k % |w.g.buff|, |w.g.buff|)
  {
  }

  /** Versions rule out the ABA problem: a slot whose version did not change was neither filled nor emptied. */
  lemma SlotUnchanged(w: World, w': World, k: nat)
    requires WorldInv(w) && WorldInv(w') && Rely(w, w')
    ensures w.g.At(k).upper <= w'.g.At(k).upper
    ensures w.g.At(k).upper == w'.g.At(k).upper ==> w.g.At(k) == w'.g.At(k)
    ensures w.g.At(k).upper == w'.g.At(k).upper && |w.pushed| <= k ==> |w'.pushed| <= k
    ensures w.g.At(k).upper == w'.g.At(k).upper && |w.popped| <= k ==> |w'.popped| <= k
  {
    var n, s := |w.g.buff|, k % |w.g.buff|;
    var T, H, T', H' := |w.pushed|, |w.popped|, |w'.pushed|, |w'.popped|;
    SlotAt(w, k); SlotAt(w', k);
    VisitsMonotone(T, T', s, n); VisitsMonotone(H, H', s, n);
    if w.g.At(k).upper == w'.g.At(k).upper {
      if T <= k < T' { VisitsStrict(T, k, T', n); }
      if H <= k < H' { VisitsStrict(H, k, H', n); }
      var j := WindowCovers(H, n, s);
      assert w.g.At(j) == w.g.At(k) && w'.g.At(j) == w'.g.At(k);
      if H' > j { VisitsStrict(H, j, H', n); }
      if j >= T && T' > j { VisitsStrict(T, j, T', n); }
    }
  }

  // ---------- Steps of the world ----------

  lemma EnqueueKeeps(w: World, item: int) returns (w': World)
    requires WorldInv(w) && item != 0 && |w.pushed| < w.g.head + |w.g.buff| && |w.pushed| == w.g.tail
    ensures w' == World(w.g.Put(|w.pushed|, Pack(item, w.g.At(|w.pushed|).upper + 1)), w.pushed + [item], w.popped)
    ensures WorldInv(w') && Rely(w, w')
    ensures w.g.At(|w.pushed|).lower == 0
  {
    var T, H, n := |w.pushed|, |w.popped|, |w.g.buff|;
    w' := World(w.g.Put(T, Pack(item, w.g.At(T).upper + 1)), w.pushed + [item], w.popped);
    assert w.g.At(T).lower == 0;
    forall j | H <= j < H + n && j != T
      ensures w'.g.At(j) == w.g.At(j)
    {
      if j % n == T % n {
        if j < T { SameSlot(j, T, n); } else { SameSlot(T, j, n); }
      }
    }
  }

  lemma DequeueKeeps(w: World) returns (w': World)
    requires WorldInv(w) && |w.popped| < w.g.tail && |w.popped| == w.g.head
    ensures w.g.At(|w.popped|).lower == w.pushed[|w.popped|]
    ensures w' == World(w.g.Put(|w.popped|, Pack(0, w.g.At(|w.popped|).upper + 1)), w.pushed,
                        w.popped + [w.pushed[|w.popped|]])
    ensures WorldInv(w') && Rely(w, w')
  {
    var T, H, n := |w.pushed|, |w.popped|, |w.g.buff|;
    assert w.g.At(H).lower == w.pushed[H];
    w' := World(w.g.Put(H, Pack(0, w.g.At(H).upper + 1)), w.pushed, w.popped + [w.pushed[H]]);
    forall j | H < j < H + n
      ensures w'.g.At(j) == w.g.At(j)
    {
      if j % n == H % n { SameSlot(H, j, n); }
    }
    NextLap(H, n);
    assert w'.g.At(H + n) == w'.g.At(H);
  }

  lemma HelpHeadKeeps(w: World, h: nat)
    requires WorldInv(w) && h < |w.popped|
    ensures WorldInv(w.(g := w.g.CasHead(h))) && Rely(w, w.(g := w.g.CasHead(h)))
  {
    var w' := w.(g := w.g.CasHead(h));
    assert forall j: nat :: w'.g.At(j) == w.g.At(j);
  }

  lemma HelpTailKeeps(w: World, t: nat)
    requires WorldInv(w) && t < |w.pushed|
    ensures WorldInv(w.(g := w.g.CasTail(t))) && Rely(w, w.(g := w.g.CasTail(t)))
  {
    var w' := w.(g := w.g.CasTail(t));
    assert forall j: nat :: w'.g.At(j) == w.g.At(j);
  }

  // ---------- What a thread knows ----------

  /** `a` was read from slot `k`, and is still there if the version says so. */
  ghost predicate Known(w: World, k: nat, a: Pack)
    requires |w.g.buff| > 0
  {
    a.upper <= w.g.At(k).upper && (a.upper == w.g.At(k).upper ==> a == w.g.At(k))
  }

  /** As long as the slot is unchanged, position `t` is the next one to fill. */
  ghost predicate Fillable(w: World, t: nat, a: Pack)
    requires |w.g.buff| > 0
  {
    Known(w, t, a) && (a == w.g.At(t) && a.lower == 0 ==> |w.pushed| == t)
  }

  /** As long as the slot is unchanged, position `h` holds the oldest item. */
  ghost predicate Takable(w: World, h: nat, a: Pack)
    requires |w.g.buff| > 0
  {
    Known(w, h, a) && (a == w.g.At(h) && a.lower != 0 ==> |w.popped| == h)
  }

  ghost predicate PushKnows(v: Variant, w: World, l: Local, sawFull: bool)
    requires |w.g.buff| > 0
  {
    var g, n, T, H := w.g, |w.g.buff|, |w.pushed|, |w.popped|;
    match l.pc
    case PushReadTail => true
    case PushReadHead => l.t <= g.tail
    case PushReadSlot => l.t <= g.tail && l.h <= g.head && (v.Alternate? ==> l.t < g.head + n)
    case PushCheckTail =>
      && l.t <= g.tail && l.h <= g.head && Known(w, l.t, l.a)
      && (v.Alternate? ==> l.t < g.head + n && (l.a.lower != 0 ==> l.t < T))
    case PushCheckFull => v.Default? && l.t <= g.tail && l.h <= g.head && Fillable(w, l.t, l.a)
    case PushFullSlot =>
      l.h <= g.head && l.t <= g.tail && l.h + n <= l.t && (sawFull || l.t < H + n)
    case PushFullHead => l.h <= g.head && (sawFull || l.h < g.head)
    case PushHelpHead => l.h < H
    case PushRecheckSlot => l.t <= g.tail && l.t < g.head + n && l.a.lower != 0
    case PushHelpTail => l.t < T
    case PushCas => l.t <= g.tail && l.t < g.head + n && l.a.lower == 0 && Fillable(w, l.t, l.a)
    case PushFinish => l.t < T
    case Returned(ok) => !ok ==> sawFull
    case _ => false
  }

  ghost predicate PopKnows(v: Variant, w: World, l: Local, sawEmpty: bool)
    requires |w.g.buff| > 0
  {
    var g, n, T, H := w.g, |w.g.buff|, |w.pushed|, |w.popped|;
    match l.pc
    case PopReadHead => true
    case PopReadTail => l.h <= g.head
    case PopReadSlot => l.h <= g.head && l.h <= l.t <= g.tail && (v.Alternate? ==> l.h < l.t)
    case PopCheckHead =>
      && l.h <= g.head && l.h <= l.t <= g.tail && Known(w, l.h, l.a)
      && (v.Alternate? ==> l.h < l.t && (l.a.lower == 0 ==> l.h < H))
    case PopCheckEmpty => v.Default? && l.h <= g.head && l.h <= l.t <= g.tail && Takable(w, l.h, l.a)
    case PopEmptySlot => l.h <= g.head && l.h == l.t <= g.tail && (sawEmpty || l.t < T)
    case PopEmptyTail => l.t <= g.tail && (sawEmpty || l.t < g.tail)
    case PopHelpTail => l.t < T
    case PopRecheckSlot => l.h <= g.head && l.h < g.tail && l.a.lower == 0
    case PopHelpHead => l.h < H
    case PopCas => l.h <= g.head && l.h < g.tail && l.a.lower != 0 && Takable(w, l.h, l.a)
    case PopFinish => l.h < H
    case Returned(ok) => !ok ==> sawEmpty
    case _ => false
  }

  predicate HasReadTail(pc: PC) {
    pc.PushReadHead? || pc.PushReadSlot? || pc.PushCheckTail? || pc.PushCheckFull? || pc.PushFullSlot? ||
    pc.PushFullHead? || pc.PushHelpHead? || pc.PushRecheckSlot? || pc.PushHelpTail? || pc.PushCas? ||
    pc.PopReadSlot? || pc.PopCheckHead? || pc.PopCheckEmpty? || pc.PopEmptySlot? ||
    pc.PopEmptyTail? || pc.PopHelpTail? || pc.PopRecheckSlot? || pc.PopHelpHead? || pc.PopCas?
  }

  predicate HasReadHead(pc: PC) {
    (HasReadTail(pc) && !pc.PushReadHead?) || pc.PopReadTail?
  }

  predicate HasReadPushSlot(pc: PC) {
    pc.PushCheckTail? || pc.PushCheckFull? || pc.PushRecheckSlot? || pc.PushCas?
  }

  predicate HasReadPopSlot(pc: PC) {
    pc.PopCheckHead? || pc.PopCheckEmpty? || pc.PopRecheckSlot? || pc.PopCas?
  }

  /** If no CAS succeeded since the current round began, everything read in the round is still true. */
  ghost predicate RoundKnows(w: World, th: Thread)
    requires |w.g.buff| > 0
  {
    && th.hist.base <= th.hist.mark <= w.Clock()
    && th.hist.rounds <= th.hist.mark - th.hist.base
    && (th.hist.mark == w.Clock() ==> AllCurrent(w, th.l))
  }

  ghost predicate AllCurrent(w: World, l: Local)
    requires |w.g.buff| > 0
  {
    && (HasReadTail(l.pc) ==> l.t == w.g.tail)
    && (HasReadHead(l.pc) ==> l.h == w.g.head)
    && (HasReadPushSlot(l.pc) ==> l.a == w.g.At(l.t))
    && (HasReadPopSlot(l.pc) ==> l.a == w.g.At(l.h))
  }

  /** Each program counter is fewer than ten steps from the end of its round. */
  function StepsInRound(pc: PC): (k: nat)
    ensures k <= 8
  {
    match pc
    case PushReadHead => 1
    case PopReadTail => 1
    case PushReadSlot => 2
    case PopReadSlot => 2
    case PushCheckTail => 3
    case PopCheckHead => 3
    case PushCheckFull => 4
    case PopCheckEmpty => 4
    case PushFullSlot => 5
    case PopEmptySlot => 5
    case PushRecheckSlot => 5
    case PopRecheckSlot => 5
    case PushFullHead => 6
    case PopEmptyTail => 6
    case PushCas => 6
    case PopCas => 6
    case PushHelpHead => 7
    case PopHelpHead => 7
    case PushHelpTail => 7
    case PopHelpTail => 7
    case PushFinish => 7
    case PopFinish => 7
    case Returned(_) => 8
    case _ => 0
  }

  /** The slot CAS of the call succeeded exactly if the call is about to return true or has done so. */
  ghost predicate TicketOk(w: World, l: Local, ticket: int) {
    var done := l.pc.PushFinish? || l.pc.PopFinish? || l.pc == Returned(true);
    if !done then ticket == -1
    else if l.op.Push? then 0 <= ticket < |w.pushed| && w.pushed[ticket] == l.item
    else 0 <= ticket < |w.popped| && w.popped[ticket] == if l.pc.PopFinish? then l.a.lower else l.item
  }

  ghost predicate CallKnows(v: Variant, w: World, th: Thread)
    requires |w.g.buff| > 0
  {
    if th.l.op.Push? then th.l.item != 0 && PushKnows(v, w, th.l, th.hist.sawFull)
    else PopKnows(v, w, th.l, th.hist.sawEmpty)
  }

  /** The counters of the call are in step. */
  ghost predicate CountsOk(th: Thread) {
    th.hist.base <= 2 * th.hist.ops <= th.hist.base + 2 && th.hist.steps <= 8 * th.hist.rounds + StepsInRound(th.l.pc)
  }

  ghost predicate SeenOk(w: World, th: Thread) {
    InCall(th.l.pc) ==> (w.Full() ==> th.hist.sawFull) && (w.Empty() ==> th.hist.sawEmpty)
  }

  ghost predicate ThreadInv(v: Variant, w: World, th: Thread)
    requires |w.g.buff| > 0
  {
    th.l.pc.Idle? ||
    (CallKnows(v, w, th) && TicketOk(w, th.l, th.hist.ticket) && RoundKnows(w, th) && CountsOk(th) && SeenOk(w, th))
  }

  // ---------- Steps of other threads ----------

  lemma KnownStable(w: World, w': World, k: nat, a: Pack)
    requires WorldInv(w) && WorldInv(w') && Rely(w, w') && Known(w, k, a)
    ensures Known(w', k, a)
    ensures a == w'.g.At(k) ==> a == w.g.At(k)
    ensures a == w'.g.At(k) && |w.pushed| <= k ==> |w'.pushed| <= k
    ensures a == w'.g.At(k) && |w.popped| <= k ==> |w'.popped| <= k
  {
    SlotUnchanged(w, w', k);
  }

  lemma PushStable(v: Variant, w: World, w': World, l: Local, sawFull: bool)
    requires WorldInv(w) && WorldInv(w') && Rely(w, w') && PushKnows(v, w, l, sawFull)
    ensures PushKnows(v, w', l, sawFull)
  {
    if HasReadPushSlot(l.pc) && !l.pc.PushRecheckSlot? { KnownStable(w, w', l.t, l.a); }
  }

  lemma PopStable(v: Variant, w: World, w': World, l: Local, sawEmpty: bool)
    requires WorldInv(w) && WorldInv(w') && Rely(w, w') && PopKnows(v, w, l, sawEmpty)
    ensures PopKnows(v, w', l, sawEmpty)
  {
    if HasReadPopSlot(l.pc) && !l.pc.PopRecheckSlot? { KnownStable(w, w', l.h, l.a); }
  }

  /** If the clock did not move, nothing did. */
  lemma ClockStopped(w: World, w': World)
    requires WorldInv(w) && WorldInv(w') && Rely(w, w')
    ensures w.Clock() <= w'.Clock()
    ensures w.Clock() == w'.Clock() ==> w == w'
  {
    hide WorldInv, Visits;
    if w.Clock() == w'.Clock() {
      assert w.pushed == w'.pushed && w.popped == w'.popped;
      forall s | 0 <= s < |w.g.buff|
        ensures w.g.buff[s] == w'.g.buff[s]
      {
        HasSlots(w);
        HasSlots(w');
        OwnSlot(w.g, s);
        OwnSlot(w'.g, s);
        SlotUnchanged(w, w', s);
        SlotAt(w, s);
        SlotAt(w', s);
      }
      assert w.g.buff == w'.g.buff;
    }
  }

  lemma OwnSlot(g: Shared, s: nat)
    requires s < |g.buff|
    ensures g.At(s) == g.buff[s]
  {
  }

  lemma TicketStable(w: World, w': World, l: Local, ticket: int)
    requires Rely(w, w') && TicketOk(w, l, ticket)
    ensures TicketOk(w', l, ticket)
  {
  }

  lemma RoundStable(w: World, w': World, th: Thread)
    requires WorldInv(w) && WorldInv(w') && Rely(w, w') && RoundKnows(w, th)
    ensures RoundKnows(w', th)
  {
    ClockStopped(w, w');
  }

  lemma SeenMonotone(v: Variant, w: World, l: Local, seen: bool, now: bool)
    requires |w.g.buff| > 0
    ensures PushKnows(v, w, l, seen) ==> PushKnows(v, w, l, seen || now)
    ensures PopKnows(v, w, l, seen) ==> PopKnows(v, w, l, seen || now)
  {
  }

  /** Watching only adds to `sawFull` and `sawEmpty`. */
  lemma WatchKeeps(v: Variant, w: World, th: Thread)
    requires |w.g.buff| > 0 && CallKnows(v, w, th) && TicketOk(w, th.l, th.hist.ticket)
    requires RoundKnows(w, th) && CountsOk(th)
    ensures ThreadInv(v, w, Watch(w, th))
  {
    SeenMonotone(v, w, th.l, th.hist.sawFull, w.Full());
    SeenMonotone(v, w, th.l, th.hist.sawEmpty, w.Empty());
  }

  lemma ThreadStable(v: Variant, w: World, w': World, th: Thread)
    requires WorldInv(w) && WorldInv(w') && Rely(w, w') && ThreadInv(v, w, th)
    ensures ThreadInv(v, w', Watch(w', th))
  {
    if !th.l.pc.Idle? {
      if th.l.op.Push? {
        PushStable(v, w, w', th.l, th.hist.sawFull);
      } else {
        PopStable(v, w, w', th.l, th.hist.sawEmpty);
      }
      TicketStable(w, w', th.l, th.hist.ticket);
      RoundStable(w, w', th);
      WatchKeeps(v, w', th);
    }
  }

  // ---------- Steps of the thread itself ----------

  /** A slot found full at a position that is within reach of the head has been pushed. */
  lemma NotYetFilled(w: World, t: nat)
    requires WorldInv(w) && t <= w.g.tail && t < w.g.head + |w.g.buff| && w.g.At(t).lower != 0
    ensures t < |w.pushed|
  {
  }

  lemma NotYetPushed(w: World, t: nat, a: Pack)
    requires WorldInv(w) && t == w.g.tail && Known(w, t, a)
    ensures Fillable(w, t, a)
  {
    assert t < |w.pushed| ==> w.g.At(t).lower == w.pushed[t];
  }

  lemma FullSlot(w: World, h: nat, t: nat)
    requires WorldInv(w) && h <= w.g.head && t <= w.g.tail && h + |w.g.buff| <= t
    ensures w.g.At(h).lower == 0 ==> h < |w.popped|
    ensures w.g.At(h).lower != 0 ==> h < w.g.head || |w.popped| + |w.g.buff| <= t
  {
    var n := |w.g.buff|;
    NextLap(h, n);
    assert w.g.At(h + n) == w.g.At(h);
    assert |w.popped| <= h < |w.pushed| ==> w.g.At(h).lower == w.pushed[h];
  }

  predicate TriesCas(pc: PC) {
    pc.PushHelpHead? || pc.PushHelpTail? || pc.PushCas? || pc.PushFinish? ||
    pc.PopHelpHead? || pc.PopHelpTail? || pc.PopCas? || pc.PopFinish?
  }

  /** Reads leave the world alone. */
  lemma ReadKeepsWorld(v: Variant, w: World, l: Local)
    requires |w.g.buff| > 0 && InCall(l.pc) && !TriesCas(l.pc)
    ensures WorldAfter(v, w, l) == w
  {
  }

  lemma PushReadStep(v: Variant, w: World, l: Local, sawFull: bool)
    requires WorldInv(w) && InCall(l.pc) && !TriesCas(l.pc) && PushKnows(v, w, l, sawFull)
    requires w.Full() ==> sawFull
    ensures PushKnows(v, w, Exec(v, w.g, l).1, sawFull)
  {
    hide Versions;
    if l.pc.PushReadSlot? && v.Alternate? && w.g.At(l.t).lower != 0 { NotYetFilled(w, l.t); }
    if l.pc.PushCheckTail? && l.t == w.g.tail { NotYetPushed(w, l.t, l.a); }
    if l.pc.PushFullSlot? { FullSlot(w, l.h, l.t); }
    if l.pc.PushRecheckSlot? && w.g.At(l.t).lower != 0 { NotYetFilled(w, l.t); }
  }

  lemma PushSlotStep(v: Variant, w: World, l: Local, sawFull: bool)
    requires WorldInv(w) && l.pc.PushCas? && l.item != 0 && PushKnows(v, w, l, sawFull)
    ensures WorldInv(WorldAfter(v, w, l)) && Rely(w, WorldAfter(v, w, l))
    ensures PushKnows(v, WorldAfter(v, w, l), Exec(v, w.g, l).1, sawFull)
  {
    hide Versions;
    if w.g.At(l.t) == l.a { var w' := EnqueueKeeps(w, l.item); }
  }

  lemma PushCasStep(v: Variant, w: World, l: Local, sawFull: bool)
    requires WorldInv(w) && InCall(l.pc) && TriesCas(l.pc) && l.item != 0 && PushKnows(v, w, l, sawFull)
    ensures WorldInv(WorldAfter(v, w, l)) && Rely(w, WorldAfter(v, w, l))
    ensures PushKnows(v, WorldAfter(v, w, l), Exec(v, w.g, l).1, sawFull)
  {
    hide Versions;
    match l.pc
    case PushHelpHead => HelpHeadKeeps(w, l.h);
    case PushHelpTail => HelpTailKeeps(w, l.t);
    case PushCas => PushSlotStep(v, w, l, sawFull);
    case PushFinish => HelpTailKeeps(w, l.t);
  }

  /** A position at the head whose slot is full is the position of the oldest item. */
  lemma NotYetPopped(w: World, h: nat, a: Pack)
    requires WorldInv(w) && h == w.g.head && Known(w, h, a)
    ensures Takable(w, h, a)
  {
    NextLap(h, |w.g.buff|);
    assert w.g.At(h + |w.g.buff|) == w.g.At(h);
  }

  /** A slot found empty at a pushed position that is not behind the head has been popped. */
  lemma AlreadyPopped(w: World, h: nat)
    requires WorldInv(w) && h <= w.g.head && h < |w.pushed| && w.g.At(h).lower == 0
    ensures h < |w.popped|
  {
  }

  predicate RoundPops(pc: PC) {
    pc.PopReadHead? || pc.PopReadTail? || pc.PopReadSlot? || pc.PopCheckHead?
  }

  /** The reads at the beginning of a round of Pop. */
  lemma PopRoundStep(v: Variant, w: World, l: Local, sawEmpty: bool)
    requires WorldInv(w) && (RoundPops(l.pc) || l.pc.PopCheckEmpty?)
    requires PopKnows(v, w, l, sawEmpty) && (w.Empty() ==> sawEmpty)
    ensures PopKnows(v, w, Exec(v, w.g, l).1, sawEmpty)
  {
    hide Versions;
    if l.pc.PopReadSlot? && l.h < |w.pushed| && w.g.At(l.h).lower == 0 { AlreadyPopped(w, l.h); }
    if l.pc.PopCheckHead? && l.h == w.g.head { NotYetPopped(w, l.h, l.a); }
  }

  lemma PopReadStep(v: Variant, w: World, l: Local, sawEmpty: bool)
    requires WorldInv(w) && InCall(l.pc) && !TriesCas(l.pc) && PopKnows(v, w, l, sawEmpty)
    requires w.Empty() ==> sawEmpty
    ensures PopKnows(v, w, Exec(v, w.g, l).1, sawEmpty)
  {
    hide WorldInv, Versions;
    if RoundPops(l.pc) || l.pc.PopCheckEmpty? {
      PopRoundStep(v, w, l, sawEmpty);
    } else {
      PopLastStep(v, w, l, sawEmpty);
    }
  }

  /** The reads at its end. */
  lemma PopLastStep(v: Variant, w: World, l: Local, sawEmpty: bool)
    requires WorldInv(w) && InCall(l.pc) && !TriesCas(l.pc) && PopKnows(v, w, l, sawEmpty) && !RoundPops(l.pc)
    requires !l.pc.PopCheckEmpty? && (w.Empty() ==> sawEmpty)
    ensures PopKnows(v, w, Exec(v, w.g, l).1, sawEmpty)
  {
    hide Versions, Known, Takable;
    if l.pc.PopEmptySlot? {
      EmptySlot(w, l.t);
    } else if l.pc.PopRecheckSlot? && w.g.At(l.h).lower == 0 {
      AlreadyPopped(w, l.h);
    }
  }

  lemma EmptySlot(w: World, t: nat)
    requires WorldInv(w) && t <= w.g.head && t <= w.g.tail
    ensures w.g.At(t).lower != 0 ==> t < |w.pushed|
    ensures w.g.At(t).lower == 0 ==> t < w.g.tail || |w.pushed| == t
  {
    assert |w.popped| <= t < |w.pushed| ==> w.g.At(t).lower == w.pushed[t];
  }

  lemma PopSlotStep(v: Variant, w: World, l: Local, sawEmpty: bool)
    requires WorldInv(w) && l.pc.PopCas? && PopKnows(v, w, l, sawEmpty)
    ensures WorldInv(WorldAfter(v, w, l)) && Rely(w, WorldAfter(v, w, l))
    ensures PopKnows(v, WorldAfter(v, w, l), Exec(v, w.g, l).1, sawEmpty)
    ensures Exec(v, w.g, l).1.pc.PopFinish? ==> |w.popped| < |w.pushed| && l.a.lower == w.pushed[|w.popped|]
  {
    hide Versions;
    if w.g.At(l.h) == l.a { var w' := DequeueKeeps(w); }
  }

  lemma PopCasStep(v: Variant, w: World, l: Local, sawEmpty: bool)
    requires WorldInv(w) && InCall(l.pc) && TriesCas(l.pc) && PopKnows(v, w, l, sawEmpty)
    ensures WorldInv(WorldAfter(v, w, l)) && Rely(w, WorldAfter(v, w, l))
    ensures PopKnows(v, WorldAfter(v, w, l), Exec(v, w.g, l).1, sawEmpty)
    ensures Exec(v, w.g, l).1.pc.PopFinish? ==> |w.popped| < |w.pushed| && l.a.lower == w.pushed[|w.popped|]
  {
    hide Versions;
    match l.pc
    case PopHelpHead => HelpHeadKeeps(w, l.h);
    case PopHelpTail => HelpTailKeeps(w, l.t);
    case PopCas => PopSlotStep(v, w, l, sawEmpty);
    case PopFinish => HelpHeadKeeps(w, l.h);
  }

  lemma HistoryKeepsSeen(w: World, w': World, hist: History, pc: PC)
    ensures var hist' := HistoryAfter(w, w', hist, pc);
            && hist'.sawFull == hist.sawFull && hist'.sawEmpty == hist.sawEmpty
            && hist'.base == hist.base && hist'.ops == hist.ops && hist'.steps == hist.steps + 1
  {
  }

  lemma ExecKeepsCall(v: Variant, g: Shared, l: Local)
    requires |g.buff| > 0 && InCall(l.pc)
    ensures Exec(v, g, l).1.op == l.op
    ensures !l.pc.PopFinish? ==> Exec(v, g, l).1.item == l.item
  {
  }

  lemma PushStep(v: Variant, w: World, th: Thread)
    requires WorldInv(w) && InCall(th.l.pc) && th.l.op.Push? && CallKnows(v, w, th) && SeenOk(w, th)
    ensures WorldInv(WorldAfter(v, w, th.l)) && Rely(w, WorldAfter(v, w, th.l))
    ensures CallKnows(v, WorldAfter(v, w, th.l), ThreadAfter(v, w, th))
  {
    var w', l' := WorldAfter(v, w, th.l), Exec(v, w.g, th.l).1;
    assert PushKnows(v, w', l', th.hist.sawFull) && WorldInv(w') && Rely(w, w') by {
      if TriesCas(th.l.pc) { PushCasStep(v, w, th.l, th.hist.sawFull); } else {
        ReadKeepsWorld(v, w, th.l);
        PushReadStep(v, w, th.l, th.hist.sawFull);
      }
    }
    ExecKeepsCall(v, w.g, th.l);
    HistoryKeepsSeen(w, w', th.hist, l'.pc);
  }

  lemma PopStep(v: Variant, w: World, th: Thread)
    requires WorldInv(w) && InCall(th.l.pc) && th.l.op.Pop? && CallKnows(v, w, th) && SeenOk(w, th)
    ensures WorldInv(WorldAfter(v, w, th.l)) && Rely(w, WorldAfter(v, w, th.l))
    ensures CallKnows(v, WorldAfter(v, w, th.l), ThreadAfter(v, w, th))
  {
    var w', l' := WorldAfter(v, w, th.l), Exec(v, w.g, th.l).1;
    assert PopKnows(v, w', l', th.hist.sawEmpty) && WorldInv(w') && Rely(w, w') by {
      if TriesCas(th.l.pc) { PopCasStep(v, w, th.l, th.hist.sawEmpty); } else {
        ReadKeepsWorld(v, w, th.l);
        PopReadStep(v, w, th.l, th.hist.sawEmpty);
      }
    }
    ExecKeepsCall(v, w.g, th.l);
    HistoryKeepsSeen(w, w', th.hist, l'.pc);
  }

  lemma TicketStep(v: Variant, w: World, th: Thread)
    requires WorldInv(w) && InCall(th.l.pc) && ThreadInv(v, w, th)
    ensures TicketOk(WorldAfter(v, w, th.l), ThreadAfter(v, w, th).l, ThreadAfter(v, w, th).hist.ticket)
  {
    hide WorldInv, Known, Fillable, Takable, RoundKnows, CountsOk, SeenOk;
    HasSlots(w);
  }

  lemma HasSlots(w: World)
    requires WorldInv(w)
    ensures |w.g.buff| > 0
  {
  }

  /** If everything read in the round is current, a step that does not end the round keeps it so. */
  lemma CurrentStep(v: Variant, w: World, l: Local)
    requires |w.g.buff| > 0 && InCall(l.pc) && AllCurrent(w, l)
    requires WorldAfter(v, w, l) == w && !LoopStart(Exec(v, w.g, l).1.pc)
    ensures AllCurrent(w, Exec(v, w.g, l).1)
  {
  }

  /** A round is abandoned only if something read in it is out of date, or by a CAS that succeeds. */
  lemma AbandonedRound(v: Variant, w: World, th: Thread)
    requires WorldInv(w) && InCall(th.l.pc) && CallKnows(v, w, th) && AllCurrent(w, th.l)
    requires LoopStart(Exec(v, w.g, th.l).1.pc)
    ensures WorldAfter(v, w, th.l).Clock() > w.Clock()
  {
  }

  lemma RoundStep(v: Variant, w: World, th: Thread)
    requires WorldInv(w) && InCall(th.l.pc) && CallKnows(v, w, th) && RoundKnows(w, th)
    requires WorldInv(WorldAfter(v, w, th.l)) && Rely(w, WorldAfter(v, w, th.l))
    ensures RoundKnows(WorldAfter(v, w, th.l), ThreadAfter(v, w, th))
  {
    var w', pc' := WorldAfter(v, w, th.l), Exec(v, w.g, th.l).1.pc;
    ClockStopped(w, w');
    HistoryKeepsSeen(w, w', th.hist, pc');
    if LoopStart(pc') {
      if th.hist.mark == w.Clock() { AbandonedRound(v, w, th); }
    } else if th.hist.mark == w'.Clock() {
      CurrentStep(v, w, th.l);
    }
  }

  lemma CountsStep(v: Variant, w: World, th: Thread)
    requires WorldInv(w) && InCall(th.l.pc) && CallKnows(v, w, th) && CountsOk(th)
    ensures CountsOk(ThreadAfter(v, w, th))
  {
    hide WorldInv, Known, Fillable, Takable;
    HasSlots(w);
  }

  /** A step of a thread inside a call keeps the world invariant and its own. */
  lemma OwnStep(v: Variant, w: World, th: Thread)
    requires WorldInv(w) && InCall(th.l.pc) && ThreadInv(v, w, th)
    ensures WorldInv(WorldAfter(v, w, th.l)) && Rely(w, WorldAfter(v, w, th.l))
    ensures ThreadInv(v, WorldAfter(v, w, th.l), Watch(WorldAfter(v, w, th.l), ThreadAfter(v, w, th)))
  {
    if th.l.op.Push? { PushStep(v, w, th); } else { PopStep(v, w, th); }
    TicketStep(v, w, th);
    RoundStep(v, w, th);
    CountsStep(v, w, th);
    WatchKeeps(v, WorldAfter(v, w, th.l), ThreadAfter(v, w, th));
  }

  lemma BeginOk(v: Variant, w: World, op: Op, item: int)
    requires WorldInv(w) && ItemOk(op, item)
    ensures ThreadInv(v, w, Watch(w, Begin(w, op, item)))
  {
    WatchKeeps(v, w, Begin(w, op, item));
  }

  // ---------- The whole system ----------

  ghost predicate Inv(v: Variant, s: State) {
    && WorldInv(s.w)
    && (forall k :: k in s.threads ==> ThreadInv(v, s.w, s.threads[k]))
    && TicketsDistinct(s)
  }

  /** The two calls do not claim the same slot CAS. */
  ghost predicate Apart(a: Thread, b: Thread) {
    a.l.op == b.l.op && !a.l.pc.Idle? && !b.l.pc.Idle? && a.hist.ticket >= 0 ==> a.hist.ticket != b.hist.ticket
  }

  ghost predicate TicketsDistinct(s: State) {
    forall j, k :: j in s.threads && k in s.threads && j != k ==> Apart(s.threads[j], s.threads[k])
  }

  lemma InitInv(v: Variant, s: State, size: nat)
    requires Init(s, size)
    ensures Inv(v, s)
  {
    forall k | 0 <= k < size ensures Visits(0, k, size) == 0 {}
  }

  lemma ThreadsNext(v: Variant, s: State, tid: nat, op: Op, item: int)
    requires Inv(v, s) && tid in s.threads && ItemOk(op, item)
    ensures var s' := Step(v, s, tid, op, item);
            && WorldInv(s'.w) && Rely(s.w, s'.w)
            && forall k :: k in s'.threads ==> ThreadInv(v, s'.w, s'.threads[k])
  {
    var th, s' := s.threads[tid], Step(v, s, tid, op, item);
    if InCall(th.l.pc) { OwnStep(v, s.w, th); } else { BeginOk(v, s.w, op, item); }
    forall k | k in s'.threads
      ensures ThreadInv(v, s'.w, s'.threads[k])
    {
      if k != tid { ThreadStable(v, s.w, s'.w, s.threads[k]); }
    }
  }

  /** A step either leaves the ticket of the stepping thread alone, voids it, or draws the next one. */
  lemma TicketDrawn(v: Variant, w: World, th: Thread)
    requires WorldInv(w) && InCall(th.l.pc) && ThreadInv(v, w, th)
    ensures var th' := ThreadAfter(v, w, th);
            && th'.l.op == th.l.op
            && (th'.hist.ticket == th.hist.ticket
                || (th'.l.pc.PushFinish? && th.l.op.Push? && th'.hist.ticket == |w.pushed|)
                || (th'.l.pc.PopFinish? && th.l.op.Pop? && th'.hist.ticket == |w.popped|))
  {
    hide WorldInv, Known, Fillable, Takable, RoundKnows, CountsOk, SeenOk, TicketOk;
    HasSlots(w);
  }

  lemma ApartAfter(v: Variant, w: World, th: Thread, other: Thread)
    requires WorldInv(w) && InCall(th.l.pc) && ThreadInv(v, w, th) && ThreadInv(v, w, other)
    requires Apart(th, other) && Apart(other, th)
    ensures Apart(ThreadAfter(v, w, th), other) && Apart(other, ThreadAfter(v, w, th))
  {
    TicketDrawn(v, w, th);
  }

  lemma TicketsNext(v: Variant, s: State, tid: nat, op: Op, item: int)
    requires Inv(v, s) && tid in s.threads
    ensures TicketsDistinct(Step(v, s, tid, op, item))
  {
    var th, s' := s.threads[tid], Step(v, s, tid, op, item);
    var th' := if InCall(th.l.pc) then ThreadAfter(v, s.w, th) else Begin(s.w, op, item);
    forall j, k | j in s.threads && k in s.threads && j != k
      ensures Apart(s'.threads[j], s'.threads[k])
    {
      var a := if j == tid then th' else s.threads[j];
      var b := if k == tid then th' else s.threads[k];
      assert Apart(a, b) by {
        assert Apart(s.threads[j], s.threads[k]) && Apart(s.threads[k], s.threads[j]);
        if InCall(th.l.pc) && j == tid { ApartAfter(v, s.w, th, s.threads[k]); }
        if InCall(th.l.pc) && k == tid { ApartAfter(v, s.w, th, s.threads[j]); }
      }
      assert s'.threads[j] == Watch(s'.w, a) && s'.threads[k] == Watch(s'.w, b);
    }
  }

  lemma NextInv(v: Variant, s: State, s': State)
    requires Inv(v, s) && Next(v, s, s')
    ensures Inv(v, s') && Rely(s.w, s'.w)
  {
    var tid, op, item :| tid in s.threads && ItemOk(op, item) && s' == Step(v, s, tid, op, item);
    ThreadsNext(v, s, tid, op, item);
    TicketsNext(v, s, tid, op, item);
  }
}
