/** The lock-free bounded queue of Core/AtomicQueue.h as a transition system.

    Every read of a shared field and every compare-and-swap is one step, so a run of the system is an
    arbitrary interleaving of any number of Push and Pop calls. Head, tail and slot versions are unbounded
    counters, and memory is sequentially consistent.
*/
module AtomicQueue {

  // ---------- Shared memory ----------

  /** One slot of the buffer: `lower` is the item (0 encodes an empty slot), `upper` the version. */
  datatype Pack = Pack(lower: int, upper: nat)

  datatype Shared = Shared(head: nat, tail: nat, buff: seq<Pack>)
  {
    function At(k: nat): Pack
      requires |buff| > 0
    {
      buff[k % |buff|]
    }

    function Put(k: nat, p: Pack): Shared
      requires |buff| > 0
    {
      this.(buff := buff[k % |buff| := p])
    }

    /** InterlockedCompareExchange(&head, h + 1, h) */
    function CasHead(h: nat): Shared {
      if head == h then this.(head := h + 1) else this
    }

    /** InterlockedCompareExchange(&tail, t + 1, t) */
    function CasTail(t: nat): Shared {
      if tail == t then this.(tail := t + 1) else this
    }
  }

  // ---------- Threads ----------

  /** The two bodies that the preprocessor chooses between. */
  datatype Variant = Default | Alternate

  /** The next shared access of a thread. */
  datatype PC =
    | Idle
    | PushReadTail | PushReadHead | PushReadSlot | PushCheckTail | PushCheckFull
    | PushFullSlot | PushFullHead | PushHelpHead | PushRecheckSlot | PushHelpTail | PushCas | PushFinish
    | PopReadHead | PopReadTail | PopReadSlot | PopCheckHead | PopCheckEmpty
    | PopEmptySlot | PopEmptyTail | PopHelpTail | PopRecheckSlot | PopHelpHead | PopCas | PopFinish
    | Returned(ok: bool)

  datatype Op = Push | Pop

  /** Program state of a thread: program counter, the call it is in (`item` is the argument of Push and the
      reference parameter of Pop), and the locals `t`, `h` and `a`.
   */
  datatype Local = Local(pc: PC, op: Op, item: int, t: nat, h: nat, a: Pack)

  /** History of the current call: the rank of its successful slot CAS among those of the same kind (-1 before it),
      whether the queue was full or empty at some moment of the call, the clock and the number of operations when the
      call began, the clock when its current round of the loop began, the rounds abandoned and the steps taken.
   */
  datatype History = History(
    ticket: int, sawFull: bool, sawEmpty: bool, base: nat, ops: nat, mark: nat, rounds: nat, steps: nat)

  datatype Thread = Thread(l: Local, hist: History)

  predicate InCall(pc: PC) {
    !pc.Idle? && !pc.Returned?
  }

  predicate LoopStart(pc: PC) {
    pc.PushReadTail? || pc.PopReadHead?
  }

  /** One atomic step of the code of a thread that is inside a call. */
  function Exec(v: Variant, g: Shared, l: Local): (r: (Shared, Local))
    requires |g.buff| > 0 && InCall(l.pc)
  {
    var n := |g.buff|;
    match l.pc
    // Push
    case PushReadTail => (g, l.(t := g.tail, pc := PushReadHead))
    case PushReadHead =>
      (g, l.(h := g.head, pc := if v.Alternate? && l.t == g.head + n then PushFullSlot else PushReadSlot))
    case PushReadSlot => (g, l.(a := g.At(l.t), pc := PushCheckTail))
    case PushCheckTail =>
      (g, l.(pc := if l.t != g.tail then PushReadTail
                    else if v.Default? then PushCheckFull
                    else if l.a.lower != 0 then PushHelpTail else PushCas))
    case PushCheckFull =>
      (g, l.(pc := if l.t == g.head + n then PushFullSlot
                    else if l.a.lower != 0 then PushRecheckSlot else PushCas))
    case PushFullSlot => (g, l.(pc := if g.At(l.h).lower != 0 then PushFullHead else PushHelpHead))
    case PushFullHead => (g, l.(pc := if l.h == g.head then Returned(false) else PushHelpHead))
    case PushHelpHead => (g.CasHead(l.h), l.(pc := PushReadTail))
    case PushRecheckSlot => (g, l.(pc := if g.At(l.t).lower != 0 then PushHelpTail else PushReadTail))
    case PushHelpTail => (g.CasTail(l.t), l.(pc := PushReadTail))
    case PushCas =>
      if g.At(l.t) == l.a then
        (g.Put(l.t, Pack(l.item, l.a.upper + 1)), l.(pc := PushFinish))
      else
        (g, l.(pc := PushReadTail))
    case PushFinish => (g.CasTail(l.t), l.(pc := Returned(true)))
    // Pop
    case PopReadHead => (g, l.(h := g.head, pc := PopReadTail))
    case PopReadTail =>
      (g, l.(t := g.tail, pc := if v.Alternate? && l.h == g.tail then PopEmptySlot else PopReadSlot))
    case PopReadSlot => (g, l.(a := g.At(l.h), pc := PopCheckHead))
    case PopCheckHead =>
      (g, l.(pc := if l.h != g.head then PopReadHead
                    else if v.Default? then PopCheckEmpty
                    else if l.a.lower == 0 then PopHelpHead else PopCas))
    case PopCheckEmpty =>
      (g, l.(pc := if l.h == g.tail then PopEmptySlot
                    else if l.a.lower == 0 then PopRecheckSlot else PopCas))
    case PopEmptySlot => (g, l.(pc := if g.At(l.t).lower == 0 then PopEmptyTail else PopHelpTail))
    case PopEmptyTail => (g, l.(pc := if l.t == g.tail then Returned(false) else PopHelpTail))
    case PopHelpTail => (g.CasTail(l.t), l.(pc := PopReadHead))
    case PopRecheckSlot => (g, l.(pc := if g.At(l.h).lower == 0 then PopHelpHead else PopReadHead))
    case PopHelpHead => (g.CasHead(l.h), l.(pc := PopReadHead))
    case PopCas =>
      if g.At(l.h) == l.a then
        (g.Put(l.h, Pack(0, l.a.upper + 1)), l.(pc := PopFinish))
      else
        (g, l.(pc := PopReadHead))
    case PopFinish => (g.CasHead(l.h), l.(item := l.a.lower, pc := Returned(true)))
  }

  // ---------- The whole system ----------

  /** Shared memory with its history: the items stored by successful Push CASes and the items taken by
      successful Pop CASes, in the order of those CASes.
   */
  datatype World = World(g: Shared, pushed: seq<int>, popped: seq<int>)
  {
    /** The number of pushes and pops linearised so far. */
    function Ops(): nat {
      |pushed| + |popped|
    }

    /** Grows with every successful CAS. */
    function Clock(): nat {
      |pushed| + |popped| + g.head + g.tail
    }

    /** The abstract bounded FIFO: the items that were pushed and not yet popped. */
    function Queue(): seq<int> {
      if |popped| <= |pushed| then pushed[|popped|..] else []
    }

    predicate Full() {
      |Queue()| == |g.buff|
    }

    predicate Empty() {
      Queue() == []
    }
  }

  datatype State = State(w: World, threads: map<nat, Thread>)

  /** What a thread inside a call observes of the current world. */
  function Watch(w: World, th: Thread): Thread {
    if InCall(th.l.pc) then
      Thread(th.l, th.hist.(sawFull := th.hist.sawFull || w.Full(), sawEmpty := th.hist.sawEmpty || w.Empty()))
    else th
  }

  function Begin(w: World, op: Op, item: int): Thread {
    Thread(Local(if op.Push? then PushReadTail else PopReadHead, op, item, 0, 0, Pack(0, 0)),
           History(-1, false, false, w.Clock(), w.Ops(), w.Clock(), 0, 0))
  }

  /** The world after a step of a thread in local state `l`: a slot CAS that succeeds is recorded in the history. */
  function WorldAfter(v: Variant, w: World, l: Local): (w': World)
    requires |w.g.buff| > 0 && InCall(l.pc)
  {
    var (g', l') := Exec(v, w.g, l);
    if l'.pc.PushFinish? then World(g', w.pushed + [l.item], w.popped)
    else if l'.pc.PopFinish? then World(g', w.pushed, w.popped + [l.a.lower])
    else World(g', w.pushed, w.popped)
  }

  /** The history of a call whose next program counter is `pc`, after a step from `w` to `w'`. */
  function HistoryAfter(w: World, w': World, hist: History, pc: PC): (hist': History) {
    var hist1 := hist.(steps := hist.steps + 1);
    if LoopStart(pc) then hist1.(rounds := hist.rounds + 1, mark := w'.Clock())
    else if pc.PushFinish? then hist1.(ticket := |w.pushed|)
    else if pc.PopFinish? then hist1.(ticket := |w.popped|)
    else hist1
  }

  function ThreadAfter(v: Variant, w: World, th: Thread): (th': Thread)
    requires |w.g.buff| > 0 && InCall(th.l.pc)
  {
    var l' := Exec(v, w.g, th.l).1;
    Thread(l', HistoryAfter(w, WorldAfter(v, w, th.l), th.hist, l'.pc))
  }

  /** Thread `tid` takes one step: it begins the call `op(item)` if it is outside a call, else it
      executes its next access.
   */
  function Step(v: Variant, s: State, tid: nat, op: Op, item: int): (s': State)
    requires tid in s.threads && |s.w.g.buff| > 0
  {
    var th := s.threads[tid];
    var w' := if InCall(th.l.pc) then WorldAfter(v, s.w, th.l) else s.w;
    var th' := if InCall(th.l.pc) then ThreadAfter(v, s.w, th) else Begin(s.w, op, item);
    State(w', map k | k in s.threads :: Watch(w', if k == tid then th' else s.threads[k]))
  }

  ghost predicate Next(v: Variant, s: State, s': State) {
    exists tid, op, item ::
      tid in s.threads && |s.w.g.buff| > 0 && ItemOk(op, item) && s' == Step(v, s, tid, op, item)
  }

  /** The item 0 encodes an empty slot, so callers must not push it. */
  predicate ItemOk(op: Op, item: int) {
    op.Push? ==> item != 0
  }

  /** The constructor with `size` slots, and any number of idle threads. */
  ghost predicate Init(s: State, size: nat) {
    && size > 0
    && s.w == World(Shared(0, 0, seq(size, _ => Pack(0, 0))), [], [])
    && forall k :: k in s.threads ==> s.threads[k].l.pc == Idle
  }

  ghost predicate IsRun(v: Variant, run: seq<State>, size: nat) {
    && |run| > 0
    && Init(run[0], size)
    && forall i :: 0 <= i < |run| - 1 ==> StepAt(v, run, i)
  }

  ghost predicate StepAt(v: Variant, run: seq<State>, i: nat)
    requires i + 1 < |run|
  {
    Next(v, run[i], run[i + 1])
  }
}
