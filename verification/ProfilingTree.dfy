/** The call-tree profiler of Core/Profiling.cpp as a value: what entering and leaving a scope does, and how the call
    tree, the flat summary and the clock are related. A node of the call tree is named by the tags on the way to it.
*/
module ProfilingTree {

  type Tag = int
  type Path = seq<Tag>

  const FLT_MAX := 340282346638528859811704183484516925440.0

  /** TagInfo and CallInfo. */
  datatype Info = Info(count: nat, total: real, longest: real, shortest: real)

  const NO_INFO := Info(0, 0.0, -FLT_MAX, FLT_MAX)

  /** One scope that took `delta`; `counts` is false for the total of a scope that is nested in one with the same tag.
   */
  function Taken(info: Info, delta: real, counts: bool): Info {
    Info(info.count + 1,
         info.total + (if counts then delta else 0.0),
         if info.longest < delta then delta else info.longest,
         if info.shortest > delta then delta else info.shortest)
  }

  datatype Entry = Entry(path: Path, info: Info)

  datatype Frame = Frame(tag: Tag, start: real)

  /** The call tree in the order of creation, the flat summary, and the live scopes, innermost last. */
  datatype State = State(tree: seq<Entry>, flat: map<Tag, Info>, stack: seq<Frame>)

  const EMPTY := State([], map[], [])

  function Tags(stack: seq<Frame>): (p: Path)
    ensures |p| == |stack|
  {
    seq(|stack|, i requires 0 <= i < |stack| => stack[i].tag)
  }

  function Position(tree: seq<Entry>, p: Path): (i: nat)
    ensures i <= |tree|
    ensures i < |tree| ==> tree[i].path == p
    ensures forall j :: 0 <= j < i ==> tree[j].path != p
  {
    if tree == [] then 0
    else
      var i := Position(tree[..|tree| - 1], p);
      if i < |tree| - 1 || tree[|tree| - 1].path == p then i else |tree|
  }

  /** The constructor of Profiling. */
  function Enter(st: State, tag: Tag, time: real): State {
    var p := Tags(st.stack) + [tag];
    State(if Position(st.tree, p) < |st.tree| then st.tree else st.tree + [Entry(p, NO_INFO)],
          st.flat, st.stack + [Frame(tag, time)])
  }

  function FlatInfo(flat: map<Tag, Info>, tag: Tag): Info {
    if tag in flat then flat[tag] else NO_INFO
  }

  /** The destructor of Profiling, for the innermost scope. */
  function Leave(st: State, time: real): State
    requires st.stack != [] && Position(st.tree, Tags(st.stack)) < |st.tree|
  {
    var n := |st.stack| - 1;
    var f, rest := st.stack[n], st.stack[..n];
    var delta, i := time - f.start, Position(st.tree, Tags(st.stack));
    State(st.tree[i := Entry(st.tree[i].path, Taken(st.tree[i].info, delta, true))],
          st.flat[f.tag := Taken(FlatInfo(st.flat, f.tag), delta, f.tag !in Tags(rest))],
          rest)
  }

  // ---------- Sums over the call tree ----------

  /** How often scopes with a tag ended, over all nodes of the call tree with that tag. */
  function CountOf(tree: seq<Entry>, tag: Tag): nat {
    if tree == [] then 0
    else
      var e := tree[|tree| - 1];
      CountOf(tree[..|tree| - 1], tag) + if EndsIn(e.path, tag) then e.info.count else 0
  }

  predicate EndsIn(p: Path, tag: Tag) {
    p != [] && p[|p| - 1] == tag
  }

  /** No ancestor of the node has the same tag. */
  predicate Outermost(p: Path) {
    p != [] && p[|p| - 1] !in p[..|p| - 1]
  }

  /** The time in nodes with a tag that have no ancestor with the same tag. */
  function TotalOf(tree: seq<Entry>, tag: Tag): real {
    if tree == [] then 0.0
    else
      var e := tree[|tree| - 1];
      TotalOf(tree[..|tree| - 1], tag) + if EndsIn(e.path, tag) && Outermost(e.path) then e.info.total else 0.0
  }

  function Max(x: real, y: real): real { if x < y then y else x }

  function Min(x: real, y: real): real { if x > y then y else x }

  /** The longest and the shortest scope with a tag, over all nodes with that tag. */
  function LongestOf(tree: seq<Entry>, tag: Tag): real {
    if tree == [] then -FLT_MAX
    else
      var e := tree[|tree| - 1];
      Max(LongestOf(tree[..|tree| - 1], tag), if EndsIn(e.path, tag) then e.info.longest else -FLT_MAX)
  }

  function ShortestOf(tree: seq<Entry>, tag: Tag): real {
    if tree == [] then FLT_MAX
    else
      var e := tree[|tree| - 1];
      Min(ShortestOf(tree[..|tree| - 1], tag), if EndsIn(e.path, tag) then e.info.shortest else FLT_MAX)
  }

  function Summary(tree: seq<Entry>, tag: Tag): Info {
    Info(CountOf(tree, tag), TotalOf(tree, tag), LongestOf(tree, tag), ShortestOf(tree, tag))
  }

  predicate IsChild(q: Path, p: Path) {
    |q| == |p| + 1 && q[..|p|] == p
  }

  /** The time spent below a node so far, with the time in scopes that are still open at `now`. */
  function Below(tree: seq<Entry>, p: Path, stack: seq<Frame>, now: real): real {
    if tree == [] then 0.0
    else
      var e := tree[|tree| - 1];
      Below(tree[..|tree| - 1], p, stack, now) + if IsChild(e.path, p) then Spent(e, stack, now) else 0.0
  }

  /** The time spent in a node so far. */
  function Spent(e: Entry, stack: seq<Frame>, now: real): real {
    e.info.total + Open(e.path, stack, now)
  }

  predicate Active(p: Path, stack: seq<Frame>) {
    0 < |p| <= |stack| && p == Tags(stack)[..|p|]
  }

  function Open(p: Path, stack: seq<Frame>, now: real): real {
    if Active(p, stack) then now - stack[|p| - 1].start else 0.0
  }

  // ---------- The invariant ----------

  ghost predicate Distinct(tree: seq<Entry>) {
    forall i, j :: 0 <= i < j < |tree| ==> tree[i].path != tree[j].path
  }

  predicate Has(tree: seq<Entry>, p: Path) {
    Position(tree, p) < |tree|
  }

  /** The call tree has a node for every open scope. */
  ghost predicate StackLinked(tree: seq<Entry>, stack: seq<Frame>) {
    forall n :: 0 < n <= |stack| ==> Has(tree, Tags(stack)[..n])
  }

  /** It has a parent for every node. */
  ghost predicate ParentsLinked(tree: seq<Entry>) {
    forall i :: 0 <= i < |tree| ==> tree[i].path != [] && (|tree[i].path| > 1 ==> Has(tree, Parent(tree[i].path)))
  }

  function Parent(p: Path): Path
    requires p != []
  {
    p[..|p| - 1]
  }

  ghost predicate Linked(st: State) {
    StackLinked(st.tree, st.stack) && ParentsLinked(st.tree)
  }

  /** The flat summary agrees with the call tree. */
  ghost predicate Summed(st: State) {
    forall tag :: FlatInfo(st.flat, tag) == Summary(st.tree, tag)
  }

  /** The children of a node took no more time than the node. */
  ghost predicate Nested(st: State, now: real) {
    forall i :: 0 <= i < |st.tree| ==> Below(st.tree, st.tree[i].path, st.stack, now) <= Spent(st.tree[i], st.stack,
                                                                                               now)
  }

  /** Scopes started in order, at or before `now`. */
  ghost predicate Clocked(st: State, now: real) {
    && (forall i :: 0 <= i < |st.stack| ==> st.stack[i].start <= now)
    && (forall i, j :: 0 <= i < j < |st.stack| ==> st.stack[i].start <= st.stack[j].start)
  }

  ghost predicate Inv(st: State, now: real) {
    Distinct(st.tree) && Linked(st) && Summed(st) && Nested(st, now) && Clocked(st, now)
  }

  // ---------- Changing the call tree ----------

  lemma {:induction false} SummaryUpdate(tree: seq<Entry>, i: nat, delta: real, tag: Tag)
    requires i < |tree|
    ensures var tree' := tree[i := Entry(tree[i].path, Taken(tree[i].info, delta, true))];
            Summary(tree', tag) ==
            if EndsIn(tree[i].path, tag) then Taken(Summary(tree, tag), delta, Outermost(tree[i].path))
            else Summary(tree, tag)
  {
    var n := |tree| - 1;
    var tree' := tree[i := Entry(tree[i].path, Taken(tree[i].info, delta, true))];
    if i < n {
      assert tree'[..n] == tree[..n][i := Entry(tree[i].path, Taken(tree[i].info, delta, true))];
      SummaryUpdate(tree[..n], i, delta, tag);
    } else {
      assert tree'[..n] == tree[..n];
    }
  }

  lemma SummaryAppend(tree: seq<Entry>, p: Path, tag: Tag)
    ensures Summary(tree + [Entry(p, NO_INFO)], tag) == Summary(tree, tag)
  {
    assert (tree + [Entry(p, NO_INFO)])[..|tree|] == tree;
    LongestBounds(tree, tag);
  }

  lemma {:induction false} LongestBounds(tree: seq<Entry>, tag: Tag)
    ensures LongestOf(tree, tag) >= -FLT_MAX && ShortestOf(tree, tag) <= FLT_MAX
  {
    if tree != [] { LongestBounds(tree[..|tree| - 1], tag); }
  }

  lemma {:induction false} BelowSame(tree: seq<Entry>, tree': seq<Entry>, p: Path, stack: seq<Frame>,
                                     stack': seq<Frame>, now: real)
    requires |tree| == |tree'|
    requires forall j :: 0 <= j < |tree| ==>
               tree[j].path == tree'[j].path && Spent(tree[j], stack, now) == Spent(tree'[j], stack', now)
    ensures Below(tree, p, stack, now) == Below(tree', p, stack', now)
  {
    if tree != [] { BelowSame(tree[..|tree| - 1], tree'[..|tree| - 1], p, stack, stack', now); }
  }

  lemma {:induction false} NoneBelow(tree: seq<Entry>, p: Path, stack: seq<Frame>, now: real)
    requires forall j :: 0 <= j < |tree| ==> !IsChild(tree[j].path, p)
    ensures Below(tree, p, stack, now) == 0.0
  {
    if tree != [] { NoneBelow(tree[..|tree| - 1], p, stack, now); }
  }

  lemma {:induction false} PositionAppend(tree: seq<Entry>, e: Entry, p: Path)
    ensures Position(tree + [e], p) == if Position(tree, p) < |tree| then Position(tree, p)
                                       else if e.path == p then |tree| else |tree| + 1
  {
    assert (tree + [e])[..|tree|] == tree;
  }

  lemma {:induction false} PositionSame(tree: seq<Entry>, tree': seq<Entry>, p: Path)
    requires |tree| == |tree'| && forall j :: 0 <= j < |tree| ==> tree[j].path == tree'[j].path
    ensures Position(tree, p) == Position(tree', p)
  {
    if tree != [] { PositionSame(tree[..|tree| - 1], tree'[..|tree| - 1], p); }
  }

  // ---------- Time passes ----------

  /** At most one child of a node is open, and only if the node itself is. */
  lemma {:induction false} BelowAdvance(tree: seq<Entry>, p: Path, stack: seq<Frame>, now: real, now': real)
    requires Distinct(tree) && p != [] && now <= now'
    ensures Below(tree, p, stack, now') <= Below(tree, p, stack, now) + (if Active(p, stack) then now' - now else 0.0)
    ensures (forall j :: 0 <= j < |tree| && IsChild(tree[j].path, p) ==> !Active(tree[j].path, stack)) ==>
              Below(tree, p, stack, now') == Below(tree, p, stack, now)
  {
    if tree != [] {
      var n := |tree| - 1;
      var e := tree[n];
      BelowAdvance(tree[..n], p, stack, now, now');
      if IsChild(e.path, p) && Active(e.path, stack) {
        ActiveParent(e.path, p, stack);
        forall j | 0 <= j < n && IsChild(tree[j].path, p)
          ensures !Active(tree[j].path, stack)
        {
          assert tree[j].path != e.path;
        }
      }
    }
  }

  lemma ActiveParent(q: Path, p: Path, stack: seq<Frame>)
    requires p != [] && IsChild(q, p) && Active(q, stack)
    ensures Active(p, stack)
  {
    assert p == Tags(stack)[..|q|][..|p|];
    assert p == Tags(stack)[..|p|];
  }

  lemma Advance(st: State, now: real, now': real)
    requires Inv(st, now) && now <= now'
    ensures Inv(st, now')
  {
    forall i | 0 <= i < |st.tree|
      ensures Below(st.tree, st.tree[i].path, st.stack, now') <= Spent(st.tree[i], st.stack, now')
    {
      BelowAdvance(st.tree, st.tree[i].path, st.stack, now, now');
    }
  }

  // ---------- Entering a scope ----------

  /** What entering a scope does to the call tree. */
  function Grown(tree: seq<Entry>, p: Path): seq<Entry> {
    if Position(tree, p) < |tree| then tree else tree + [Entry(p, NO_INFO)]
  }

  lemma TagsPush(stack: seq<Frame>, f: Frame)
    ensures Tags(stack + [f]) == Tags(stack) + [f.tag]
    ensures forall n :: 0 <= n <= |stack| ==> Tags(stack + [f])[..n] == Tags(stack)[..n]
  {
  }

  /** A scope that was just entered takes no time yet. */
  lemma SpentPush(e: Entry, stack: seq<Frame>, f: Frame)
    ensures Spent(e, stack + [f], f.start) == Spent(e, stack, f.start)
  {
    TagsPush(stack, f);
    if |e.path| == |stack| + 1 {
      assert Tags(stack + [f])[..|e.path|] == Tags(stack + [f]);
    }
  }

  lemma HasGrown(tree: seq<Entry>, p: Path, q: Path)
    ensures Has(Grown(tree, p), q) <==> Has(tree, q) || q == p
  {
    PositionAppend(tree, Entry(p, NO_INFO), q);
  }

  lemma StackGrown(tree: seq<Entry>, stack: seq<Frame>, f: Frame)
    requires StackLinked(tree, stack)
    ensures StackLinked(Grown(tree, Tags(stack) + [f.tag]), stack + [f])
  {
    var p := Tags(stack) + [f.tag];
    TagsPush(stack, f);
    forall n | 0 < n <= |stack| + 1
      ensures Has(Grown(tree, p), Tags(stack + [f])[..n])
    {
      HasGrown(tree, p, Tags(stack + [f])[..n]);
      if n == |p| { assert p[..n] == p; }
    }
  }

  lemma ParentsGrown(tree: seq<Entry>, p: Path)
    requires ParentsLinked(tree) && Distinct(tree) && p != [] && (|p| > 1 ==> Has(tree, Parent(p)))
    ensures ParentsLinked(Grown(tree, p)) && Distinct(Grown(tree, p))
  {
    hide Position;
    forall q
      ensures Has(tree, q) ==> Has(Grown(tree, p), q)
    {
      HasGrown(tree, p, q);
    }
  }

  lemma GrownLinked(st: State, f: Frame)
    requires Linked(st) && Distinct(st.tree)
    ensures var p := Tags(st.stack) + [f.tag];
            Linked(State(Grown(st.tree, p), st.flat, st.stack + [f])) && Distinct(Grown(st.tree, p))
  {
    var p := Tags(st.stack) + [f.tag];
    StackGrown(st.tree, st.stack, f);
    assert Parent(p) == Tags(st.stack) == Tags(st.stack)[..|st.stack|];
    ParentsGrown(st.tree, p);
  }

  lemma GrownNested(st: State, f: Frame)
    requires Linked(st) && Nested(st, f.start)
    ensures Nested(State(Grown(st.tree, Tags(st.stack) + [f.tag]), st.flat, st.stack + [f]), f.start)
  {
    var p, stack := Tags(st.stack) + [f.tag], st.stack + [f];
    var tree := Grown(st.tree, p);
    TagsPush(st.stack, f);
    forall i | 0 <= i < |tree|
      ensures Below(tree, tree[i].path, stack, f.start) <= Spent(tree[i], stack, f.start)
    {
      SpentPush(tree[i], st.stack, f);
      forall j | 0 <= j < |st.tree|
        ensures Spent(st.tree[j], st.stack, f.start) == Spent(st.tree[j], stack, f.start)
      {
        SpentPush(st.tree[j], st.stack, f);
      }
      BelowSame(st.tree, st.tree, tree[i].path, st.stack, stack, f.start);
      if tree != st.tree { NewBelow(st, p, tree[i].path, stack, f.start); }
    }
  }

  lemma ParentOf(q: Path, p: Path)
    requires q != []
    ensures IsChild(q, p) ==> q[..|q| - 1] == p
  {
  }

  /** A new node has no children, and no time was spent in it. */
  lemma NewBelow(st: State, p: Path, q: Path, stack: seq<Frame>, now: real)
    requires Linked(st) && Position(st.tree, p) == |st.tree| && p != [] && |stack| == |p| && Tags(stack) == p
    requires stack[|p| - 1].start == now
    ensures Below(st.tree + [Entry(p, NO_INFO)], q, stack, now) == Below(st.tree, q, stack, now)
    ensures Below(st.tree, p, stack, now) == 0.0
  {
    assert (st.tree + [Entry(p, NO_INFO)])[..|st.tree|] == st.tree;
    forall j | 0 <= j < |st.tree|
      ensures !IsChild(st.tree[j].path, p)
    {
      ParentOf(st.tree[j].path, p);
    }
    NoneBelow(st.tree, p, stack, now);
  }

  lemma InvParts(st: State, now: real)
    requires Inv(st, now)
    ensures Distinct(st.tree) && Linked(st) && Summed(st) && Nested(st, now) && Clocked(st, now)
  {
  }

  lemma EnterInv(st: State, tag: Tag, now: real, time: real)
    requires Inv(st, now) && now <= time
    ensures Inv(Enter(st, tag, time), time)
  {
    hide Distinct, Linked, Nested;
    Advance(st, now, time);
    InvParts(st, time);
    var f := Frame(tag, time);
    GrownLinked(st, f);
    GrownNested(st, f);
    GrownSummed(st, Tags(st.stack) + [tag]);
  }

  lemma GrownSummed(st: State, p: Path)
    requires Summed(st)
    ensures forall t :: FlatInfo(st.flat, t) == Summary(Grown(st.tree, p), t)
  {
    forall t
      ensures FlatInfo(st.flat, t) == Summary(Grown(st.tree, p), t)
    {
      SummaryAppend(st.tree, p, t);
    }
  }

  // ---------- Leaving a scope ----------

  lemma TagsPop(stack: seq<Frame>)
    requires stack != []
    ensures Tags(stack) == Tags(stack[..|stack| - 1]) + [stack[|stack| - 1].tag]
    ensures forall n :: 0 <= n < |stack| ==> Tags(stack[..|stack| - 1])[..n] == Tags(stack)[..n]
  {
  }

  /** The time of the scope that ends is booked in its node instead of being open: nothing is lost or counted twice. */
  lemma SpentPop(st: State, time: real, j: nat)
    requires Distinct(st.tree) && st.stack != [] && Position(st.tree, Tags(st.stack)) < |st.tree| && j < |st.tree|
    ensures var st' := Leave(st, time);
            st'.tree[j].path == st.tree[j].path
              && Spent(st'.tree[j], st'.stack, time) == Spent(st.tree[j], st.stack, time)
  {
    TagsPop(st.stack);
    var p := Tags(st.stack);
    assert p[..|p|] == p;
    if st.tree[j].path != p && |st.tree[j].path| < |st.stack| {
      assert Active(st.tree[j].path, st.stack) == Active(st.tree[j].path, st.stack[..|st.stack| - 1]);
    }
  }

  lemma LeaveNested(st: State, time: real)
    requires Distinct(st.tree) && st.stack != [] && Position(st.tree, Tags(st.stack)) < |st.tree| && Nested(st, time)
    ensures Nested(Leave(st, time), time) && Distinct(Leave(st, time).tree)
  {
    var st' := Leave(st, time);
    forall i | 0 <= i < |st.tree|
      ensures Below(st'.tree, st'.tree[i].path, st'.stack, time) <= Spent(st'.tree[i], st'.stack, time)
    {
      SpentPop(st, time, i);
      forall j | 0 <= j < |st.tree|
        ensures st.tree[j].path == st'.tree[j].path
            && Spent(st.tree[j], st.stack, time) == Spent(st'.tree[j], st'.stack, time)
      {
        SpentPop(st, time, j);
      }
      BelowSame(st.tree, st'.tree, st.tree[i].path, st.stack, st'.stack, time);
    }
  }

  lemma LeaveSummed(st: State, time: real)
    requires Summed(st) && st.stack != [] && Position(st.tree, Tags(st.stack)) < |st.tree|
    ensures Summed(Leave(st, time))
  {
    hide Summary, Taken, Position;
    var st' := Leave(st, time);
    var i, f := Position(st.tree, Tags(st.stack)), st.stack[|st.stack| - 1];
    TagsPop(st.stack);
    var p := Tags(st.stack);
    assert p[..|p| - 1] == Tags(st.stack[..|st.stack| - 1]);
    forall t
      ensures FlatInfo(st'.flat, t) == Summary(st'.tree, t)
    {
      SummaryUpdate(st.tree, i, time - f.start, t);
    }
  }

  lemma HasSame(tree: seq<Entry>, tree': seq<Entry>)
    requires |tree| == |tree'| && forall j :: 0 <= j < |tree| ==> tree[j].path == tree'[j].path
    ensures forall p :: Has(tree, p) == Has(tree', p)
    ensures ParentsLinked(tree) ==> ParentsLinked(tree')
  {
    forall p
      ensures Has(tree, p) == Has(tree', p)
    {
      PositionSame(tree, tree', p);
    }
  }

  lemma StackPop(tree: seq<Entry>, stack: seq<Frame>)
    requires StackLinked(tree, stack) && stack != []
    ensures Has(tree, Tags(stack)) && StackLinked(tree, stack[..|stack| - 1])
  {
    assert Tags(stack)[..|stack|] == Tags(stack);
    var rest := stack[..|stack| - 1];
    forall n | 0 < n <= |rest|
      ensures Has(tree, Tags(rest)[..n])
    {
      assert Tags(rest)[..n] == Tags(stack)[..n];
    }
  }

  lemma StackSame(tree: seq<Entry>, tree': seq<Entry>, stack: seq<Frame>)
    requires StackLinked(tree, stack) && forall p :: Has(tree, p) == Has(tree', p)
    ensures StackLinked(tree', stack)
  {
  }

  lemma LeaveLinked(st: State, time: real)
    requires Linked(st) && st.stack != []
    ensures Position(st.tree, Tags(st.stack)) < |st.tree| && Linked(Leave(st, time))
  {
    hide StackLinked, ParentsLinked, Taken;
    StackPop(st.tree, st.stack);
    var st' := Leave(st, time);
    HasSame(st.tree, st'.tree);
    StackSame(st.tree, st'.tree, st'.stack);
  }

  lemma LeaveInv(st: State, now: real, time: real)
    requires Inv(st, now) && now <= time && st.stack != []
    ensures Position(st.tree, Tags(st.stack)) < |st.tree| && Inv(Leave(st, time), time)
  {
    Advance(st, now, time);
    LeaveLinked(st, time);
    LeaveNested(st, time);
    LeaveSummed(st, time);
  }

  // ---------- Runs ----------

  datatype Event = EnterEvent(tag: Tag, time: real) | LeaveEvent(time: real)

  /** The events are well nested and the clock does not run backwards. */
  ghost predicate Legal(events: seq<Event>) {
    && (forall i, j :: 0 <= i < j < |events| ==> events[i].time <= events[j].time)
    && (forall n :: 0 <= n < |events| ==> events[n].LeaveEvent? ==> Depth(events[..n]) > 0)
  }

  function Depth(events: seq<Event>): int {
    if events == [] then 0 else Depth(events[..|events| - 1]) + if events[|events| - 1].EnterEvent? then 1 else -1
  }

  function Run(events: seq<Event>): (st: State) {
    if events == [] then EMPTY
    else
      var before := Run(events[..|events| - 1]);
      match events[|events| - 1]
      case EnterEvent(tag, time) => Enter(before, tag, time)
      case LeaveEvent(time) =>
        if before.stack != [] && Position(before.tree, Tags(before.stack)) < |before.tree| then Leave(before, time)
          else before
  }

  function Now(events: seq<Event>): real {
    if events == [] then 0.0 else events[|events| - 1].time
  }

  lemma LegalPrefix(events: seq<Event>)
    requires Legal(events) && events != []
    ensures Legal(events[..|events| - 1])
  {
    var before := events[..|events| - 1];
    forall n | 0 <= n < |before|
      ensures before[n].LeaveEvent? ==> Depth(before[..n]) > 0
    {
      assert before[..n] == events[..n];
    }
  }

  lemma {:induction false} RunInv(events: seq<Event>)
    requires Legal(events)
    ensures Inv(Run(events), Now(events)) || events == []
    ensures Distinct(Run(events).tree) && Linked(Run(events)) && Summed(Run(events))
        && |Run(events).stack| == Depth(events)
  {
    if events != [] {
      var before, e := events[..|events| - 1], events[|events| - 1];
      LegalPrefix(events);
      RunInv(before);
      var now := if before == [] then e.time else Now(before);
      assert Inv(Run(before), now);
      match e {
        case EnterEvent(tag, time) => EnterInv(Run(before), tag, now, time);
        case LeaveEvent(time) =>
          assert events[..|events| - 1] == before;
          LeaveInv(Run(before), now, time);
      }
    }
  }

  // ---------- What a reader of the summary can rely on ----------

  /** The total time of the children of a node. */
  function ChildTotals(tree: seq<Entry>, p: Path): real {
    if tree == [] then 0.0
    else ChildTotals(tree[..|tree| - 1], p) + if IsChild(tree[|tree| - 1].path, p) then tree[|tree| - 1].info.total
      else 0.0
  }

  lemma {:induction false} BelowClosed(tree: seq<Entry>, p: Path, now: real)
    ensures Below(tree, p, [], now) == ChildTotals(tree, p)
  {
    if tree != [] { BelowClosed(tree[..|tree| - 1], p, now); }
  }

  /** After any well-nested run, even in the middle of scopes: the flat count, longest and shortest of a tag are those
      over all call-tree nodes with the tag, and its flat total is that of the nodes with no ancestor of the same tag.
   */
  lemma FlatIsSummary(events: seq<Event>, tag: Tag)
    requires Legal(events)
    ensures FlatInfo(Run(events).flat, tag) == Summary(Run(events).tree, tag)
  {
    RunInv(events);
  }

  /** When all scopes have ended, the children of a node took at most as much time as the node itself. */
  lemma ChildrenWithin(events: seq<Event>, i: nat)
    requires Legal(events) && Depth(events) == 0 && i < |Run(events).tree|
    ensures var e := Run(events).tree[i]; ChildTotals(Run(events).tree, e.path) <= e.info.total
  {
    RunInv(events);
    BelowClosed(Run(events).tree, Run(events).tree[i].path, Now(events));
  }
}
