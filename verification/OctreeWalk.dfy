/** The two traversals of Core/OctreeNode.cpp on the pool of node objects, proved against OctreeTraversal. */
module OctreeWalk {
  import opened OctreeTree
  import opened OctreePlacement
  import opened OctreeIndices
  import opened OctreeHeap
  import opened OctreeTraversal
  import opened Frustum
  import opened FrustumCulling

  /** The tree that a node index stands for in a pool. */
  ghost predicate Stands(recs: seq<Rec>, node: nat, t: Tree) {
    node == t.index && Shape(t) && Rep(recs, t)
  }

  lemma StandsKid(recs: seq<Rec>, node: nat, t: Tree, k: nat)
    requires Stands(recs, node, t) && k < 8
    ensures node == t.index < |recs| && recs[node] == RecOf(t) && |recs[node].children| == |t.kids| == 8
    ensures recs[node].children[k] == 0 <==> t.kids[k].None?
    ensures t.kids[k].Some? ==> Stands(recs, recs[node].children[k], t.kids[k].t)
  {
    assert t.kids[k] == t.kids[k];
  }

  /** The loop that adds the objects of a node which are not in the list yet. */
  method AppendMissing(before: seq<Obj>, more: seq<Obj>) returns (objs: seq<Obj>)
    ensures objs == AppendNew(before, more)
  {
    objs := before;
    for i := 0 to |more|
      invariant objs == AppendNew(before, more[..i])
    {
      assert more[..i + 1][..i] == more[..i];
      if more[i] !in objs { objs := objs + [more[i]]; }
    }
    assert more[..|more|] == more;
  }

  lemma JoinAssoc(a: Report, b: Report, c: Report)
    ensures Join(Join(a, b), c) == Join(a, Join(b, c))
  {
    assert (a.nodes + b.nodes) + c.nodes == a.nodes + (b.nodes + c.nodes);
    assert (a.objs + b.objs) + c.objs == a.objs + (b.objs + c.objs);
  }

  lemma JoinNothing(a: Report)
    ensures Join(NOTHING, a) == a == Join(a, NOTHING)
    ensures forall x {:trigger Report([x], [])} :: Join(a, Report([x], [])) == Report(a.nodes + [x], a.objs)
  {
  }

  /** The reports of a node, case by case. */
  function NodeReport(t: Tree, v: Verdict, below: Report): Report {
    if t.depth == 0 then (if v.Outside? then NOTHING else Report([t.index], t.objs))
    else if v.Partial? then Report([t.index] + below.nodes, below.objs)
    else if v.Full? then Report([t.index], t.objs)
    else NOTHING
  }

  lemma ReportForms(t: Tree, f: Rec -> Verdict, override: Verdict)
    ensures Recursive(t, f, override) == NodeReport(t, Ask(t, f, override), RecursiveKids(t.kids, f))
    ensures Stacked(t, f, override) == NodeReport(t, Ask(t, f, override), StackedKids(t.kids, f, override))
  {
    JoinNothing(Own(t, Ask(t, f, override)));
  }

  /** OctreeNode::Traverse: appends to the two result vectors. */
  method Traverse(octree: Octree, node: nat, f: Rec -> Verdict, override: Verdict, nodes0: seq<nat>, objs0: seq<Obj>,
                  ghost t: Tree)
    returns (nodes: seq<nat>, objs: seq<Obj>)
    requires Stands(octree.Recs(), node, t)
    ensures nodes == nodes0 + Recursive(t, f, override).nodes
    ensures objs == AppendNew(objs0, Recursive(t, f, override).objs)
    decreases t
  {
    hide Stands, Recursive, RecursiveKids, Stacked, StackedKids, AppendNew;
    StandsKid(octree.Recs(), node, t, 0);
    ReportForms(t, f, override);
    NoRecursiveKids(t.kids, f, objs0);
    assert nodes0 + [] == nodes0;
    var rec := octree.pool[node].Value();
    var result := if override.Unknown? then f(rec) else override;
    nodes, objs := nodes0, objs0;
    if rec.depth == 0 {
      if !result.Outside? {
        nodes := nodes + [node];
        objs := AppendMissing(objs, rec.objects);
      }
    } else if result.Partial? {
      nodes := nodes + [node];
      nodes, objs := TraverseKids(octree, node, f, nodes, objs, t);
      assert nodes == nodes0 + ([node] + RecursiveKids(t.kids, f).nodes);
    } else if result.Full? {
      nodes := nodes + [node];
      objs := AppendMissing(objs, rec.objects);
    }
  }

  /** One more child in the loop of Traverse. */
  lemma RecursiveKidsStep(kids: seq<Kid>, k: nat, f: Rec -> Verdict, objs0: seq<Obj>)
    requires k < |kids|
    ensures RecursiveKids(kids[..k + 1], f) == Join(RecursiveKids(kids[..k], f), RecursiveKid(kids[k], f))
    ensures AppendNew(objs0, RecursiveKids(kids[..k + 1], f).objs)
         == AppendNew(AppendNew(objs0, RecursiveKids(kids[..k], f).objs), RecursiveKid(kids[k], f).objs)
    ensures kids[k].None? ==> RecursiveKids(kids[..k + 1], f) == RecursiveKids(kids[..k], f)
  {
    assert kids[..k + 1][..k] == kids[..k];
    AppendNewJoin(objs0, RecursiveKids(kids[..k], f).objs, RecursiveKid(kids[k], f).objs);
    JoinNothing(RecursiveKids(kids[..k], f));
  }

  lemma NoRecursiveKids(kids: seq<Kid>, f: Rec -> Verdict, objs0: seq<Obj>)
    ensures RecursiveKids(kids[..0], f) == NOTHING && AppendNew(objs0, NOTHING.objs) == objs0
  {
  }

  /** The loop over the children in Traverse. */
  method TraverseKids(octree: Octree, node: nat, f: Rec -> Verdict, nodes0: seq<nat>, objs0: seq<Obj>, ghost t: Tree)
    returns (nodes: seq<nat>, objs: seq<Obj>)
    requires Stands(octree.Recs(), node, t)
    ensures nodes == nodes0 + RecursiveKids(t.kids, f).nodes
    ensures objs == AppendNew(objs0, RecursiveKids(t.kids, f).objs)
    decreases t, 0
  {
    hide Stands, RecursiveKids, AppendNew, Recursive;
    StandsKid(octree.Recs(), node, t, 0);
    NoRecursiveKids(t.kids, f, objs0);
    nodes, objs := nodes0, objs0;
    for k := 0 to 8
      invariant nodes == nodes0 + RecursiveKids(t.kids[..k], f).nodes
      invariant objs == AppendNew(objs0, RecursiveKids(t.kids[..k], f).objs)
    {
      StandsKid(octree.Recs(), node, t, k);
      RecursiveKidsStep(t.kids, k, f, objs0);
      var child := octree.pool[node].children[k];
      if 0 < child {
        nodes, objs := Traverse(octree, child, f, Unknown, nodes, objs, t.kids[k].t);
      }
    }
    assert t.kids[..8] == t.kids;
  }

  // ---------- The explicit stack ----------

  /** What is still to be reported for the nodes on the stack. */
  ghost function Pending(stack: seq<Tree>, f: Rec -> Verdict, override: Verdict): Report {
    if stack == [] then NOTHING
    else Join(Stacked(stack[|stack| - 1], f, override), Pending(stack[..|stack| - 1], f, override))
  }

  /** How many nodes there are below the nodes on the stack, themselves included. */
  ghost function StackSize(stack: seq<Tree>): nat {
    if stack == [] then 0 else StackSize(stack[..|stack| - 1]) + Size(stack[|stack| - 1])
  }

  ghost predicate AllStand(recs: seq<Rec>, stack: seq<nat>, trees: seq<Tree>) {
    |stack| == |trees| && forall i :: 0 <= i < |stack| ==> Stands(recs, stack[i], trees[i])
  }

  lemma PushPending(stack: seq<Tree>, t: Tree, f: Rec -> Verdict, override: Verdict)
    ensures Pending(stack + [t], f, override) == Join(Stacked(t, f, override), Pending(stack, f, override))
    ensures StackSize(stack + [t]) == StackSize(stack) + Size(t)
  {
    assert (stack + [t])[..|stack|] == stack;
  }

  /** The children before child `k` of a node are on the stack, above what was there before. */
  ghost predicate KidsPushed(t: Tree, k: nat, before: seq<Tree>, stack: seq<Tree>, f: Rec -> Verdict,
                             override: Verdict) {
    && k <= |t.kids| && StackSize(stack) == StackSize(before) + KidsSize(t.kids[..k])
    && Pending(stack, f, override) == Join(StackedKids(t.kids[..k], f, override), Pending(before, f, override))
  }

  lemma NonePushed(t: Tree, before: seq<Tree>, f: Rec -> Verdict, override: Verdict)
    ensures KidsPushed(t, 0, before, before, f, override)
  {
    JoinNothing(Pending(before, f, override));
  }

  lemma StackedKidsStep(kids: seq<Kid>, k: nat, f: Rec -> Verdict, override: Verdict)
    requires k < |kids|
    ensures StackedKids(kids[..k + 1], f, override)
         == Join(StackedKid(kids[k], f, override), StackedKids(kids[..k], f, override))
    ensures KidsSize(kids[..k + 1]) == KidsSize(kids[..k]) + KidSize(kids[k])
  {
    hide StackedKid, KidSize, Join;
    var all := kids[..k + 1];
    assert all[..k] == kids[..k] && all[k] == kids[k] && |all| == k + 1;
  }

  lemma PushKid(t: Tree, k: nat, before: seq<Tree>, stack: seq<Tree>, f: Rec -> Verdict, override: Verdict)
    requires k < |t.kids| && KidsPushed(t, k, before, stack, f, override)
    ensures var stack' := if t.kids[k].Some? then stack + [t.kids[k].t] else stack;
            KidsPushed(t, k + 1, before, stack', f, override)
  {
    hide Stacked, StackedKids, Pending, StackSize, KidsSize, Size, Join;
    StackedKidsStep(t.kids, k, f, override);
    var below, rest := StackedKids(t.kids[..k], f, override), Pending(before, f, override);
    JoinNothing(below);
    if t.kids[k].Some? {
      PushPending(stack, t.kids[k].t, f, override);
      JoinAssoc(Stacked(t.kids[k].t, f, override), below, rest);
    }
  }

  lemma PushStands(recs: seq<Rec>, stack: seq<nat>, trees: seq<Tree>, node: nat, t: Tree)
    requires AllStand(recs, stack, trees) && Stands(recs, node, t)
    ensures AllStand(recs, stack + [node], trees + [t])
  {
  }

  lemma PopStands(recs: seq<Rec>, stack: seq<nat>, trees: seq<Tree>)
    requires AllStand(recs, stack, trees) && stack != []
    ensures |trees| == |stack| && Stands(recs, stack[|stack| - 1], trees[|stack| - 1])
    ensures AllStand(recs, stack[..|stack| - 1], trees[..|stack| - 1])
  {
  }

  /** The loop that stacks the children of a node. */
  method PushKids(octree: Octree, node: nat, stack0: seq<nat>, ghost t: Tree, ghost trees0: seq<Tree>,
                  ghost f: Rec -> Verdict, ghost override: Verdict)
    returns (stack: seq<nat>, ghost trees: seq<Tree>)
    requires Stands(octree.Recs(), node, t) && AllStand(octree.Recs(), stack0, trees0)
    ensures AllStand(octree.Recs(), stack, trees) && KidsPushed(t, |t.kids|, trees0, trees, f, override)
  {
    hide AllStand, Stands, KidsPushed;
    StandsKid(octree.Recs(), node, t, 0);
    NonePushed(t, trees0, f, override);
    stack, trees := stack0, trees0;
    for k := 0 to 8
      invariant AllStand(octree.Recs(), stack, trees) && KidsPushed(t, k, trees0, trees, f, override)
    {
      StandsKid(octree.Recs(), node, t, k);
      PushKid(t, k, trees0, trees, f, override);
      var child := octree.pool[node].children[k];
      if 0 < child {
        PushStands(octree.Recs(), stack, trees, child, t.kids[k].t);
        stack, trees := stack + [child], trees + [t.kids[k].t];
      }
    }
  }

  /** Reported so far and still pending make up the whole report. */
  ghost predicate Split(start: Report, whole: Report, done: Report, stack: seq<Tree>, f: Rec -> Verdict,
                        override: Verdict) {
    Join(start, whole) == Join(done, Pending(stack, f, override))
  }

  lemma SplitStart(start: Report, t: Tree, f: Rec -> Verdict, override: Verdict)
    ensures Split(start, Stacked(t, f, override), start, [t], f, override)
  {
    PushPending([], t, f, override);
    assert [] + [t] == [t];
    assert Join(Stacked(t, f, override), NOTHING) == Stacked(t, f, override);
  }

  /** Popping a node whose children are not visited. */
  lemma SplitPop(start: Report, whole: Report, done: Report, stack: seq<Tree>, f: Rec -> Verdict, override: Verdict)
    requires stack != [] && Split(start, whole, done, stack, f, override)
    ensures var t := stack[|stack| - 1];
            !Descends(t, Ask(t, f, override)) ==>
              Split(start, whole, Join(done, NodeReport(t, Ask(t, f, override), NOTHING)), stack[..|stack| - 1], f,
                    override)
    ensures StackSize(stack[..|stack| - 1]) < StackSize(stack)
  {
    var t := stack[|stack| - 1];
    ReportForms(t, f, override);
    var v, rest := Ask(t, f, override), Pending(stack[..|stack| - 1], f, override);
    JoinAssoc(done, Stacked(t, f, override), rest);
  }

  /** Popping a node and pushing its children. */
  lemma SplitDescend(start: Report, whole: Report, done: Report, stack: seq<Tree>, stack': seq<Tree>, f: Rec -> Verdict,
                     override: Verdict)
    requires stack != [] && Split(start, whole, done, stack, f, override)
    requires var t := stack[|stack| - 1];
             Descends(t, Ask(t, f, override)) && KidsPushed(t, |t.kids|, stack[..|stack| - 1], stack', f, override)
    ensures Split(start, whole, Join(done, Report([stack[|stack| - 1].index], [])), stack', f, override)
    ensures StackSize(stack') < StackSize(stack)
  {
    var t := stack[|stack| - 1];
    assert t.kids[..|t.kids|] == t.kids;
    var rest, own := Pending(stack[..|stack| - 1], f, override), Report([t.index], []);
    var below := StackedKids(t.kids, f, override);
    JoinAssoc(own, below, rest);
    JoinAssoc(done, own, Join(below, rest));
  }

  /** OctreeNode::TraverseNoRecursion: appends to the two result vectors. */
  method TraverseNoRecursion(octree: Octree, node: nat, f: Rec -> Verdict, override: Verdict, nodes0: seq<nat>,
                             objs0: seq<Obj>, ghost t: Tree)
    returns (nodes: seq<nat>, objs: seq<Obj>)
    requires Stands(octree.Recs(), node, t)
    ensures Report(nodes, objs) == Join(Report(nodes0, objs0), Stacked(t, f, override))
  {
    hide Stands, KidsPushed, Split, Stacked, Pending, StackSize;
    nodes, objs := nodes0, objs0;
    var stack: seq<nat> := [node];
    ghost var trees := [t];
    ghost var start, whole := Report(nodes, objs), Stacked(t, f, override);
    SplitStart(start, t, f, override);
    while stack != []
      invariant AllStand(octree.Recs(), stack, trees)
      invariant Split(start, whole, Report(nodes, objs), trees, f, override)
      decreases StackSize(trees)
    {
      ghost var before, done := trees, Report(nodes, objs);
      ghost var top := trees[|trees| - 1];
      PopStands(octree.Recs(), stack, trees);
      SplitPop(start, whole, done, before, f, override);
      JoinNothing(done);
      var current := stack[|stack| - 1];
      stack, trees := stack[..|stack| - 1], trees[..|trees| - 1];
      StandsKid(octree.Recs(), current, top, 0);
      var rec := octree.pool[current].Value();
      var result := if override.Unknown? then f(rec) else override;
      if rec.depth == 0 {
        if !result.Outside? { nodes, objs := nodes + [current], objs + rec.objects; }
      } else if result.Partial? {
        nodes := nodes + [current];
        stack, trees := PushKids(octree, current, stack, top, trees, f, override);
        SplitDescend(start, whole, done, before, trees, f, override);
      } else if result.Full? {
        nodes, objs := nodes + [current], objs + rec.objects;
      }
    }
    NothingPending(start, whole, Report(nodes, objs), f, override);
  }

  lemma NothingPending(start: Report, whole: Report, done: Report, f: Rec -> Verdict, override: Verdict)
    requires Split(start, whole, done, [], f, override)
    ensures done == Join(start, whole)
  {
  }

  // ---------- Queries on the whole octree ----------

  lemma {:induction false} StackedContents(t: Tree, f: Rec -> Verdict, S: set<Obj>, o: Obj)
    requires Shape(t) && Placed(t, S) && o in Stacked(t, f, Unknown).objs
    ensures o in S
    decreases t, 9
  {
    if Descends(t, f(RecOf(t))) {
      assert t.kids[..8] == t.kids;
      StackedKidsContents(t, 8, f, S, o);
    } else {
      assert o in t.objs;
    }
  }

  lemma {:induction false} StackedKidsContents(t: Tree, n: nat, f: Rec -> Verdict, S: set<Obj>, o: Obj)
    requires Shape(t) && t.depth > 0 && Placed(t, S) && n <= 8 && o in StackedKids(t.kids[..n], f, Unknown).objs
    ensures o in S
    decreases t, n
  {
    assert t.kids[..n][..n - 1] == t.kids[..n - 1];
    if o in StackedKid(t.kids[n - 1], f, Unknown).objs {
      assert KidPlaced(t, n - 1, S);
      StackedContents(t.kids[n - 1].t, f, S, o);
    } else {
      StackedKidsContents(t, n - 1, f, S, o);
    }
  }

  /** A node of a placed tree stands in the pool, and is placed itself. */
  lemma {:induction false} NodeStands(recs: seq<Rec>, t: Tree, S: set<Obj>, n: Tree, x: nat)
    requires Shape(t) && Rep(recs, t) && Placed(t, S) && IsNode(n, t)
    ensures Stands(recs, n.index, n) && Placed(n, S) && Occ(n, x) <= Occ(t, x)
    decreases t
  {
    if n != t {
      var i :| 0 <= i < |t.kids| && t.kids[i].Some? && IsNode(n, t.kids[i].t);
      assert KidPlaced(t, i, S);
      KidOccLess(t, i, x);
      NodeStands(recs, t.kids[i].t, S, n, x);
    }
  }

  /** The indices of the nodes of the octree differ. */
  lemma NodeOnce(octree: Octree, x: nat)
    requires octree.Valid()
    ensures Occ(octree.root, x) <= 1
  {
    var al := octree.Al();
    assert Used(al, x) == Occ(octree.root, x);
    assert Used(al, x) + Spare(al, x) == if x < al.count then 1 else 0;
  }

  /** Octree::Traverse from node `start` of the octree, where 0, the root, stands for none given as well:
      an unknown mode reports nothing; a known one appends the report of the node, no node in it twice
      and only objects of the octree.
   */
  method TraverseMode(octree: Octree, modes: map<int, Rec -> Verdict>, mode: int, nodes0: seq<nat>, objs0: seq<Obj>,
                      start: nat, ghost t: Tree)
    returns (nodes: seq<nat>, objs: seq<Obj>)
    requires octree.Valid() && IsNode(t, octree.root) && t.index == start
    ensures mode !in modes ==> nodes == nodes0 && objs == objs0
    ensures mode in modes ==> Report(nodes, objs) == Join(Report(nodes0, objs0), Stacked(t, modes[mode], Unknown))
    ensures nodes0 <= nodes && forall x: nat :: multiset(nodes[|nodes0|..])[x] <= 1
    ensures objs0 <= objs && forall o :: o in objs[|objs0|..] ==> o in octree.contents
  {
    nodes, objs := nodes0, objs0;
    if mode in modes {
      OkShape(Snapshot(octree.root, octree.Al()), octree.contents);
      NodeStands(octree.Recs(), octree.root, octree.contents, t, start);
      nodes, objs := TraverseNoRecursion(octree, start, modes[mode], Unknown, nodes, objs, t);
      assert nodes[|nodes0|..] == Stacked(t, modes[mode], Unknown).nodes;
      assert objs[|objs0|..] == Stacked(t, modes[mode], Unknown).objs;
      forall o | o in objs[|objs0|..]
        ensures o in octree.contents
      {
        StackedContents(t, modes[mode], octree.contents, o);
      }
      forall x: nat
        ensures multiset(nodes[|nodes0|..])[x] <= 1
      {
        ReportedOnce(t, modes[mode], Unknown, x);
        NodeStands(octree.Recs(), octree.root, octree.contents, t, x);
        NodeOnce(octree, x);
      }
    }
  }

  /** View culling: every object of the octree with a point in the root cell that the camera sees is reported. */
  method Cull(octree: Octree, camera: Camera, root3: real) returns (nodes: seq<nat>, objs: seq<Obj>)
    requires octree.Valid() && camera.Extracted() && root3 > 0.0 && root3 * root3 == 3.0
    ensures forall o, p ::
              o in octree.contents && o.box.Contains(p) && octree.root.Cell().Contains(p) && camera.Sees(p) ==>
                o in objs
    ensures forall o ::
              o in objs <==> o in octree.contents && exists path :: ShownAt(octree.root, camera, root3, path, o)
  {
    OkShape(Snapshot(octree.root, octree.Al()), octree.contents);
    nodes, objs := TraverseMode(octree, map[0 := Classify(camera, root3)], 0, [], [], 0, octree.root);
    forall o
      ensures o in objs <==> o in octree.contents && exists path :: ShownAt(octree.root, camera, root3, path, o)
    {
      CulledExactly(octree.root, octree.contents, camera, root3, o);
    }
    forall o, p | o in octree.contents && o.box.Contains(p) && octree.root.Cell().Contains(p) && camera.Sees(p)
      ensures o in objs
    {
      FrustumComplete(octree.root, octree.contents, camera, root3, o, p);
    }
  }
}
