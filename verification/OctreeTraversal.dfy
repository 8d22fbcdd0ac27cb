/** The two traversals of Core/OctreeNode.cpp on an octree value, for a classifier that depends on the node only. */
module OctreeTraversal {
  import opened Geometry
  import opened OctreeTree
  import opened OctreePlacement
  import opened OctreeIndices

  /** EOctreeTraverseResult */
  datatype Verdict = Unknown | Outside | Partial | Full

  /** The nodes and the object list entries that a traversal reports, in order. */
  datatype Report = Report(nodes: seq<nat>, objs: seq<Obj>)

  const NOTHING := Report([], [])

  function Join(a: Report, b: Report): Report {
    Report(a.nodes + b.nodes, a.objs + b.objs)
  }

  function Ask(t: Tree, f: Rec -> Verdict, override: Verdict): Verdict {
    if override.Unknown? then f(RecOf(t)) else override
  }

  /** What a node reports by itself. */
  function Own(t: Tree, v: Verdict): Report {
    if t.depth == 0 then (if v.Outside? then NOTHING else Report([t.index], t.objs))
    else if v.Partial? then Report([t.index], [])
    else if v.Full? then Report([t.index], t.objs)
    else NOTHING
  }

  predicate Descends(t: Tree, v: Verdict) {
    t.depth > 0 && v.Partial?
  }

  /** OctreeNode::Traverse: the override is for the node it is called on. */
  function Recursive(t: Tree, f: Rec -> Verdict, override: Verdict): (r: Report)
    decreases t
  {
    var v := Ask(t, f, override);
    Join(Own(t, v), if Descends(t, v) then RecursiveKids(t.kids, f) else NOTHING)
  }

  function RecursiveKid(kid: Kid, f: Rec -> Verdict): (r: Report)
    decreases kid
  {
    if kid.Some? then Recursive(kid.t, f, Unknown) else NOTHING
  }

  function RecursiveKids(kids: seq<Kid>, f: Rec -> Verdict): (r: Report)
    decreases kids
  {
    if kids == [] then NOTHING
    else Join(RecursiveKids(kids[..|kids| - 1], f), RecursiveKid(kids[|kids| - 1], f))
  }

  /** OctreeNode::TraverseNoRecursion: children are stacked, so they come off in reverse order, and the override is for
      every node.
   */
  function Stacked(t: Tree, f: Rec -> Verdict, override: Verdict): (r: Report)
    decreases t
  {
    var v := Ask(t, f, override);
    Join(Own(t, v), if Descends(t, v) then StackedKids(t.kids, f, override) else NOTHING)
  }

  function StackedKid(kid: Kid, f: Rec -> Verdict, override: Verdict): (r: Report)
    decreases kid
  {
    if kid.Some? then Stacked(kid.t, f, override) else NOTHING
  }

  function StackedKids(kids: seq<Kid>, f: Rec -> Verdict, override: Verdict): (r: Report)
    decreases kids
  {
    if kids == [] then NOTHING
    else Join(StackedKid(kids[|kids| - 1], f, override), StackedKids(kids[..|kids| - 1], f, override))
  }

  /** The recursive traversal adds an object only if it is not in the list yet. */
  function AppendNew(objs: seq<Obj>, more: seq<Obj>): (r: seq<Obj>)
  {
    if more == [] then objs
    else
      var before, o := AppendNew(objs, more[..|more| - 1]), more[|more| - 1];
      if o in before then before else before + [o]
  }

  lemma {:induction false} AppendNewElements(objs: seq<Obj>, more: seq<Obj>)
    requires Distinct(objs)
    ensures Distinct(AppendNew(objs, more))
    ensures forall o :: o in AppendNew(objs, more) <==> o in objs || o in more
  {
    if more != [] {
      var init := more[..|more| - 1];
      AppendNewElements(objs, init);
      assert more == init + [more[|more| - 1]];
    }
  }

  lemma {:induction false} AppendNewJoin(objs: seq<Obj>, a: seq<Obj>, b: seq<Obj>)
    ensures AppendNew(objs, a + b) == AppendNew(AppendNew(objs, a), b)
  {
    if b == [] {
      assert a + b == a;
    } else {
      assert (a + b)[..|a + b| - 1] == a + b[..|b| - 1];
      AppendNewJoin(objs, a, b[..|b| - 1]);
    }
  }

  // ---------- Without an override, both report the same ----------

  ghost predicate Same(a: Report, b: Report) {
    multiset(a.nodes) == multiset(b.nodes) && multiset(a.objs) == multiset(b.objs)
  }

  /** Each node is reported by one traversal as often as by the other, and so is each object list entry. */
  lemma {:induction false} TraversalsAgree(t: Tree, f: Rec -> Verdict)
    ensures Same(Recursive(t, f, Unknown), Stacked(t, f, Unknown))
    decreases t
  {
    if Descends(t, f(RecOf(t))) { KidsTraversalsAgree(t.kids, f); }
  }

  lemma {:induction false} KidTraversalsAgree(kid: Kid, f: Rec -> Verdict)
    ensures Same(RecursiveKid(kid, f), StackedKid(kid, f, Unknown))
    decreases kid
  {
    if kid.Some? { TraversalsAgree(kid.t, f); }
  }

  lemma {:induction false} KidsTraversalsAgree(kids: seq<Kid>, f: Rec -> Verdict)
    ensures Same(RecursiveKids(kids, f), StackedKids(kids, f, Unknown))
    decreases kids
  {
    if kids != [] {
      var last := kids[|kids| - 1];
      KidsTraversalsAgree(kids[..|kids| - 1], f);
      KidTraversalsAgree(last, f);
    }
  }

  /** As sets: both traversals find the same objects, and the recursive one lists none twice. */
  lemma SameObjects(t: Tree, f: Rec -> Verdict)
    ensures var found := AppendNew([], Recursive(t, f, Unknown).objs);
            Distinct(found) && forall o :: o in found <==> o in Stacked(t, f, Unknown).objs
  {
    TraversalsAgree(t, f);
    AppendNewElements([], Recursive(t, f, Unknown).objs);
    forall o
      ensures o in Recursive(t, f, Unknown).objs <==> o in Stacked(t, f, Unknown).objs
    {
      assert o in multiset(Recursive(t, f, Unknown).objs) <==> o in multiset(Stacked(t, f, Unknown).objs);
    }
  }

  /** No node is reported more often than it occurs in the tree, whatever the override. */
  lemma {:induction false} ReportedOnce(t: Tree, f: Rec -> Verdict, override: Verdict, x: nat)
    ensures multiset(Stacked(t, f, override).nodes)[x] <= Occ(t, x)
    decreases t
  {
    if Descends(t, Ask(t, f, override)) { KidsReportedOnce(t.kids, f, override, x); }
  }

  lemma {:induction false} KidReportedOnce(kid: Kid, f: Rec -> Verdict, override: Verdict, x: nat)
    ensures multiset(StackedKid(kid, f, override).nodes)[x] <= KidOcc(kid, x)
    decreases kid
  {
    if kid.Some? { ReportedOnce(kid.t, f, override, x); }
  }

  lemma {:induction false} KidsReportedOnce(kids: seq<Kid>, f: Rec -> Verdict, override: Verdict, x: nat)
    ensures multiset(StackedKids(kids, f, override).nodes)[x] <= KidsOcc(kids, x)
    decreases kids
  {
    if kids != [] {
      var last, init := kids[|kids| - 1], kids[..|kids| - 1];
      KidsReportedOnce(init, f, override, x);
      KidReportedOnce(last, f, override, x);
      assert kids == init + [last];
      KidsOccAppend(init, last, x);
    }
  }

  lemma {:induction false} KidsOccAppend(kids: seq<Kid>, kid: Kid, x: nat)
    ensures KidsOcc(kids + [kid], x) == KidsOcc(kids, x) + KidOcc(kid, x)
    decreases |kids|
  {
    if kids != [] {
      assert (kids + [kid])[1..] == kids[1..] + [kid];
      KidsOccAppend(kids[1..], kid, x);
    }
  }

  // ---------- With an override ----------

  /** An override other than PARTIAL stops both traversals at the first node. */
  lemma StoppingOverride(t: Tree, f: Rec -> Verdict, override: Verdict)
    requires override.Outside? || override.Full?
    ensures Recursive(t, f, override) == Stacked(t, f, override)
  {
  }

  function Size(t: Tree): (n: nat)
    ensures n > 0
    decreases t
  {
    1 + KidsSize(t.kids)
  }

  function KidSize(kid: Kid): nat
    decreases kid
  {
    if kid.Some? then Size(kid.t) else 0
  }

  function KidsSize(kids: seq<Kid>): nat
    decreases kids
  {
    if kids == [] then 0 else KidsSize(kids[..|kids| - 1]) + KidSize(kids[|kids| - 1])
  }

  /** The classifier lets the recursive traversal through to every node. */
  ghost predicate Opens(t: Tree, f: Rec -> Verdict)
    decreases t
  {
    if t.depth == 0 then !f(RecOf(t)).Outside? else f(RecOf(t)).Partial? && KidsOpen(t.kids, f)
  }

  ghost predicate KidOpen(kid: Kid, f: Rec -> Verdict)
    decreases kid
  {
    kid.Some? ==> Opens(kid.t, f)
  }

  ghost predicate KidsOpen(kids: seq<Kid>, f: Rec -> Verdict)
    decreases kids
  {
    kids == [] || (KidsOpen(kids[..|kids| - 1], f) && KidOpen(kids[|kids| - 1], f))
  }

  /** Every inner node has a child, every leaf has none. */
  ghost predicate Branches(t: Tree)
    decreases t
  {
    (t.depth == 0 <==> KidsSize(t.kids) == 0) && KidsBranch(t.kids)
  }

  ghost predicate KidBranches(kid: Kid)
    decreases kid
  {
    kid.Some? ==> Branches(kid.t)
  }

  ghost predicate KidsBranch(kids: seq<Kid>)
    decreases kids
  {
    kids == [] || (KidsBranch(kids[..|kids| - 1]) && KidBranches(kids[|kids| - 1]))
  }

  lemma {:induction false} RecursiveReach(t: Tree, f: Rec -> Verdict)
    requires Branches(t)
    ensures |Recursive(t, f, Unknown).nodes| <= Size(t)
    ensures |Recursive(t, f, Unknown).nodes| == Size(t) <==> Opens(t, f)
    decreases t
  {
    RecursiveKidsReach(t.kids, f);
  }

  lemma {:induction false} RecursiveKidReach(kid: Kid, f: Rec -> Verdict)
    requires KidBranches(kid)
    ensures |RecursiveKid(kid, f).nodes| <= KidSize(kid)
    ensures |RecursiveKid(kid, f).nodes| == KidSize(kid) <==> KidOpen(kid, f)
    decreases kid
  {
    if kid.Some? { RecursiveReach(kid.t, f); }
  }

  lemma {:induction false} RecursiveKidsReach(kids: seq<Kid>, f: Rec -> Verdict)
    requires KidsBranch(kids)
    ensures |RecursiveKids(kids, f).nodes| <= KidsSize(kids)
    ensures |RecursiveKids(kids, f).nodes| == KidsSize(kids) <==> KidsOpen(kids, f)
    decreases kids
  {
    if kids != [] {
      RecursiveKidsReach(kids[..|kids| - 1], f);
      RecursiveKidReach(kids[|kids| - 1], f);
    }
  }

  /** With PARTIAL as override, the stack traversal reports every node. */
  lemma {:induction false} StackedAll(t: Tree, f: Rec -> Verdict)
    requires Branches(t)
    ensures |Stacked(t, f, Partial).nodes| == Size(t)
    decreases t
  {
    StackedKidsAll(t.kids, f);
  }

  lemma {:induction false} StackedKidAll(kid: Kid, f: Rec -> Verdict)
    requires KidBranches(kid)
    ensures |StackedKid(kid, f, Partial).nodes| == KidSize(kid)
    decreases kid
  {
    if kid.Some? { StackedAll(kid.t, f); }
  }

  lemma {:induction false} StackedKidsAll(kids: seq<Kid>, f: Rec -> Verdict)
    requires KidsBranch(kids)
    ensures |StackedKids(kids, f, Partial).nodes| == KidsSize(kids)
    decreases kids
  {
    if kids != [] {
      StackedKidsAll(kids[..|kids| - 1], f);
      StackedKidAll(kids[|kids| - 1], f);
    }
  }

  lemma {:induction false} OpenAgree(t: Tree, f: Rec -> Verdict)
    requires Opens(t, f)
    ensures multiset(Recursive(t, f, Unknown).nodes) == multiset(Stacked(t, f, Partial).nodes)
    decreases t
  {
    if t.depth > 0 { OpenKidsAgree(t.kids, f); }
  }

  lemma {:induction false} OpenKidAgree(kid: Kid, f: Rec -> Verdict)
    requires KidOpen(kid, f)
    ensures multiset(RecursiveKid(kid, f).nodes) == multiset(StackedKid(kid, f, Partial).nodes)
    decreases kid
  {
    if kid.Some? { OpenAgree(kid.t, f); }
  }

  lemma {:induction false} OpenKidsAgree(kids: seq<Kid>, f: Rec -> Verdict)
    requires KidsOpen(kids, f)
    ensures multiset(RecursiveKids(kids, f).nodes) == multiset(StackedKids(kids, f, Partial).nodes)
    decreases kids
  {
    if kids != [] {
      OpenKidsAgree(kids[..|kids| - 1], f);
      OpenKidAgree(kids[|kids| - 1], f);
    }
  }

  /** With PARTIAL as override, the traversals report the same nodes exactly if the classifier would let the recursive
      one through to every node below the first.
   */
  lemma PartialOverride(t: Tree, f: Rec -> Verdict)
    requires t.depth > 0 && KidsBranch(t.kids)
    ensures multiset(Recursive(t, f, Partial).nodes) == multiset(Stacked(t, f, Partial).nodes) <==> KidsOpen(t.kids, f)
  {
    RecursiveKidsReach(t.kids, f);
    StackedKidsAll(t.kids, f);
    if KidsOpen(t.kids, f) { OpenKidsAgree(t.kids, f); }
    if multiset(Recursive(t, f, Partial).nodes) == multiset(Stacked(t, f, Partial).nodes) {
      assert |multiset(Recursive(t, f, Partial).nodes)| == |multiset(Stacked(t, f, Partial).nodes)|;
    }
  }

  /** The trees that AddObject and RemoveObject build do branch. */
  lemma {:induction false} PlacedBranches(t: Tree, S: set<Obj>)
    requires Shape(t) && t.size >= 0.0 && Placed(t, S) && AllOrdered(S)
    ensures KidsBranch(t.kids)
    ensures t.objs != [] ==> Branches(t)
    decreases t, 9
  {
    assert t.kids[..8] == t.kids;
    PlacedKidsBranch(t, 8, S);
    if t.objs != [] && t.depth > 0 {
      StillWanted(t, S);
      var o :| o in S && Meets(t.Cell(), o.box);
      var i := ChildrenCover(t.center, t.size, o.box);
      assert KidPlaced(t, i, S);
      SomeKid(t.kids, i);
    }
    if t.depth == 0 { NoKids(t.kids); }
  }

  lemma {:induction false} NoKids(kids: seq<Kid>)
    requires forall i :: 0 <= i < |kids| ==> kids[i].None?
    ensures KidsSize(kids) == 0
    decreases |kids|
  {
    if kids != [] { NoKids(kids[..|kids| - 1]); }
  }

  lemma {:induction false} SomeKid(kids: seq<Kid>, i: nat)
    requires i < |kids| && kids[i].Some?
    ensures KidsSize(kids) > 0
    decreases |kids|
  {
    if i < |kids| - 1 { SomeKid(kids[..|kids| - 1], i); }
  }

  lemma {:induction false} PlacedKidsBranch(t: Tree, n: nat, S: set<Obj>)
    requires Shape(t) && t.size >= 0.0 && Placed(t, S) && AllOrdered(S) && n <= 8
    ensures KidsBranch(t.kids[..n])
    decreases t, n
  {
    if n > 0 {
      PlacedKidsBranch(t, n - 1, S);
      assert t.kids[..n][..n - 1] == t.kids[..n - 1];
      if t.kids[n - 1].Some? {
        assert KidPlaced(t, n - 1, S);
        KidCell(t, n - 1);
        StillWanted(t.kids[n - 1].t, S);
        PlacedBranches(t.kids[n - 1].t, S);
      }
    }
  }
}
