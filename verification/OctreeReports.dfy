/** What the traversals of Core/OctreeNode.cpp report, told from the place of a node in the tree: a node is reached if
    every node above it is an inner node with the verdict PARTIAL.
*/
module OctreeReports {
  import opened Geometry
  import opened OctreeTree
  import opened OctreePlacement
  import opened OctreeIndices
  import opened OctreeTraversal
  import opened OctreeDuplicates

  /** All nodes above the one at `path` are PARTIAL inner nodes. */
  ghost predicate OpenTo(t: Tree, f: Rec -> Verdict, path: seq<nat>)
    ensures OpenTo(t, f, path) ==> IsPath(t, path)
    decreases path
  {
    path == [] ||
    (t.depth > 0 && f(RecOf(t)) == Partial && path[0] < |t.kids| && t.kids[path[0]].Some? &&
     OpenTo(t.kids[path[0]].t, f, path[1..]))
  }

  /** The node at `path` is reported: a leaf unless it is OUTSIDE, an inner node if it is PARTIAL or FULL. */
  ghost predicate ShowsNode(t: Tree, f: Rec -> Verdict, path: seq<nat>) {
    OpenTo(t, f, path) &&
    var n := NodeAt(t, path);
    if n.depth == 0 then f(RecOf(n)) != Outside else f(RecOf(n)) == Partial || f(RecOf(n)) == Full
  }

  /** Its objects are reported: a leaf unless it is OUTSIDE, an inner node if it is FULL. */
  ghost predicate ShowsObjects(t: Tree, f: Rec -> Verdict, path: seq<nat>) {
    OpenTo(t, f, path) &&
    var n := NodeAt(t, path);
    if n.depth == 0 then f(RecOf(n)) != Outside else f(RecOf(n)) == Full
  }

  // ---------- Objects ----------

  lemma {:induction false} ShowsIsReports(t: Tree, f: Rec -> Verdict, path: seq<nat>)
    ensures ShowsObjects(t, f, path) <==> ReportsAt(t, f, Unknown, path)
    decreases path
  {
    if path != [] && path[0] < |t.kids| && t.kids[path[0]].Some? { ShowsIsReports(t.kids[path[0]].t, f, path[1..]); }
  }

  /** An object is in the report of either traversal exactly if it is listed at a node whose objects are reported. */
  lemma ObjectsExactly(t: Tree, f: Rec -> Verdict, o: Obj)
    ensures o in Stacked(t, f, Unknown).objs <==> exists p :: ShowsObjects(t, f, p) && o in NodeAt(t, p).objs
    ensures o in Recursive(t, f, Unknown).objs <==> exists p :: ShowsObjects(t, f, p) && o in NodeAt(t, p).objs
  {
    TraversalsAgree(t, f);
    assert o in Stacked(t, f, Unknown).objs <==> o in multiset(Stacked(t, f, Unknown).objs);
    assert o in Recursive(t, f, Unknown).objs <==> o in multiset(Recursive(t, f, Unknown).objs);
    forall p
      ensures ShowsObjects(t, f, p) <==> ReportsAt(t, f, Unknown, p)
    {
      ShowsIsReports(t, f, p);
    }
    if o in Stacked(t, f, Unknown).objs {
      var p := FindOne(t, f, Unknown, o);
      assert ShowsObjects(t, f, p);
    }
    forall p | ShowsObjects(t, f, p) && o in NodeAt(t, p).objs
      ensures o in Stacked(t, f, Unknown).objs
    {
      CountOne(t, f, Unknown, p, o);
    }
  }

  // ---------- Nodes ----------

  ghost predicate NodeShown(t: Tree, f: Rec -> Verdict, path: seq<nat>, x: nat) {
    ShowsNode(t, f, path) && NodeAt(t, path).index == x
  }

  /** The same below the node. */
  ghost predicate ShownBelow(t: Tree, f: Rec -> Verdict, path: seq<nat>, x: nat) {
    path != [] && path[0] < |t.kids| && t.kids[path[0]].Some? && NodeShown(t.kids[path[0]].t, f, path[1..], x)
  }

  lemma {:induction false} FindNode(t: Tree, f: Rec -> Verdict, x: nat) returns (p: seq<nat>)
    requires x in Stacked(t, f, Unknown).nodes
    ensures NodeShown(t, f, p, x)
    decreases t, 9
  {
    if x in Own(t, f(RecOf(t))).nodes {
      p := [];
    } else {
      assert t.kids[..|t.kids|] == t.kids;
      p := FindNodeBelow(t, |t.kids|, f, x);
    }
  }

  lemma {:induction false} FindNodeBelow(t: Tree, n: nat, f: Rec -> Verdict, x: nat) returns (p: seq<nat>)
    requires n <= |t.kids| && x in StackedKids(t.kids[..n], f, Unknown).nodes
    ensures ShownBelow(t, f, p, x)
    decreases t, 8, n
  {
    assert t.kids[..n][..n - 1] == t.kids[..n - 1];
    if x in StackedKids(t.kids[..n - 1], f, Unknown).nodes {
      p := FindNodeBelow(t, n - 1, f, x);
    } else {
      var p' := FindNode(t.kids[n - 1].t, f, x);
      p := [n - 1] + p';
      assert p[1..] == p';
    }
  }

  lemma {:induction false} ShowNode(t: Tree, f: Rec -> Verdict, p: seq<nat>, x: nat)
    requires NodeShown(t, f, p, x)
    ensures x in Stacked(t, f, Unknown).nodes
    decreases t, 9
  {
    if p != [] {
      assert t.kids[..|t.kids|] == t.kids;
      ShowNodeBelow(t, |t.kids|, f, p, x);
    }
  }

  lemma {:induction false} ShowNodeBelow(t: Tree, n: nat, f: Rec -> Verdict, p: seq<nat>, x: nat)
    requires n <= |t.kids| && ShownBelow(t, f, p, x) && p[0] < n
    ensures x in StackedKids(t.kids[..n], f, Unknown).nodes
    decreases t, 8, n
  {
    assert t.kids[..n][..n - 1] == t.kids[..n - 1];
    if p[0] < n - 1 { ShowNodeBelow(t, n - 1, f, p, x); } else { ShowNode(t.kids[n - 1].t, f, p[1..], x); }
  }

  /** A node is in the report of either traversal exactly if it is reached and not OUTSIDE. */
  lemma NodesExactly(t: Tree, f: Rec -> Verdict, x: nat)
    ensures x in Stacked(t, f, Unknown).nodes <==> exists p :: NodeShown(t, f, p, x)
    ensures x in Recursive(t, f, Unknown).nodes <==> exists p :: NodeShown(t, f, p, x)
  {
    TraversalsAgree(t, f);
    assert x in Stacked(t, f, Unknown).nodes <==> x in multiset(Stacked(t, f, Unknown).nodes);
    assert x in Recursive(t, f, Unknown).nodes <==> x in multiset(Recursive(t, f, Unknown).nodes);
    if x in Stacked(t, f, Unknown).nodes { var p := FindNode(t, f, x); }
    forall p | NodeShown(t, f, p, x)
      ensures x in Stacked(t, f, Unknown).nodes
    {
      ShowNode(t, f, p, x);
    }
  }

  /** With an override other than PARTIAL: the first node alone, as the override says. */
  lemma OverriddenReport(t: Tree, f: Rec -> Verdict, override: Verdict)
    requires override.Outside? || override.Full?
    ensures Stacked(t, f, override) == Recursive(t, f, override)
         == if override.Outside? then Report([], []) else Report([t.index], t.objs)
  {
  }
}
