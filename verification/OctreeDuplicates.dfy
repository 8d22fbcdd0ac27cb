/** Which objects the traversals of Core/OctreeNode.cpp report more than once, and which they miss under an override:
    only OctreeNode::Traverse looks whether an object is in the list already.
*/
module OctreeDuplicates {
  import opened Geometry
  import opened OctreeTree
  import opened OctreePlacement
  import opened OctreeIndices
  import opened OctreeTraversal

  // ---------- Places in a tree ----------

  /** `path` names octants from the root down to a node. */
  ghost predicate IsPath(t: Tree, path: seq<nat>)
    decreases path
  {
    path == [] || (path[0] < |t.kids| && t.kids[path[0]].Some? && IsPath(t.kids[path[0]].t, path[1..]))
  }

  ghost function NodeAt(t: Tree, path: seq<nat>): Tree
    requires IsPath(t, path)
    decreases path
  {
    if path == [] then t else NodeAt(t.kids[path[0]].t, path[1..])
  }

  /** A node with the given verdict reports its object list: a leaf, or a FULL node. */
  predicate Lists(t: Tree, v: Verdict) {
    if t.depth == 0 then !v.Outside? else v.Full?
  }

  /** The traversal reaches the node at `path` and reports its object list. */
  ghost predicate ReportsAt(t: Tree, f: Rec -> Verdict, override: Verdict, path: seq<nat>)
    ensures ReportsAt(t, f, override, path) ==> IsPath(t, path)
    decreases path, 1
  {
    if path == [] then Lists(t, Ask(t, f, override))
    else Descends(t, Ask(t, f, override)) && ReportsBelow(t, f, override, path)
  }

  ghost predicate ReportsBelow(t: Tree, f: Rec -> Verdict, override: Verdict, path: seq<nat>)
    ensures ReportsBelow(t, f, override, path) ==> IsPath(t, path)
    decreases path, 0
  {
    path != [] && path[0] < |t.kids| && t.kids[path[0]].Some? && ReportsAt(t.kids[path[0]].t, f, override, path[1..])
  }

  /** The object is reported at the node at `path`. */
  ghost predicate FoundAt(t: Tree, f: Rec -> Verdict, override: Verdict, path: seq<nat>, o: Obj) {
    ReportsAt(t, f, override, path) && o in NodeAt(t, path).objs
  }

  ghost predicate FoundBelow(t: Tree, f: Rec -> Verdict, override: Verdict, path: seq<nat>, o: Obj) {
    ReportsBelow(t, f, override, path) && o in NodeAt(t, path).objs
  }

  lemma Prepend(t: Tree, i: nat, f: Rec -> Verdict, override: Verdict, p: seq<nat>, o: Obj)
    requires i < |t.kids| && t.kids[i].Some? && FoundAt(t.kids[i].t, f, override, p, o)
    ensures FoundBelow(t, f, override, [i] + p, o)
  {
    assert ([i] + p)[1..] == p;
  }

  lemma StepInto(t: Tree, f: Rec -> Verdict, override: Verdict, p: seq<nat>, o: Obj)
    requires FoundBelow(t, f, override, p, o)
    ensures p != [] && p[0] < |t.kids| && t.kids[p[0]].Some? && FoundAt(t.kids[p[0]].t, f, override, p[1..], o)
  {
  }

  /** No node lists an object twice. */
  ghost predicate DistinctLists(t: Tree)
    decreases t
  {
    Distinct(t.objs) && forall i :: 0 <= i < |t.kids| && t.kids[i].Some? ==> DistinctLists(t.kids[i].t)
  }

  // ---------- How often an object is reported ----------

  ghost function Count(t: Tree, f: Rec -> Verdict, override: Verdict, o: Obj): nat {
    multiset(Stacked(t, f, override).objs)[o]
  }

  ghost function KidCount(t: Tree, i: nat, f: Rec -> Verdict, override: Verdict, o: Obj): nat
    requires i < |t.kids|
  {
    if t.kids[i].Some? then Count(t.kids[i].t, f, override, o) else 0
  }

  /** The reports of the first `n` children. */
  ghost function BelowCount(t: Tree, n: nat, f: Rec -> Verdict, override: Verdict, o: Obj): nat
    requires n <= |t.kids|
  {
    multiset(StackedKids(t.kids[..n], f, override).objs)[o]
  }

  lemma BelowCountStep(t: Tree, n: nat, f: Rec -> Verdict, override: Verdict, o: Obj)
    requires n < |t.kids|
    ensures BelowCount(t, n + 1, f, override, o) == BelowCount(t, n, f, override, o) + KidCount(t, n, f, override, o)
  {
    var kids := t.kids[..n + 1];
    assert kids[..n] == t.kids[..n] && kids[n] == t.kids[n];
    assert StackedKids(kids, f, override).objs == StackedKid(kids[n], f, override).objs
        + StackedKids(t.kids[..n], f, override).objs;
  }

  lemma NoneBelow(t: Tree, f: Rec -> Verdict, override: Verdict, o: Obj)
    ensures BelowCount(t, 0, f, override, o) == 0
  {
  }

  lemma CountParts(t: Tree, f: Rec -> Verdict, override: Verdict, o: Obj)
    ensures var v := Ask(t, f, override);
            Count(t, f, override, o) == if Lists(t, v) then multiset(t.objs)[o]
                                        else if Descends(t, v) then BelowCount(t, |t.kids|, f, override, o) else 0
  {
    assert t.kids[..|t.kids|] == t.kids;
    var v := Ask(t, f, override);
    var below := if Descends(t, v) then StackedKids(t.kids, f, override) else NOTHING;
    assert multiset(Stacked(t, f, override).objs) == multiset(Own(t, v).objs) + multiset(below.objs);
  }

  predicate Twice(s: seq<Obj>, o: Obj) {
    multiset(s)[o] >= 2
  }

  lemma {:induction false} DistinctCounts(s: seq<Obj>)
    ensures Distinct(s) <==> !exists o :: Twice(s, o)
  {
    if s != [] {
      var init, last := s[..|s| - 1], s[|s| - 1];
      DistinctCounts(init);
      assert s == init + [last];
      assert multiset(s) == multiset(init) + multiset{last};
      assert last in init <==> multiset(init)[last] > 0;
      assert Distinct(s) <==> Distinct(init) && last !in init;
      if exists o :: Twice(init, o) {
        var o :| Twice(init, o);
        assert Twice(s, o);
      } else if last in init {
        assert Twice(s, last);
      } else {
        forall o
          ensures !Twice(s, o)
        {
          assert !Twice(init, o);
        }
      }
    }
  }

  lemma {:induction false} FindOne(t: Tree, f: Rec -> Verdict, override: Verdict, o: Obj) returns (p: seq<nat>)
    requires Count(t, f, override, o) >= 1
    ensures FoundAt(t, f, override, p, o)
    decreases t, 9
  {
    CountParts(t, f, override, o);
    if Lists(t, Ask(t, f, override)) { p := []; } else { p := FindOneBelow(t, |t.kids|, f, override, o); }
  }

  lemma {:induction false} FindOneBelow(t: Tree, n: nat, f: Rec -> Verdict, override: Verdict, o: Obj)
    returns (p: seq<nat>)
    requires n <= |t.kids| && BelowCount(t, n, f, override, o) >= 1
    ensures FoundBelow(t, f, override, p, o) && p != [] && p[0] < n
    decreases t, 8, n
  {
    hide Count, BelowCount, ReportsAt, ReportsBelow, FoundAt, FoundBelow, NodeAt;
    NoneBelow(t, f, override, o);
    BelowCountStep(t, n - 1, f, override, o);
    if BelowCount(t, n - 1, f, override, o) >= 1 {
      p := FindOneBelow(t, n - 1, f, override, o);
    } else {
      var p' := FindOne(t.kids[n - 1].t, f, override, o);
      Prepend(t, n - 1, f, override, p', o);
      p := [n - 1] + p';
    }
  }

  lemma {:induction false} CountOne(t: Tree, f: Rec -> Verdict, override: Verdict, p: seq<nat>, o: Obj)
    requires FoundAt(t, f, override, p, o)
    ensures Count(t, f, override, o) >= 1
    decreases t, 9
  {
    CountParts(t, f, override, o);
    if p != [] { CountOneBelow(t, |t.kids|, f, override, p, o); }
  }

  lemma {:induction false} CountOneBelow(t: Tree, n: nat, f: Rec -> Verdict, override: Verdict, p: seq<nat>, o: Obj)
    requires n <= |t.kids| && FoundBelow(t, f, override, p, o) && p[0] < n
    ensures BelowCount(t, n, f, override, o) >= 1
    decreases t, 8, n
  {
    hide Count, BelowCount, ReportsAt, ReportsBelow, FoundAt, FoundBelow, NodeAt;
    StepInto(t, f, override, p, o);
    BelowCountStep(t, n - 1, f, override, o);
    if p[0] < n - 1 {
      CountOneBelow(t, n - 1, f, override, p, o);
    } else {
      CountOne(t.kids[n - 1].t, f, override, p[1..], o);
    }
  }

  lemma {:induction false} FindTwo(t: Tree, f: Rec -> Verdict, override: Verdict, o: Obj)
    returns (p: seq<nat>, q: seq<nat>)
    requires DistinctLists(t) && Count(t, f, override, o) >= 2
    ensures p != q && FoundAt(t, f, override, p, o) && FoundAt(t, f, override, q, o)
    decreases t, 9
  {
    CountParts(t, f, override, o);
    DistinctCounts(t.objs);
    assert !Twice(t.objs, o);
    p, q := FindTwoBelow(t, |t.kids|, f, override, o);
  }

  lemma {:induction false} FindTwoBelow(t: Tree, n: nat, f: Rec -> Verdict, override: Verdict, o: Obj)
    returns (p: seq<nat>, q: seq<nat>)
    requires DistinctLists(t) && n <= |t.kids| && BelowCount(t, n, f, override, o) >= 2
    ensures p != q && FoundBelow(t, f, override, p, o) && FoundBelow(t, f, override, q, o) && p != [] && q != []
        && p[0] < n && q[0] < n
    decreases t, 8, n
  {
    hide Count, BelowCount, ReportsAt, ReportsBelow, FoundAt, FoundBelow, NodeAt;
    NoneBelow(t, f, override, o);
    BelowCountStep(t, n - 1, f, override, o);
    if BelowCount(t, n - 1, f, override, o) >= 2 {
      p, q := FindTwoBelow(t, n - 1, f, override, o);
    } else if BelowCount(t, n - 1, f, override, o) == 1 {
      p := FindOneBelow(t, n - 1, f, override, o);
      var q' := FindOne(t.kids[n - 1].t, f, override, o);
      Prepend(t, n - 1, f, override, q', o);
      q := [n - 1] + q';
    } else {
      var p', q' := FindTwo(t.kids[n - 1].t, f, override, o);
      Prepend(t, n - 1, f, override, p', o);
      Prepend(t, n - 1, f, override, q', o);
      p, q := [n - 1] + p', [n - 1] + q';
      assert p[1..] == p' && q[1..] == q';
    }
  }

  lemma {:induction false} CountTwo(t: Tree, f: Rec -> Verdict, override: Verdict, p: seq<nat>, q: seq<nat>, o: Obj)
    requires p != q && FoundAt(t, f, override, p, o) && FoundAt(t, f, override, q, o)
    ensures Count(t, f, override, o) >= 2
    decreases t, 9
  {
    CountParts(t, f, override, o);
    CountTwoBelow(t, |t.kids|, f, override, p, q, o);
  }

  lemma {:induction false} CountTwoBelow(t: Tree, n: nat, f: Rec -> Verdict, override: Verdict, p: seq<nat>,
                                         q: seq<nat>, o: Obj)
    requires p != q && n <= |t.kids|
    requires FoundBelow(t, f, override, p, o) && FoundBelow(t, f, override, q, o) && p[0] < n && q[0] < n
    ensures BelowCount(t, n, f, override, o) >= 2
    decreases t, 8, n
  {
    hide Count, BelowCount, ReportsAt, ReportsBelow, FoundAt, FoundBelow, NodeAt;
    StepInto(t, f, override, p, o);
    StepInto(t, f, override, q, o);
    BelowCountStep(t, n - 1, f, override, o);
    if p[0] < n - 1 && q[0] < n - 1 {
      CountTwoBelow(t, n - 1, f, override, p, q, o);
    } else if p[0] == q[0] {
      assert p == [p[0]] + p[1..] && q == [q[0]] + q[1..];
      CountTwo(t.kids[n - 1].t, f, override, p[1..], q[1..], o);
    } else {
      var a, b := if p[0] < n - 1 then p else q, if p[0] < n - 1 then q else p;
      CountOneBelow(t, n - 1, f, override, a, o);
      CountOne(t.kids[n - 1].t, f, override, b[1..], o);
    }
  }

  // ---------- When the stack traversal reports an object twice ----------

  lemma {:induction false} PlacedDistinct(t: Tree, S: set<Obj>)
    requires Shape(t) && Placed(t, S)
    ensures DistinctLists(t)
    decreases t
  {
    forall i | 0 <= i < |t.kids| && t.kids[i].Some?
      ensures DistinctLists(t.kids[i].t)
    {
      assert KidPlaced(t, i, S);
      PlacedDistinct(t.kids[i].t, S);
    }
  }

  lemma {:induction false} PlacedAt(t: Tree, S: set<Obj>, p: seq<nat>)
    requires Shape(t) && Placed(t, S) && IsPath(t, p)
    ensures ListsExactly(NodeAt(t, p), S)
    decreases p
  {
    if p != [] {
      assert KidPlaced(t, p[0], S);
      PlacedAt(t.kids[p[0]].t, S, p[1..]);
    }
  }

  /** The object meets the cell of a node whose object list is reported. */
  ghost predicate MeetsAt(t: Tree, f: Rec -> Verdict, override: Verdict, p: seq<nat>, o: Obj) {
    ReportsAt(t, f, override, p) && Meets(NodeAt(t, p).Cell(), o.box)
  }

  /** The stack traversal reports no object twice exactly if no object of the index meets the cells of two leaves
      or FULL nodes that it reaches.
   */
  lemma NoneTwice(t: Tree, f: Rec -> Verdict, override: Verdict, S: set<Obj>)
    requires Shape(t) && Placed(t, S)
    ensures Distinct(Stacked(t, f, override).objs) <==>
      forall o, p, q :: o in S && MeetsAt(t, f, override, p, o) && MeetsAt(t, f, override, q, o) ==> p == q
  {
    PlacedDistinct(t, S);
    DistinctCounts(Stacked(t, f, override).objs);
    forall p | ReportsAt(t, f, override, p)
      ensures ListsExactly(NodeAt(t, p), S)
    {
      PlacedAt(t, S, p);
    }
    forall o, p | o in S
      ensures MeetsAt(t, f, override, p, o) <==> FoundAt(t, f, override, p, o)
    {
    }
    if Distinct(Stacked(t, f, override).objs) {
      forall o, p, q | o in S && MeetsAt(t, f, override, p, o) && MeetsAt(t, f, override, q, o)
        ensures p == q
      {
        assert !Twice(Stacked(t, f, override).objs, o);
        if p != q { CountTwo(t, f, override, p, q, o); }
      }
    } else {
      var o :| Twice(Stacked(t, f, override).objs, o);
      var p, q := FindTwo(t, f, override, o);
      assert o in S && MeetsAt(t, f, override, p, o) && MeetsAt(t, f, override, q, o);
    }
  }

  // ---------- What a PARTIAL override finds ----------

  lemma MeetsChildren(t: Tree, o: Obj)
    requires t.size >= 0.0 && o.box.Ordered()
    ensures Meets(t.Cell(), o.box) <==> exists i: nat :: i < 8 && Meets(t.KidBox(i), o.box)
  {
    if Meets(t.Cell(), o.box) {
      var i := ChildrenCover(t.center, t.size, o.box);
      assert Meets(t.KidBox(i), o.box);
    }
    forall i: nat | i < 8 && Meets(t.KidBox(i), o.box)
      ensures Meets(t.Cell(), o.box)
    {
      KidMeets(t, i, o);
    }
  }

  /** With PARTIAL as override, the stack traversal finds whatever the node lists. */
  lemma {:induction false} PartialFindsAll(t: Tree, f: Rec -> Verdict, S: set<Obj>, o: Obj)
    requires Shape(t) && t.size >= 0.0 && Placed(t, S) && AllOrdered(S)
    ensures Count(t, f, Partial, o) >= 1 <==> o in t.objs
    decreases t
  {
    hide Meets, Count, BelowCount, ChildBox;
    CountParts(t, f, Partial, o);
    if t.depth > 0 {
      forall i | 0 <= i < 8
        ensures KidCount(t, i, f, Partial, o) >= 1 <==> o in S && Meets(t.KidBox(i), o.box)
      {
        assert KidPlaced(t, i, S);
        if t.kids[i].Some? {
          KidCell(t, i);
          PartialFindsAll(t.kids[i].t, f, S, o);
        }
      }
      BelowCountAny(t, 8, f, Partial, o);
      if o in S { MeetsChildren(t, o); }
    }
  }

  lemma {:induction false} BelowCountAny(t: Tree, n: nat, f: Rec -> Verdict, override: Verdict, o: Obj)
    requires n <= |t.kids|
    ensures BelowCount(t, n, f, override, o) >= 1 <==> exists i :: 0 <= i < n && KidCount(t, i, f, override, o) >= 1
    decreases n
  {
    hide Count, BelowCount, KidCount;
    NoneBelow(t, f, override, o);
    if n > 0 {
      BelowCountStep(t, n - 1, f, override, o);
      BelowCountAny(t, n - 1, f, override, o);
    }
  }

  /** With PARTIAL as override, the recursive traversal finds what lies below, as the classifier decides. */
  lemma RecursivePartial(t: Tree, f: Rec -> Verdict, o: Obj)
    requires t.depth > 0
    ensures o in Recursive(t, f, Partial).objs <==> BelowCount(t, |t.kids|, f, Unknown, o) >= 1
  {
    assert t.kids[..|t.kids|] == t.kids;
    KidsTraversalsAgree(t.kids, f);
    assert o in Recursive(t, f, Partial).objs <==> o in multiset(RecursiveKids(t.kids, f).objs);
  }

  /** The object meets the cell of a node below that the classifier lets the recursive traversal report. */
  ghost predicate MeetsBelow(t: Tree, f: Rec -> Verdict, p: seq<nat>, o: Obj) {
    ReportsBelow(t, f, Unknown, p) && Meets(NodeAt(t, p).Cell(), o.box)
  }

  /** With PARTIAL as override, the two traversals find the same objects exactly if every object in the cell of the node
      meets the cell of a leaf or FULL node below that the classifier opens the way to.
   */
  lemma PartialOverrideObjects(t: Tree, f: Rec -> Verdict, S: set<Obj>)
    requires Shape(t) && t.size >= 0.0 && t.depth > 0 && Placed(t, S) && AllOrdered(S)
    ensures (forall o :: o in Recursive(t, f, Partial).objs <==> o in Stacked(t, f, Partial).objs) <==>
      forall o :: o in S && Meets(t.Cell(), o.box) ==> exists p :: MeetsBelow(t, f, p, o)
  {
    forall o
      ensures o in Stacked(t, f, Partial).objs <==> o in S && Meets(t.Cell(), o.box)
      ensures o in Recursive(t, f, Partial).objs <==> o in S && exists p :: MeetsBelow(t, f, p, o)
      ensures (exists p :: MeetsBelow(t, f, p, o)) && o in S ==> Meets(t.Cell(), o.box)
    {
      PartialFindsAll(t, f, S, o);
      assert o in Stacked(t, f, Partial).objs <==> o in multiset(Stacked(t, f, Partial).objs);
      RecursivePartial(t, f, o);
      FoundBelowExactly(t, f, S, o);
    }
  }

  lemma FoundBelowExactly(t: Tree, f: Rec -> Verdict, S: set<Obj>, o: Obj)
    requires Shape(t) && t.size >= 0.0 && t.depth > 0 && Placed(t, S)
    ensures BelowCount(t, 8, f, Unknown, o) >= 1 <==> o in S && exists p :: MeetsBelow(t, f, p, o)
    ensures (exists p :: MeetsBelow(t, f, p, o)) ==> Meets(t.Cell(), o.box)
  {
    forall p | ReportsBelow(t, f, Unknown, p)
      ensures ListsExactly(NodeAt(t, p), S) && (Meets(NodeAt(t, p).Cell(), o.box) ==> Meets(t.Cell(), o.box))
    {
      PlacedAt(t, S, p);
      if Meets(NodeAt(t, p).Cell(), o.box) { MeetsAbove(t, p, o); }
    }
    if BelowCount(t, 8, f, Unknown, o) >= 1 {
      var p := FindOneBelow(t, 8, f, Unknown, o);
      assert MeetsBelow(t, f, p, o);
    }
    if o in S && exists p :: MeetsBelow(t, f, p, o) {
      var p :| MeetsBelow(t, f, p, o);
      CountOneBelow(t, 8, f, Unknown, p, o);
    }
  }

  lemma {:induction false} MeetsAbove(t: Tree, p: seq<nat>, o: Obj)
    requires Shape(t) && t.size >= 0.0 && IsPath(t, p) && Meets(NodeAt(t, p).Cell(), o.box)
    ensures Meets(t.Cell(), o.box)
    decreases p
  {
    if p != [] {
      MeetsAbove(t.kids[p[0]].t, p[1..], o);
      KidCell(t, p[0]);
      KidMeets(t, p[0], o);
    }
  }

  // ---------- An example ----------

  /** An octree of one level with one object, which reaches over the first two octants. */
  function Example(): (t: Tree)
    ensures Shape(t) && t.center == Vec(0.0, 0.0, 0.0) && t.size == 2.0 && t.depth == 1
  {
    DoAll(Create(Vec(0.0, 0.0, 0.0), 1.0, 1), [AddCall(Wide())]).root
  }

  function Wide(): Obj {
    Obj(1, Box(Vec(-0.5, 0.25, 0.25), Vec(0.5, 0.5, 0.5)))
  }

  lemma ExamplePlaced()
    ensures Placed(Example(), {Wide()}) && AllOrdered({Wide()}) && Example().Cell() == Cube(Vec(0.0, 0.0, 0.0), 2.0)
  {
    var calls := [AddCall(Wide())];
    RunOk(Vec(0.0, 0.0, 0.0), 1.0, 1, calls);
    assert calls[..0] == [] && Contents(calls) == {Wide()};
  }

  lemma ExampleKid(i: nat)
    requires i == 0 || i == 1
    ensures Example().kids[i].Some? && Example().kids[i].t.depth == 0 && Meets(Example().kids[i].t.Cell(), Wide().box)
  {
    hide Example;
    ExamplePlaced();
    assert Meets(Example().KidBox(i), Wide().box);
    assert KidPlaced(Example(), i, {Wide()});
    KidCell(Example(), i);
  }

  lemma KidReports(t: Tree, f: Rec -> Verdict, i: nat)
    requires i < |t.kids| && t.kids[i].Some? && Descends(t, f(RecOf(t))) && Lists(t.kids[i].t, f(RecOf(t.kids[i].t)))
    ensures ReportsAt(t, f, Unknown, [i]) && NodeAt(t, [i]) == t.kids[i].t
  {
    var p, kid := [i], t.kids[i].t;
    assert p[1..] == [] && ReportsAt(kid, f, Unknown, []) && NodeAt(kid, []) == kid;
    assert ReportsBelow(t, f, Unknown, p);
  }

  lemma ExamplePath(f: Rec -> Verdict, i: nat)
    requires (i == 0 || i == 1) && forall r :: f(r) == Partial
    ensures MeetsAt(Example(), f, Unknown, [i], Wide())
  {
    hide Example, Meets, Wide, ReportsAt, NodeAt;
    ExampleKid(i);
    KidReports(Example(), f, i);
  }

  lemma StackedWithin(t: Tree, f: Rec -> Verdict, override: Verdict, S: set<Obj>, o: Obj)
    requires Shape(t) && Placed(t, S) && o in Stacked(t, f, override).objs
    ensures o in S
  {
    assert o in multiset(Stacked(t, f, override).objs);
    var p := FindOne(t, f, override, o);
    PlacedAt(t, S, p);
  }

  lemma OneObject(s: seq<Obj>, o: Obj)
    requires Distinct(s) && s != [] && forall x :: x in s ==> x == o
    ensures s == [o]
  {
    assert s[0] in s && s[|s| - 1] in s;
  }

  /** Where everything is PARTIAL, the stack traversal reports the one object of the example more than once,
      the recursive one exactly once.
   */
  lemma ReportedTwice(f: Rec -> Verdict)
    requires forall r :: f(r) == Partial
    ensures !Distinct(Stacked(Example(), f, Unknown).objs)
    ensures AppendNew([], Recursive(Example(), f, Unknown).objs) == [Wide()]
  {
    hide Example, Wide, Stacked, Recursive, MeetsAt;
    var t, S := Example(), {Wide()};
    ExamplePlaced();
    ExamplePath(f, 0);
    ExamplePath(f, 1);
    NoneTwice(t, f, Unknown, S);
    SameObjects(t, f);
    var found := AppendNew([], Recursive(t, f, Unknown).objs);
    assert [0] != [1];
    forall o | o in found
      ensures o == Wide()
    {
      StackedWithin(t, f, Unknown, S, o);
    }
    var all := Stacked(t, f, Unknown).objs;
    assert all[0] in all && all[0] in found;
    OneObject(found, Wide());
  }

  lemma ClosedReports(t: Tree, f: Rec -> Verdict, p: seq<nat>)
    requires f(RecOf(t)) == Outside
    ensures !ReportsAt(t, f, Unknown, p)
  {
  }

  lemma ClosedFindsNothing(t: Tree, f: Rec -> Verdict)
    requires t.depth > 0 && forall r :: f(r) == Outside
    ensures Recursive(t, f, Partial).objs == []
  {
    var objs := Recursive(t, f, Partial).objs;
    if objs != [] {
      var o := objs[0];
      RecursivePartial(t, f, o);
      var p := FindOneBelow(t, |t.kids|, f, Unknown, o);
      ClosedReports(t.kids[p[0]].t, f, p[1..]);
      assert false;
    }
  }

  /** Where everything is OUTSIDE, a PARTIAL override makes the stack traversal report the
      object, the recursive one not.
   */
  lemma PartialMisses(f: Rec -> Verdict)
    requires forall r :: f(r) == Outside
    ensures Wide() in Stacked(Example(), f, Partial).objs && Recursive(Example(), f, Partial).objs == []
  {
    hide Example;
    var t, S, o := Example(), {Wide()}, Wide();
    ExamplePlaced();
    PartialFindsAll(t, f, S, o);
    assert o in multiset(Stacked(t, f, Partial).objs);
    ClosedFindsNothing(t, f);
  }
}
