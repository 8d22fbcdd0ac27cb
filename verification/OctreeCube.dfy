/** Where the cells of an octree are, after any run, told from the arguments of Octree::Create: the center of the root,
    the edge of a leaf and the depth.
*/
module OctreeCube {
  import opened Geometry
  import opened OctreeTree
  import opened OctreePlacement
  import opened OctreeIndices

  /** `x` halved `n` times. */
  function Halved(x: real, n: nat): real
    decreases n
  {
    if n == 0 then x else Halved(x / 2.0, n - 1)
  }

  /** Halving is one to one. */
  lemma {:induction false} SameHalved(x: real, y: real, n: nat)
    ensures Halved(x, n) == Halved(y, n) <==> x == y
    decreases n
  {
    if n > 0 { SameHalved(x / 2.0, y / 2.0, n - 1); }
  }

  /** `p` is no further than half an edge from the center, along each axis. */
  predicate InCube(center: Vec, edge: real, p: Vec) {
    && -edge / 2.0 <= p.x - center.x <= edge / 2.0
    && -edge / 2.0 <= p.y - center.y <= edge / 2.0
    && -edge / 2.0 <= p.z - center.z <= edge / 2.0
  }

  /** The root that Octree::Create was asked for: the cube around `center` that `depth` halvings bring down to a leaf.
   */
  ghost predicate RootOf(t: Tree, center: Vec, leafSize: real, depth: nat) {
    t.center == center && t.depth == depth && Halved(t.size, depth) == leafSize
  }

  lemma {:induction false} PowHalved(x: real, n: nat, y: real)
    requires y == x * Pow2(n)
    ensures Halved(y, n) == x
    decreases n
  {
    if n > 0 { PowHalved(x, n - 1, y / 2.0); }
  }

  lemma CreatedRoot(center: Vec, leafSize: real, depth: nat)
    requires leafSize > 0.0 && depth > 0
    ensures RootOf(Create(center, leafSize, depth).root, center, leafSize, depth)
  {
    PowHalved(leafSize, depth, leafSize * Pow2(depth));
    hide Pow2, Halved;
  }

  /** The root stays the one asked for, over any run. */
  lemma RunRoot(center: Vec, leafSize: real, depth: nat, calls: seq<Call>)
    requires leafSize > 0.0 && depth > 0
    ensures RootOf(DoAll(Create(center, leafSize, depth), calls).root, center, leafSize, depth)
  {
    CreatedRoot(center, leafSize, depth);
  }

  /** The edge of a node is that of the root, halved once for every level between them. */
  lemma {:induction false} NodeEdge(t: Tree, n: Tree)
    requires Shape(t) && IsNode(n, t)
    ensures n.depth <= t.depth && n.size == Halved(t.size, t.depth - n.depth)
    ensures Halved(n.size, n.depth) == Halved(t.size, t.depth)
    decreases t
  {
    hide Halved, Shape, IsNode;
    if n == t {
      HalvedNone(t.size);
    } else {
      var i := KidWith(t, n);
      KidEdge(t, i);
      NodeEdge(t.kids[i].t, n);
      HalvedOnce(t.size, t.depth - n.depth);
      HalvedOnce(t.size, t.depth);
    }
  }

  lemma KidWith(t: Tree, n: Tree) returns (i: nat)
    requires IsNode(n, t) && n != t
    ensures i < |t.kids| && t.kids[i].Some? && IsNode(n, t.kids[i].t)
  {
    i :| 0 <= i < |t.kids| && t.kids[i].Some? && IsNode(n, t.kids[i].t);
  }

  lemma KidEdge(t: Tree, i: nat)
    requires Shape(t) && i < |t.kids| && t.kids[i].Some?
    ensures t.depth > 0 && t.kids[i].t.depth == t.depth - 1 && t.kids[i].t.size == t.size / 2.0 && Shape(t.kids[i].t)
  {
  }

  lemma HalvedNone(x: real)
    ensures Halved(x, 0) == x
  {
  }

  lemma HalvedOnce(x: real, n: nat)
    requires n > 0
    ensures Halved(x, n) == Halved(x / 2.0, n - 1)
  {
  }

  /** After any run, a node of depth 0 has the edge that was asked for, and no node is deeper. */
  lemma LeafEdge(center: Vec, leafSize: real, depth: nat, calls: seq<Call>, n: Tree)
    requires leafSize > 0.0 && depth > 0 && IsNode(n, DoAll(Create(center, leafSize, depth), calls).root)
    ensures n.depth <= depth && Halved(n.size, n.depth) == leafSize
    ensures n.depth == 0 ==> n.size == leafSize
  {
    var t := DoAll(Create(center, leafSize, depth), calls).root;
    hide Create, DoAll;
    RunRoot(center, leafSize, depth, calls);
    NodeEdge(t, n);
  }

  /** The box shares a point with the root's cell. */
  ghost predicate Shares(t: Tree, b: Box) {
    exists p :: InCube(t.center, t.size, p) && b.Contains(p)
  }

  lemma SharesIsMeets(t: Tree, b: Box)
    requires t.size >= 0.0 && b.Ordered()
    ensures Shares(t, b) <==> Meets(t.Cell(), b)
  {
    MeetsIsSharing(t.Cell(), b);
    assert forall p :: InCube(t.center, t.size, p) <==> t.Cell().Contains(p);
  }

  lemma AddAnswer(oct: Snapshot, S: set<Obj>, o: Obj)
    requires OctreeOk(oct, S) && o.box.Ordered()
    ensures var (t', _, ok) := Add(oct.root, o, oct.al);
            ok == Shares(oct.root, o.box) == Shares(t', o.box) && SameFrame(oct.root, t')
  {
    AddOk(oct, o, S);
    SharesIsMeets(oct.root, o.box);
  }

  lemma RemoveAnswer(oct: Snapshot, S: set<Obj>, o: Obj)
    requires OctreeOk(oct, S)
    ensures var (t', _, ok) := Remove(oct.root, o, oct.al);
            ok == (o in S && Shares(oct.root, o.box)) == (o in S && Shares(t', o.box)) && SameFrame(oct.root, t')
  {
    RemoveOk(oct, o, S);
    if o in S { SharesIsMeets(oct.root, o.box); }
  }

  /** After any run, AddObject answers true exactly if the box shares a point with the cube asked for. */
  lemma AddsInside(center: Vec, leafSize: real, depth: nat, calls: seq<Call>, o: Obj, edge: real)
    requires leafSize > 0.0 && depth > 0 && o.box.Ordered() && Halved(edge, depth) == leafSize
    requires forall i :: 0 <= i < |calls| && calls[i].AddCall? ==> calls[i].o.box.Ordered()
    ensures var oct := DoAll(Create(center, leafSize, depth), calls);
            Add(oct.root, o, oct.al).2 <==> exists p :: InCube(center, edge, p) && o.box.Contains(p)
  {
    var oct := DoAll(Create(center, leafSize, depth), calls);
    hide Create, DoAll, Do, Add;
    RunOk(center, leafSize, depth, calls);
    RunRoot(center, leafSize, depth, calls);
    SameHalved(edge, oct.root.size, depth);
    AddAnswer(oct, Contents(calls), o);
  }

  /** After any run, a node lists exactly the objects whose box shares a point with the cube around its center that has
      the edge of its level.
   */
  lemma NodeLists(center: Vec, leafSize: real, depth: nat, calls: seq<Call>, n: Tree, o: Obj, edge: real)
    requires leafSize > 0.0 && depth > 0 && Halved(edge, n.depth) == leafSize
    requires forall i :: 0 <= i < |calls| && calls[i].AddCall? ==> calls[i].o.box.Ordered()
    requires IsNode(n, DoAll(Create(center, leafSize, depth), calls).root)
    ensures o in n.objs <==> o in Contents(calls) && exists p :: InCube(n.center, edge, p) && o.box.Contains(p)
  {
    var oct := DoAll(Create(center, leafSize, depth), calls);
    hide Create, DoAll, Do, IsNode, Contents, Placed;
    RunOk(center, leafSize, depth, calls);
    LeafEdge(center, leafSize, depth, calls, n);
    SameHalved(edge, n.size, n.depth);
    EveryNodeExact(oct.root, Contents(calls), n);
    assert forall p :: InCube(n.center, edge, p) <==> n.Cell().Contains(p);
  }
}
