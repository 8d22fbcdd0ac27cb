/** The octree of Core/OctreeNode.cpp as a value: nodes with their pool indices, and the pool's index lists.
    AddObject and RemoveObject are functions on it; the class Octree performs them in place.
*/
module OctreeTree {
  import opened Geometry

  /** An object with a fixed box. Pointer identity is the `id`. */
  datatype Obj = Obj(id: int, box: Box)

  datatype Kid = None | Some(t: Tree)

  datatype Tree = Node(index: nat, center: Vec, size: real, depth: nat, kids: seq<Kid>, objs: seq<Obj>)
  {
    function Cell(): Box {
      Cube(center, size)
    }

    function KidBox(i: nat): Box
      requires i < 8
    {
      ChildBox(center, size, i)
    }
  }

  // ---------- Nodes as records ----------

  /** The fields of one node; child link 0 stands for "no child". */
  datatype Rec = Rec(center: Vec, size: real, depth: nat, children: seq<nat>, objects: seq<Obj>)

  const UNLINKED: seq<nat> := [0, 0, 0, 0, 0, 0, 0, 0]

  function Links(kids: seq<Kid>): (r: seq<nat>)
    ensures |r| == |kids|
  {
    seq(|kids|, i requires 0 <= i < |kids| => if kids[i].Some? then kids[i].t.index else 0)
  }

  function RecOf(t: Tree): Rec {
    Rec(t.center, t.size, t.depth, Links(t.kids), t.objs)
  }

  // ---------- The pool's index lists ----------

  /** `count` is the length of m_vPool; the other two are m_vInUse and m_vAvailable. */
  datatype Indices = Indices(count: nat, inUse: seq<nat>, available: seq<nat>)

  /** Octree::NewNode, with NewNode_ for an empty m_vAvailable. */
  function NewNode(al: Indices): (r: (Indices, nat))
  {
    var grown := if al.available != [] then al else al.(count := al.count + 1, available := [al.count]);
    var index := grown.available[|grown.available| - 1];
    (Indices(grown.count, grown.inUse + [index], grown.available[..|grown.available| - 1]), index)
  }

  /** std::find: the first position of `x`, or the length. */
  function Find<T(==)>(s: seq<T>, x: T): (k: nat)
    ensures k <= |s| && x !in s[..k]
    ensures k < |s| ==> s[k] == x
    ensures k == |s| <==> x !in s
  {
    if s == [] || s[0] == x then 0 else
      var k := 1 + Find(s[1..], x);
      assert s == [s[0]] + s[1..] && s[..k] == [s[0]] + s[1..][..k - 1];
      k
  }

  /** Erases the element at position `k`. */
  function Erase<T>(s: seq<T>, k: nat): (r: seq<T>)
    requires k < |s|
    ensures |r| == |s| - 1
    ensures multiset(r) == multiset(s) - multiset{s[k]}
  {
    assert s == s[..k] + [s[k]] + s[k + 1..];
    s[..k] + s[k + 1..]
  }

  /** Octree::DeleteNode */
  function DeleteNode(al: Indices, index: nat): (r: Indices) {
    var k := Find(al.inUse, index);
    if k < |al.inUse| then al.(inUse := Erase(al.inUse, k), available := al.available + [index]) else al
  }

  // ---------- Adding and removing objects ----------

  /** The links of a tree: every child is the cube of its octant, one level down. */
  ghost predicate Shape(t: Tree)
  {
    && |t.kids| == 8
    && forall i {:trigger t.kids[i]} :: 0 <= i < 8 && t.kids[i].Some? ==>
         && t.depth > 0
         && t.kids[i].t.depth == t.depth - 1
         && t.kids[i].t.size == t.size / 2.0
         && t.kids[i].t.center == ChildCenter(t.center, t.size, i)
         && Shape(t.kids[i].t)
  }

  /** A node as OctreeNode::Create leaves it. */
  function Fresh(index: nat, center: Vec, size: real, depth: nat): (t: Tree)
    ensures Shape(t)
  {
    Node(index, center, size, depth, seq(8, _ => None), [])
  }

  /** push_back of an object that is not in the list yet. */
  function Listed(t: Tree, o: Obj): Tree {
    if o in t.objs then t else t.(objs := t.objs + [o])
  }

  predicate SameFrame(t: Tree, t': Tree) {
    t'.index == t.index && t'.center == t.center && t'.size == t.size && t'.depth == t.depth
  }

  /** OctreeNode::AddObject: the new tree, the pool's lists and the result. */
  function Add(t: Tree, o: Obj, al: Indices): (r: (Tree, Indices, bool))
    requires Shape(t)
    ensures Shape(r.0) && SameFrame(t, r.0)
    decreases t.depth, 9
  {
    if t.depth == 0 then (Listed(t, o), al, true)
    else
      var (t', al', ok) := AddBelow(t, 0, o, al, false);
      (if ok then Listed(t', o) else t', al', ok)
  }

  /** The child of octant `i`, created if it does not exist. */
  function KidFor(t: Tree, i: nat, al: Indices): (r: (Tree, Indices))
    requires Shape(t) && i < 8 && t.depth > 0
    ensures Shape(r.0) && r.0.depth == t.depth - 1 && r.0.size == t.size / 2.0
    ensures r.0.center == ChildCenter(t.center, t.size, i)
  {
    if t.kids[i].Some? then (t.kids[i].t, al)
    else
      var (al', index) := NewNode(al);
      (Fresh(index, ChildCenter(t.center, t.size, i), t.size / 2.0, t.depth - 1), al')
  }

  /** Addition to child `i`, which is created if it does not exist. */
  function AddKid(t: Tree, i: nat, o: Obj, al: Indices): (r: (Tree, Indices, bool))
    requires Shape(t) && i < 8 && t.depth > 0
    ensures Shape(r.0) && SameFrame(t, r.0) && r.0.objs == t.objs
    ensures forall k :: 0 <= k < 8 && k != i ==> r.0.kids[k] == t.kids[k]
    decreases t.depth, 8 - i, 0
  {
    var (kid, al1) := KidFor(t, i, al);
    var (kid', al2, ok') := Add(kid, o, al1);
    (t.(kids := t.kids[i := Some(kid')]), al2, ok')
  }

  /** The loop over the children in AddObject, from child `i` on. */
  function AddBelow(t: Tree, i: nat, o: Obj, al: Indices, ok: bool): (r: (Tree, Indices, bool))
    requires Shape(t) && i <= 8 && t.depth > 0
    ensures Shape(r.0) && SameFrame(t, r.0) && r.0.objs == t.objs
    decreases t.depth, 8 - i, 1
  {
    if i == 8 then (t, al, ok)
    else if !Meets(t.KidBox(i), o.box) then AddBelow(t, i + 1, o, al, ok)
    else
      var (t', al', ok') := AddKid(t, i, o, al);
      if ok' then AddBelow(t', i + 1, o, al', true) else (t', al', false)
  }

  function Unlisted(t: Tree, o: Obj): (t': Tree)
    ensures o !in t.objs ==> t' == t
  {
    var k := Find(t.objs, o);
    if k < |t.objs| then t.(objs := Erase(t.objs, k)) else t
  }

  /** OctreeNode::RemoveObject: the new tree, the pool's lists and the result. */
  function Remove(t: Tree, o: Obj, al: Indices): (r: (Tree, Indices, bool))
    requires Shape(t)
    ensures Shape(r.0) && SameFrame(t, r.0)
    decreases t.depth, 9
  {
    if t.depth == 0 then (Unlisted(t, o), al, o in t.objs)
    else RemoveBelow(Unlisted(t, o), 0, o, al, o in t.objs)
  }

  /** OctreeNode::Release for the children of a node: each is given back to the pool. */
  function ReleaseKids(t: Tree, i: nat, al: Indices): (r: Indices)
    requires |t.kids| == 8 && i <= 8
    decreases 8 - i
  {
    if i == 8 then al
    else ReleaseKids(t, i + 1, if t.kids[i].Some? then DeleteNode(al, t.kids[i].t.index) else al)
  }

  /** Removal from child `i`, which is given back to the pool if it lists nothing any more. */
  function RemoveKid(t: Tree, i: nat, o: Obj, al: Indices): (r: (Tree, Indices, bool))
    requires Shape(t) && i < 8 && t.kids[i].Some?
    ensures Shape(r.0) && SameFrame(t, r.0) && r.0.objs == t.objs
    ensures forall k :: 0 <= k < 8 && k != i ==> r.0.kids[k] == t.kids[k]
    decreases t.depth, 8 - i, 0
  {
    var (kid', al1, ok') := Remove(t.kids[i].t, o, al);
    var gone := ok' && kid'.objs == [];
    (t.(kids := t.kids[i := if gone then None else Some(kid')]),
     if gone then DeleteNode(ReleaseKids(kid', 0, al1), kid'.index) else al1,
     ok')
  }

  /** The loop over the children in RemoveObject, from child `i` on. */
  function RemoveBelow(t: Tree, i: nat, o: Obj, al: Indices, ok: bool): (r: (Tree, Indices, bool))
    requires Shape(t) && i <= 8 && t.depth > 0
    ensures Shape(r.0) && SameFrame(t, r.0) && r.0.objs == t.objs
    decreases t.depth, 8 - i, 1
  {
    if i == 8 then (t, al, ok)
    else if t.kids[i].None? || !Meets(t.KidBox(i), o.box) then RemoveBelow(t, i + 1, o, al, ok)
    else
      var (t', al', ok') := RemoveKid(t, i, o, al);
      if ok' then RemoveBelow(t', i + 1, o, al', true) else (t', al', false)
  }
}
