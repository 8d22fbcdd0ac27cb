/** The pool indices of an octree, and what holds after any run of additions and removals. */
module OctreeIndices {
  import opened Geometry
  import opened OctreeTree
  import opened OctreePlacement

  // ---------- Index lists ----------

  /** How often index `x` is in use. */
  function Used(al: Indices, x: nat): nat {
    multiset(al.inUse)[x]
  }

  function Spare(al: Indices, x: nat): nat {
    multiset(al.available)[x]
  }

  /** m_vInUse and m_vAvailable together hold every pool index exactly once. */
  ghost predicate Partition(al: Indices) {
    forall x: nat :: Used(al, x) + Spare(al, x) == if x < al.count then 1 else 0
  }

  /** Moving the last available index to the list in use. */
  lemma TakeLast(al: Indices, x: nat)
    requires al.available != []
    ensures var (al', index) := NewNode(al);
      && Used(al', x) == Used(al, x) + (if x == index then 1 else 0)
      && Spare(al', x) == Spare(al, x) - (if x == index then 1 else 0)
  {
    var (al', index) := NewNode(al);
    assert al.available == al'.available + [index];
    assert multiset(al'.inUse) == multiset(al.inUse) + multiset{index};
    assert multiset(al.available) == multiset(al'.available) + multiset{index};
  }

  lemma NewNodeKeeps(al: Indices)
    requires Partition(al)
    ensures var (al', index) := NewNode(al);
      && Partition(al') && index < al'.count && Used(al, index) == 0 && Spare(al', index) == 0
      && (if al.available == [] then index == al.count && al'.count == al.count + 1
          else index < al.count && al'.count == al.count && Spare(al, index) > 0)
      && forall x: nat :: Used(al', x) == Used(al, x) + if x == index then 1 else 0
  {
    var grown := if al.available != [] then al else al.(count := al.count + 1, available := [al.count]);
    var (al', index) := NewNode(al);
    assert NewNode(grown) == NewNode(al);
    forall x: nat
      ensures Used(grown, x) + Spare(grown, x) == if x < grown.count then 1 else 0
    {
      assert Used(al, x) + Spare(al, x) == if x < al.count then 1 else 0;
    }
    forall x: nat
      ensures Used(al', x) == Used(grown, x) + (if x == index then 1 else 0)
      ensures Spare(al', x) == Spare(grown, x) - (if x == index then 1 else 0)
    {
      TakeLast(grown, x);
    }
    assert Spare(grown, index) >= 1;
  }

  lemma DeleteNodeKeeps(al: Indices, index: nat)
    requires Partition(al) && Used(al, index) > 0
    ensures Partition(DeleteNode(al, index)) && DeleteNode(al, index).count == al.count
    ensures forall x :: Used(DeleteNode(al, index), x) == Used(al, x) - if x == index then 1 else 0
  {
    var k := Find(al.inUse, index);
    var al' := DeleteNode(al, index);
    forall x: nat
      ensures Used(al', x) == Used(al, x) - (if x == index then 1 else 0)
      ensures Spare(al', x) == Spare(al, x) + if x == index then 1 else 0
    {
      assert multiset(al'.inUse) == multiset(al.inUse) - multiset{al.inUse[k]};
    }
  }

  // ---------- The indices of a tree ----------

  /** How many nodes of the tree have index `x`. */
  function Occ(t: Tree, x: nat): nat
  {
    (if t.index == x then 1 else 0) + KidsOcc(t.kids, x)
  }

  function KidOcc(kid: Kid, x: nat): nat {
    if kid.Some? then Occ(kid.t, x) else 0
  }

  function KidsOcc(kids: seq<Kid>, x: nat): nat
  {
    if kids == [] then 0 else KidOcc(kids[0], x) + KidsOcc(kids[1..], x)
  }

  lemma {:induction false} KidsOccUpdate(kids: seq<Kid>, i: nat, kid: Kid, x: nat)
    requires i < |kids|
    ensures KidsOcc(kids[i := kid], x) + KidOcc(kids[i], x) == KidsOcc(kids, x) + KidOcc(kid, x)
    ensures KidOcc(kids[i], x) <= KidsOcc(kids, x)
    decreases |kids|
  {
    if i > 0 {
      assert kids[i := kid][1..] == kids[1..][i - 1 := kid];
      KidsOccUpdate(kids[1..], i - 1, kid, x);
    } else {
      assert kids[i := kid][1..] == kids[1..];
    }
  }

  lemma {:induction false} NoKidsOcc(kids: seq<Kid>, x: nat)
    requires forall i :: 0 <= i < |kids| ==> kids[i].None?
    ensures KidsOcc(kids, x) == 0
    decreases |kids|
  {
    if kids != [] { NoKidsOcc(kids[1..], x); }
  }

  ghost predicate Owns(al: Indices, t: Tree) {
    Partition(al) && forall x: nat :: Occ(t, x) <= Used(al, x)
  }

  /** The lists changed exactly as the tree did. */
  ghost predicate Balanced(t: Tree, al: Indices, t': Tree, al': Indices) {
    Partition(al') && forall x: nat :: Used(al', x) + Occ(t, x) == Used(al, x) + Occ(t', x)
  }

  /** Replacing child `i` by one that is balanced with it keeps the whole tree balanced. */
  lemma BalancedKid(t: Tree, al: Indices, i: nat, kid: Kid, al': Indices)
    requires |t.kids| == 8 && i < 8 && Partition(al')
    requires forall x: nat :: Used(al', x) + KidOcc(t.kids[i], x) == Used(al, x) + KidOcc(kid, x)
    ensures Balanced(t, al, t.(kids := t.kids[i := kid]), al')
  {
    var t' := t.(kids := t.kids[i := kid]);
    forall x: nat
      ensures Used(al', x) + Occ(t, x) == Used(al, x) + Occ(t', x)
    {
      KidsOccUpdate(t.kids, i, kid, x);
    }
  }

  lemma OwnsKid(al: Indices, t: Tree, i: nat)
    requires Owns(al, t) && i < |t.kids| && t.kids[i].Some?
    ensures Owns(al, t.kids[i].t)
  {
    forall x: nat
      ensures Occ(t.kids[i].t, x) <= Used(al, x)
    {
      KidsOccUpdate(t.kids, i, None, x);
      assert Occ(t, x) <= Used(al, x);
    }
  }

  lemma {:induction false} AddBalanced(t: Tree, o: Obj, al: Indices)
    requires Shape(t) && Partition(al)
    ensures Balanced(t, al, Add(t, o, al).0, Add(t, o, al).1)
    decreases t.depth, 9
  {
    if t.depth > 0 { AddBelowBalanced(t, 0, o, al, false); }
  }

  lemma KidForBalanced(t: Tree, i: nat, al: Indices)
    requires Shape(t) && i < 8 && t.depth > 0 && Partition(al)
    ensures var (kid, al1) := KidFor(t, i, al);
      Partition(al1) && forall x: nat :: Used(al1, x) + KidOcc(t.kids[i], x) == Used(al, x) + Occ(kid, x)
  {
    if t.kids[i].None? {
      NewNodeKeeps(al);
      var kid := KidFor(t, i, al).0;
      forall x: nat
        ensures Occ(kid, x) == if x == kid.index then 1 else 0
      {
        NoKidsOcc(kid.kids, x);
      }
    }
  }

  lemma {:induction false} AddBelowBalanced(t: Tree, i: nat, o: Obj, al: Indices, ok: bool)
    requires Shape(t) && i <= 8 && t.depth > 0 && Partition(al)
    ensures Balanced(t, al, AddBelow(t, i, o, al, ok).0, AddBelow(t, i, o, al, ok).1)
    decreases t.depth, 8 - i
  {
    if i < 8 {
      if !Meets(t.KidBox(i), o.box) {
        AddBelowBalanced(t, i + 1, o, al, ok);
      } else {
        var (kid, al1) := KidFor(t, i, al);
        var (kid', al2, ok') := Add(kid, o, al1);
        KidForBalanced(t, i, al);
        AddBalanced(kid, o, al1);
        BalancedKid(t, al, i, Some(kid'), al2);
        if ok' { AddBelowBalanced(t.(kids := t.kids[i := Some(kid')]), i + 1, o, al2, true); }
      }
    }
  }

  // ---------- Removing ----------

  lemma {:induction false} ReleaseNothing(t: Tree, i: nat, al: Indices)
    requires |t.kids| == 8 && i <= 8 && forall k :: 0 <= k < 8 ==> t.kids[k].None?
    ensures ReleaseKids(t, i, al) == al
    decreases 8 - i
  {
    if i < 8 { ReleaseNothing(t, i + 1, al); }
  }

  lemma {:induction false} RemoveBalanced(t: Tree, o: Obj, al: Indices, S: set<Obj>)
    requires Shape(t) && t.size >= 0.0 && Placed(t, S) && AllOrdered(S) && Owns(al, t)
    ensures Balanced(t, al, Remove(t, o, al).0, Remove(t, o, al).1)
    decreases t.depth, 9
  {
    var t1 := Unlisted(t, o);
    assert forall x: nat :: Occ(t1, x) == Occ(t, x);
    if t.depth > 0 {
      KidsSame(t, t1, 0, 8, S);
      RemoveBelowBalanced(t1, 0, o, al, o in t.objs, S);
    }
  }

  lemma {:induction false} RemoveBelowBalanced(t: Tree, i: nat, o: Obj, al: Indices, ok: bool, S: set<Obj>)
    requires Shape(t) && t.size >= 0.0 && i <= 8 && t.depth > 0 && AllOrdered(S) && Owns(al, t)
    requires KidsPlaced(t, i, 8, S)
    ensures Balanced(t, al, RemoveBelow(t, i, o, al, ok).0, RemoveBelow(t, i, o, al, ok).1)
    decreases t.depth, 8 - i, 1
  {
    if i < 8 {
      if t.kids[i].None? || !Meets(t.KidBox(i), o.box) {
        RemoveBelowBalanced(t, i + 1, o, al, ok, S);
      } else {
        assert KidPlaced(t, i, S);
        RemoveKidBalanced(t, i, o, al, S);
        var (t', al', ok') := RemoveKid(t, i, o, al);
        if ok' {
          KidsSame(t, t', i + 1, 8, S);
          OwnsAfter(t, al, t', al');
          RemoveBelowBalanced(t', i + 1, o, al', true, S);
          BalancedTrans(t, al, t', al', RemoveBelow(t', i + 1, o, al', true).0, RemoveBelow(t', i + 1, o, al', true).1);
        }
      }
    }
  }

  lemma {:induction false} RemoveKidBalanced(t: Tree, i: nat, o: Obj, al: Indices, S: set<Obj>)
    requires Shape(t) && t.size >= 0.0 && i < 8 && t.kids[i].Some? && AllOrdered(S) && Owns(al, t) && KidPlaced(t, i, S)
    ensures Balanced(t, al, RemoveKid(t, i, o, al).0, RemoveKid(t, i, o, al).1)
    decreases t.depth, 8 - i, 0
  {
    var (kid', al1, ok') := Remove(t.kids[i].t, o, al);
    OwnsKid(al, t, i);
    RemoveBalanced(t.kids[i].t, o, al, S);
    RemovePlaced(t.kids[i].t, o, al, S);
    if ok' && kid'.objs == [] { ReleasedBalanced(t.kids[i].t, al, kid', S - {o}, al1); }
    BalancedKid(t, al, i, RemoveKid(t, i, o, al).0.kids[i], RemoveKid(t, i, o, al).1);
  }

  lemma BalancedTrans(t: Tree, al: Indices, t1: Tree, al1: Indices, t2: Tree, al2: Indices)
    requires Balanced(t, al, t1, al1) && Balanced(t1, al1, t2, al2)
    ensures Balanced(t, al, t2, al2)
  {
    forall x: nat
      ensures Used(al2, x) + Occ(t, x) == Used(al, x) + Occ(t2, x)
    {
      assert Used(al1, x) + Occ(t, x) == Used(al, x) + Occ(t1, x);
    }
  }

  lemma OwnsAfter(t: Tree, al: Indices, t': Tree, al': Indices)
    requires Owns(al, t) && Balanced(t, al, t', al')
    ensures Owns(al', t')
  {
    forall x: nat
      ensures Occ(t', x) <= Used(al', x)
    {
      assert Occ(t, x) <= Used(al, x);
    }
  }

  /** A child that lists nothing any more has no children, so giving it back returns all it owned. */
  lemma ReleasedBalanced(t: Tree, al: Indices, t': Tree, S: set<Obj>, al': Indices)
    requires Owns(al, t) && Balanced(t, al, t', al')
    requires Shape(t') && t'.size >= 0.0 && Placed(t', S) && t'.objs == []
    ensures var al2 := DeleteNode(ReleaseKids(t', 0, al'), t'.index);
            Partition(al2) && forall x: nat :: Used(al2, x) + Occ(t, x) == Used(al, x)
  {
    StillWanted(t', S);
    ReleaseNothing(t', 0, al');
    forall x: nat
      ensures Occ(t', x) == if x == t'.index then 1 else 0
    {
      NoKidsOcc(t'.kids, x);
    }
    OwnsAfter(t, al, t', al');
    assert Occ(t', t'.index) <= Used(al', t'.index);
    DeleteNodeKeeps(al', t'.index);
  }

  /** The pool hands out the index that was given back last, and grows by one if it has none. */
  lemma ReusesLast(al: Indices, x: nat)
    requires Partition(al) && Used(al, x) > 0
    ensures NewNode(DeleteNode(al, x)).1 == x && NewNode(DeleteNode(al, x)).0.available == al.available
    ensures al.available == [] ==> NewNode(al).1 == al.count
  {
    assert x in al.inUse;
    assert (al.available + [x])[..|al.available|] == al.available;
  }

  // ---------- Runs ----------

  datatype Call = AddCall(o: Obj) | RemoveCall(o: Obj)

  /** A whole octree: the tree below m_pRoot and the index lists of its pool. */
  datatype Snapshot = Snapshot(root: Tree, al: Indices)

  function Pow2(n: nat): (r: real)
    ensures r > 0.0
  {
    if n == 0 then 1.0 else 2.0 * Pow2(n - 1)
  }

  /** Octree::Create: the first node taken from the empty pool becomes the root. */
  function Create(center: Vec, leafSize: real, depth: nat): (r: Snapshot)
    requires leafSize > 0.0 && depth > 0
  {
    var (al, index) := NewNode(Indices(0, [], []));
    Snapshot(Fresh(index, center, leafSize * Pow2(depth), depth), al)
  }

  function Do(oct: Snapshot, call: Call): (r: Snapshot)
    requires Shape(oct.root)
    ensures Shape(r.root) && SameFrame(oct.root, r.root)
  {
    var (t, al, ok) := if call.AddCall? then Add(oct.root, call.o, oct.al) else Remove(oct.root, call.o, oct.al);
    Snapshot(t, al)
  }

  function DoAll(oct: Snapshot, calls: seq<Call>): (r: Snapshot)
    requires Shape(oct.root)
    ensures Shape(r.root) && SameFrame(oct.root, r.root)
  {
    if calls == [] then oct else Do(DoAll(oct, calls[..|calls| - 1]), calls[|calls| - 1])
  }

  /** The objects that were added and not removed since. */
  function Contents(calls: seq<Call>): (S: set<Obj>)
  {
    if calls == [] then {}
    else
      var S, c := Contents(calls[..|calls| - 1]), calls[|calls| - 1];
      if c.AddCall? then S + {c.o} else S - {c.o}
  }

  /** The state of an octree whose objects are `S`: the placement of the objects, and the pool's lists. */
  ghost predicate OctreeOk(oct: Snapshot, S: set<Obj>) {
    && Shape(oct.root) && oct.root.size > 0.0 && oct.root.depth > 0 && oct.root.index == 0
    && AllOrdered(S) && Placed(oct.root, S)
    && Partition(oct.al) && forall x: nat :: Used(oct.al, x) == Occ(oct.root, x)
  }

  lemma CreateOk(center: Vec, leafSize: real, depth: nat)
    requires leafSize > 0.0 && depth > 0
    ensures OctreeOk(Create(center, leafSize, depth), {})
  {
    var t := Create(center, leafSize, depth).root;
    assert Partition(Indices(0, [], []));
    NewNodeKeeps(Indices(0, [], []));
    forall x: nat
      ensures Occ(t, x) == if x == 0 then 1 else 0
    {
      NoKidsOcc(t.kids, x);
    }
    FreshPlaced(t.index, center, t.size, depth, {});
  }

  lemma AddOk(oct: Snapshot, o: Obj, S: set<Obj>)
    requires OctreeOk(oct, S) && o.box.Ordered()
    ensures OctreeOk(Do(oct, AddCall(o)), S + {o})
    ensures Add(oct.root, o, oct.al).2 == Meets(oct.root.Cell(), o.box)
  {
    AddPlaced(oct.root, o, oct.al, S);
    AddBalanced(oct.root, o, oct.al);
  }

  lemma RemoveOk(oct: Snapshot, o: Obj, S: set<Obj>)
    requires OctreeOk(oct, S)
    ensures OctreeOk(Do(oct, RemoveCall(o)), S - {o})
    ensures Remove(oct.root, o, oct.al).2 == (o in S && Meets(oct.root.Cell(), o.box))
  {
    RemovePlaced(oct.root, o, oct.al, S);
    RemoveBalanced(oct.root, o, oct.al, S);
  }

  /** After any run of additions and removals of objects with ordered boxes, the tree is the one that the remaining
      objects call for, and the pool's lists hold exactly the indices of its nodes as in use.
   */
  lemma {:induction false} RunOk(center: Vec, leafSize: real, depth: nat, calls: seq<Call>)
    requires leafSize > 0.0 && depth > 0
    requires forall i :: 0 <= i < |calls| && calls[i].AddCall? ==> calls[i].o.box.Ordered()
    ensures OctreeOk(DoAll(Create(center, leafSize, depth), calls), Contents(calls))
  {
    if calls == [] {
      CreateOk(center, leafSize, depth);
    } else {
      var before, c := calls[..|calls| - 1], calls[|calls| - 1];
      RunOk(center, leafSize, depth, before);
      var oct := DoAll(Create(center, leafSize, depth), before);
      if c.AddCall? { AddOk(oct, c.o, Contents(before)); } else { RemoveOk(oct, c.o, Contents(before)); }
    }
  }

  // ---------- Reading the result ----------

  /** `n` is a node of the tree `t`. */
  ghost predicate IsNode(n: Tree, t: Tree)
  {
    n == t || exists i {:trigger t.kids[i]} :: 0 <= i < |t.kids| && t.kids[i].Some? && IsNode(n, t.kids[i].t)
  }

  /** At every live node, an object is listed exactly once iff it is in the index and its box shares a point with the
      node's cell; and every live node but the root lists something.
   */
  lemma {:induction false} EveryNodeExact(t: Tree, S: set<Obj>, n: Tree)
    requires Shape(t) && t.size >= 0.0 && Placed(t, S) && AllOrdered(S) && IsNode(n, t)
    ensures Distinct(n.objs)
    ensures forall o :: o in n.objs <==> o in S && exists p :: n.Cell().Contains(p) && o.box.Contains(p)
    ensures n != t ==> n.objs != []
    decreases t
  {
    if n == t {
      forall o | o in S
        ensures Meets(n.Cell(), o.box) <==> exists p :: n.Cell().Contains(p) && o.box.Contains(p)
      {
        MeetsIsSharing(n.Cell(), o.box);
      }
    } else {
      var i :| 0 <= i < |t.kids| && t.kids[i].Some? && IsNode(n, t.kids[i].t);
      assert KidPlaced(t, i, S);
      KidCell(t, i);
      StillWanted(t.kids[i].t, S);
      EveryNodeExact(t.kids[i].t, S, n);
    }
  }

  /** No two nodes share a pool index, no child has the index 0 that stands for "no child", and every other index of the
      pool is available.
   */
  lemma IndicesDistinct(oct: Snapshot, S: set<Obj>, x: nat)
    requires OctreeOk(oct, S)
    ensures Occ(oct.root, x) <= 1 && KidsOcc(oct.root.kids, 0) == 0
    ensures Occ(oct.root, x) + Spare(oct.al, x) == if x < oct.al.count then 1 else 0
  {
    assert Used(oct.al, x) + Spare(oct.al, x) == if x < oct.al.count then 1 else 0;
    assert Used(oct.al, 0) + Spare(oct.al, 0) == if 0 < oct.al.count then 1 else 0;
  }
}
