/** The octree in place: a pool of node objects named by index, changed by the methods of Core/Octree.cpp and
    Core/OctreeNode.cpp. The methods are proved against the functions of OctreeTree.
*/
module OctreeHeap {
  import opened Geometry
  import opened OctreeTree
  import opened OctreePlacement
  import opened OctreeIndices
  import opened OctreeCube

  /** The pool `recs` holds the nodes of `t` under their indices. */
  ghost predicate Rep(recs: seq<Rec>, t: Tree)
  {
    && t.index < |recs| && recs[t.index] == RecOf(t)
    && forall i {:trigger t.kids[i]} :: 0 <= i < |t.kids| && t.kids[i].Some? ==>
         t.kids[i].t.index != 0 && Rep(recs, t.kids[i].t)
  }

  /** Available nodes have no children, so that Create can release them. */
  ghost predicate Blank(recs: seq<Rec>, al: Indices) {
    forall x {:trigger recs[x]} :: 0 <= x < |recs| && Spare(al, x) > 0 ==> Bare(recs[x])
  }

  predicate Bare(r: Rec) {
    forall k :: 0 <= k < |r.children| ==> r.children[k] == 0
  }

  /** The state in which a node of the tree may be changed. */
  ghost predicate Ready(recs: seq<Rec>, al: Indices, t: Tree) {
    && Shape(t) && Owns(al, t) && Rep(recs, t) && |recs| == al.count && Used(al, 0) > 0 && Blank(recs, al)
  }

  /** Nodes in use outside the tree `t` are the same in both pools. */
  ghost predicate Framed(recs: seq<Rec>, al: Indices, t: Tree, recs': seq<Rec>) {
    && |recs| <= |recs'|
    && forall x {:trigger recs[x]} {:trigger recs'[x]} :: 0 <= x < |recs| && Used(al, x) > 0 && Occ(t, x) == 0 ==>
      recs'[x] == recs[x]
  }

  // ---------- Facts about the representation ----------

  lemma KidOccLess(t: Tree, i: nat, x: nat)
    requires i < |t.kids| && t.kids[i].Some?
    ensures Occ(t.kids[i].t, x) + (if t.index == x then 1 else 0) <= Occ(t, x)
  {
    KidsOccUpdate(t.kids, i, None, x);
  }

  lemma {:induction false} RepFrame(recs: seq<Rec>, recs': seq<Rec>, t: Tree)
    requires Rep(recs, t)
    requires forall x {:trigger Occ(t, x)} :: 0 <= x < |recs| && Occ(t, x) > 0 ==> x < |recs'| && recs'[x] == recs[x]
    ensures Rep(recs', t)
    decreases t
  {
    assert Occ(t, t.index) > 0;
    forall i | 0 <= i < |t.kids| && t.kids[i].Some?
      ensures Rep(recs', t.kids[i].t)
    {
      forall x | 0 <= x < |recs| && Occ(t.kids[i].t, x) > 0
        ensures x < |recs'| && recs'[x] == recs[x]
      {
        KidOccLess(t, i, x);
        assert Occ(t, x) > 0;
      }
      RepFrame(recs, recs', t.kids[i].t);
    }
  }

  /** Two different children have different indices, and both differ from their parent. */
  lemma KidsApart(al: Indices, t: Tree, i: nat, j: nat, x: nat)
    requires Owns(al, t) && i < |t.kids| && j < |t.kids| && i != j && t.kids[j].Some?
    requires Occ(t.kids[j].t, x) > 0
    ensures KidOcc(t.kids[i], x) == 0 && t.index != x && Used(al, x) > 0
  {
    assert Used(al, x) + Spare(al, x) == if x < al.count then 1 else 0;
    assert Occ(t, x) <= Used(al, x);
    KidsOccUpdate(t.kids, i, None, x);
    assert t.kids[i := None][j] == t.kids[j];
    KidsOccUpdate(t.kids[i := None], j, None, x);
  }

  /** Nodes in use outside child `i` of `t`, and other than `t` itself, are the same in both pools. */
  ghost predicate KidFramed(recs: seq<Rec>, al: Indices, t: Tree, i: nat, recs': seq<Rec>)
    requires i < |t.kids|
  {
    && |recs| <= |recs'|
    && forall x {:trigger recs[x]} {:trigger recs'[x]} ::
         0 <= x < |recs| && Used(al, x) > 0 && KidOcc(t.kids[i], x) == 0 && x != t.index ==> recs'[x] == recs[x]
  }

  /** Replacing one child, when everything else of the tree is still in the pool. */
  lemma RepKid(recs: seq<Rec>, al: Indices, t: Tree, i: nat, recs': seq<Rec>, kid: Kid)
    requires Owns(al, t) && Rep(recs, t) && i < |t.kids| && KidFramed(recs, al, t, i, recs')
    requires recs'[t.index] == RecOf(t.(kids := t.kids[i := kid]))
    requires kid.Some? ==> kid.t.index != 0 && Rep(recs', kid.t)
    ensures Rep(recs', t.(kids := t.kids[i := kid]))
  {
    var t' := t.(kids := t.kids[i := kid]);
    forall j | 0 <= j < |t'.kids| && t'.kids[j].Some?
      ensures t'.kids[j].t.index != 0 && Rep(recs', t'.kids[j].t)
    {
      if j != i {
        forall x | 0 <= x < |recs| && Occ(t.kids[j].t, x) > 0
          ensures recs'[x] == recs[x]
        {
          KidsApart(al, t, i, j, x);
          assert recs[x] == recs[x];
        }
        RepFrame(recs, recs', t.kids[j].t);
      }
    }
  }

  /** What is framed by a child and its parent node is framed by the parent's tree. */
  lemma FramedByKid(recs: seq<Rec>, al: Indices, t: Tree, i: nat, recs': seq<Rec>)
    requires i < |t.kids| && KidFramed(recs, al, t, i, recs')
    ensures Framed(recs, al, t, recs')
  {
    forall x {:trigger recs[x]} | 0 <= x < |recs| && Used(al, x) > 0 && Occ(t, x) == 0
      ensures recs'[x] == recs[x]
    {
      KidsOccUpdate(t.kids, i, None, x);
    }
  }

  lemma FramedRefl(recs: seq<Rec>, al: Indices, t: Tree)
    requires Partition(al)
    ensures Framed(recs, al, t, recs) && Balanced(t, al, t, al)
  {
  }

  lemma FramedTrans(recs: seq<Rec>, al: Indices, t: Tree, recs1: seq<Rec>, al1: Indices, t1: Tree, recs2: seq<Rec>)
    requires Partition(al) && Framed(recs, al, t, recs1) && Balanced(t, al, t1, al1) && Framed(recs1, al1, t1, recs2)
    ensures Framed(recs, al, t, recs2)
  {
    forall x {:trigger recs[x]} | 0 <= x < |recs| && Used(al, x) > 0 && Occ(t, x) == 0
      ensures recs2[x] == recs[x]
    {
      assert Used(al, x) + Spare(al, x) == if x < al.count then 1 else 0;
      assert Used(al1, x) + Spare(al1, x) == if x < al1.count then 1 else 0;
      assert Used(al1, x) + Occ(t, x) == Used(al, x) + Occ(t1, x);
      assert recs1[x] == recs[x];
    }
  }

  /** A node that is taken from the pool to become a child is not in use, and has no children. */
  lemma NewChildApart(recs: seq<Rec>, al: Indices, t: Tree, i: nat)
    requires Ready(recs, al, t) && i < 8 && t.depth > 0 && t.kids[i].None?
    ensures var index := KidFor(t, i, al).0.index;
            index == OctreeTree.NewNode(al).1 && index != t.index && index != 0
              && (index < |recs| ==> Bare(recs[index]))
            && index < OctreeTree.NewNode(al).0.count && (index < |recs| || index == |recs|)
  {
    NewNodeKeeps(al);
    assert Occ(t, t.index) <= Used(al, t.index);
  }

  /** The pool after a missing child was created in it. */
  lemma ChildCreated(recs: seq<Rec>, al: Indices, t: Tree, i: nat, recs': seq<Rec>)
    requires Ready(recs, al, t) && i < 8 && t.depth > 0 && t.kids[i].None?
    requires var (kid, al1) := KidFor(t, i, al);
      && |recs'| == al1.count && kid.index < |recs'| && recs'[t.index] == RecOf(t.(kids := t.kids[i := Some(kid)]))
        && recs'[kid.index] == RecOf(kid)
      && forall x {:trigger recs[x]} {:trigger recs'[x]} ::
           0 <= x < |recs| && x != kid.index && x != t.index ==> recs'[x] == recs[x]
    ensures var (kid, al1) := KidFor(t, i, al);
      Ready(recs', al1, t.(kids := t.kids[i := Some(kid)])) && Framed(recs, al, t, recs')
  {
    var (kid, al1) := KidFor(t, i, al);
    NewNodeKeeps(al);
    KidForBalanced(t, i, al);
    BalancedKid(t, al, i, Some(kid), al1);
    OwnsAfter(t, al, t.(kids := t.kids[i := Some(kid)]), al1);
    RepKid(recs, al, t, i, recs', Some(kid));
    FramedByKid(recs, al, t, i, recs');
    forall x {:trigger recs'[x]} | 0 <= x < |recs'| && Spare(al1, x) > 0
      ensures Bare(recs'[x])
    {
      assert Used(al, x) + Spare(al, x) == if x < al.count then 1 else 0;
      assert Used(al1, x) + Spare(al1, x) == if x < al1.count then 1 else 0;
      assert Occ(t, t.index) <= Used(al, t.index);
      assert recs'[x] == recs[x];
    }
  }

  lemma ChildReady(recs: seq<Rec>, al: Indices, t: Tree, i: nat)
    requires Ready(recs, al, t) && i < 8 && t.kids[i].Some?
    ensures Ready(recs, al, t.kids[i].t) && t.index < |recs| && i < |recs[t.index].children|
    ensures recs[t.index].children[i] == t.kids[i].t.index
  {
    OwnsKid(al, t, i);
  }

  /** The pool of the parent after a change confined to one of its children. */
  lemma ChildChanged(recs: seq<Rec>, al: Indices, t: Tree, i: nat, recs': seq<Rec>, al': Indices, kid: Kid)
    requires Ready(recs, al, t) && i < 8 && t.kids[i].Some? && kid.Some? && SameFrame(t.kids[i].t, kid.t)
    requires Framed(recs, al, t.kids[i].t, recs') && Ready(recs', al', kid.t) && Balanced(t.kids[i].t, al, kid.t, al')
    ensures Ready(recs', al', t.(kids := t.kids[i := kid])) && Framed(recs, al, t, recs')
  {
    var t' := t.(kids := t.kids[i := kid]);
    assert Occ(t, t.index) <= Used(al, t.index);
    assert Used(al, t.index) + Spare(al, t.index) == if t.index < al.count then 1 else 0;
    KidOccLess(t, i, t.index);
    assert recs'[t.index] == recs[t.index];
    assert Links(t'.kids) == Links(t.kids);
    BalancedKid(t, al, i, kid, al');
    OwnsAfter(t, al, t', al');
    RepKid(recs, al, t, i, recs', kid);
    FramedByKid(recs, al, t, i, recs');
  }

  /** Changing the object list of the root of a tree. */
  lemma ObjectsChanged(recs: seq<Rec>, al: Indices, t: Tree, objs: seq<Obj>)
    requires Ready(recs, al, t)
    ensures var recs' := recs[t.index := recs[t.index].(objects := objs)];
            Ready(recs', al, t.(objs := objs)) && Framed(recs, al, t, recs')
  {
    var recs', t' := recs[t.index := recs[t.index].(objects := objs)], t.(objs := objs);
    assert Occ(t, t.index) <= Used(al, t.index);
    assert Used(al, t.index) + Spare(al, t.index) == if t.index < al.count then 1 else 0;
    forall i | 0 <= i < |t.kids| && t.kids[i].Some?
      ensures Rep(recs', t.kids[i].t)
    {
      forall x | 0 <= x < |recs| && Occ(t.kids[i].t, x) > 0
        ensures recs'[x] == recs[x]
      {
        KidOccLess(t, i, x);
        assert Occ(t, x) <= Used(al, x);
        assert Used(al, x) + Spare(al, x) == if x < al.count then 1 else 0;
      }
      RepFrame(recs, recs', t.kids[i].t);
    }
    assert forall x: nat :: Occ(t', x) == Occ(t, x);
    assert Shape(t');
    forall x {:trigger recs'[x]} | 0 <= x < |recs'| && Spare(al, x) > 0
      ensures Bare(recs'[x])
    {
      assert Bare(recs[x]);
    }
  }

  lemma AddKidBalanced(t: Tree, i: nat, o: Obj, al: Indices)
    requires Shape(t) && i < 8 && t.depth > 0 && Partition(al)
    ensures Balanced(t, al, AddKid(t, i, o, al).0, AddKid(t, i, o, al).1)
  {
    var (kid, al1) := KidFor(t, i, al);
    KidForBalanced(t, i, al);
    AddBalanced(kid, o, al1);
    BalancedKid(t, al, i, Some(Add(kid, o, al1).0), Add(kid, o, al1).1);
  }

  lemma AddedToChild(recs: seq<Rec>, al: Indices, t: Tree, i: nat, o: Obj, recs1: seq<Rec>, recs2: seq<Rec>)
    requires Shape(t) && i < 8 && t.depth > 0 && Partition(al) && Framed(recs, al, t, recs1)
    requires var (kid, al1) := KidFor(t, i, al);
             && Ready(recs1, al1, t.(kids := t.kids[i := Some(kid)]))
             && Ready(recs2, Add(kid, o, al1).1, Add(kid, o, al1).0) && Framed(recs1, al1, kid, recs2)
    ensures Ready(recs2, AddKid(t, i, o, al).1, AddKid(t, i, o, al).0) && Framed(recs, al, t, recs2)
  {
    var (kid, al1) := KidFor(t, i, al);
    var (kid', al2, _) := Add(kid, o, al1);
    var t1 := t.(kids := t.kids[i := Some(kid)]);
    KidForBalanced(t, i, al);
    BalancedKid(t, al, i, Some(kid), al1);
    AddBalanced(kid, o, al1);
    assert t1.kids[i].t == kid && t1.kids[i := Some(kid')] == t.kids[i := Some(kid')];
    ChildChanged(recs1, al1, t1, i, recs2, al2, Some(kid'));
    FramedTrans(recs, al, t, recs1, al1, t1, recs2);
  }

  lemma RemovedInLoop(recs: seq<Rec>, al: Indices, t: Tree, recs1: seq<Rec>, al1: Indices, cur: Tree, i: nat, o: Obj,
                      S: set<Obj>, recs2: seq<Rec>)
    requires Partition(al) && Framed(recs, al, t, recs1) && Balanced(t, al, cur, al1)
    requires Ready(recs1, al1, cur) && cur.size >= 0.0 && i < 8 && cur.kids[i].Some? && Framed(recs1, al1, cur, recs2)
    requires KidsPlaced(cur, i, 8, S) && AllOrdered(S)
    ensures Framed(recs, al, t, recs2) && Balanced(t, al, RemoveKid(cur, i, o, al1).0, RemoveKid(cur, i, o, al1).1)
    ensures KidsPlaced(RemoveKid(cur, i, o, al1).0, i + 1, 8, S)
  {
    assert KidPlaced(cur, i, S);
    RemoveKidBalanced(cur, i, o, al1, S);
    BalancedTrans(t, al, cur, al1, RemoveKid(cur, i, o, al1).0, RemoveKid(cur, i, o, al1).1);
    FramedTrans(recs, al, t, recs1, al1, cur, recs2);
    KidsSame(cur, RemoveKid(cur, i, o, al1).0, i + 1, 8, S);
  }

  /** Rounds of a loop over the children compose. */
  lemma RoundsFramed(recs: seq<Rec>, al: Indices, t: Tree, recs1: seq<Rec>, al1: Indices, t1: Tree,
                     recs2: seq<Rec>, al2: Indices, t2: Tree)
    requires Partition(al) && Framed(recs, al, t, recs1) && Balanced(t, al, t1, al1)
    requires Framed(recs1, al1, t1, recs2) && Balanced(t1, al1, t2, al2)
    ensures Framed(recs, al, t, recs2) && Balanced(t, al, t2, al2)
  {
    BalancedTrans(t, al, t1, al1, t2, al2);
    FramedTrans(recs, al, t, recs1, al1, t1, recs2);
  }

  /** A change of the tree `t` that is under way: `cur` is its present state. */
  ghost predicate Progress(recs: seq<Rec>, al: Indices, t: Tree, recs1: seq<Rec>, al1: Indices, cur: Tree) {
    && Partition(al) && Ready(recs1, al1, cur) && SameFrame(t, cur)
    && Framed(recs, al, t, recs1) && Balanced(t, al, cur, al1)
  }

  lemma ProgressFacts(recs: seq<Rec>, al: Indices, t: Tree, recs1: seq<Rec>, al1: Indices, cur: Tree)
    requires Progress(recs, al, t, recs1, al1, cur)
    ensures Ready(recs1, al1, cur) && SameFrame(t, cur) && Shape(cur) && Framed(recs, al, t, recs1)
  {
  }

  lemma ProgressStart(recs: seq<Rec>, al: Indices, t: Tree)
    requires Ready(recs, al, t)
    ensures Progress(recs, al, t, recs, al, t) && Shape(t) && SameFrame(t, t)
  {
    FramedRefl(recs, al, t);
  }

  lemma ProgressStep(recs: seq<Rec>, al: Indices, t: Tree, recs1: seq<Rec>, al1: Indices, t1: Tree,
                     recs2: seq<Rec>, al2: Indices, t2: Tree)
    requires Progress(recs, al, t, recs1, al1, t1) && SameFrame(t1, t2)
    requires Ready(recs2, al2, t2) && Framed(recs1, al1, t1, recs2) && Balanced(t1, al1, t2, al2)
    ensures Progress(recs, al, t, recs2, al2, t2)
  {
    RoundsFramed(recs, al, t, recs1, al1, t1, recs2, al2, t2);
  }

  /** The result of the loop in AddObject, from the state before round `k`. */
  function AddFrom(t: Tree, k: nat, o: Obj, al: Indices, ok: bool, stop: bool): (Tree, Indices, bool)
    requires Shape(t) && k <= 8 && t.depth > 0
  {
    if stop then (t, al, ok) else AddBelow(t, k, o, al, ok)
  }

  lemma AddFromStart(t: Tree, o: Obj, al: Indices)
    requires Shape(t) && t.depth > 0
    ensures AddFrom(t, 0, o, al, false, false) == AddBelow(t, 0, o, al, false)
  {
  }

  /** One round. */
  lemma AddFromStep(t: Tree, k: nat, o: Obj, al: Indices, ok: bool, t': Tree, al': Indices, ok': bool, stop': bool)
    requires Shape(t) && k < 8 && t.depth > 0
    requires var meets := Meets(t.KidBox(k), o.box);
             (t', al', ok') == (if meets then AddKid(t, k, o, al) else (t, al, ok)) && stop' == (meets && !ok')
    ensures Shape(t') && SameFrame(t, t') && AddFrom(t', k + 1, o, al', ok', stop') == AddFrom(t, k, o, al, ok, false)
  {
    hide AddKid, Meets;
  }

  lemma AddFromEnd(t: Tree, k: nat, o: Obj, al: Indices, ok: bool, stop: bool)
    requires Shape(t) && k <= 8 && t.depth > 0 && (k == 8 || stop)
    ensures AddFrom(t, k, o, al, ok, stop) == (t, al, ok)
  {
  }

  /** The pool after a removal from child `i`, before the child is given back. */
  lemma RemovedFromChild(recs: seq<Rec>, al: Indices, t: Tree, i: nat, o: Obj, S: set<Obj>, recs1: seq<Rec>)
    requires Ready(recs, al, t) && t.size >= 0.0 && i < 8 && t.kids[i].Some? && KidPlaced(t, i, S) && AllOrdered(S)
    requires var kid := t.kids[i].t;
             Ready(recs1, Remove(kid, o, al).1, Remove(kid, o, al).0) && Framed(recs, al, kid, recs1)
    ensures var (kid', al1, _) := Remove(t.kids[i].t, o, al);
            var t1 := t.(kids := t.kids[i := Some(kid')]);
            && Ready(recs1, al1, t1) && Framed(recs, al, t, recs1) && Balanced(t, al, t1, al1)
            && Placed(kid', S - {o})
  {
    var (kid', al1, _) := Remove(t.kids[i].t, o, al);
    OwnsKid(al, t, i);
    RemoveBalanced(t.kids[i].t, o, al, S);
    RemovePlaced(t.kids[i].t, o, al, S);
    ChildChanged(recs, al, t, i, recs1, al1, Some(kid'));
    BalancedKid(t, al, i, Some(kid'), al1);
  }

  lemma SameAfterDrop(t: Tree, i: nat, kid: Tree)
    requires i < |t.kids|
    ensures var t1 := t.(kids := t.kids[i := Some(kid)]);
            t1.(kids := t1.kids[i := None]) == t.(kids := t.kids[i := None])
  {
    assert t.kids[i := Some(kid)][i := None] == t.kids[i := None];
  }

  /** A child that lists nothing has nothing to release. */
  lemma NothingToRelease(recs: seq<Rec>, al: Indices, kid: Tree, S: set<Obj>)
    requires Ready(recs, al, kid) && kid.objs == [] && kid.size >= 0.0 && Placed(kid, S)
    ensures kid.index < |recs| && ReleaseLinks(recs[kid.index].children, al) == ReleaseKids(kid, 0, al) == al
    ensures var al2 := OctreeTree.DeleteNode(al, kid.index);
            Partition(al2) && al2.count == al.count && forall x: nat :: Used(al2, x) + Occ(kid, x) == Used(al, x)
  {
    StillWanted(kid, S);
    ReleaseNothing(kid, 0, al);
    ReleaseBare(recs[kid.index].children, al);
    ReleasedBalanced(kid, al, kid, S, al);
    assert Occ(kid, kid.index) <= Used(al, kid.index);
    DeleteNodeKeeps(al, kid.index);
  }

  /** The pool after a child that lists nothing was given back. */
  lemma ChildDropped(recs: seq<Rec>, al: Indices, t: Tree, i: nat, S: set<Obj>)
    requires Ready(recs, al, t) && i < 8 && t.kids[i].Some?
    requires t.kids[i].t.objs == [] && t.kids[i].t.size >= 0.0 && Placed(t.kids[i].t, S)
    ensures var kid := t.kids[i].t;
            && kid.index < |recs| && t.index < |recs| && kid.index != t.index
            && ReleaseLinks(recs[kid.index].children, al) == ReleaseKids(kid, 0, al) == al
            && var recs1 := recs[kid.index := recs[kid.index].(children := [], objects := [])];
            && |recs1[t.index].children| == 8
            && var recs2 := recs1[t.index := recs1[t.index].(children := recs1[t.index].children[i := 0])];
            Ready(recs2, OctreeTree.DeleteNode(al, kid.index), t.(kids := t.kids[i := None]))
              && Framed(recs, al, t, recs2)
  {
    var kid := t.kids[i].t;
    ChildReady(recs, al, t, i);
    NothingToRelease(recs, al, kid, S);
    KidOccLess(t, i, t.index);
    KidOccLess(t, i, kid.index);
    ReadyNode(recs, al, t);
    KidNotParent(recs, al, t, i);
    var recs1 := recs[kid.index := recs[kid.index].(children := [], objects := [])];
    var recs2 := recs1[t.index := recs1[t.index].(children := recs1[t.index].children[i := 0])];
    ChildUnlinked(recs, al, t, i, recs2);
  }

  lemma KidNotParent(recs: seq<Rec>, al: Indices, t: Tree, i: nat)
    requires Ready(recs, al, t) && i < 8 && t.kids[i].Some?
    ensures t.kids[i].t.index != t.index && Used(al, t.index) > 0 && Used(al, t.kids[i].t.index) > 0
        && t.kids[i].t.index != 0
  {
    KidOccLess(t, i, t.index);
    KidOccLess(t, i, t.kids[i].t.index);
    assert Occ(t, t.index) <= Used(al, t.index) && Occ(t, t.kids[i].t.index) <= Used(al, t.kids[i].t.index);
    assert Used(al, t.index) + Spare(al, t.index) == if t.index < al.count then 1 else 0;
  }

  lemma ChildUnlinked(recs: seq<Rec>, al: Indices, t: Tree, i: nat, recs2: seq<Rec>)
    requires Ready(recs, al, t) && i < 8 && t.kids[i].Some? && |recs2| == |recs|
    requires var al2 := OctreeTree.DeleteNode(al, t.kids[i].t.index);
             Partition(al2) && al2.count == al.count
               && forall x: nat :: Used(al2, x) + Occ(t.kids[i].t, x) == Used(al, x)
    requires t.index < |recs| && t.kids[i].t.index < |recs| && recs2[t.kids[i].t.index].children == []
    requires recs2[t.index] == recs[t.index].(children := Links(t.kids)[i := 0])
    requires forall x {:trigger recs[x]} {:trigger recs2[x]} ::
               0 <= x < |recs| && x != t.index && x != t.kids[i].t.index ==> recs2[x] == recs[x]
    ensures Ready(recs2, OctreeTree.DeleteNode(al, t.kids[i].t.index), t.(kids := t.kids[i := None]))
    ensures Framed(recs, al, t, recs2)
  {
    var kid, t', al2 := t.kids[i].t, t.(kids := t.kids[i := None]), OctreeTree.DeleteNode(al, t.kids[i].t.index);
    KidNotParent(recs, al, t, i);
    BalancedKid(t, al, i, None, al2);
    OwnsAfter(t, al, t', al2);
    assert Links(t'.kids) == Links(t.kids)[i := 0];
    DroppedBlank(recs, al, t.index, kid.index, recs2);
    RepKid(recs, al, t, i, recs2, None);
    FramedByKid(recs, al, t, i, recs2);
  }

  lemma DroppedBlank(recs: seq<Rec>, al: Indices, node: nat, child: nat, recs': seq<Rec>)
    requires Blank(recs, al) && Partition(al) && |recs| == |recs'| == al.count && Used(al, node) > 0
        && Used(al, child) > 0
    requires node < |recs| && child < |recs| && recs'[child].children == []
    requires forall x {:trigger recs[x]} {:trigger recs'[x]} :: 0 <= x < |recs| && x != node && x != child ==>
               recs'[x] == recs[x]
    requires child != node
    ensures Blank(recs', OctreeTree.DeleteNode(al, child))
  {
    DeleteNodeKeeps(al, child);
    var al2 := OctreeTree.DeleteNode(al, child);
    forall x {:trigger recs'[x]} | 0 <= x < |recs'| && Spare(al2, x) > 0
      ensures Bare(recs'[x])
    {
      assert Used(al, x) + Spare(al, x) == if x < al.count then 1 else 0;
      assert Used(al2, x) + Spare(al2, x) == if x < al2.count then 1 else 0;
      if x != child {
        assert x != node;
        assert Bare(recs[x]);
      }
    }
  }

  /** What a method reads off a node that may be changed. */
  lemma ReadyNode(recs: seq<Rec>, al: Indices, t: Tree)
    requires Ready(recs, al, t)
    ensures Shape(t) && Partition(al) && Owns(al, t) && t.index < |recs| && recs[t.index] == RecOf(t) && |t.kids| == 8
    ensures forall k :: 0 <= k < 8 ==> (recs[t.index].children[k] == 0 <==> t.kids[k].None?)
  {
    forall k | 0 <= k < 8
      ensures recs[t.index].children[k] == 0 <==> t.kids[k].None?
    {
      assert t.kids[k] == t.kids[k];
    }
  }

  /** OctreeNode::Release for the links of a node. */
  function ReleaseLinks(children: seq<nat>, al: Indices): (r: Indices)
  {
    if children == [] then al
    else
      var before := ReleaseLinks(children[..|children| - 1], al);
      var last := children[|children| - 1];
      if last != 0 then OctreeTree.DeleteNode(before, last) else before
  }

  lemma {:induction false} ReleaseBare(children: seq<nat>, al: Indices)
    requires forall k :: 0 <= k < |children| ==> children[k] == 0
    ensures ReleaseLinks(children, al) == al
  {
    if children != [] { ReleaseBare(children[..|children| - 1], al); }
  }

  lemma OkShape(oct: Snapshot, S: set<Obj>)
    requires OctreeOk(oct, S)
    ensures Shape(oct.root) && oct.root.index == 0 && oct.root.size >= 0.0 && Placed(oct.root, S) && AllOrdered(S)
  {
  }

  /** The pool right after the root was created in it. */
  lemma RootReady(recs: seq<Rec>, al: Indices, t: Tree)
    requires OctreeOk(Snapshot(t, al), {}) && |recs| == al.count && al.available == []
    requires 0 < |recs| && recs[0] == RecOf(t) && forall i :: 0 <= i < 8 ==> t.kids[i].None?
    ensures Ready(recs, al, t)
  {
    assert Used(al, 0) == Occ(t, 0);
  }

  // ---------- The classes ----------

  class OctreeNode {
    var center: Vec
    var size: real
    var depth: nat
    var children: seq<nat>
    var objects: seq<Obj>

    constructor ()
      ensures children == UNLINKED && objects == []
    {
      center, size, depth := Vec(0.0, 0.0, 0.0), 0.0, 0;
      children, objects := UNLINKED, [];
    }

    function Value(): Rec
      reads this
    {
      Rec(center, size, depth, children, objects)
    }
  }

  class Octree {
    var pool: seq<OctreeNode>
    var inUse: seq<nat>
    var available: seq<nat>

    /** Pool positions hold different node objects. */
    ghost predicate Separate()
      reads this`pool
    {
      forall i, j :: 0 <= i < j < |pool| ==> pool[i] != pool[j]
    }

    ghost function Al(): Indices
      reads this`pool, this`inUse, this`available
    {
      Indices(|pool|, inUse, available)
    }

    ghost function Recs(): (r: seq<Rec>)
      reads this`pool, pool
      ensures |r| == |pool|
      ensures forall i :: 0 <= i < |pool| ==> r[i] == pool[i].Value()
    {
      var nodes := pool;
      seq(|nodes|, i requires 0 <= i < |nodes| reads nodes => nodes[i].Value())
    }

    ghost function Nodes(): set<OctreeNode>
      reads this`pool
    {
      set n | n in pool
    }

    /** Octree::NewNode with NewNode_ */
    method NewNode() returns (index: nat)
      requires Separate()
      modifies this`pool, this`inUse, this`available
      ensures Separate() && (Al(), index) == OctreeTree.NewNode(old(Al()))
      ensures fresh(Nodes() - old(Nodes())) && |old(pool)| <= |pool| && pool[..|old(pool)|] == old(pool)
      ensures |pool| > |old(pool)| ==> pool[|old(pool)|].Value().children == UNLINKED
      ensures forall i :: 0 <= i < |old(pool)| ==> Recs()[i] == old(Recs())[i]
    {
      if available == [] {
        var node := new OctreeNode();
        pool := pool + [node];
        available := available + [|pool| - 1];
      }
      index := available[|available| - 1];
      inUse := inUse + [index];
      available := available[..|available| - 1];
    }

    /** Octree::DeleteNode */
    method DeleteNode(index: nat)
      modifies this`inUse, this`available
      ensures Al() == OctreeTree.DeleteNode(old(Al()), index)
    {
      var k := Find(inUse, index);
      if k < |inUse| {
        inUse := Erase(inUse, k);
        available := available + [index];
      }
    }

    method SetChild(node: nat, k: nat, link: nat)
      requires Separate() && node < |pool| && k < |pool[node].children|
      modifies pool[node]
      ensures Recs() == old(Recs())[node := old(Recs())[node].(children := old(Recs())[node].children[k := link])]
    {
      pool[node].children := pool[node].children[k := link];
    }

    method SetObjects(node: nat, objects: seq<Obj>)
      requires Separate() && node < |pool|
      modifies pool[node]
      ensures Recs() == old(Recs())[node := old(Recs())[node].(objects := objects)]
    {
      pool[node].objects := objects;
    }

    /** OctreeNode::Release */
    method Release(node: nat)
      requires Separate() && node < |pool|
      modifies this`inUse, this`available, pool[node]
      ensures Al() == ReleaseLinks(old(Recs())[node].children, old(Al()))
      ensures Recs() == old(Recs())[node := old(Recs())[node].(children := [], objects := [])]
    {
      var children := pool[node].children;
      for k := 0 to |children|
        invariant Al() == ReleaseLinks(children[..k], old(Al()))
        invariant Recs() == old(Recs())
      {
        assert children[..k + 1][..k] == children[..k];
        if children[k] != 0 { DeleteNode(children[k]); }
      }
      assert children[..|children|] == children;
      pool[node].children := [];
      pool[node].objects := [];
    }

    /** OctreeNode::Create */
    method CreateNode(node: nat, center: Vec, size: real, depth: nat)
      requires Separate() && node < |pool|
      modifies this`inUse, this`available, pool[node]
      ensures Al() == ReleaseLinks(old(Recs())[node].children, old(Al()))
      ensures Recs() == old(Recs())[node := Rec(center, size, depth, UNLINKED, [])]
    {
      Release(node);
      var n := pool[node];
      n.depth, n.center, n.size := depth, center, size;
      n.children := UNLINKED;
    }

    /** Takes a node from the pool, links it as child `k` of a node and creates it there. */
    method LinkNewChild(node: nat, k: nat, center: Vec, size: real, depth: nat) returns (index: nat)
      requires Separate() && node < |pool| && k < |pool[node].children| && node != OctreeTree.NewNode(Al()).1
      requires OctreeTree.NewNode(Al()).1 < |pool| ==> Bare(Recs()[OctreeTree.NewNode(Al()).1])
      requires OctreeTree.NewNode(Al()).1 < OctreeTree.NewNode(Al()).0.count
      modifies this`pool, this`inUse, this`available, pool
      ensures Separate() && fresh(Nodes() - old(Nodes()))
      ensures (Al(), index) == OctreeTree.NewNode(old(Al())) && index < |pool|
      ensures Recs()[index] == Rec(center, size, depth, UNLINKED, [])
      ensures Recs()[node] == old(Recs())[node].(children := old(Recs())[node].children[k := index])
      ensures forall x :: 0 <= x < |old(pool)| && x != node && x != index ==> Recs()[x] == old(Recs())[x]
    {
      index := NewNode();
      SetChild(node, k, index);
      ReleaseBare(Recs()[index].children, Al());
      CreateNode(index, center, size, depth);
    }

    /** The part of AddObject that creates the missing child `k` of a node. */
    method CreateChild(node: nat, k: nat, ghost t: Tree)
      requires Separate() && Ready(Recs(), Al(), t) && node == t.index && k < 8 && t.depth > 0 && t.kids[k].None?
      modifies this`pool, this`inUse, this`available, pool
      ensures Separate() && fresh(Nodes() - old(Nodes()))
      ensures var (kid, al) := KidFor(t, k, old(Al()));
              Al() == al && Ready(Recs(), al, t.(kids := t.kids[k := Some(kid)]))
      ensures Framed(old(Recs()), old(Al()), t, Recs())
    {
      hide Ready, Framed, Owns, Partition, Shape;
      ghost var recs, al := Recs(), Al();
      ReadyNode(recs, al, t);
      NewChildApart(recs, al, t, k);
      ghost var kid := KidFor(t, k, al).0;
      var childSize := pool[node].size / 2.0;
      var hi := ChildBox(pool[node].center, pool[node].size, k).hi;
      var childCenter := Vec(hi.x - childSize / 2.0, hi.y - childSize / 2.0, hi.z - childSize / 2.0);
      var index := LinkNewChild(node, k, childCenter, childSize, pool[node].depth - 1);
      assert Recs()[node].children == Links(t.kids[k := Some(kid)]);
      ChildCreated(recs, al, t, k, Recs());
    }

    /** push_back of an object that is not in the node's list yet. */
    method PushObject(node: nat, o: Obj, ghost t: Tree)
      requires Separate() && Ready(Recs(), Al(), t) && node == t.index
      modifies pool[node]
      ensures Separate() && Ready(Recs(), Al(), Listed(t, o)) && Framed(old(Recs()), Al(), t, Recs())
    {
      ReadyNode(Recs(), Al(), t);
      if o !in pool[node].objects {
        ObjectsChanged(Recs(), Al(), t, pool[node].objects + [o]);
        SetObjects(node, pool[node].objects + [o]);
      }
    }

    /** Child `k` of a node, created if it is missing. */
    method GetOrCreateChild(node: nat, k: nat, ghost t: Tree) returns (child: nat)
      requires Separate() && Ready(Recs(), Al(), t) && node == t.index && k < 8 && t.depth > 0
      modifies this`pool, this`inUse, this`available, pool
      ensures Separate() && fresh(Nodes() - old(Nodes()))
      ensures var (kid, al) := KidFor(t, k, old(Al()));
              && Al() == al && child == kid.index && Ready(Recs(), al, kid)
              && Ready(Recs(), al, t.(kids := t.kids[k := Some(kid)]))
      ensures Framed(old(Recs()), old(Al()), t, Recs())
    {
      ghost var al := Al();
      ghost var kid := KidFor(t, k, al).0;
      ReadyNode(Recs(), al, t);
      if pool[node].children[k] == 0 {
        CreateChild(node, k, t);
      } else {
        assert t.kids[k := Some(kid)] == t.kids;
      }
      ChildReady(Recs(), Al(), t.(kids := t.kids[k := Some(kid)]), k);
      child := pool[node].children[k];
    }

    /** The rejection tests for child `k`, and whether the child exists. */
    method TestChild(node: nat, k: nat, o: Obj, ghost t: Tree) returns (meets: bool, linked: bool)
      requires Separate() && Ready(Recs(), Al(), t) && node == t.index && k < 8
      ensures meets == Meets(t.KidBox(k), o.box) && linked == t.kids[k].Some?
    {
      ReadyNode(Recs(), Al(), t);
      meets := Meets(ChildBox(pool[node].center, pool[node].size, k), o.box);
      linked := pool[node].children[k] != 0;
    }

    /** One round of the loop in AddObject, for a child that the object meets. */
    method AddToChild(node: nat, k: nat, o: Obj, ghost t: Tree) returns (ok: bool)
      requires Separate() && Ready(Recs(), Al(), t) && node == t.index && k < 8 && t.depth > 0
      modifies this`pool, this`inUse, this`available, pool
      ensures Separate() && fresh(Nodes() - old(Nodes()))
      ensures var (t', al', ok') := AddKid(t, k, o, old(Al())); ok == ok' && Al() == al' && Ready(Recs(), al', t')
      ensures Framed(old(Recs()), old(Al()), t, Recs())
      decreases t.depth, 0
    {
      ghost var recs, al := Recs(), Al();
      ReadyNode(recs, al, t);
      ghost var kid := KidFor(t, k, al).0;
      var child := GetOrCreateChild(node, k, t);
      ghost var recs1 := Recs();
      ok := AddObjectAt(child, o, kid);
      AddedToChild(recs, al, t, k, o, recs1, Recs());
    }

    /** One round of the loop in AddObject: whether to leave the loop, and the result so far. */
    method AddRound(node: nat, k: nat, o: Obj, before: bool, ghost t: Tree) returns (ok: bool, stop: bool)
      requires Separate() && Ready(Recs(), Al(), t) && node == t.index && k < 8 && t.depth > 0
      modifies this`pool, this`inUse, this`available, pool
      ensures Separate() && fresh(Nodes() - old(Nodes()))
      ensures var meets := Meets(t.KidBox(k), o.box);
              var (t', al', ok') := if meets then AddKid(t, k, o, old(Al())) else (t, old(Al()), before);
              && ok == ok' && stop == (meets && !ok) && Al() == al' && Ready(Recs(), al', t')
              && Balanced(t, old(Al()), t', al')
      ensures Framed(old(Recs()), old(Al()), t, Recs())
      decreases t.depth, 1
    {
      hide Ready, Framed, Balanced, Partition, Owns, Shape, Recs, Add, AddKid, Meets, ChildBox;
      ghost var recs, al := Recs(), Al();
      ReadyNode(recs, al, t);
      FramedRefl(recs, al, t);
      var meets, linked := TestChild(node, k, o, t);
      ok, stop := before, false;
      if meets {
        AddKidBalanced(t, k, o, al);
        ok := AddToChild(node, k, o, t);
        stop := !ok;
      }
    }

    /** The same round, seen from the beginning of the loop, when the tree was `t` and is `cur` by now. */
    method AddNext(node: nat, k: nat, o: Obj, before: bool, ghost t: Tree, ghost recs: seq<Rec>, ghost al: Indices,
                   ghost cur: Tree)
      returns (ok: bool, stop: bool, ghost next: Tree, ghost added: set<OctreeNode>)
      requires Separate() && Progress(recs, al, t, Recs(), Al(), cur)
      requires node == cur.index && k < 8 && cur.depth > 0 && Shape(cur)
      modifies this`pool, this`inUse, this`available, Nodes()
      ensures Separate() && Nodes() <= old(Nodes()) + added && fresh(added)
      ensures Progress(recs, al, t, Recs(), Al(), next) && SameFrame(t, next) && Shape(next)
      ensures AddFrom(next, k + 1, o, Al(), ok, stop) == AddFrom(cur, k, o, old(Al()), before, false)
      decreases cur.depth, 2
    {
      hide Progress, Ready, Framed, Balanced, Partition, Owns, Recs, Separate, Al, Shape, AddFrom, AddKid, Meets,
        ChildBox;
      ghost var recs1, al1 := Recs(), Al();
      ProgressFacts(recs, al, t, recs1, al1, cur);
      ghost var nodes := Nodes();
      ok, stop := AddRound(node, k, o, before, cur);
      added := Nodes() - nodes;
      next := if Meets(cur.KidBox(k), o.box) then AddKid(cur, k, o, al1).0 else cur;
      AddFromStep(cur, k, o, al1, before, next, Al(), ok, stop);
      ProgressStep(recs, al, t, recs1, al1, cur, Recs(), Al(), next);
    }

    /** The loop over the children in AddObject. */
    method AddToChildren(node: nat, o: Obj, ghost t: Tree) returns (ok: bool)
      requires Separate() && Ready(Recs(), Al(), t) && node == t.index && t.depth > 0
      modifies this`pool, this`inUse, this`available, Nodes()
      ensures Separate() && fresh(Nodes() - old(Nodes()))
      ensures var (t', al', ok') := AddBelow(t, 0, o, old(Al()), false);
              ok == ok' && Al() == al' && Ready(Recs(), al', t')
      ensures Framed(old(Recs()), old(Al()), t, Recs())
      decreases t.depth, 3
    {
      hide Progress, Ready, Framed, Balanced, Partition, Owns, Recs, Separate, Nodes, Al, AddFrom, AddBelow;
      ghost var recs, al, cur := Recs(), Al(), t;
      ProgressStart(recs, al, t);
      AddFromStart(t, o, al);
      ok := false;
      var k, stop := 0, false;
      ghost var added: set<OctreeNode> := {};
      while k < 8 && !stop
        invariant k <= 8 && Separate() && Nodes() <= old(Nodes()) + added && fresh(added)
        invariant Progress(recs, al, t, Recs(), Al(), cur) && SameFrame(t, cur) && Shape(cur)
        invariant AddFrom(cur, k, o, Al(), ok, stop) == AddFrom(t, 0, o, al, false, false)
        decreases 8 - k, !stop
      {
        ghost var more;
        ok, stop, cur, more := AddNext(node, k, o, ok, t, recs, al, cur);
        added := added + more;
        k := k + 1;
      }
      AddFromEnd(cur, k, o, Al(), ok, stop);
      ProgressFacts(recs, al, t, Recs(), Al(), cur);
    }

    /** OctreeNode::AddObject */
    method AddObjectAt(node: nat, o: Obj, ghost t: Tree) returns (ok: bool)
      requires Separate() && Ready(Recs(), Al(), t) && node == t.index
      modifies this`pool, this`inUse, this`available, pool
      ensures Separate() && fresh(Nodes() - old(Nodes()))
      ensures var (t', al', ok') := Add(t, o, old(Al())); ok == ok' && Al() == al' && Ready(Recs(), al', t')
      ensures Framed(old(Recs()), old(Al()), t, Recs())
      decreases t.depth, 4
    {
      ReadyNode(Recs(), Al(), t);
      ghost var t1 := if t.depth == 0 then t else AddBelow(t, 0, o, Al(), false).0;
      if pool[node].depth == 0 { ok := true; } else { ok := AddToChildren(node, o, t); }
      if ok { PushObject(node, o, t1); }
    }

    /** Gives an empty child back to the pool and unlinks it. */
    method DropChild(node: nat, k: nat, child: nat, ghost t: Tree, ghost S: set<Obj>)
      requires Separate() && Ready(Recs(), Al(), t) && node == t.index && k < 8 && t.kids[k].Some?
      requires child == t.kids[k].t.index && t.kids[k].t.objs == [] && t.kids[k].t.size >= 0.0 && Placed(t.kids[k].t, S)
      modifies this`inUse, this`available, pool
      ensures Al() == OctreeTree.DeleteNode(ReleaseKids(t.kids[k].t, 0, old(Al())), child)
      ensures Ready(Recs(), Al(), t.(kids := t.kids[k := None]))
      ensures Framed(old(Recs()), old(Al()), t, Recs())
    {
      hide Ready, Framed, Placed, Owns, Partition, Shape;
      ghost var recs, al := Recs(), Al();
      ReadyNode(recs, al, t);
      ChildDropped(recs, al, t, k, S);
      Release(child);
      DeleteNode(child);
      ghost var recs1 := recs[child := recs[child].(children := [], objects := [])];
      SetChild(node, k, 0);
      assert Recs() == recs1[node := recs1[node].(children := recs1[node].children[k := 0])];
    }

    /** Removal inside an existing child that the object meets. */
    method RemoveInChild(node: nat, k: nat, o: Obj, ghost t: Tree, ghost S: set<Obj>)
      returns (ok: bool, child: nat, empty: bool)
      requires Separate() && Ready(Recs(), Al(), t) && node == t.index && k < 8 && t.depth > 0 && t.kids[k].Some?
      requires t.size >= 0.0 && KidPlaced(t, k, S) && AllOrdered(S)
      modifies this`inUse, this`available, pool
      ensures var (kid', al1, ok') := Remove(t.kids[k].t, o, old(Al()));
              var t1 := t.(kids := t.kids[k := Some(kid')]);
              && ok == ok' && Al() == al1 && child == kid'.index && empty == (kid'.objs == [])
              && Ready(Recs(), al1, t1) && Balanced(t, old(Al()), t1, al1) && Placed(kid', S - {o})
      ensures Framed(old(Recs()), old(Al()), t, Recs())
      decreases t.depth, 0
    {
      ghost var recs, al := Recs(), Al();
      ReadyNode(recs, al, t);
      ChildReady(recs, al, t, k);
      child := pool[node].children[k];
      ok := RemoveObjectAt(child, o, t.kids[k].t, S);
      RemovedFromChild(recs, al, t, k, o, S, Recs());
      ReadyNode(Recs(), Al(), Remove(t.kids[k].t, o, al).0);
      empty := pool[child].objects == [];
    }

    /** One round of the loop in RemoveObject, for an existing child that the object meets. */
    method RemoveFromChild(node: nat, k: nat, o: Obj, ghost t: Tree, ghost S: set<Obj>) returns (ok: bool)
      requires Separate() && Ready(Recs(), Al(), t) && node == t.index && k < 8 && t.depth > 0 && t.kids[k].Some?
      requires t.size >= 0.0 && KidPlaced(t, k, S) && AllOrdered(S)
      modifies this`inUse, this`available, pool
      ensures var (t', al', ok') := RemoveKid(t, k, o, old(Al())); ok == ok' && Al() == al' && Ready(Recs(), al', t')
      ensures Framed(old(Recs()), old(Al()), t, Recs())
      decreases t.depth, 1
    {
      hide Ready, Framed, Owns, Partition, Placed, KidPlaced, AllOrdered, Balanced, Shape, Recs, Remove;
      ghost var recs, al := Recs(), Al();
      ReadyNode(recs, al, t);
      ChildReady(recs, al, t, k);
      ReadyNode(recs, al, t.kids[k].t);
      ghost var kid' := Remove(t.kids[k].t, o, al).0;
      ghost var t1 := t.(kids := t.kids[k := Some(kid')]);
      var child, empty;
      ok, child, empty := RemoveInChild(node, k, o, t, S);
      ghost var recs1, al1 := Recs(), Al();
      if ok && empty {
        DropChild(node, k, child, t1, S - {o});
        FramedTrans(recs, al, t, recs1, al1, t1, Recs());
        SameAfterDrop(t, k, kid');
      }
    }

    /** The loop over the children in RemoveObject. */
    method RemoveFromChildren(node: nat, o: Obj, found: bool, ghost t: Tree, ghost S: set<Obj>) returns (ok: bool)
      requires Separate() && Ready(Recs(), Al(), t) && node == t.index && t.depth > 0
      requires t.size >= 0.0 && KidsPlaced(t, 0, 8, S) && AllOrdered(S)
      modifies this`inUse, this`available, pool
      ensures var (t', al', ok') := RemoveBelow(t, 0, o, old(Al()), found);
              ok == ok' && Al() == al' && Ready(Recs(), al', t')
      ensures Framed(old(Recs()), old(Al()), t, Recs())
      decreases t.depth, 2
    {
      hide Ready, Framed, Balanced, Partition, Owns, Shape, KidPlaced, Recs, Remove, RemoveKid, Meets, ChildBox;
      ghost var recs, al, cur := Recs(), Al(), t;
      ReadyNode(recs, al, t);
      FramedRefl(recs, al, t);
      ok := found;
      var k := 0;
      while k < 8
        invariant k <= 8 && Ready(Recs(), Al(), cur)
        invariant SameFrame(t, cur) && Shape(cur) && RemoveBelow(cur, k, o, Al(), ok) == RemoveBelow(t, 0, o, al, found)
        invariant Balanced(t, al, cur, Al()) && Framed(recs, al, t, Recs()) && KidsPlaced(cur, k, 8, S)
      {
        ReadyNode(Recs(), Al(), cur);
        var meets, linked := TestChild(node, k, o, cur);
        if linked && meets {
          ghost var recs1, al1, before := Recs(), Al(), cur;
          assert KidPlaced(cur, k, S);
          ok := RemoveFromChild(node, k, o, cur, S);
          cur := RemoveKid(before, k, o, al1).0;
          RemovedInLoop(recs, al, t, recs1, al1, before, k, o, S, Recs());
          if !ok { break; }
        }
        k := k + 1;
      }
    }

    /** OctreeNode::RemoveObject */
    method RemoveObjectAt(node: nat, o: Obj, ghost t: Tree, ghost S: set<Obj>) returns (ok: bool)
      requires Separate() && Ready(Recs(), Al(), t) && node == t.index
      requires t.size >= 0.0 && Placed(t, S) && AllOrdered(S)
      modifies this`inUse, this`available, pool
      ensures var (t', al', ok') := Remove(t, o, old(Al())); ok == ok' && Al() == al' && Ready(Recs(), al', t')
      ensures Framed(old(Recs()), old(Al()), t, Recs())
      decreases t.depth, 3
    {
      ghost var t1 := Unlisted(t, o);
      ok := EraseObject(node, o, t);
      if pool[node].depth != 0 {
        KidsSame(t, t1, 0, 8, S);
        ok := RemoveFromChildren(node, o, ok, t1, S);
      }
    }

    /** Erases an object from the list of a node, if it is there. */
    method EraseObject(node: nat, o: Obj, ghost t: Tree) returns (found: bool)
      requires Separate() && Ready(Recs(), Al(), t) && node == t.index
      modifies pool[node]
      ensures found == (o in t.objs) && Ready(Recs(), Al(), Unlisted(t, o)) && Framed(old(Recs()), Al(), t, Recs())
    {
      ReadyNode(Recs(), Al(), t);
      var k := Find(pool[node].objects, o);
      found := k < |pool[node].objects|;
      if found {
        ObjectsChanged(Recs(), Al(), t, Erase(pool[node].objects, k));
        SetObjects(node, Erase(pool[node].objects, k));
      }
    }

    // ---------- The public operations ----------

    /** The tree below m_pRoot, and the objects that were added and not removed since. */
    ghost var root: Tree
    ghost var contents: set<Obj>

    ghost predicate Valid()
      reads this, pool
    {
      Separate() && Ready(Recs(), Al(), root) && OctreeOk(Snapshot(root, Al()), contents)
    }

    constructor ()
      ensures pool == [] && inUse == [] && available == []
    {
      pool, inUse, available := [], [], [];
      root, contents := Fresh(0, Vec(0.0, 0.0, 0.0), 0.0, 0), {};
    }

    /** Octree::Create */
    method Create(center: Vec, leafSize: real, depth: nat) returns (ok: bool)
      modifies this
      ensures ok == (0 < depth && 0.0 < leafSize)
      ensures ok ==> Valid() && contents == {} && RootOf(root, center, leafSize, depth)
      ensures ok ==> Snapshot(root, Al()) == OctreeIndices.Create(center, leafSize, depth)
      ensures fresh(Nodes()) && (!ok ==> Al() == Indices(0, [], []))
    {
      ok := 0 < depth && 0.0 < leafSize;
      pool, inUse, available := [], [], [];
      if ok {
        var index := NewNode();
        CreateRoot(index, center, leafSize * Pow2(depth), depth);
        CreateOk(center, leafSize, depth);
        CreatedRoot(center, leafSize, depth);
        root, contents := OctreeIndices.Create(center, leafSize, depth).root, {};
        RootReady(Recs(), Al(), root);
      }
    }

    method CreateRoot(index: nat, center: Vec, size: real, depth: nat)
      requires Separate() && index < |pool| && Bare(Recs()[index])
      modifies this`inUse, this`available, pool[index]
      ensures Al() == old(Al()) && Recs() == old(Recs())[index := Rec(center, size, depth, UNLINKED, [])]
    {
      ReleaseBare(Recs()[index].children, Al());
      CreateNode(index, center, size, depth);
    }

    /** Octree::AddObject */
    method AddObject(o: Obj) returns (ok: bool)
      requires Valid() && o.box.Ordered()
      modifies this, pool
      ensures Valid() && fresh(Nodes() - old(Nodes()))
      ensures Snapshot(root, Al()) == Do(old(Snapshot(root, Al())), AddCall(o))
      ensures contents == old(contents) + {o} && ok == Shares(root, o.box) && SameFrame(old(root), root)
    {
      hide Ready, OctreeOk, Separate, Recs, Add, Shares;
      OkShape(Snapshot(root, Al()), contents);
      AddOk(Snapshot(root, Al()), o, contents);
      AddAnswer(Snapshot(root, Al()), contents, o);
      ghost var root' := Add(root, o, Al()).0;
      ok := AddObjectAt(0, o, root);
      root, contents := root', contents + {o};
    }

    /** Octree::RemoveObject */
    method RemoveObject(o: Obj) returns (ok: bool)
      requires Valid()
      modifies this, pool
      ensures Valid() && pool == old(pool)
      ensures Snapshot(root, Al()) == Do(old(Snapshot(root, Al())), RemoveCall(o))
      ensures contents == old(contents) - {o} && ok == (o in old(contents) && Shares(root, o.box))
      ensures SameFrame(old(root), root)
    {
      hide Ready, OctreeOk, Separate, Recs, Remove, Shares;
      OkShape(Snapshot(root, Al()), contents);
      RemoveOk(Snapshot(root, Al()), o, contents);
      RemoveAnswer(Snapshot(root, Al()), contents, o);
      ghost var root' := Remove(root, o, Al()).0;
      ok := RemoveObjectAt(0, o, root, contents);
      root, contents := root', contents - {o};
    }
  }
}
