/** What the octree stores: after any additions and removals, every node lists exactly the objects of the index whose
    box meets its own, and a child exists exactly where it would list something.
*/
module OctreePlacement {
  import opened Geometry
  import opened OctreeTree

  predicate Distinct<T(==)>(s: seq<T>) {
    forall i, j :: 0 <= i < j < |s| ==> s[i] != s[j]
  }

  ghost predicate AllOrdered(S: set<Obj>) {
    forall o :: o in S ==> o.box.Ordered()
  }

  /** Some object of the index meets the box. */
  ghost predicate Wanted(S: set<Obj>, b: Box) {
    exists o :: o in S && Meets(b, o.box)
  }

  ghost predicate ListsExactly(t: Tree, S: set<Obj>) {
    Distinct(t.objs) && forall o :: o in t.objs <==> o in S && Meets(t.Cell(), o.box)
  }

  /** The tree is the one that the object set `S` calls for. */
  ghost predicate Placed(t: Tree, S: set<Obj>)
    requires Shape(t)
    decreases t, 2
  {
    ListsExactly(t, S) && (t.depth > 0 ==> KidsPlaced(t, 0, 8, S))
  }

  ghost predicate KidsPlaced(t: Tree, lo: nat, hi: nat, S: set<Obj>)
    requires Shape(t) && hi <= 8
    decreases t, 1
  {
    forall i :: lo <= i < hi ==> KidPlaced(t, i, S)
  }

  ghost predicate KidPlaced(t: Tree, i: nat, S: set<Obj>)
    requires Shape(t) && i < 8
    decreases t, 0
  {
    if t.kids[i].None? then !Wanted(S, t.KidBox(i)) else Wanted(S, t.KidBox(i)) && Placed(t.kids[i].t, S)
  }

  /** Whether a child is placed depends on that child and the cell of its parent only. */
  lemma KidSame(t: Tree, t': Tree, i: nat, S: set<Obj>)
    requires Shape(t) && Shape(t') && i < 8 && t.kids[i] == t'.kids[i] && t.center == t'.center && t.size == t'.size
    ensures KidPlaced(t, i, S) == KidPlaced(t', i, S)
  {
  }

  lemma KidsSame(t: Tree, t': Tree, lo: nat, hi: nat, S: set<Obj>)
    requires Shape(t) && Shape(t') && hi <= 8 && t.center == t'.center && t.size == t'.size
    requires forall i :: lo <= i < hi ==> t.kids[i] == t'.kids[i]
    requires KidsPlaced(t, lo, hi, S)
    ensures KidsPlaced(t', lo, hi, S)
  {
    forall i | lo <= i < hi
      ensures KidPlaced(t', i, S)
    {
      assert KidPlaced(t, i, S);
      KidSame(t, t', i, S);
    }
  }

  lemma KidCell(t: Tree, i: nat)
    requires Shape(t) && i < 8 && t.kids[i].Some?
    ensures t.kids[i].t.Cell() == t.KidBox(i)
  {
    ChildCube(t.center, t.size, i);
  }

  /** A node that no object meets is listed nowhere below. */
  lemma KidMeets(t: Tree, i: nat, o: Obj)
    requires t.size >= 0.0 && i < 8 && Meets(t.KidBox(i), o.box)
    ensures Meets(t.Cell(), o.box)
  {
    ChildWithin(t.center, t.size, i);
    MeetsWithin(t.KidBox(i), t.Cell(), o.box);
  }

  /** Objects that do not meet the cell of a tree do not matter to it. */
  lemma {:induction false} PlacedFrame(t: Tree, S: set<Obj>, S': set<Obj>)
    requires Shape(t) && t.size >= 0.0 && Placed(t, S)
    requires forall o: Obj :: Meets(t.Cell(), o.box) ==> (o in S <==> o in S')
    ensures Placed(t, S')
    decreases t
  {
    if t.depth > 0 {
      forall i | 0 <= i < 8
        ensures KidPlaced(t, i, S')
      {
        assert KidPlaced(t, i, S);
        KidFrame(t, i, S, S');
      }
    }
  }

  lemma {:induction false} KidFrame(t: Tree, i: nat, S: set<Obj>, S': set<Obj>)
    requires Shape(t) && t.size >= 0.0 && i < 8 && KidPlaced(t, i, S)
    requires forall o: Obj :: Meets(t.KidBox(i), o.box) ==> (o in S <==> o in S')
    ensures KidPlaced(t, i, S')
    decreases t, 0
  {
    if Wanted(S, t.KidBox(i)) {
      var o :| o in S && Meets(t.KidBox(i), o.box);
      assert o in S';
      KidCell(t, i);
      PlacedFrame(t.kids[i].t, S, S');
    }
  }

  // ---------- Adding ----------

  lemma FreshPlaced(index: nat, center: Vec, size: real, depth: nat, S: set<Obj>)
    requires !Wanted(S, Cube(center, size)) && size >= 0.0
    ensures Placed(Fresh(index, center, size, depth), S)
  {
    var t := Fresh(index, center, size, depth);
    forall i | 0 <= i < 8 && depth > 0
      ensures KidPlaced(t, i, S)
    {
      if Wanted(S, t.KidBox(i)) {
        var o :| o in S && Meets(t.KidBox(i), o.box);
        KidMeets(t, i, o);
      }
    }
  }

  lemma ListedExact(t: Tree, o: Obj, S: set<Obj>)
    requires ListsExactly(t, S)
    ensures ListsExactly(if Meets(t.Cell(), o.box) then Listed(t, o) else t, S + {o})
  {
  }

  /** AddObject on a placed tree keeps it placed, and reports whether the object meets the tree's cell. A leaf is only
      asked to add objects that meet it.
   */
  lemma {:induction false} AddPlaced(t: Tree, o: Obj, al: Indices, S: set<Obj>)
    requires Shape(t) && t.size >= 0.0 && Placed(t, S) && AllOrdered(S) && o.box.Ordered()
    requires t.depth > 0 || Meets(t.Cell(), o.box)
    ensures Placed(Add(t, o, al).0, S + {o})
    ensures Add(t, o, al).2 == Meets(t.Cell(), o.box)
    decreases t.depth, 9
  {
    if t.depth > 0 {
      AddBelowPlaced(t, 0, o, al, false, S);
      var t' := AddBelow(t, 0, o, al, false).0;
      KidsSame(t', Listed(t', o), 0, 8, S + {o});
      if Meets(t.Cell(), o.box) {
        var i := ChildrenCover(t.center, t.size, o.box);
        assert Meets(t.KidBox(i), o.box);
      } else if AddBelow(t, 0, o, al, false).2 {
        var k: nat :| 0 <= k < 8 && Meets(t.KidBox(k), o.box);
        KidMeets(t, k, o);
      }
      ListedExact(t', o, S);
    }
  }

  lemma {:induction false} AddBelowPlaced(t: Tree, i: nat, o: Obj, al: Indices, ok: bool, S: set<Obj>)
    requires Shape(t) && t.size >= 0.0 && t.depth > 0 && i <= 8 && AllOrdered(S) && o.box.Ordered()
    requires KidsPlaced(t, 0, i, S + {o})
    requires KidsPlaced(t, i, 8, S)
    ensures KidsPlaced(AddBelow(t, i, o, al, ok).0, 0, 8, S + {o})
    ensures AddBelow(t, i, o, al, ok).2 == (ok || exists k: nat :: i <= k < 8 && Meets(t.KidBox(k), o.box))
    decreases t.depth, 8 - i, 1
  {
    if i < 8 {
      if !Meets(t.KidBox(i), o.box) {
        KidFrame(t, i, S, S + {o});
        AddBelowPlaced(t, i + 1, o, al, ok, S);
      } else {
        AddKidPlaced(t, i, o, al, S);
        var (t', al', _) := AddKid(t, i, o, al);
        AddBelowPlaced(t', i + 1, o, al', true, S);
      }
    }
  }

  lemma {:induction false} AddKidPlaced(t: Tree, i: nat, o: Obj, al: Indices, S: set<Obj>)
    requires Shape(t) && t.size >= 0.0 && t.depth > 0 && i < 8 && AllOrdered(S) && o.box.Ordered()
    requires Meets(t.KidBox(i), o.box) && KidsPlaced(t, 0, i, S + {o}) && KidsPlaced(t, i, 8, S)
    ensures var (t', _, ok) := AddKid(t, i, o, al);
            ok && KidsPlaced(t', 0, i + 1, S + {o}) && KidsPlaced(t', i + 1, 8, S)
    decreases t.depth, 8 - i, 0
  {
    var (kid, al1) := KidFor(t, i, al);
    ChildCube(t.center, t.size, i);
    assert KidPlaced(t, i, S);
    if t.kids[i].None? { FreshPlaced(kid.index, kid.center, kid.size, kid.depth, S); }
    AddPlaced(kid, o, al1, S);
    var t' := AddKid(t, i, o, al).0;
    KidsSame(t, t', 0, i, S + {o});
    KidsSame(t, t', i + 1, 8, S);
    assert KidPlaced(t', i, S + {o});
  }

  // ---------- Removing ----------

  lemma EraseExact(s: seq<Obj>, o: Obj)
    requires Distinct(s) && o in s
    ensures Distinct(Erase(s, Find(s, o)))
    ensures forall x :: x in Erase(s, Find(s, o)) <==> x in s && x != o
  {
    hide Erase;
    var k := Find(s, o);
    var r := Erase(s, k);
    EraseAt(s, k);
    forall x | x in s && x != o
      ensures x in r
    {
      var j :| 0 <= j < |s| && s[j] == x;
      assert r[if j < k then j else j - 1] == x;
    }
  }

  lemma EraseAt(s: seq<Obj>, k: nat)
    requires k < |s|
    ensures |Erase(s, k)| == |s| - 1
    ensures forall j :: 0 <= j < |s| - 1 ==> Erase(s, k)[j] == s[if j < k then j else j + 1]
  {
  }

  /** RemoveObject on a placed tree keeps it placed, and reports whether the object was listed. */
  lemma {:induction false} RemovePlaced(t: Tree, o: Obj, al: Indices, S: set<Obj>)
    requires Shape(t) && t.size >= 0.0 && Placed(t, S) && AllOrdered(S)
    ensures Placed(Remove(t, o, al).0, S - {o})
    ensures Remove(t, o, al).2 == (o in t.objs)
    decreases t.depth, 9
  {
    var t1 := Unlisted(t, o);
    if o in t.objs { EraseExact(t.objs, o); }
    assert ListsExactly(t1, S - {o});
    if t.depth > 0 {
      KidsSame(t, t1, 0, 8, S);
      if o in t.objs {
        RemoveBelowPlaced(t1, 0, o, al, true, S);
      } else {
        AbsentBelow(t1, 0, o, al, S);
      }
    }
  }

  /** An object that is not listed at a node changes nothing below it. */
  lemma {:induction false} AbsentBelow(t: Tree, i: nat, o: Obj, al: Indices, S: set<Obj>)
    requires Shape(t) && t.size >= 0.0 && t.depth > 0 && i <= 8 && AllOrdered(S)
    requires KidsPlaced(t, 0, 8, S)
    requires o in S ==> !Meets(t.Cell(), o.box)
    ensures KidsPlaced(RemoveBelow(t, i, o, al, false).0, 0, 8, S - {o})
    ensures !RemoveBelow(t, i, o, al, false).2
    decreases t.depth, 8 - i
  {
    if i == 8 {
      forall k | 0 <= k < 8
        ensures KidPlaced(t, k, S - {o})
      {
        if Meets(t.KidBox(k), o.box) { KidMeets(t, k, o); }
        KidFrame(t, k, S, S - {o});
      }
    } else if t.kids[i].None? || !Meets(t.KidBox(i), o.box) {
      AbsentBelow(t, i + 1, o, al, S);
    } else {
      KidMeets(t, i, o);
      KidCell(t, i);
      assert KidPlaced(t, i, S) && S - {o} == S;
      RemovePlaced(t.kids[i].t, o, al, S);
      var t' := RemoveKid(t, i, o, al).0;
      KidsSame(t, t', 0, i, S);
      KidsSame(t, t', i + 1, 8, S);
      assert KidPlaced(t', i, S);
    }
  }

  lemma {:induction false} RemoveBelowPlaced(t: Tree, i: nat, o: Obj, al: Indices, ok: bool, S: set<Obj>)
    requires Shape(t) && t.size >= 0.0 && t.depth > 0 && i <= 8 && AllOrdered(S) && o in S && ok
    requires KidsPlaced(t, 0, i, S - {o})
    requires KidsPlaced(t, i, 8, S)
    ensures KidsPlaced(RemoveBelow(t, i, o, al, ok).0, 0, 8, S - {o})
    ensures RemoveBelow(t, i, o, al, ok).2
    decreases t.depth, 8 - i, 1
  {
    if i < 8 {
      assert KidPlaced(t, i, S);
      if !Meets(t.KidBox(i), o.box) {
        KidFrame(t, i, S, S - {o});
        RemoveBelowPlaced(t, i + 1, o, al, ok, S);
      } else {
        RemoveKidPlaced(t, i, o, al, S);
        var t' := RemoveKid(t, i, o, al).0;
        KidsSame(t, t', 0, i, S - {o});
        KidsSame(t, t', i + 1, 8, S);
        RemoveBelowPlaced(t', i + 1, o, RemoveKid(t, i, o, al).1, true, S);
      }
    }
  }

  /** A child that meets the object is there, lists it, and stays only if it still lists something. */
  lemma {:induction false} RemoveKidPlaced(t: Tree, i: nat, o: Obj, al: Indices, S: set<Obj>)
    requires Shape(t) && t.size >= 0.0 && t.depth > 0 && i < 8 && AllOrdered(S) && o in S
    requires KidPlaced(t, i, S) && Meets(t.KidBox(i), o.box)
    ensures t.kids[i].Some? && RemoveKid(t, i, o, al).2
    ensures KidPlaced(RemoveKid(t, i, o, al).0, i, S - {o})
    decreases t.depth, 8 - i, 0
  {
    assert Wanted(S, t.KidBox(i));
    KidCell(t, i);
    RemovePlaced(t.kids[i].t, o, al, S);
    StillWanted(Remove(t.kids[i].t, o, al).0, S - {o});
  }

  /** A node lists nothing exactly if no object meets it, and then it has no children. */
  lemma StillWanted(t: Tree, S: set<Obj>)
    requires Shape(t) && t.size >= 0.0 && Placed(t, S)
    ensures t.objs != [] <==> Wanted(S, t.Cell())
    ensures t.objs == [] ==> forall i :: 0 <= i < 8 ==> t.kids[i].None?
  {
    if t.objs != [] { assert t.objs[0] in t.objs; }
    if t.objs == [] {
      forall i | 0 <= i < 8
        ensures t.kids[i].None?
      {
        if t.kids[i].Some? {
          assert KidPlaced(t, i, S);
          var o :| o in S && Meets(t.KidBox(i), o.box);
          KidMeets(t, i, o);
        }
      }
    }
  }
}
