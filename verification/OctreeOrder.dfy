/** The order of the object lists of the octree of Core/OctreeNode.cpp: every node lists its objects in the order in
    which they came into the index, and adding an object that is there changes nothing.
*/
module OctreeOrder {
  import opened Geometry
  import opened OctreeTree
  import opened OctreePlacement
  import opened OctreeIndices

  // ---------- Adding an object twice ----------

  /** An object of the index is listed wherever it belongs, so adding it again takes no node and changes no list. */
  lemma {:induction false} AddTwice(t: Tree, o: Obj, al: Indices, S: set<Obj>)
    requires Shape(t) && t.size >= 0.0 && Placed(t, S) && AllOrdered(S) && o in S
    requires t.depth > 0 || Meets(t.Cell(), o.box)
    ensures Add(t, o, al) == (t, al, Meets(t.Cell(), o.box))
    decreases t.depth, 9
  {
    AddPlaced(t, o, al, S);
    if t.depth > 0 { AddBelowTwice(t, 0, o, al, false, S); }
  }

  lemma {:induction false} AddBelowTwice(t: Tree, i: nat, o: Obj, al: Indices, ok: bool, S: set<Obj>)
    requires Shape(t) && t.size >= 0.0 && t.depth > 0 && i <= 8 && KidsPlaced(t, i, 8, S) && AllOrdered(S) && o in S
    ensures AddBelow(t, i, o, al, ok).0 == t && AddBelow(t, i, o, al, ok).1 == al
    decreases t.depth, 8 - i
  {
    if i < 8 {
      assert KidPlaced(t, i, S);
      if Meets(t.KidBox(i), o.box) {
        assert Wanted(S, t.KidBox(i));
        KidCell(t, i);
        AddTwice(t.kids[i].t, o, al, S);
        assert t.kids[i := t.kids[i]] == t.kids;
        assert AddKid(t, i, o, al) == (t, al, true);
        AddBelowTwice(t, i + 1, o, al, true, S);
      } else {
        AddBelowTwice(t, i + 1, o, al, ok, S);
      }
    }
  }

  // ---------- Orders ----------

  ghost predicate Before(L: seq<Obj>, x: Obj, y: Obj) {
    exists i, j :: 0 <= i < j < |L| && L[i] == x && L[j] == y
  }

  /** The objects of the list that are in `L` have the order of `L`. */
  ghost predicate InLine(s: seq<Obj>, L: seq<Obj>) {
    forall i, j :: 0 <= i < j < |s| && s[i] in L && s[j] in L ==> Before(L, s[i], s[j])
  }

  /** The same for all nodes of a tree. */
  ghost predicate Lined(t: Tree, L: seq<Obj>)
    decreases t
  {
    InLine(t.objs, L) &&
    forall i {:trigger t.kids[i]} :: 0 <= i < |t.kids| && t.kids[i].Some? ==> Lined(t.kids[i].t, L)
  }

  /** No node lists the object. */
  ghost predicate Unlisting(t: Tree, o: Obj)
    decreases t
  {
    o !in t.objs && forall i {:trigger t.kids[i]} :: 0 <= i < |t.kids| && t.kids[i].Some? ==> Unlisting(t.kids[i].t, o)
  }

  lemma {:induction false} PlacedUnlisting(t: Tree, S: set<Obj>, o: Obj)
    requires Shape(t) && Placed(t, S) && o !in S
    ensures Unlisting(t, o)
    decreases t
  {
    forall i | 0 <= i < |t.kids| && t.kids[i].Some?
      ensures Unlisting(t.kids[i].t, o)
    {
      assert KidPlaced(t, i, S);
      PlacedUnlisting(t.kids[i].t, S, o);
    }
  }

  // ---------- A new object ----------

  lemma InLineMore(s: seq<Obj>, L: seq<Obj>, o: Obj)
    requires InLine(s, L) && o !in s && o !in L
    ensures InLine(s, L + [o]) && InLine(s + [o], L + [o])
  {
    forall i, j | 0 <= i < j < |s| && s[i] in L + [o] && s[j] in L + [o]
      ensures Before(L + [o], s[i], s[j])
    {
      assert Before(L, s[i], s[j]);
      var m, n :| 0 <= m < n < |L| && L[m] == s[i] && L[n] == s[j];
      assert (L + [o])[m] == s[i] && (L + [o])[n] == s[j];
    }
    forall i | 0 <= i < |s| && s[i] in L + [o]
      ensures Before(L + [o], s[i], o)
    {
      var m :| 0 <= m < |L| && L[m] == s[i];
      assert (L + [o])[m] == s[i] && (L + [o])[|L|] == o;
    }
  }

  lemma {:induction false} LinedMore(t: Tree, L: seq<Obj>, o: Obj)
    requires Lined(t, L) && Unlisting(t, o) && o !in L
    ensures Lined(t, L + [o])
    decreases t
  {
    InLineMore(t.objs, L, o);
    forall i | 0 <= i < |t.kids| && t.kids[i].Some?
      ensures Lined(t.kids[i].t, L + [o])
    {
      LinedMore(t.kids[i].t, L, o);
    }
  }

  /** Lists that are in order stay so when an object that is new to the index is added. */
  lemma {:induction false} AddLined(t: Tree, o: Obj, al: Indices, L: seq<Obj>)
    requires Shape(t) && Lined(t, L) && Unlisting(t, o) && o !in L
    ensures Lined(Add(t, o, al).0, L + [o])
    decreases t.depth, 9
  {
    LinedMore(t, L, o);
    InLineMore(t.objs, L, o);
    if t.depth > 0 { AddBelowLined(t, 0, o, al, false, L); }
  }

  lemma {:induction false} AddBelowLined(t: Tree, i: nat, o: Obj, al: Indices, ok: bool, L: seq<Obj>)
    requires Shape(t) && i <= 8 && t.depth > 0 && Lined(t, L + [o]) && o !in L
    requires forall k {:trigger t.kids[k]} :: i <= k < 8 && t.kids[k].Some? ==>
               Lined(t.kids[k].t, L) && Unlisting(t.kids[k].t, o)
    ensures Lined(AddBelow(t, i, o, al, ok).0, L + [o])
    decreases t.depth, 8 - i, 1
  {
    if i < 8 {
      if !Meets(t.KidBox(i), o.box) {
        AddBelowLined(t, i + 1, o, al, ok, L);
      } else {
        var (kid, al1) := KidFor(t, i, al);
        AddLined(kid, o, al1, L);
        var (t', al', ok') := AddKid(t, i, o, al);
        if ok' { AddBelowLined(t', i + 1, o, al', true, L); }
      }
    }
  }

  // ---------- An object that goes ----------

  function Without(L: seq<Obj>, o: Obj): seq<Obj> {
    if o in L then Erase(L, Find(L, o)) else L
  }

  lemma BeforeErased(L: seq<Obj>, k: nat, x: Obj, y: Obj)
    requires k < |L| && Before(L, x, y) && x != L[k] && y != L[k]
    ensures Before(Erase(L, k), x, y)
  {
    EraseAt(L, k);
    var m, n :| 0 <= m < n < |L| && L[m] == x && L[n] == y;
    hide Erase;
    var m', n' := if m < k then m else m - 1, if n < k then n else n - 1;
    assert Erase(L, k)[m'] == x && Erase(L, k)[n'] == y;
  }

  lemma InLineWithout(s: seq<Obj>, L: seq<Obj>, o: Obj)
    requires InLine(s, L) && Distinct(L)
    ensures InLine(s, Without(L, o))
  {
    if o in L {
      hide Erase, Before;
      EraseExact(L, o);
      hide Distinct;
      var M := Erase(L, Find(L, o));
      forall i, j | 0 <= i < j < |s| && s[i] in M && s[j] in M
        ensures Before(M, s[i], s[j])
      {
        BeforeErased(L, Find(L, o), s[i], s[j]);
      }
    }
  }

  lemma {:induction false} LinedWithout(t: Tree, L: seq<Obj>, o: Obj)
    requires Lined(t, L) && Distinct(L)
    ensures Lined(t, Without(L, o))
    decreases t
  {
    InLineWithout(t.objs, L, o);
    forall i | 0 <= i < |t.kids| && t.kids[i].Some?
      ensures Lined(t.kids[i].t, Without(L, o))
    {
      LinedWithout(t.kids[i].t, L, o);
    }
  }

  lemma InLineErased(s: seq<Obj>, k: nat, L: seq<Obj>)
    requires InLine(s, L) && k < |s|
    ensures InLine(Erase(s, k), L)
  {
    hide Erase, Before;
    EraseAt(s, k);
    var r := Erase(s, k);
    forall i, j | 0 <= i < j < |r| && r[i] in L && r[j] in L
      ensures Before(L, r[i], r[j])
    {
      assert r[i] == s[if i < k then i else i + 1] && r[j] == s[if j < k then j else j + 1];
    }
  }

  /** Lists that are in order stay so when an object is removed. */
  lemma {:induction false} RemoveLined(t: Tree, o: Obj, al: Indices, L: seq<Obj>)
    requires Shape(t) && Lined(t, L)
    ensures Lined(Remove(t, o, al).0, L)
    decreases t.depth, 9
  {
    if o in t.objs { InLineErased(t.objs, Find(t.objs, o), L); }
    if t.depth > 0 { RemoveBelowLined(Unlisted(t, o), 0, o, al, o in t.objs, L); }
  }

  lemma {:induction false} RemoveBelowLined(t: Tree, i: nat, o: Obj, al: Indices, ok: bool, L: seq<Obj>)
    requires Shape(t) && i <= 8 && t.depth > 0 && Lined(t, L)
    ensures Lined(RemoveBelow(t, i, o, al, ok).0, L)
    decreases t.depth, 8 - i, 1
  {
    if i < 8 {
      if t.kids[i].None? || !Meets(t.KidBox(i), o.box) {
        RemoveBelowLined(t, i + 1, o, al, ok, L);
      } else {
        RemoveLined(t.kids[i].t, o, al, L);
        var (t', al', ok') := RemoveKid(t, i, o, al);
        if ok' { RemoveBelowLined(t', i + 1, o, al', true, L); }
      }
    }
  }

  // ---------- Over every run ----------

  /** The objects of the index in the order in which they came into it. */
  function Arrivals(calls: seq<Call>): seq<Obj> {
    if calls == [] then []
    else
      var L, c := Arrivals(calls[..|calls| - 1]), calls[|calls| - 1];
      if c.RemoveCall? then Without(L, c.o) else if c.o in L then L else L + [c.o]
  }

  lemma {:induction false} ArrivalsAre(calls: seq<Call>)
    ensures Distinct(Arrivals(calls)) && forall o :: o in Arrivals(calls) <==> o in Contents(calls)
  {
    if calls != [] {
      var L, c := Arrivals(calls[..|calls| - 1]), calls[|calls| - 1];
      ArrivalsAre(calls[..|calls| - 1]);
      if c.RemoveCall? && c.o in L { EraseExact(L, c.o); }
    }
  }

  lemma {:induction false} RunLined(center: Vec, leafSize: real, depth: nat, calls: seq<Call>)
    requires leafSize > 0.0 && depth > 0
    requires forall i :: 0 <= i < |calls| && calls[i].AddCall? ==> calls[i].o.box.Ordered()
    ensures Lined(DoAll(Create(center, leafSize, depth), calls).root, Arrivals(calls))
  {
    if calls != [] {
      var before, c := calls[..|calls| - 1], calls[|calls| - 1];
      RunLined(center, leafSize, depth, before);
      RunOk(center, leafSize, depth, before);
      ArrivalsAre(before);
      hide Create;
      StepLined(DoAll(Create(center, leafSize, depth), before), c, Contents(before), Arrivals(before));
    }
  }

  lemma StepLined(oct: Snapshot, c: Call, S: set<Obj>, L: seq<Obj>)
    requires OctreeOk(oct, S) && Lined(oct.root, L) && Distinct(L) && forall o :: o in L <==> o in S
    ensures Lined(Do(oct, c).root, if c.RemoveCall? then Without(L, c.o) else if c.o in L then L else L + [c.o])
  {
    hide Lined, Placed, Without, Add, Remove;
    if c.RemoveCall? {
      LinedWithout(oct.root, L, c.o);
      RemoveLined(oct.root, c.o, oct.al, Without(L, c.o));
    } else if c.o in L {
      AddTwice(oct.root, c.o, oct.al, S);
    } else {
      PlacedUnlisting(oct.root, S, c.o);
      AddLined(oct.root, c.o, oct.al, L);
    }
  }

  lemma {:induction false} NodeLined(t: Tree, n: Tree, L: seq<Obj>)
    requires Lined(t, L) && IsNode(n, t)
    ensures InLine(n.objs, L)
    decreases t
  {
    if n != t {
      var i :| 0 <= i < |t.kids| && t.kids[i].Some? && IsNode(n, t.kids[i].t);
      NodeLined(t.kids[i].t, n, L);
    }
  }

  /** After any run, every node lists its objects in the order in which they came into the index. */
  lemma ListsInOrder(center: Vec, leafSize: real, depth: nat, calls: seq<Call>, n: Tree, i: nat, j: nat)
    requires leafSize > 0.0 && depth > 0
    requires forall k :: 0 <= k < |calls| && calls[k].AddCall? ==> calls[k].o.box.Ordered()
    requires IsNode(n, DoAll(Create(center, leafSize, depth), calls).root) && i < j < |n.objs|
    ensures Before(Arrivals(calls), n.objs[i], n.objs[j])
  {
    var oct := DoAll(Create(center, leafSize, depth), calls);
    hide Create, DoAll, Lined, IsNode, Arrivals, Contents, Before;
    RunLined(center, leafSize, depth, calls);
    RunOk(center, leafSize, depth, calls);
    ArrivalsAre(calls);
    NodeLined(oct.root, n, Arrivals(calls));
    EveryNodeExact(oct.root, Contents(calls), n);
    assert n.objs[i] in Arrivals(calls) && n.objs[j] in Arrivals(calls);
  }
}
