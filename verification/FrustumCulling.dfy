/** What view culling reports and what it leaves out, in terms of distances to the planes of the frustum. */
module FrustumCulling {
  import opened Geometry
  import opened OctreeTree
  import opened OctreePlacement
  import opened OctreeIndices
  import opened OctreeTraversal
  import opened OctreeDuplicates
  import opened OctreeReports
  import opened Frustum

  // ---------- The verdicts, by distances ----------

  /** All planes have the node's ball in front, or touch it from behind. */
  ghost predicate Inside(n: Tree, camera: Camera, root3: real)
    requires camera.Extracted()
  {
    forall k :: 0 <= k < 6 ==> Passes(camera, k, n.center, Radius(n.size, root3))
  }

  /** The first plane that does not is one that cuts the ball. */
  ghost predicate Cut(n: Tree, camera: Camera, root3: real)
    requires camera.Extracted()
  {
    exists k :: CutAt(camera, 0, k, n.center, Radius(n.size, root3))
  }

  /** The first plane that does not has the ball wholly behind it. */
  ghost predicate Behind(n: Tree, camera: Camera, root3: real)
    requires camera.Extracted()
  {
    exists k :: BehindAt(camera, 0, k, n.center, Radius(n.size, root3))
  }

  lemma VerdictExactly(n: Tree, camera: Camera, root3: real)
    requires n.size > 0.0 && camera.Extracted() && root3 > 0.0
    ensures var v := Classify(camera, root3)(RecOf(n));
            && (v == Full <==> Inside(n, camera, root3)) && (v == Partial <==> Cut(n, camera, root3))
            && (v == Outside <==> Behind(n, camera, root3)) && v != Unknown
  {
    hide CollideFrom, BehindAt, CutAt, Passes, Camera.Distance;
    Positive(root3, n.size / 2.0);
    OutExactly(camera, 0, n.center, Radius(n.size, root3));
    InsideExactly(n, camera, root3);
  }

  lemma InsideExactly(n: Tree, camera: Camera, root3: real)
    requires camera.Extracted() && Radius(n.size, root3) >= 0.0
    ensures CollideFrom(camera, 0, n.center, Radius(n.size, root3)) == In <==> Inside(n, camera, root3)
  {
    hide CollideFrom, Camera.Distance;
    var r := Radius(n.size, root3);
    InExactly(camera, 0, n.center, r);
    assert forall k :: 0 <= k < 6 ==> (Passes(camera, k, n.center, r) <==>
                                       camera.Distance(k, n.center) >= r || Touches(camera, k, n.center, r));
  }

  // ---------- What is reported ----------

  /** Every node above the one at `path` is cut by the frustum. */
  ghost predicate Reached(t: Tree, camera: Camera, root3: real, path: seq<nat>)
    requires camera.Extracted()
    ensures Reached(t, camera, root3, path) ==> IsPath(t, path)
    decreases path
  {
    path == [] ||
    (t.depth > 0 && Cut(t, camera, root3) && path[0] < |t.kids| && t.kids[path[0]].Some? &&
     Reached(t.kids[path[0]].t, camera, root3, path[1..]))
  }

  /** The object meets a node that is reached and wholly inside, or a leaf that is reached and not behind. */
  ghost predicate ShownAt(t: Tree, camera: Camera, root3: real, path: seq<nat>, o: Obj)
    requires camera.Extracted()
  {
    Reached(t, camera, root3, path) &&
    var n := NodeAt(t, path);
    Meets(n.Cell(), o.box) && (Inside(n, camera, root3) || (n.depth == 0 && !Behind(n, camera, root3)))
  }

  lemma {:induction false} ReachedIsOpen(t: Tree, camera: Camera, root3: real, path: seq<nat>)
    requires Shape(t) && t.size > 0.0 && camera.Extracted() && root3 > 0.0
    ensures Reached(t, camera, root3, path) <==> OpenTo(t, Classify(camera, root3), path)
    ensures IsPath(t, path) ==> NodeAt(t, path).size > 0.0
    decreases path
  {
    hide Cut, Behind, Inside, CollideFrom;
    VerdictExactly(t, camera, root3);
    if path != [] && path[0] < |t.kids| && t.kids[path[0]].Some? {
      ReachedIsOpen(t.kids[path[0]].t, camera, root3, path[1..]);
    }
  }

  /** View culling reports exactly the objects of the index that meet such a node, in both traversals. */
  lemma CulledExactly(t: Tree, S: set<Obj>, camera: Camera, root3: real, o: Obj)
    requires Shape(t) && t.size > 0.0 && Placed(t, S) && camera.Extracted() && root3 > 0.0
    ensures o in Stacked(t, Classify(camera, root3), Unknown).objs <==>
              o in S && exists p :: ShownAt(t, camera, root3, p, o)
    ensures o in Recursive(t, Classify(camera, root3), Unknown).objs <==>
              o in S && exists p :: ShownAt(t, camera, root3, p, o)
  {
    hide Cut, Behind, Inside, CollideFrom, Stacked, Recursive;
    var f := Classify(camera, root3);
    ObjectsExactly(t, f, o);
    forall p
      ensures ShowsObjects(t, f, p) && o in NodeAt(t, p).objs <==> o in S && ShownAt(t, camera, root3, p, o)
    {
      ReachedIsOpen(t, camera, root3, p);
      if IsPath(t, p) {
        PlacedAt(t, S, p);
        VerdictExactly(NodeAt(t, p), camera, root3);
      }
    }
  }

  /** What is left out: an object is not reported if every leaf it meets is behind the frustum and no node it meets is
      inside.
   */
  lemma BehindIsLeftOut(t: Tree, S: set<Obj>, camera: Camera, root3: real, o: Obj)
    requires Shape(t) && t.size > 0.0 && Placed(t, S) && camera.Extracted() && root3 > 0.0
    requires forall p :: IsPath(t, p) && Meets(NodeAt(t, p).Cell(), o.box) ==>
               !Inside(NodeAt(t, p), camera, root3) && (NodeAt(t, p).depth == 0 ==> Behind(NodeAt(t, p), camera, root3))
    ensures o !in Stacked(t, Classify(camera, root3), Unknown).objs
    ensures o !in Recursive(t, Classify(camera, root3), Unknown).objs
  {
    hide Cut, Behind, Inside;
    CulledExactly(t, S, camera, root3, o);
  }

  /** If the root's own ball is behind the frustum, nothing is reported. */
  lemma RootBehind(t: Tree, camera: Camera, root3: real)
    requires t.size > 0.0 && camera.Extracted() && root3 > 0.0 && Behind(t, camera, root3)
    ensures Stacked(t, Classify(camera, root3), Unknown) == NOTHING
  {
    hide Behind, Cut, Inside, CollideFrom;
    VerdictExactly(t, camera, root3);
  }

  /** For instance the ball of radius 1 around (-100, 0, 0) is behind the cube frustum of half width 10. */
  lemma BehindExample(camera: Camera, w: real, center: Vec, radius: real)
    requires CubeCamera(camera, w) && center.x < -w - radius
    ensures CollideFrom(camera, 0, center, radius) == Out
  {
    hide CubeCamera, CollideFrom, Camera.Sees;
    CubeDistances(camera, w, center);
    assert camera.Distance(0, center) == FaceDistance(0, w, center);
    assert BehindAt(camera, 0, 0, center, radius);
    OutExactly(camera, 0, center, radius);
  }
}
