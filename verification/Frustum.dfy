/** The view frustum test of Display/Camera.cpp, the classifier of Display/OctreeTraverseFuncFrustum.cpp, and what a
    traversal with it finds. Distances are real numbers.
*/
module Frustum {
  import opened Geometry
  import opened OctreeTree
  import opened OctreePlacement
  import opened OctreeTraversal

  datatype Plane = Plane(a: real, b: real, c: real, d: real)
  {
    predicate Unit() {
      a * a + b * b + c * c == 1.0
    }
  }

  /** DisplayCamera::DistanceToPoint */
  function DistanceToPoint(plane: Plane, p: Vec): real {
    plane.a * p.x + plane.b * p.y + plane.c * p.z + plane.d
  }

  /** D3DXPlaneNormalize: division by the length of the normal. */
  function Normalize(plane: Plane, len: real): Plane
    requires len > 0.0
  {
    Plane(plane.a / len, plane.b / len, plane.c / len, plane.d / len)
  }

  /** The length of the normal of a plane that has one. */
  predicate LengthOf(plane: Plane, len: real) {
    len > 0.0 && len * len == plane.a * plane.a + plane.b * plane.b + plane.c * plane.c
  }

  lemma Quotient(x: real, len: real)
    requires len > 0.0
    ensures (x / len) * len == x && (x / len) * (x / len) * len * len == x * x
  {
    var q := x / len;
    assert q * len == x;
    assert q * q * len * len == (q * len) * (q * len);
  }

  lemma Positive(u: real, v: real)
    requires u > 0.0 && v > 0.0
    ensures u * v > 0.0
  {
  }

  lemma UnitFactor(u: real, len: real)
    requires len > 0.0 && (u * len) * len == len * len
    ensures u == 1.0
  {
    assert (u * len - len) * len == 0.0;
    assert (u - 1.0) * len == 0.0;
  }

  lemma UnitNormal(plane: Plane, len: real)
    requires LengthOf(plane, len)
    ensures Normalize(plane, len).Unit()
  {
    var n := Normalize(plane, len);
    var u, v, w := n.a * n.a, n.b * n.b, n.c * n.c;
    calc {
      ((u + v + w) * len) * len;
      u * len * len + v * len * len + w * len * len;
      { Quotient(plane.a, len); Quotient(plane.b, len); Quotient(plane.c, len); }
      plane.a * plane.a + plane.b * plane.b + plane.c * plane.c;
      len * len;
    }
    UnitFactor(u + v + w, len);
  }

  /** Normalizing gives a unit normal and keeps the sides of the plane. */
  lemma NormalizeKeepsSides(plane: Plane, len: real, p: Vec)
    requires LengthOf(plane, len)
    ensures Normalize(plane, len).Unit()
    ensures DistanceToPoint(Normalize(plane, len), p) >= 0.0 <==> DistanceToPoint(plane, p) >= 0.0
  {
    var n := Normalize(plane, len);
    Quotient(plane.a, len);
    Quotient(plane.b, len);
    Quotient(plane.c, len);
    Quotient(plane.d, len);
    UnitNormal(plane, len);
    var dn, dp := DistanceToPoint(n, p), DistanceToPoint(plane, p);
    assert dn * len == dp by {
      assert n.a * p.x * len == plane.a * p.x;
      assert n.b * p.y * len == plane.b * p.y;
      assert n.c * p.z * len == plane.c * p.z;
    }
    if dn >= 0.0 { assert dn * len >= 0.0; }
    if dn < 0.0 { assert dn * len < 0.0; }
  }

  datatype Collision = Out | In | Intersect

  /** The frustum as the camera keeps it: unit normals, and the distance of each plane to the origin. */
  datatype Camera = Camera(normals: seq<Plane>, distances: seq<real>)
  {
    /** What ExtractFrustumPlanes leaves behind. */
    ghost predicate Extracted() {
      && |normals| == 6 && |distances| == 6
      && forall i :: 0 <= i < 6 ==> normals[i].Unit() && distances[i] == DistanceToPoint(normals[i], Vec(0.0, 0.0, 0.0))
    }

    /** The point is on the non-negative side of every plane. */
    ghost predicate Sees(p: Vec)
      requires Extracted()
    {
      forall i :: 0 <= i < 6 ==> DistanceToPoint(normals[i], p) >= 0.0
    }

    /** D3DXPlaneDot with (x, y, z, 0), plus the distance of the plane. */
    function Distance(i: nat, p: Vec): real
      requires i < |normals| == |distances|
    {
      normals[i].a * p.x + normals[i].b * p.y + normals[i].c * p.z + normals[i].d * 0.0 + distances[i]
    }
  }

  /** The last loop of DisplayCamera::ExtractFrustumPlanes; `lens` are the lengths of the normals. */
  method ExtractFrustumPlanes(planes: seq<Plane>, lens: seq<real>) returns (camera: Camera)
    requires |planes| == 6 && |lens| == 6
    requires forall i :: 0 <= i < 6 ==> LengthOf(planes[i], lens[i])
    ensures camera.Extracted()
    ensures forall p :: camera.Sees(p) <==> forall i :: 0 <= i < 6 ==> DistanceToPoint(planes[i], p) >= 0.0
  {
    var normals, distances := [], [];
    for i := 0 to 6
      invariant |normals| == |distances| == i
      invariant forall k :: 0 <= k < i ==> normals[k] == Normalize(planes[k], lens[k])
      invariant forall k :: 0 <= k < i ==> distances[k] == DistanceToPoint(normals[k], Vec(0.0, 0.0, 0.0))
    {
      normals := normals + [Normalize(planes[i], lens[i])];
      distances := distances + [DistanceToPoint(normals[i], Vec(0.0, 0.0, 0.0))];
    }
    camera := Camera(normals, distances);
    forall i | 0 <= i < 6
      ensures normals[i].Unit()
    {
      NormalizeKeepsSides(planes[i], lens[i], Vec(0.0, 0.0, 0.0));
    }
    forall p, i | 0 <= i < 6
      ensures DistanceToPoint(normals[i], p) >= 0.0 <==> DistanceToPoint(planes[i], p) >= 0.0
    {
      NormalizeKeepsSides(planes[i], lens[i], p);
    }
  }

  function Abs(x: real): real {
    if x < 0.0 then -x else x
  }

  /** The loop of DisplayCamera::CollisionWithSphere from plane `i` on. */
  function CollideFrom(camera: Camera, i: nat, center: Vec, radius: real): (r: Collision)
    requires |camera.normals| == |camera.distances| == 6 && i <= 6
    decreases 6 - i
  {
    if i == 6 then In
    else if camera.Distance(i, center) < -radius then Out
    else if Abs(camera.Distance(i, center)) < radius then Intersect
    else CollideFrom(camera, i + 1, center, radius)
  }

  /** DisplayCamera::CollisionWithSphere */
  method CollisionWithSphere(camera: Camera, center: Vec, radius: real) returns (r: Collision)
    requires |camera.normals| == |camera.distances| == 6
    ensures r == CollideFrom(camera, 0, center, radius)
    ensures r == Out <==> exists k :: BehindAt(camera, 0, k, center, radius)
    ensures r == Intersect <==> exists k :: CutAt(camera, 0, k, center, radius)
  {
    OutExactly(camera, 0, center, radius);
    hide BehindAt, CutAt;
    r := In;
    var i := 0;
    while i < 6
      invariant i <= 6 && r == In
      invariant CollideFrom(camera, i, center, radius) == CollideFrom(camera, 0, center, radius)
    {
      var distance := camera.Distance(i, center);
      if distance < -radius {
        r := Out;
        break;
      }
      if Abs(distance) < radius {
        r := Intersect;
        break;
      }
      i := i + 1;
    }
  }

  // ---------- Spheres and planes ----------

  predicate InBall(p: Vec, center: Vec, radius: real) {
    var dx, dy, dz := p.x - center.x, p.y - center.y, p.z - center.z;
    dx * dx + dy * dy + dz * dz <= radius * radius
  }

  /** Cauchy-Schwarz for a unit vector. */
  lemma UnitProjection(a: real, b: real, c: real, x: real, y: real, z: real)
    requires a * a + b * b + c * c == 1.0
    ensures (a * x + b * y + c * z) * (a * x + b * y + c * z) <= x * x + y * y + z * z
  {
    var p, q, r := a * y - b * x, a * z - c * x, b * z - c * y;
    assert p * p >= 0.0 && q * q >= 0.0 && r * r >= 0.0;
    Lagrange(a, b, c, x, y, z);
  }

  lemma Lagrange(a: real, b: real, c: real, x: real, y: real, z: real)
    ensures (a * a + b * b + c * c) * (x * x + y * y + z * z) - (a * x + b * y + c * z) * (a * x + b * y + c * z)
         == (a * y - b * x) * (a * y - b * x) + (a * z - c * x) * (a * z - c * x) + (b * z - c * y) * (b * z - c * y)
  {
  }

  lemma Beyond(u: real, v: real)
    requires u > v >= 0.0
    ensures u * u > v * v
  {
    Positive(u - v, u + v);
    assert (u - v) * (u + v) == u * u - v * v;
  }

  lemma SquareOrder(u: real, v: real)
    requires v >= 0.0 && u * u <= v * v
    ensures -v <= u <= v
  {
    if u > v {
      Beyond(u, v);
    } else if u < -v {
      Beyond(-u, v);
    }
  }

  /** Distances within a ball differ from that of its center by at most the radius. */
  lemma BallDistance(camera: Camera, i: nat, p: Vec, center: Vec, radius: real)
    requires camera.Extracted() && i < 6 && radius >= 0.0 && InBall(p, center, radius)
    ensures camera.Distance(i, center) == DistanceToPoint(camera.normals[i], center)
    ensures -radius <= DistanceToPoint(camera.normals[i], p) - camera.Distance(i, center) <= radius
  {
    var n := camera.normals[i];
    var dx, dy, dz := p.x - center.x, p.y - center.y, p.z - center.z;
    UnitProjection(n.a, n.b, n.c, dx, dy, dz);
    var u := n.a * dx + n.b * dy + n.c * dz;
    SquareOrder(u, radius);
    assert DistanceToPoint(n, p) - DistanceToPoint(n, center) == u;
  }

  /** No point of a ball that is reported OUT is seen. */
  lemma {:induction false} OutIsOut(camera: Camera, i: nat, center: Vec, radius: real, p: Vec)
    requires camera.Extracted() && i <= 6 && radius >= 0.0 && InBall(p, center, radius) && camera.Sees(p)
    ensures CollideFrom(camera, i, center, radius) != Out
    decreases 6 - i
  {
    if i < 6 {
      BallDistance(camera, i, p, center, radius);
      OutIsOut(camera, i + 1, center, radius, p);
    }
  }

  /** A ball that touches a plane from behind: neither test of the loop notices it. */
  predicate Touches(camera: Camera, i: nat, center: Vec, radius: real)
    requires i < |camera.normals| == |camera.distances|
  {
    camera.Distance(i, center) == -radius
  }

  /** What IN means: every plane has the ball on its positive side, or touches it from behind. */
  lemma {:induction false} InExactly(camera: Camera, i: nat, center: Vec, radius: real)
    requires camera.Extracted() && i <= 6 && radius >= 0.0
    ensures CollideFrom(camera, i, center, radius) == In <==>
            forall k :: i <= k < 6 ==> camera.Distance(k, center) >= radius || Touches(camera, k, center, radius)
    decreases 6 - i
  {
    if i < 6 { InExactly(camera, i + 1, center, radius); }
  }

  /** The ball is in front of the plane, or touches it from behind. */
  predicate Passes(camera: Camera, k: nat, center: Vec, radius: real)
    requires k < |camera.normals| == |camera.distances|
  {
    camera.Distance(k, center) >= radius || Touches(camera, k, center, radius)
  }

  /** Plane `k` has the ball wholly behind it, and no plane from `i` on decides before it. */
  ghost predicate BehindAt(camera: Camera, i: nat, k: nat, center: Vec, radius: real)
    requires |camera.normals| == |camera.distances| == 6
  {
    i <= k < 6 && camera.Distance(k, center) < -radius && forall j :: i <= j < k ==> Passes(camera, j, center, radius)
  }

  /** Plane `k` cuts the ball, and no plane from `i` on decides before it. */
  ghost predicate CutAt(camera: Camera, i: nat, k: nat, center: Vec, radius: real)
    requires |camera.normals| == |camera.distances| == 6
  {
    && i <= k < 6 && -radius < camera.Distance(k, center) < radius
    && forall j :: i <= j < k ==> Passes(camera, j, center, radius)
  }

  lemma LaterPlane(camera: Camera, i: nat, k: nat, center: Vec, radius: real)
    requires |camera.normals| == |camera.distances| == 6 && i < 6 && i != k
    ensures BehindAt(camera, i, k, center, radius) <==>
            Passes(camera, i, center, radius) && BehindAt(camera, i + 1, k, center, radius)
    ensures CutAt(camera, i, k, center, radius) <==>
            Passes(camera, i, center, radius) && CutAt(camera, i + 1, k, center, radius)
  {
    hide Camera.Distance, Passes;
  }

  /** What OUT and INTERSECT mean: the first plane that the ball does not pass has it behind, or cuts it. */
  lemma {:induction false} OutExactly(camera: Camera, i: nat, center: Vec, radius: real)
    requires |camera.normals| == |camera.distances| == 6 && i <= 6
    ensures CollideFrom(camera, i, center, radius) == Out <==> exists k :: BehindAt(camera, i, k, center, radius)
    ensures CollideFrom(camera, i, center, radius) == Intersect <==> exists k :: CutAt(camera, i, k, center, radius)
    decreases 6 - i
  {
    hide Camera.Distance;
    if i < 6 {
      var next := i + 1;
      OutExactly(camera, next, center, radius);
      forall k | k != i
        ensures BehindAt(camera, i, k, center, radius) <==>
                Passes(camera, i, center, radius) && BehindAt(camera, next, k, center, radius)
        ensures CutAt(camera, i, k, center, radius) <==>
                Passes(camera, i, center, radius) && CutAt(camera, next, k, center, radius)
      {
        LaterPlane(camera, i, k, center, radius);
      }
      assert BehindAt(camera, i, i, center, radius) <==> camera.Distance(i, center) < -radius;
      assert CutAt(camera, i, i, center, radius) <==> -radius < camera.Distance(i, center) < radius;
      if radius < 0.0 { assert forall k :: !CutAt(camera, i, k, center, radius); }
    }
  }

  /** Every point of a ball that is reported IN is seen, exactly if no plane touches the ball from behind. */
  lemma InIsSeen(camera: Camera, center: Vec, radius: real)
    requires camera.Extracted() && radius > 0.0 && CollideFrom(camera, 0, center, radius) == In
    ensures (forall p :: InBall(p, center, radius) ==> camera.Sees(p)) <==>
            forall k :: 0 <= k < 6 ==> !Touches(camera, k, center, radius)
  {
    InExactly(camera, 0, center, radius);
    if forall k :: 0 <= k < 6 ==> !Touches(camera, k, center, radius) {
      forall p, k | InBall(p, center, radius) && 0 <= k < 6
        ensures DistanceToPoint(camera.normals[k], p) >= 0.0
      {
        BallDistance(camera, k, p, center, radius);
        assert !Touches(camera, k, center, radius);
      }
    } else {
      var k :| 0 <= k < 6 && Touches(camera, k, center, radius);
      Positive(radius, radius);
      BallDistance(camera, k, center, center, radius);
      assert InBall(center, center, radius) && !camera.Sees(center);
    }
  }

  /** The planes of a cube of half width `w` around the origin, normals inwards, and the distances of a point to them.
   */
  function Face(k: nat, w: real): Plane {
    if k == 0 then Plane(1.0, 0.0, 0.0, w)
    else if k == 1 then Plane(-1.0, 0.0, 0.0, w)
    else if k == 2 then Plane(0.0, 1.0, 0.0, w)
    else if k == 3 then Plane(0.0, -1.0, 0.0, w)
    else if k == 4 then Plane(0.0, 0.0, 1.0, w)
    else Plane(0.0, 0.0, -1.0, w)
  }

  function FaceDistance(k: nat, w: real, p: Vec): real {
    if k == 0 then w + p.x
    else if k == 1 then w - p.x
    else if k == 2 then w + p.y
    else if k == 3 then w - p.y
    else if k == 4 then w + p.z
    else w - p.z
  }

  /** A closed frustum: the camera of a parallel projection onto a cube. */
  predicate CubeCamera(camera: Camera, w: real) {
    && |camera.normals| == |camera.distances| == 6
    && forall k :: 0 <= k < 6 ==> camera.normals[k] == Face(k, w) && camera.distances[k] == w
  }

  lemma FaceDistances(k: nat, w: real, p: Vec)
    ensures DistanceToPoint(Face(k, w), p) == FaceDistance(k, w, p) && Face(k, w).Unit()
    ensures FaceDistance(k, w, Vec(0.0, 0.0, 0.0)) == w
  {
    // each face on its own
    if k == 0 {
    } else if k == 1 {
    } else if k == 2 {
    } else if k == 3 {
    } else if k == 4 {
    } else {
    }
  }

  lemma CubeDistances(camera: Camera, w: real, p: Vec)
    requires CubeCamera(camera, w)
    ensures camera.Extracted() && forall k :: 0 <= k < 6 ==> camera.Distance(k, p) == FaceDistance(k, w, p)
    ensures camera.Sees(p) <==> forall k :: 0 <= k < 6 ==> FaceDistance(k, w, p) >= 0.0
  {
    hide Face, FaceDistance, DistanceToPoint, Plane.Unit;
    forall k | 0 <= k < 6
      ensures camera.Distance(k, p) == DistanceToPoint(camera.normals[k], p) == FaceDistance(k, w, p)
      ensures camera.normals[k].Unit() && camera.distances[k] == DistanceToPoint(camera.normals[k], Vec(0.0, 0.0, 0.0))
    {
      FaceDistances(k, w, p);
      FaceDistances(k, w, Vec(0.0, 0.0, 0.0));
      PlaneDistance(camera, k, w, p);
    }
  }

  lemma PlaneDistance(camera: Camera, k: nat, w: real, p: Vec)
    requires CubeCamera(camera, w) && k < 6
    ensures camera.Distance(k, p) == DistanceToPoint(camera.normals[k], p)
  {
    hide Face;
    assert Face(k, w).d == w by { FaceOffset(k, w); }
    assert camera.normals[k].d * 0.0 == 0.0;
  }

  lemma FaceOffset(k: nat, w: real)
    ensures Face(k, w).d == w
  {
  }

  /** The camera sees exactly the points of the cube. */
  lemma CubeCameraSees(camera: Camera, w: real, p: Vec)
    requires CubeCamera(camera, w)
    ensures camera.Extracted()
    ensures camera.Sees(p) <==> -w <= p.x <= w && -w <= p.y <= w && -w <= p.z <= w
  {
    hide CubeCamera, Camera.Sees, Camera.Extracted;
    CubeDistances(camera, w, p);
    assert FaceDistance(0, w, p) >= 0.0 && FaceDistance(1, w, p) >= 0.0 <==> -w <= p.x <= w;
    assert FaceDistance(2, w, p) >= 0.0 && FaceDistance(3, w, p) >= 0.0 <==> -w <= p.y <= w;
    assert FaceDistance(4, w, p) >= 0.0 && FaceDistance(5, w, p) >= 0.0 <==> -w <= p.z <= w;
  }

  /** A ball that touches such a frustum from outside is reported IN, although its center is outside. At w == 10 this
      is the ball of radius 1 around (-11, 0, 0).
   */
  lemma TouchingExample(camera: Camera, w: real, center: Vec, radius: real)
    requires CubeCamera(camera, w) && 0.0 < radius <= w && center == Vec(-w - radius, 0.0, 0.0)
    ensures camera.Extracted() && CollideFrom(camera, 0, center, radius) == In && !camera.Sees(center)
  {
    hide CubeCamera, CollideFrom, Camera.Distance, Camera.Sees;
    CubeDistances(camera, w, center);
    CubeCameraSees(camera, w, center);
    forall k | 0 <= k < 6
      ensures camera.Distance(k, center) >= radius || Touches(camera, k, center, radius)
    {
      assert camera.Distance(k, center) == FaceDistance(k, w, center);
    }
    InExactly(camera, 0, center, radius);
  }

  /** Such a camera exists for every half width. */
  lemma CubeCameraExists(w: real) returns (camera: Camera)
    ensures CubeCamera(camera, w)
  {
    camera := Camera(seq(6, k requires 0 <= k < 6 => Face(k, w)), seq(6, _ => w));
  }

  // ---------- The classifier ----------

  /** The radius of a node: the length of (h, h, h) for half its edge h. `root3` is the square root of 3. */
  function Radius(size: real, root3: real): real {
    root3 * (size / 2.0)
  }

  /** OctreeTraverseFuncFrustum::Do */
  function Classify(camera: Camera, root3: real): (f: Rec -> Verdict)
    requires |camera.normals| == |camera.distances| == 6
  {
    (rec: Rec) =>
      match CollideFrom(camera, 0, rec.center, Radius(rec.size, root3))
      case In => Full
      case Intersect => Partial
      case Out => Outside
  }

  /** The cell of a node lies in its ball. */
  lemma CellInBall(center: Vec, size: real, root3: real, p: Vec)
    requires size >= 0.0 && root3 * root3 == 3.0 && Cube(center, size).Contains(p)
    ensures InBall(p, center, Radius(size, root3))
  {
    var h := size / 2.0;
    var dx, dy, dz := p.x - center.x, p.y - center.y, p.z - center.z;
    Square(dx, h);
    Square(dy, h);
    Square(dz, h);
    assert Radius(size, root3) * Radius(size, root3) == root3 * root3 * (h * h);
  }

  /** It is the smallest ball around the center that contains the cell. */
  lemma BallIsTight(center: Vec, size: real, root3: real, r: real)
    requires size >= 0.0 && root3 > 0.0 && root3 * root3 == 3.0 && r >= 0.0
    ensures (forall p :: Cube(center, size).Contains(p) ==> InBall(p, center, r)) <==> r >= Radius(size, root3)
  {
    var h, radius := size / 2.0, Radius(size, root3);
    var corner := Vec(center.x + h, center.y + h, center.z + h);
    RadiusSquare(h, root3);
    if forall p :: Cube(center, size).Contains(p) ==> InBall(p, center, r) {
      assert Cube(center, size).Contains(corner) && InBall(corner, center, r);
      assert radius * radius <= r * r;
      SquareOrder(radius, r);
    }
    if r >= radius {
      assert radius * radius <= r * r by {
        if r > radius { Beyond(r, radius); }
      }
      forall p | Cube(center, size).Contains(p)
        ensures InBall(p, center, r)
      {
        CellInBall(center, size, root3, p);
      }
    }
  }

  lemma RadiusSquare(h: real, root3: real)
    requires root3 > 0.0 && root3 * root3 == 3.0 && h >= 0.0
    ensures root3 * h >= 0.0 && (root3 * h) * (root3 * h) == 3.0 * (h * h)
  {
    assert (root3 * h) * (root3 * h) == (root3 * root3) * (h * h);
  }

  lemma Square(u: real, v: real)
    requires -v <= u <= v
    ensures u * u <= v * v
  {
    assert (v - u) * (v + u) >= 0.0;
  }

  /** An object of the index that has a point in a cell where the camera sees it is found by the traversal from there.
   */
  lemma {:induction false} FrustumFinds(t: Tree, S: set<Obj>, camera: Camera, root3: real, o: Obj, p: Vec)
    requires Shape(t) && t.size >= 0.0 && Placed(t, S) && AllOrdered(S)
    requires camera.Extracted() && root3 > 0.0 && root3 * root3 == 3.0
    requires o in S && o.box.Contains(p) && t.Cell().Contains(p) && camera.Sees(p)
    ensures o in Recursive(t, Classify(camera, root3), Unknown).objs
    decreases t
  {
    var f := Classify(camera, root3);
    CellInBall(t.center, t.size, root3, p);
    OutIsOut(camera, 0, t.center, Radius(t.size, root3), p);
    MeetsIsSharing(t.Cell(), o.box);
    assert o in t.objs;
    if Descends(t, f(RecOf(t))) {
      var i := OctantOf(t.center, p);
      OctantContains(t.center, t.size, p);
      assert Meets(t.KidBox(i), o.box);
      assert KidPlaced(t, i, S);
      KidCell(t, i);
      FrustumFinds(t.kids[i].t, S, camera, root3, o, p);
      assert t.kids[..8] == t.kids;
      KidReports(t.kids, 8, i, f, o);
    }
  }

  lemma {:induction false} KidReports(kids: seq<Kid>, n: nat, i: nat, f: Rec -> Verdict, o: Obj)
    requires i < n <= |kids| && o in RecursiveKid(kids[i], f).objs
    ensures o in RecursiveKids(kids[..n], f).objs
    decreases n
  {
    assert kids[..n][..n - 1] == kids[..n - 1];
    if i < n - 1 { KidReports(kids, n - 1, i, f, o); }
  }

  /** Frustum culling is complete, for both traversals: an object whose box has a point in the root cell where
      the camera sees it is reported.
   */
  lemma FrustumComplete(t: Tree, S: set<Obj>, camera: Camera, root3: real, o: Obj, p: Vec)
    requires Shape(t) && t.size >= 0.0 && Placed(t, S) && AllOrdered(S)
    requires camera.Extracted() && root3 > 0.0 && root3 * root3 == 3.0
    requires o in S && o.box.Contains(p) && t.Cell().Contains(p) && camera.Sees(p)
    ensures o in AppendNew([], Recursive(t, Classify(camera, root3), Unknown).objs)
    ensures o in Stacked(t, Classify(camera, root3), Unknown).objs
  {
    FrustumFinds(t, S, camera, root3, o, p);
    SameObjects(t, Classify(camera, root3));
    AppendNewElements([], Recursive(t, Classify(camera, root3), Unknown).objs);
  }

  /** The ball of a node that is reported as fully inside has only visible points exactly if no plane touches it from
      behind; then the node's cell has only visible points.
   */
  lemma FullIsVisible(t: Tree, camera: Camera, root3: real)
    requires t.size > 0.0 && camera.Extracted() && root3 > 0.0 && root3 * root3 == 3.0
    requires Classify(camera, root3)(RecOf(t)) == Full
    ensures (forall p :: InBall(p, t.center, Radius(t.size, root3)) ==> camera.Sees(p)) <==>
            forall k :: 0 <= k < 6 ==> !Touches(camera, k, t.center, Radius(t.size, root3))
    ensures (forall k :: 0 <= k < 6 ==> !Touches(camera, k, t.center, Radius(t.size, root3))) ==>
            forall p :: t.Cell().Contains(p) ==> camera.Sees(p)
  {
    Positive(root3, t.size / 2.0);
    InIsSeen(camera, t.center, Radius(t.size, root3));
    forall p | t.Cell().Contains(p)
      ensures InBall(p, t.center, Radius(t.size, root3))
    {
      CellInBall(t.center, t.size, root3, p);
    }
  }
}
