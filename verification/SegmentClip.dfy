/** The slab clipper of Core/OctreeObject.cpp, over the reals. */
module SegmentClip {
  import opened Geometry

  const THRESHOLD := 0.000001

  function Abs(x: real): real { if x < 0.0 then -x else x }

  function Max(x: real, y: real): real { if x < y then y else x }

  function Min(x: real, y: real): real { if x > y then y else x }

  /** What is left of a parameter interval: nothing, or [t0, t1]. */
  datatype Clip = Miss | Hit(t0: real, t1: real)
  {
    predicate Has(t: real) {
      Hit? && t0 <= t <= t1
    }
  }

  /** The coordinate of a segment from `a` at parameter `t`, and the parameter at which it is `m`. */
  function Coordinate(a: real, d: real, t: real): real { a + d * t }

  function Cross(m: real, a: real, d: real): real
    requires d != 0.0
  {
    (m - a) / d
  }

  /** One axis of a slab test: the slab [min, max], the segment from `a` to `b` with d == b - a. */
  datatype Slab = Slab(min: real, max: real, a: real, b: real, d: real)
  {
    predicate Contains(t: real) {
      min <= Coordinate(a, d, t) <= max
    }

    /** The axis is left to the coarse test. */
    predicate Skipped() {
      Abs(d) < THRESHOLD
    }
  }

  /** OctreeObject::ClipSegment for one axis, as a function. */
  function ClipAxis(s: Slab, t0: real, t1: real): (r: Clip)
    ensures r.Hit? && t0 <= t1 ==> t0 <= r.t0 <= r.t1 <= t1
  {
    if s.Skipped() then
      if (if s.d > 0.0 then !(s.b < s.min || s.a > s.max) else !(s.a < s.min || s.b > s.max)) then Hit(t0, t1) else Miss
    else
      var v0, v1 := Cross(s.min, s.a, s.d), Cross(s.max, s.a, s.d);
      var u0, u1 := Min(v0, v1), Max(v0, v1);
      if u1 < t0 || u0 > t1 then Miss else Hit(Max(u0, t0), Min(u1, t1))
  }

  /** OctreeObject::ClipSegment for one axis. The last test of the source is here only to show that it cannot succeed.
   */
  method ClipSegmentAxis(s: Slab, before0: real, before1: real) returns (ok: bool, t0: real, t1: real)
    requires before0 <= before1
    ensures ok <==> ClipAxis(s, before0, before1).Hit?
    ensures ok ==> ClipAxis(s, before0, before1) == Hit(t0, t1)
  {
    t0, t1 := before0, before1;
    if Abs(s.d) < THRESHOLD {
      if s.d > 0.0 {
        return !(s.b < s.min || s.a > s.max), t0, t1;
      } else {
        return !(s.a < s.min || s.b > s.max), t0, t1;
      }
    }
    var u0 := (s.min - s.a) / s.d;
    var u1 := (s.max - s.a) / s.d;
    if u0 > u1 {
      u0, u1 := u1, u0;
    }
    if u1 < t0 || u0 > t1 {
      return false, t0, t1;
    }
    t0 := Max(u0, t0);
    t1 := Min(u1, t1);
    var last := t1 < t0;
    assert !last;
    return !last, t0, t1;
  }

  // ---------- One axis ----------

  lemma Product(u: real, v: real)
    ensures u > 0.0 && v > 0.0 ==> u * v > 0.0
    ensures u > 0.0 && v < 0.0 ==> u * v < 0.0
    ensures u < 0.0 && v > 0.0 ==> u * v < 0.0
    ensures u < 0.0 && v < 0.0 ==> u * v > 0.0
    ensures u == 0.0 || v == 0.0 ==> u * v == 0.0
  {
  }

  /** Where a segment crosses a coordinate. */
  lemma Crossing(m: real, a: real, d: real, t: real)
    requires d != 0.0
    ensures var x, u := Coordinate(a, d, t), Cross(m, a, d);
            && (d > 0.0 ==> (x >= m <==> t >= u) && (x <= m <==> t <= u))
            && (d < 0.0 ==> (x >= m <==> t <= u) && (x <= m <==> t >= u))
  {
    var u := Cross(m, a, d);
    assert u * d == m - a;
    assert a + d * t - m == d * (t - u);
    Product(d, t - u);
  }

  /** An axis that is not skipped is clipped exactly. */
  lemma AxisExact(s: Slab, t0: real, t1: real, t: real)
    requires !s.Skipped() && s.min <= s.max && t0 <= t1
    ensures ClipAxis(s, t0, t1).Has(t) <==> t0 <= t <= t1 && s.Contains(t)
  {
    hide Coordinate, Cross;
    Crossing(s.min, s.a, s.d, t);
    Crossing(s.max, s.a, s.d, t);
    CrossOrder(s.min, s.max, s.a, s.d);
  }

  lemma CrossOrder(x: real, y: real, a: real, d: real)
    requires d != 0.0 && x <= y
    ensures if d > 0.0 then Cross(x, a, d) <= Cross(y, a, d) else Cross(y, a, d) <= Cross(x, a, d)
  {
    var u, v := Cross(x, a, d), Cross(y, a, d);
    assert u * d == x - a && v * d == y - a && (v - u) * d == y - x;
    Product(d, v - u);
  }

  /** A skipped axis is accepted only if the segment meets the slab somewhere. */
  lemma SkippedReaches(s: Slab, t0: real, t1: real) returns (t: real)
    requires s.Skipped() && s.min <= s.max && s.b == s.a + s.d && ClipAxis(s, t0, t1).Hit?
    ensures 0.0 <= t <= 1.0 && s.Contains(t)
  {
    if s.d == 0.0 {
      t := 0.0;
    } else {
      var target := if s.min <= s.a <= s.max then s.a else if s.a < s.min then s.min else s.max;
      Reach(s.a, s.d, target);
      t := (target - s.a) / s.d;
    }
  }

  /** A skipped axis is accepted if the segment meets the slab somewhere. */
  lemma SkippedAccepts(s: Slab, t0: real, t1: real, t: real)
    requires s.Skipped() && s.b == s.a + s.d && 0.0 <= t <= 1.0 && s.Contains(t)
    ensures ClipAxis(s, t0, t1) == Hit(t0, t1)
  {
    hide Coordinate, Cross;
    Between(s.a, s.d, t);
  }

  /** No axis loses a parameter at which the segment is in the slab. */
  lemma AxisSound(s: Slab, t0: real, t1: real, t: real)
    requires s.b == s.a + s.d && t0 <= t <= t1 && 0.0 <= t <= 1.0 && s.Contains(t)
    ensures ClipAxis(s, t0, t1).Has(t)
  {
    if s.Skipped() { SkippedAccepts(s, t0, t1, t); } else { AxisExact(s, t0, t1, t); }
  }

  lemma Reach(a: real, d: real, x: real)
    requires d != 0.0 && (if d > 0.0 then a <= x <= a + d else a + d <= x <= a)
    ensures 0.0 <= (x - a) / d <= 1.0 && a + d * ((x - a) / d) == x
  {
    Crossing(x, a, d, 0.0);
    Crossing(x, a, d, 1.0);
    var u := (x - a) / d;
    assert u * d == x - a;
  }

  lemma Between(a: real, d: real, t: real)
    requires 0.0 <= t <= 1.0
    ensures if d >= 0.0 then a <= Coordinate(a, d, t) <= a + d else a + d <= Coordinate(a, d, t) <= a
  {
    Product(d, t);
    Product(d, 1.0 - t);
    assert d * (1.0 - t) == d - d * t;
  }

  // ---------- Three axes ----------

  function At(v: Vec, i: nat): real
    requires i < 3
  {
    if i == 0 then v.x else if i == 1 then v.y else v.z
  }

  /** The segment from A to B, and a box. */
  datatype Query = Query(A: Vec, B: Vec, box: Box)
  {
    function Axis(i: nat): Slab
      requires i < 3
    {
      Slab(At(box.lo, i), At(box.hi, i), At(A, i), At(B, i), At(B, i) - At(A, i))
    }

    function Point(t: real): Vec {
      Vec(Coordinate(A.x, Axis(0).d, t), Coordinate(A.y, Axis(1).d, t), Coordinate(A.z, Axis(2).d, t))
    }

    /** The point at parameter `t` of the segment is in the box. */
    predicate Inside(t: real) {
      0.0 <= t <= 1.0 && box.Contains(Point(t))
    }
  }

  /** The axes from `i` on. */
  function ClipFrom(q: Query, i: nat, c: Clip): (r: Clip)
    requires i <= 3
    ensures r.Hit? ==> c.Hit?
    ensures r.Hit? && c.t0 <= c.t1 ==> c.t0 <= r.t0 <= r.t1 <= c.t1
    decreases 3 - i
  {
    if i == 3 || c.Miss? then c else ClipFrom(q, i + 1, ClipAxis(q.Axis(i), c.t0, c.t1))
  }

  function ClipBox(q: Query): Clip {
    ClipFrom(q, 0, Hit(0.0, 1.0))
  }

  lemma PointIs(q: Query, t: real)
    ensures q.Point(t) == Vec(Coordinate(q.A.x, q.B.x - q.A.x, t), Coordinate(q.A.y, q.B.y - q.A.y, t),
                              Coordinate(q.A.z, q.B.z - q.A.z, t))
  {
    hide Coordinate;
  }

  /** The three axes one after the other. */
  lemma ClipUnfold(q: Query)
    ensures var c1 := ClipAxis(q.Axis(0), 0.0, 1.0);
            if c1.Miss? then ClipBox(q) == Miss
            else
              var c2 := ClipAxis(q.Axis(1), c1.t0, c1.t1);
              if c2.Miss? then ClipBox(q) == Miss else ClipBox(q) == ClipAxis(q.Axis(2), c2.t0, c2.t1)
    ensures ClipAxis(q.Axis(0), 0.0, 1.0).Hit? ==> ClipAxis(q.Axis(0), 0.0, 1.0).t0 <= ClipAxis(q.Axis(0), 0.0, 1.0).t1
  {
    hide ClipAxis;
    var c1 := ClipAxis(q.Axis(0), 0.0, 1.0);
    assert ClipBox(q) == ClipFrom(q, 1, c1);
    if c1.Hit? {
      var c2 := ClipAxis(q.Axis(1), c1.t0, c1.t1);
      assert ClipFrom(q, 1, c1) == ClipFrom(q, 2, c2);
      if c2.Hit? { assert ClipFrom(q, 2, c2) == ClipFrom(q, 3, ClipAxis(q.Axis(2), c2.t0, c2.t1)); }
    }
  }

  /** OctreeObject::ClipSegment for a box: rewrites A and B. */
  method ClipSegment(A: Vec, B: Vec, lo: Vec, hi: Vec) returns (ok: bool, A': Vec, B': Vec)
    ensures var q := Query(A, B, Box(lo, hi));
            && (ok <==> ClipBox(q).Hit?)
            && A' == (if ok then q.Point(ClipBox(q).t0) else A)
            && B' == (if ok then q.Point(ClipBox(q).t1) else B)
  {
    hide ClipAxis, Query.Point, Coordinate;
    ghost var q := Query(A, B, Box(lo, hi));
    ClipUnfold(q);
    var S, D := A, Vec(B.x - A.x, B.y - A.y, B.z - A.z);
    A', B' := A, B;
    var t0, t1 := 0.0, 1.0;
    ok, t0, t1 := ClipSegmentAxis(Slab(lo.x, hi.x, A.x, B.x, D.x), t0, t1);
    if !ok { return; }
    ok, t0, t1 := ClipSegmentAxis(Slab(lo.y, hi.y, A.y, B.y, D.y), t0, t1);
    if !ok { return; }
    ok, t0, t1 := ClipSegmentAxis(Slab(lo.z, hi.z, A.z, B.z, D.z), t0, t1);
    if !ok { return; }
    PointIs(q, t0);
    PointIs(q, t1);
    A' := Vec(Coordinate(S.x, D.x, t0), Coordinate(S.y, D.y, t0), Coordinate(S.z, D.z, t0));
    B' := Vec(Coordinate(S.x, D.x, t1), Coordinate(S.y, D.y, t1), Coordinate(S.z, D.z, t1));
  }

  /** OctreeObject::RayIntersect, for an object whose box has the corners `lo` and `hi`. */
  method RayIntersect(begin: Vec, end: Vec, lo: Vec, hi: Vec) returns (ok: bool, first: Vec, last: Vec)
    ensures var q := Query(begin, end, Box(lo, hi));
            && ((exists t :: q.Inside(t)) ==> ok)
            && (forall t :: q.Inside(t) ==>
                  exists u0, u1 :: 0.0 <= u0 <= t <= u1 <= 1.0 && first == q.Point(u0) && last == q.Point(u1))
  {
    hide Query.Point;
    ok, first, last := ClipSegment(begin, end, lo, hi);
    ghost var q := Query(begin, end, Box(lo, hi));
    forall t | q.Inside(t)
      ensures ok && exists u0, u1 :: 0.0 <= u0 <= t <= u1 <= 1.0 && first == q.Point(u0) && last == q.Point(u1)
    {
      ClipSound(q, t);
      ghost var c := ClipBox(q);
      assert 0.0 <= c.t0 <= t <= c.t1 <= 1.0 && first == q.Point(c.t0) && last == q.Point(c.t1);
    }
  }

  lemma InsideAxis(q: Query, t: real)
    ensures q.Inside(t) <==> 0.0 <= t <= 1.0 && forall i :: 0 <= i < 3 ==> q.Axis(i).Contains(t)
  {
    hide Coordinate;
    assert q.Axis(0).Contains(t) <==> q.box.lo.x <= q.Point(t).x <= q.box.hi.x;
    assert q.Axis(1).Contains(t) <==> q.box.lo.y <= q.Point(t).y <= q.box.hi.y;
    assert q.Axis(2).Contains(t) <==> q.box.lo.z <= q.Point(t).z <= q.box.hi.z;
  }

  lemma {:induction false} ClipFromSound(q: Query, i: nat, c: Clip, t: real)
    requires i <= 3 && 0.0 <= t <= 1.0 && c.Has(t) && forall k :: i <= k < 3 ==> q.Axis(k).Contains(t)
    ensures ClipFrom(q, i, c).Has(t)
    decreases 3 - i
  {
    if i < 3 {
      AxisSound(q.Axis(i), c.t0, c.t1, t);
      ClipFromSound(q, i + 1, ClipAxis(q.Axis(i), c.t0, c.t1), t);
    }
  }

  /** Sound: every point of the segment in the box is kept. So if the answer is no, the segment misses the box. */
  lemma ClipSound(q: Query, t: real)
    requires q.Inside(t)
    ensures ClipBox(q).Has(t)
  {
    InsideAxis(q, t);
    ClipFromSound(q, 0, Hit(0.0, 1.0), t);
  }

  // ---------- When the answer is exact ----------

  /** No axis is left to the coarse test, or only ones on which the segment does not move. */
  predicate Sharp(d: real) {
    d == 0.0 || Abs(d) >= THRESHOLD
  }

  lemma {:induction false} ClipFromExact(q: Query, i: nat, c: Clip, t: real)
    requires i <= 3 && q.box.Ordered() && c.Hit? && c.t0 <= c.t1 && 0.0 <= t <= 1.0
    requires forall k :: i <= k < 3 ==> Sharp(q.Axis(k).d)
    ensures ClipFrom(q, i, c).Has(t) <==> c.Has(t) && forall k :: i <= k < 3 ==> q.Axis(k).Contains(t)
    decreases 3 - i
  {
    if i < 3 {
      var s := q.Axis(i);
      var c' := ClipAxis(s, c.t0, c.t1);
      if s.Skipped() {
        assert s.d == 0.0;
        assert s.d * t == 0.0;
      } else {
        AxisExact(s, c.t0, c.t1, t);
      }
      if c'.Hit? { ClipFromExact(q, i + 1, c', t); }
    }
  }

  /** With sharp axes the interval is exactly the part of the segment in the box. */
  lemma ClipExact(q: Query, t: real)
    requires q.box.Ordered() && (forall k :: 0 <= k < 3 ==> Sharp(q.Axis(k).d)) && 0.0 <= t <= 1.0
    ensures ClipBox(q).Has(t) <==> q.Inside(t)
  {
    InsideAxis(q, t);
    ClipFromExact(q, 0, Hit(0.0, 1.0), t);
  }

  // ---------- When a yes can be wrong ----------

  /** The segment from `A` in direction `D`. */
  function Ray(A: Vec, D: Vec, box: Box): Query {
    Query(A, Vec(A.x + D.x, A.y + D.y, A.z + D.z), box)
  }

  /** For segments in direction `D`, the answer yes means that the segment meets the box. */
  ghost predicate Reliable(D: Vec) {
    forall A, box: Box :: box.Ordered() && ClipBox(Ray(A, D, box)).Hit? ==> exists t :: Ray(A, D, box).Inside(t)
  }

  predicate AllSharp(D: Vec) {
    Sharp(D.x) && Sharp(D.y) && Sharp(D.z)
  }

  /** The segment moves along axis `i` only. */
  predicate Along(D: Vec, i: nat)
    requires i < 3
  {
    forall k :: 0 <= k < 3 && k != i ==> At(D, k) == 0.0
  }

  /** An accepted axis on which the segment does not move contains all of it. */
  lemma StillAxis(s: Slab, t0: real, t1: real, t: real)
    requires s.d == 0.0 && s.b == s.a && ClipAxis(s, t0, t1).Hit?
    ensures s.Contains(t) && ClipAxis(s, t0, t1) == Hit(t0, t1)
  {
    assert s.d * t == 0.0;
  }

  lemma {:induction false} AlongReaches(q: Query, i: nat, k: nat, c: Clip, t: real)
    requires i < 3 && k <= 3 && (forall j :: 0 <= j < 3 && j != i ==> q.Axis(j).d == 0.0)
    requires q.Axis(i).Contains(t) && ClipFrom(q, k, c).Hit?
    ensures forall j :: k <= j < 3 ==> q.Axis(j).Contains(t)
    decreases 3 - k
  {
    if k < 3 {
      if k != i { StillAxis(q.Axis(k), c.t0, c.t1, t); }
      AlongReaches(q, i, k + 1, ClipAxis(q.Axis(k), c.t0, c.t1), t);
    }
  }

  /** Axis `i` was accepted on the way. */
  lemma {:induction false} AxisAccepted(q: Query, i: nat, k: nat, c: Clip) returns (c': Clip)
    requires k <= i < 3 && ClipFrom(q, k, c).Hit?
    ensures c'.Hit? && ClipAxis(q.Axis(i), c'.t0, c'.t1).Hit?
    decreases i - k
  {
    c' := c;
    if k != i { c' := AxisAccepted(q, i, k + 1, ClipAxis(q.Axis(k), c.t0, c.t1)); }
  }

  lemma AlongReliable(q: Query, i: nat)
    requires i < 3 && (forall j :: 0 <= j < 3 && j != i ==> q.Axis(j).d == 0.0)
    requires q.Axis(i).Skipped() && q.box.Ordered() && ClipBox(q).Hit?
    ensures exists t :: q.Inside(t)
  {
    var c := AxisAccepted(q, i, 0, Hit(0.0, 1.0));
    BoxAxis(q, i);
    var t := SkippedReaches(q.Axis(i), c.t0, c.t1);
    AlongReaches(q, i, 0, Hit(0.0, 1.0), t);
    InsideAxis(q, t);
  }

  lemma BoxAxis(q: Query, i: nat)
    requires i < 3 && q.box.Ordered()
    ensures q.Axis(i).min <= q.Axis(i).max && q.Axis(i).b == q.Axis(i).a + q.Axis(i).d
  {
  }

  /** The coarse test accepts an axis if the segment is in the slab anywhere. */
  lemma {:induction false} CoarseAccepts(q: Query, k: nat, c: Clip, t: real, u: real)
    requires k <= 3 && c.Has(t) && 0.0 <= t <= 1.0 && 0.0 <= u <= 1.0
    requires forall j :: k <= j < 3 ==> q.Axis(j).Contains(t) || (q.Axis(j).Skipped() && q.Axis(j).Contains(u))
    ensures ClipFrom(q, k, c).Hit?
    decreases 3 - k
  {
    if k < 3 {
      var s := q.Axis(k);
      if s.Contains(t) {
        AxisSound(s, c.t0, c.t1, t);
      } else {
        SkippedAccepts(s, c.t0, c.t1, u);
      }
      CoarseAccepts(q, k + 1, ClipAxis(s, c.t0, c.t1), t, u);
    }
  }

  function Times(d: real, x: real): real { d * x }

  /** The part of a segment from 0 to `d` between the parameters `x` and `y`. */
  lemma Part(d: real, x: real, y: real, t: real)
    requires x <= y
    ensures Min(d * x, d * y) <= Max(d * x, d * y)
    ensures d != 0.0 ==> (Min(d * x, d * y) <= d * t <= Max(d * x, d * y) <==> x <= t <= y)
    ensures x <= t <= y ==> Min(d * x, d * y) <= d * t <= Max(d * x, d * y)
  {
    NamedPart(d, x, y, t);
  }

  lemma NamedPart(d: real, x: real, y: real, t: real)
    requires x <= y
    ensures var u, v, w := Times(d, x), Times(d, y), Times(d, t);
            && Min(u, v) <= Max(u, v)
            && (d != 0.0 ==> (Min(u, v) <= w <= Max(u, v) <==> x <= t <= y))
            && (x <= t <= y ==> Min(u, v) <= w <= Max(u, v))
  {
    hide Times;
    Scaled(d, x, y);
    Scaled(d, x, t);
    Scaled(d, t, x);
    Scaled(d, t, y);
    Scaled(d, y, t);
  }

  /** Multiplication by `d` keeps or reverses the order. */
  lemma Scaled(d: real, x: real, y: real)
    ensures x < y && d > 0.0 ==> Times(d, x) < Times(d, y)
    ensures x < y && d < 0.0 ==> Times(d, x) > Times(d, y)
    ensures d == 0.0 ==> Times(d, x) == 0.0 == Times(d, y)
  {
    assert Times(d, y) - Times(d, x) == d * (y - x);
    Product(d, y - x);
  }

  /** A box that a segment from the origin in direction `D` meets on axis `i` only at its end, and
      on axis `j` only at its start.
   */
  function Trap(D: Vec, i: nat, j: nat): Box
    requires i < 3 && j < 3
  {
    Box(Vec(Edge(D.x, 0, i, j, true), Edge(D.y, 1, i, j, true), Edge(D.z, 2, i, j, true)),
        Vec(Edge(D.x, 0, i, j, false), Edge(D.y, 1, i, j, false), Edge(D.z, 2, i, j, false)))
  }

  function From(k: nat, i: nat): real { if k == i then 0.75 else 0.0 }

  function To(k: nat, i: nat, j: nat): real { if k == i then 1.0 else if k == j then 0.25 else 1.0 }

  function Edge(d: real, k: nat, i: nat, j: nat, lower: bool): real {
    if lower then Min(d * From(k, i), d * To(k, i, j)) else Max(d * From(k, i), d * To(k, i, j))
  }

  lemma TrapSlab(D: Vec, i: nat, j: nat, k: nat)
    requires i < 3 && j < 3 && k < 3
    ensures Ray(Vec(0.0, 0.0, 0.0), D, Trap(D, i, j)).Axis(k)
         == Slab(Edge(At(D, k), k, i, j, true), Edge(At(D, k), k, i, j, false), 0.0, At(D, k), At(D, k))
  {
    hide Edge;
  }

  lemma TrapAxis(D: Vec, i: nat, j: nat, k: nat, t: real)
    requires i < 3 && j < 3 && i != j && k < 3
    ensures var s := Ray(Vec(0.0, 0.0, 0.0), D, Trap(D, i, j)).Axis(k);
            && s.d == At(D, k) && s.min <= s.max
            && (At(D, k) != 0.0 ==> (s.Contains(t) <==> From(k, i) <= t <= To(k, i, j)))
            && (From(k, i) <= t <= To(k, i, j) ==> s.Contains(t))
  {
    hide Trap, Ray;
    TrapSlab(D, i, j, k);
    Part(At(D, k), From(k, i), To(k, i, j), t);
  }

  /** With a skipped axis on which it moves, and another axis on which it moves, a segment can be reported to meet a box
      that it misses.
   */
  lemma TrapWorks(D: Vec, i: nat, j: nat)
    requires i < 3 && j < 3 && i != j && !Sharp(At(D, i)) && At(D, j) != 0.0
    ensures !Reliable(D)
  {
    var origin, box := Vec(0.0, 0.0, 0.0), Trap(D, i, j);
    var q := Ray(origin, D, box);
    forall k | 0 <= k < 3
      ensures q.Axis(k).Contains(0.0) || (q.Axis(k).Skipped() && q.Axis(k).Contains(1.0))
    {
      TrapAxis(D, i, j, k, 0.0);
      TrapAxis(D, i, j, k, 1.0);
    }
    CoarseAccepts(q, 0, Hit(0.0, 1.0), 0.0, 1.0);
    TrapAxis(D, i, j, 0, 0.0);
    TrapAxis(D, i, j, 1, 0.0);
    TrapAxis(D, i, j, 2, 0.0);
    assert box.Ordered();
    forall t
      ensures !q.Inside(t)
    {
      InsideAxis(q, t);
      TrapAxis(D, i, j, i, t);
      TrapAxis(D, i, j, j, t);
    }
    assert ClipBox(Ray(origin, D, box)).Hit?;
  }

  /** So the directions for which yes can be trusted are: every component is 0 or not below the threshold, or only one
      component is not 0.
   */
  lemma ReliableExactly(D: Vec)
    ensures Reliable(D) <==> AllSharp(D) || Along(D, 0) || Along(D, 1) || Along(D, 2)
  {
    if AllSharp(D) || Along(D, 0) || Along(D, 1) || Along(D, 2) {
      forall A, box: Box | box.Ordered() && ClipBox(Ray(A, D, box)).Hit?
        ensures exists t :: Ray(A, D, box).Inside(t)
      {
        YesIsRight(A, D, box);
      }
    } else {
      var i := if !Sharp(D.x) then 0 else if !Sharp(D.y) then 1 else 2;
      assert !Along(D, i);
      var j :| 0 <= j < 3 && j != i && At(D, j) != 0.0;
      TrapWorks(D, i, j);
    }
  }

  lemma YesIsRight(A: Vec, D: Vec, box: Box)
    requires AllSharp(D) || Along(D, 0) || Along(D, 1) || Along(D, 2)
    requires box.Ordered() && ClipBox(Ray(A, D, box)).Hit?
    ensures exists t :: Ray(A, D, box).Inside(t)
  {
    var q := Ray(A, D, box);
    assert q.Axis(0).d == D.x && q.Axis(1).d == D.y && q.Axis(2).d == D.z;
    if AllSharp(D) {
      ClipExact(q, ClipBox(q).t0);
    } else {
      var i := if Along(D, 0) then 0 else if Along(D, 1) then 1 else 2;
      assert forall j :: 0 <= j < 3 && j != i ==> q.Axis(j).d == At(D, j);
      AlongReliable(q, i);
    }
  }
}
