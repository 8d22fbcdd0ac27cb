/** Points, closed boxes and the eight octants of a cube, over the reals. */
module Geometry {

  datatype Vec = Vec(x: real, y: real, z: real)

  /** A closed axis-aligned box, by its bottom-left-near and top-right-far corners. */
  datatype Box = Box(lo: Vec, hi: Vec)
  {
    predicate Ordered() {
      lo.x <= hi.x && lo.y <= hi.y && lo.z <= hi.z
    }

    predicate Contains(p: Vec) {
      lo.x <= p.x <= hi.x && lo.y <= p.y <= hi.y && lo.z <= p.z <= hi.z
    }

    predicate Within(b: Box) {
      b.lo.x <= lo.x && b.lo.y <= lo.y && b.lo.z <= lo.z && hi.x <= b.hi.x && hi.y <= b.hi.y && hi.z <= b.hi.z
    }
  }

  /** The rejection tests of OctreeNode::AddObject and RemoveObject, for the box of a child and the box of an o. */
  predicate Meets(child: Box, o: Box) {
    !(child.hi.x < o.lo.x) && !(child.hi.y < o.lo.y) && !(child.hi.z < o.lo.z) &&
    !(child.lo.x > o.hi.x) && !(child.lo.y > o.hi.y) && !(child.lo.z > o.hi.z)
  }

  /** Two ordered boxes pass the rejection tests exactly if they share a point. */
  lemma MeetsIsSharing(a: Box, b: Box)
    requires a.Ordered() && b.Ordered()
    ensures Meets(a, b) <==> exists p :: a.Contains(p) && b.Contains(p)
  {
    if Meets(a, b) {
      var p := Vec(if a.lo.x >= b.lo.x then a.lo.x else b.lo.x,
                   if a.lo.y >= b.lo.y then a.lo.y else b.lo.y,
                   if a.lo.z >= b.lo.z then a.lo.z else b.lo.z);
      assert a.Contains(p) && b.Contains(p);
    }
  }

  // ---------- Cubes and octants ----------

  /** The cube of a node, from its center and edge length. */
  function Cube(c: Vec, size: real): Box {
    Box(Vec(c.x - size / 2.0, c.y - size / 2.0, c.z - size / 2.0),
        Vec(c.x + size / 2.0, c.y + size / 2.0, c.z + size / 2.0))
  }

  /** The order of the octants: top-left-far, top-right-far, top-right-near, top-left-near, then the bottom ones. */
  function Octant(i: nat): (s: Vec)
    requires i < 8
  {
    Vec(if i == 0 || i == 3 || i == 4 || i == 7 then -1.0 else 1.0,
        if i < 4 then 1.0 else -1.0,
        if i == 0 || i == 1 || i == 4 || i == 5 then 1.0 else -1.0)
  }

  /** The box of child `i`, as OctreeNode::Create stores it in the parent. */
  function ChildBox(c: Vec, size: real, i: nat): (b: Box)
    requires i < 8
  {
    var q := size / 4.0;
    var m := Vec(c.x + Octant(i).x * q, c.y + Octant(i).y * q, c.z + Octant(i).z * q);
    Box(Vec(m.x - q, m.y - q, m.z - q), Vec(m.x + q, m.y + q, m.z + q))
  }

  /** The center that OctreeNode::AddObject gives to child `i`: half a child edge below the corner of its box. */
  function ChildCenter(c: Vec, size: real, i: nat): (m: Vec)
    requires i < 8
  {
    var hi := ChildBox(c, size, i).hi;
    Vec(hi.x - size / 2.0 / 2.0, hi.y - size / 2.0 / 2.0, hi.z - size / 2.0 / 2.0)
  }

  /** The box that the parent keeps for a child is the cube of that child. */
  lemma ChildCube(c: Vec, size: real, i: nat)
    requires i < 8
    ensures Cube(ChildCenter(c, size, i), size / 2.0) == ChildBox(c, size, i)
  {
  }

  lemma ChildWithin(c: Vec, size: real, i: nat)
    requires i < 8 && size >= 0.0
    ensures ChildBox(c, size, i).Within(Cube(c, size))
  {
  }

  lemma MeetsWithin(a: Box, b: Box, o: Box)
    requires a.Within(b) && Meets(a, o)
    ensures Meets(b, o)
  {
  }

  /** The octant of a point of the cube. */
  function OctantOf(c: Vec, p: Vec): (i: nat)
    ensures i < 8
  {
    if p.y >= c.y then
      if p.z >= c.z then (if p.x >= c.x then 1 else 0) else (if p.x >= c.x then 2 else 3)
    else
      if p.z >= c.z then (if p.x >= c.x then 5 else 4) else (if p.x >= c.x then 6 else 7)
  }

  lemma OctantContains(c: Vec, size: real, p: Vec)
    requires Cube(c, size).Contains(p)
    ensures ChildBox(c, size, OctantOf(c, p)).Contains(p)
  {
  }

  /** The children cover the cube: an ordered box that meets the cube meets one of them. */
  lemma ChildrenCover(c: Vec, size: real, o: Box) returns (i: nat)
    requires size >= 0.0 && o.Ordered() && Meets(Cube(c, size), o)
    ensures i < 8 && Meets(ChildBox(c, size, i), o)
  {
    MeetsIsSharing(Cube(c, size), o);
    var p :| Cube(c, size).Contains(p) && o.Contains(p);
    i := OctantOf(c, p);
    OctantContains(c, size, p);
  }
}
