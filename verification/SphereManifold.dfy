/** The mesh of SphereMesh is a manifold: every directed edge belongs to exactly one triangle, and by SphereSurface so
    does its reverse. A single hemisphere has a boundary, the equator.
*/
module SphereManifold {
  import opened SphereStrip
  import opened SphereMesh
  import opened SphereSurface
  import opened Residues

  /** A triangle by its kind and place. */
  datatype Name = TopName(i: nat) | UpperName(r: nat, i: nat) | LowerName(r: nat, i: nat) | BottomName(i: nat)

  predicate Names(s: Shape, n: Name)
    requires s.Valid()
  {
    && n.i < s.V && (n.UpperName? || n.LowerName? ==> n.r < s.Rows())
    && (n.TopName? ==> s.top) && (n.BottomName? ==> s.bottom)
  }

  function Named(s: Shape, n: Name): Triangle
    requires s.Valid()
  {
    match n
    case TopName(i) => Top(s.V, i)
    case UpperName(r, i) => Upper(s.RowStart(r), s.V, i)
    case LowerName(r, i) => Lower(s.RowStart(r), s.V, i)
    case BottomName(i) => Bottom(s.RowStart(s.Rows()), s.Last(), s.V, i)
  }

  function TopCount(s: Shape): nat {
    if s.top then s.V else 0
  }

  /** Where the triangle is in the mesh. */
  function Position(s: Shape, n: Name): nat
    requires s.Valid()
  {
    match n
    case TopName(i) => i
    case UpperName(r, i) => TopCount(s) + 2 * s.V * r + 2 * i
    case LowerName(r, i) => TopCount(s) + 2 * s.V * r + (2 * i + 1)
    case BottomName(i) => TopCount(s) + 2 * s.V * s.Rows() + i
  }

  // ---------- Every position has a name ----------

  lemma {:induction false} RowsAt(s: Shape, n: nat, r: nat, m: nat)
    requires s.Valid() && r < n && m < 2 * s.V
    ensures 0 <= 2 * s.V * r + m < |RowsTriangles(s, n)| == 2 * s.V * n
    ensures RowsTriangles(s, n)[2 * s.V * r + m] == RowTriangles(s.RowStart(r), s.V)[m]
    decreases n
  {
    RowsLength(s, n - 1);
    assert 2 * s.V * n == 2 * s.V * (n - 1) + 2 * s.V;
    if r < n - 1 { RowsAt(s, n - 1, r, m); }
  }

  lemma {:induction false} RowsLength(s: Shape, n: nat)
    requires s.Valid()
    ensures |RowsTriangles(s, n)| == 2 * s.V * n
  {
    if n > 0 {
      RowsLength(s, n - 1);
      assert 2 * s.V * n == 2 * s.V * (n - 1) + 2 * s.V;
    }
  }

  lemma RowNamed(s: Shape, r: nat, m: nat) returns (n: Name)
    requires s.Valid() && r < s.Rows() && m < 2 * s.V
    ensures Names(s, n) && Position(s, n) == TopCount(s) + 2 * s.V * r + m
        && Named(s, n) == RowTriangles(s.RowStart(r), s.V)[m]
  {
    n := if m % 2 == 0 then UpperName(r, m / 2) else LowerName(r, m / 2);
  }

  lemma Split(k: nat, d: nat, n: nat) returns (q: nat, m: nat)
    requires d > 0 && k < d * n
    ensures q < n && m < d && k == d * q + m
  {
    q, m := k / d, k % d;
    if q >= n { MulAtLeast(d, q - n + 1); }
  }

  lemma MeshParts(s: Shape, k: nat)
    requires s.Valid() && k < |Mesh(s)|
    ensures var top, rows, base := TopCount(s), |RowsTriangles(s, s.Rows())|, s.RowStart(s.Rows());
            && |Mesh(s)| == top + rows + (if s.bottom then s.V else 0)
            && Mesh(s)[k] == if k < top then TopTriangles(s.V)[k]
                             else if k < top + rows then RowsTriangles(s, s.Rows())[k - top]
                             else BottomTriangles(base, s.Last(), s.V)[k - top - rows]
  {
  }

  lemma MiddleName(s: Shape, d: nat, k: nat) returns (n: Name)
    requires s.Valid() && d == 2 * s.V && k < |RowsTriangles(s, s.Rows())|
    ensures Names(s, n) && Position(s, n) == TopCount(s) + k && Named(s, n) == RowsTriangles(s, s.Rows())[k]
  {
    hide RowsTriangles, RowTriangles, Shape.RowStart, Shape.Last, Shape.Rows, Named, Names, Position;
    RowsLength(s, s.Rows());
    var r, m := Split(k, d, s.Rows());
    RowsAt(s, s.Rows(), r, m);
    n := RowNamed(s, r, m);
  }

  lemma NameAt(s: Shape, k: nat) returns (n: Name)
    requires s.Valid() && k < |Mesh(s)|
    ensures Names(s, n) && Position(s, n) == k && Named(s, n) == Mesh(s)[k]
  {
    hide Mesh, RowsTriangles, RowTriangles, Shape.RowStart, Shape.Last, Shape.Rows;
    RowsLength(s, s.Rows());
    MeshParts(s, k);
    var rows := |RowsTriangles(s, s.Rows())|;
    var top := TopCount(s);
    if k < top {
      n := TopName(k);
    } else if k < top + rows {
      n := MiddleName(s, 2 * s.V, k - top);
    } else {
      n := BottomName(k - top - rows);
    }
  }

  // ---------- Every edge has one owner ----------

  function RingOf(s: Shape, x: nat): int
    requires s.V > 0
  {
    (x - s.FirstRing()) / s.V
  }

  function Column(s: Shape, x: nat): nat
    requires s.V > 0
  {
    (x - s.FirstRing()) % s.V
  }

  /** The triangle that an edge belongs to, from the rings and columns of its ends. */
  function Owner(s: Shape, u: nat, v: nat): Name
    requires s.Valid()
  {
    var V, last := s.V, s.Last();
    var cu, cv := Column(s, u), Column(s, v);
    if s.top && u == 0 then TopName(cv)
    else if s.top && v == 0 then TopName(Previous(cu, V))
    else if s.bottom && v == last then BottomName(cu)
    else if s.bottom && u == last then BottomName(Previous(cv, V))
    else
      var ru, rv := RingOf(s, u), RingOf(s, v);
      if ru == rv then
        if cv == Next(cu, V) then (if ru <= 0 then TopName(cu) else LowerName(ru - 1, cu))
        else (if ru < 0 || ru >= s.Rows() then BottomName(cv) else UpperName(ru, cv))
      else if ru < rv then
        if ru < 0 then TopName(0) else if cu == cv then UpperName(ru, cu) else LowerName(ru, cv)
      else
        if rv < 0 then TopName(0) else if cu == cv then LowerName(rv, Previous(cu, V)) else UpperName(rv, cu)
  }

  /** The vertex is neither pole. */
  predicate OfRing(s: Shape, x: nat)
    requires s.Valid()
  {
    (s.top ==> 0 < x) && (s.bottom ==> x < s.Last())
  }

  /** A vertex of a ring is neither pole, and its ring and column are those that it was named by. */
  lemma Decode(s: Shape, r: nat, c: nat)
    requires s.Valid() && r <= s.Rows() && c < s.V
    ensures var x := s.RowStart(r) + c; OfRing(s, x) && RingOf(s, x) == r && Column(s, x) == c
  {
    ModOf(r, c, s.V);
    RingWithin(s, r);
    assert s.V * r + c == r * s.V + c;
  }

  lemma DecodeRing(s: Shape, r: nat, i: nat)
    requires s.Valid() && r <= s.Rows() && i < s.V
    ensures var x, y := Ring(s.RowStart(r), i, s.V), Ring(s.RowStart(r), i + 1, s.V);
            && OfRing(s, x) && RingOf(s, x) == r && Column(s, x) == i
            && OfRing(s, y) && RingOf(s, y) == r && Column(s, y) == Next(i, s.V)
  {
    Decode(s, r, i);
    Decode(s, r, Next(i, s.V));
  }

  lemma NextPrevious(i: nat, V: nat)
    requires V > 2 && i < V
    ensures Next(i, V) < V && Previous(Next(i, V), V) == i && Next(i, V) != i && Next(Next(i, V), V) != i
  {
  }

  /** The owner of an edge is the triangle that has it. */
  lemma OwnerOf(s: Shape, n: Name, u: nat, v: nat)
    requires s.Valid() && Names(s, n) && Edge(Named(s, n), u, v)
    ensures Owner(s, u, v) == n
  {
    hide RingOf, Column, Ring, Next, Previous, Shape.RowStart, Shape.Last, Shape.Rows;
    NextPrevious(n.i, s.V);
    match n {
      case TopName(i) => DecodeRing(s, 0, i);
        RowZero(s);
      case UpperName(r, i) => DecodeRing(s, r, i);
        NextRow(s, r, i);
      case LowerName(r, i) => DecodeRing(s, r, i);
        NextRow(s, r, i);
      case BottomName(i) => DecodeRing(s, s.Rows(), i);
    }
  }

  lemma RowZero(s: Shape)
    requires s.Valid() && s.top
    ensures s.RowStart(0) == 1
  {
  }

  lemma NextRow(s: Shape, r: nat, i: nat)
    requires s.Valid() && r < s.Rows() && i < s.V
    ensures var x, y := Ring(s.RowStart(r) + s.V, i, s.V), Ring(s.RowStart(r) + s.V, i + 1, s.V);
            && OfRing(s, x) && RingOf(s, x) == r + 1 && Column(s, x) == i
            && OfRing(s, y) && RingOf(s, y) == r + 1 && Column(s, y) == Next(i, s.V)
  {
    DecodeRing(s, r + 1, i);
    assert s.RowStart(r + 1) == s.RowStart(r) + s.V;
  }

  /** No directed edge occurs in two triangles of the mesh. */
  lemma EdgeOnce(s: Shape, j: nat, k: nat, u: nat, v: nat)
    requires s.Valid() && j < |Mesh(s)| && k < |Mesh(s)|
    requires Edge(Mesh(s)[j], u, v) && Edge(Mesh(s)[k], u, v)
    ensures j == k
  {
    var m := NameAt(s, j);
    var n := NameAt(s, k);
    OwnerOf(s, m, u, v);
    OwnerOf(s, n, u, v);
  }

  ghost predicate EdgeAt(s: Shape, k: nat, u: nat, v: nat)
    requires s.Valid()
  {
    k < |Mesh(s)| && Edge(Mesh(s)[k], u, v)
  }

  /** The sphere is a surface: each edge of a triangle lies, reversed, in exactly one triangle, which is another one;
      but for the edges of the equator of a single hemisphere, which lie in no triangle in the other direction.
   */
  lemma Manifold(s: Shape, j: nat, u: nat, v: nat)
    requires s.Valid() && EdgeAt(s, j, u, v)
    ensures if OnEquator(s, u, v) then !(s.top && s.bottom) && forall k :: !EdgeAt(s, k, v, u)
            else exists k :: EdgeAt(s, k, v, u) && k != j && forall l :: EdgeAt(s, l, v, u) ==> l == k
  {
    Closed(s, Mesh(s)[j], u, v);
    if OnEquator(s, u, v) {
      var i :| EquatorEdge(s, i, u, v);
      forall k
        ensures !EdgeAt(s, k, v, u)
      {
        NoReverse(s, i, u, v, k);
      }
    } else {
      var t :| t in Mesh(s) && Edge(t, v, u);
      var k :| 0 <= k < |Mesh(s)| && Mesh(s)[k] == t;
      assert EdgeAt(s, k, v, u);
      forall l | EdgeAt(s, l, v, u)
        ensures l == k
      {
        EdgeOnce(s, l, k, v, u);
      }
      NotBothWays(s, j, u, v);
    }
  }

  /** A triangle with the reverse of an equator edge would have to be on the other side of the equator. */
  lemma NoReverse(s: Shape, i: nat, u: nat, v: nat, k: nat)
    requires s.Valid() && !(s.top && s.bottom) && EquatorEdge(s, i, u, v)
    ensures !EdgeAt(s, k, v, u)
  {
    hide RingOf, Column, Ring, Next, Previous, Shape.RowStart, Shape.Last, Mesh;
    if EdgeAt(s, k, v, u) {
      var n := NameAt(s, k);
      OwnerOf(s, n, v, u);
      DecodeRing(s, if s.top then s.Rows() else 0, i);
      NextPrevious(i, s.V);
    }
  }

  /** The boundary of a single hemisphere: all edges of the equator. */
  lemma Boundary(s: Shape, i: nat)
    requires s.Valid() && !(s.top && s.bottom) && i < s.V
    ensures exists u, v, j :: EquatorEdge(s, i, u, v) && EdgeAt(s, j, u, v)
  {
    var r := if s.top then s.Rows() else 0;
    var a, b := Ring(s.RowStart(r), i, s.V), Ring(s.RowStart(r), i + 1, s.V);
    if s.top { AboveRing(s, r, i); } else { BelowRing(s, r, i); }
    var u, v := if s.top then a else b, if s.top then b else a;
    var t :| t in Mesh(s) && Edge(t, u, v);
    var j :| 0 <= j < |Mesh(s)| && Mesh(s)[j] == t;
    assert EquatorEdge(s, i, u, v) && EdgeAt(s, j, u, v);
  }

  lemma VerticesDiffer(s: Shape, n: Name)
    requires s.Valid() && Names(s, n)
    ensures var t := Named(s, n); t.a != t.b && t.b != t.c && t.c != t.a
  {
    hide RingOf, Column, Ring, Next, Previous, Shape.RowStart, Shape.Last, Shape.Rows;
    NextPrevious(n.i, s.V);
    match n {
      case TopName(i) => DecodeRing(s, 0, i);
        RowZero(s);
      case UpperName(r, i) => DecodeRing(s, r, i);
        NextRow(s, r, i);
      case LowerName(r, i) => DecodeRing(s, r, i);
        NextRow(s, r, i);
      case BottomName(i) => DecodeRing(s, s.Rows(), i);
    }
  }

  /** The three vertices of a triangle differ, so it has no edge in both directions. */
  lemma NotBothWays(s: Shape, j: nat, u: nat, v: nat)
    requires s.Valid() && EdgeAt(s, j, u, v)
    ensures !EdgeAt(s, j, v, u)
  {
    var n := NameAt(s, j);
    VerticesDiffer(s, n);
  }
}
