/** The mesh of SphereMesh is a surface without holes: every edge of a triangle is the reversed edge of
    another one, so that neighbouring triangles have the same orientation; but for the edges of the equator,
    where there is one hemisphere only.
*/
module SphereSurface {
  import opened SphereStrip
  import opened SphereMesh

  predicate Edge(t: Triangle, u: nat, v: nat) {
    (t.a == u && t.b == v) || (t.b == u && t.c == v) || (t.c == u && t.a == v)
  }

  ghost predicate HasEdge(tris: seq<Triangle>, u: nat, v: nat) {
    exists t :: t in tris && Edge(t, u, v)
  }

  function Next(j: nat, V: nat): nat { if j + 1 == V then 0 else j + 1 }

  function Previous(j: nat, V: nat): nat
    requires V > 0
  {
    if j == 0 then V - 1 else j - 1
  }

  lemma RingAround(base: nat, j: nat, V: nat)
    requires j < V
    ensures Previous(j, V) < V && Ring(base, Previous(j, V) + 1, V) == Ring(base, j, V)
    ensures Next(j, V) < V && Ring(base, Next(j, V), V) == Ring(base, j + 1, V)
  {
  }

  // ---------- The triangles by name ----------

  function Top(V: nat, i: nat): Triangle { Triangle(0, Ring(1, i, V), Ring(1, i + 1, V)) }

  function Upper(base: nat, V: nat, j: nat): Triangle {
    Triangle(Ring(base, j, V), Ring(base + V, j, V), Ring(base, j + 1, V))
  }

  function Lower(base: nat, V: nat, j: nat): Triangle {
    Triangle(Ring(base, j + 1, V), Ring(base + V, j, V), Ring(base + V, j + 1, V))
  }

  function Bottom(base: nat, last: nat, V: nat,
                  i: nat): Triangle { Triangle(Ring(base, i, V), last, Ring(base, i + 1, V)) }

  lemma TopIn(s: Shape, i: nat)
    requires s.Valid() && s.top && i < s.V
    ensures Top(s.V, i) in Mesh(s)
  {
    assert TopTriangles(s.V)[i] == Top(s.V, i);
  }

  lemma RowIn(base: nat, V: nat, j: nat)
    requires j < V
    ensures Upper(base, V, j) in RowTriangles(base, V) && Lower(base, V, j) in RowTriangles(base, V)
  {
    assert (2 * j) % 2 == 0 && (2 * j) / 2 == j && (2 * j + 1) % 2 == 1 && (2 * j + 1) / 2 == j;
    assert RowTriangles(base, V)[2 * j] == Upper(base, V, j);
    assert RowTriangles(base, V)[2 * j + 1] == Lower(base, V, j);
  }

  lemma {:induction false} RowsIn(s: Shape, n: nat, r: nat, t: Triangle)
    requires r < n && t in RowTriangles(s.RowStart(r), s.V)
    ensures t in RowsTriangles(s, n)
  {
    if r < n - 1 { RowsIn(s, n - 1, r, t); }
  }

  lemma QuadIn(s: Shape, r: nat, j: nat)
    requires s.Valid() && r < s.Rows() && j < s.V
    ensures Upper(s.RowStart(r), s.V, j) in Mesh(s) && Lower(s.RowStart(r), s.V, j) in Mesh(s)
  {
    RowIn(s.RowStart(r), s.V, j);
    RowsIn(s, s.Rows(), r, Upper(s.RowStart(r), s.V, j));
    RowsIn(s, s.Rows(), r, Lower(s.RowStart(r), s.V, j));
  }

  lemma BottomIn(s: Shape, i: nat)
    requires s.Valid() && s.bottom && i < s.V
    ensures Bottom(s.RowStart(s.Rows()), s.Last(), s.V, i) in Mesh(s)
  {
    assert BottomTriangles(s.RowStart(s.Rows()), s.Last(), s.V)[i] == Bottom(s.RowStart(s.Rows()), s.Last(), s.V, i);
  }

  /** The triangle of a ring edge that lies above the ring, and the one that lies below. */
  lemma AboveRing(s: Shape, r: nat, j: nat)
    requires s.Valid() && (s.top || r > 0) && r <= s.Rows() && j < s.V
    ensures HasEdge(Mesh(s), Ring(s.RowStart(r), j, s.V), Ring(s.RowStart(r), j + 1, s.V))
  {
    hide Mesh, Ring;
    RingWithin(s, r);
    if r == 0 {
      assert s.RowStart(0) == 1;
      TopIn(s, j);
      assert Edge(Top(s.V, j), Ring(1, j, s.V), Ring(1, j + 1, s.V));
    } else {
      QuadIn(s, r - 1, j);
      assert Edge(Lower(s.RowStart(r - 1), s.V, j), Ring(s.RowStart(r), j, s.V), Ring(s.RowStart(r), j + 1, s.V));
    }
  }

  lemma BelowRing(s: Shape, r: nat, j: nat)
    requires s.Valid() && (s.bottom || r < s.Rows()) && r <= s.Rows() && j < s.V
    ensures HasEdge(Mesh(s), Ring(s.RowStart(r), j + 1, s.V), Ring(s.RowStart(r), j, s.V))
  {
    hide Mesh, Ring;
    if r == s.Rows() {
      BottomIn(s, j);
      assert Edge(Bottom(s.RowStart(r), s.Last(), s.V, j), Ring(s.RowStart(r), j + 1, s.V),
                  Ring(s.RowStart(r), j, s.V));
    } else {
      QuadIn(s, r, j);
      assert Edge(Upper(s.RowStart(r), s.V, j), Ring(s.RowStart(r), j + 1, s.V), Ring(s.RowStart(r), j, s.V));
    }
  }

  // ---------- Every edge meets its reverse ----------

  /** Edge `i` of the equator, in the direction in which the one hemisphere has it. */
  predicate EquatorEdge(s: Shape, i: nat, u: nat, v: nat)
    requires s.Valid()
  {
    i < s.V &&
    if s.top && !s.bottom then u == Ring(s.RowStart(s.Rows()), i, s.V) && v == Ring(s.RowStart(s.Rows()), i + 1, s.V)
    else !s.top && u == Ring(s.RowStart(0), i + 1, s.V) && v == Ring(s.RowStart(0), i, s.V)
  }

  ghost predicate OnEquator(s: Shape, u: nat, v: nat)
    requires s.Valid()
  {
    exists i :: EquatorEdge(s, i, u, v)
  }

  lemma TopEdges(s: Shape, i: nat, u: nat, v: nat)
    requires s.Valid() && s.top && i < s.V && Edge(Top(s.V, i), u, v)
    ensures OnEquator(s, u, v) || HasEdge(Mesh(s), v, u)
  {
    RingAround(1, i, s.V);
    TopIn(s, Previous(i, s.V));
    TopIn(s, Next(i, s.V));
    assert s.RowStart(0) == 1;
    if s.bottom || 0 < s.Rows() { BelowRing(s, 0, i); }
    assert EquatorEdge(s, i, Ring(1, i, s.V), Ring(1, i + 1, s.V)) || s.bottom || 0 < s.Rows();
    assert Edge(Top(s.V, Previous(i, s.V)), Ring(1, i, s.V), 0) && Edge(Top(s.V, Next(i, s.V)), 0, Ring(1, i + 1, s.V));
  }

  lemma UpperEdges(s: Shape, r: nat, j: nat, u: nat, v: nat)
    requires s.Valid() && r < s.Rows() && j < s.V && Edge(Upper(s.RowStart(r), s.V, j), u, v)
    ensures OnEquator(s, u, v) || HasEdge(Mesh(s), v, u)
  {
    hide Mesh, Ring;
    var base, V := s.RowStart(r), s.V;
    RingAround(base, j, V);
    RingAround(base + V, j, V);
    QuadIn(s, r, Previous(j, V));
    QuadIn(s, r, j);
    if s.top || r > 0 { AboveRing(s, r, j); }
    assert EquatorEdge(s, j, Ring(base, j + 1, V), Ring(base, j, V)) || s.top || r > 0;
    assert Edge(Lower(base, V, Previous(j, V)), Ring(base + V, j, V), Ring(base, j, V));
    assert Edge(Lower(base, V, j), Ring(base, j + 1, V), Ring(base + V, j, V));
  }

  lemma LowerEdges(s: Shape, r: nat, j: nat, u: nat, v: nat)
    requires s.Valid() && r < s.Rows() && j < s.V && Edge(Lower(s.RowStart(r), s.V, j), u, v)
    ensures OnEquator(s, u, v) || HasEdge(Mesh(s), v, u)
  {
    hide Mesh, Ring;
    var base, V := s.RowStart(r), s.V;
    RingAround(base, j, V);
    RingAround(base + V, j, V);
    RingWithin(s, r + 1);
    QuadIn(s, r, Next(j, V));
    QuadIn(s, r, j);
    if s.bottom || r + 1 < s.Rows() { BelowRing(s, r + 1, j); }
    assert EquatorEdge(s, j, Ring(base + V, j, V), Ring(base + V, j + 1, V)) || s.bottom || r + 1 < s.Rows();
    assert Edge(Upper(base, V, Next(j, V)), Ring(base, j + 1, V), Ring(base + V, j + 1, V));
    assert Edge(Upper(base, V, j), Ring(base + V, j, V), Ring(base, j + 1, V));
  }

  lemma BottomEdges(s: Shape, i: nat, u: nat, v: nat)
    requires s.Valid() && s.bottom && i < s.V && Edge(Bottom(s.RowStart(s.Rows()), s.Last(), s.V, i), u, v)
    ensures OnEquator(s, u, v) || HasEdge(Mesh(s), v, u)
  {
    var base := s.RowStart(s.Rows());
    RingAround(base, i, s.V);
    BottomIn(s, Previous(i, s.V));
    BottomIn(s, Next(i, s.V));
    if s.top || s.Rows() > 0 { AboveRing(s, s.Rows(), i); }
    assert EquatorEdge(s, i, Ring(base, i + 1, s.V), Ring(base, i, s.V)) || s.top || s.Rows() > 0;
    assert Edge(Bottom(base, s.Last(), s.V, Previous(i, s.V)), s.Last(), Ring(base, i, s.V));
    assert Edge(Bottom(base, s.Last(), s.V, Next(i, s.V)), Ring(base, i + 1, s.V), s.Last());
  }

  lemma {:induction false} RowsEdges(s: Shape, n: nat, t: Triangle, u: nat, v: nat)
    requires s.Valid() && n <= s.Rows() && t in RowsTriangles(s, n) && Edge(t, u, v)
    ensures OnEquator(s, u, v) || HasEdge(Mesh(s), v, u)
  {
    var base := s.RowStart(n - 1);
    if t in RowTriangles(base, s.V) {
      var k :| 0 <= k < 2 * s.V && RowTriangles(base, s.V)[k] == t;
      if k % 2 == 0 { UpperEdges(s, n - 1, k / 2, u, v); } else { LowerEdges(s, n - 1, k / 2, u, v); }
    } else {
      RowsEdges(s, n - 1, t, u, v);
    }
  }

  /** Every edge has its reverse, but for those of the equator of a single hemisphere. */
  lemma Closed(s: Shape, t: Triangle, u: nat, v: nat)
    requires s.Valid() && t in Mesh(s) && Edge(t, u, v)
    ensures s.top && s.bottom ==> !OnEquator(s, u, v)
    ensures OnEquator(s, u, v) || HasEdge(Mesh(s), v, u)
  {
    var base := s.RowStart(s.Rows());
    if s.top && t in TopTriangles(s.V) {
      var i :| 0 <= i < s.V && TopTriangles(s.V)[i] == t;
      TopEdges(s, i, u, v);
    } else if t in RowsTriangles(s, s.Rows()) {
      RowsEdges(s, s.Rows(), t, u, v);
    } else {
      var i :| 0 <= i < s.V && BottomTriangles(base, s.Last(), s.V)[i] == t;
      BottomEdges(s, i, u, v);
    }
  }
}
