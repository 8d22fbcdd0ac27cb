/** The index strip of Display/GeometryHelperSphere.cpp: what is written, and which triangles it makes.
    Indices are written two at a time.
*/
module SphereStrip {

  /** The part of CreateInfo that shapes the mesh; `H` horizontal slices for one hemisphere, `V` vertical slices. */
  datatype Shape = Shape(top: bool, bottom: bool, H: nat, V: nat)
  {
    predicate Valid() {
      (top || bottom) && H > 0 && V > 2
    }

    function Hemispheres(): nat {
      (if bottom then 1 else 0) + (if top then 1 else 0)
    }

    /** CreateBuffers: m_uVertexCount */
    function VertexCount(): nat
      requires Valid()
    {
      Hemispheres() + Hemispheres() * V * (H - 1) + V
    }

    /** CreateBuffers: m_uIndexCount */
    function IndexCount(): nat
      requires Valid()
    {
      Hemispheres() * (2 * (V + 1)) + Hemispheres() * ((2 + V * 2) * (H - 1)) + Hemispheres() * (2 * (H - 1))
    }

    /** The strips between two rings. */
    function Rows(): nat
      requires Valid()
    {
      Hemispheres() * (H - 1)
    }

    /** The first vertex of the first ring. */
    function FirstRing(): nat {
      if top then 1 else 0
    }

    function RowStart(r: nat): nat {
      FirstRing() + r * V
    }

    function Last(): nat
      requires Valid()
    {
      VertexCount() - 1
    }
  }

  type Pair = (nat, nat)

  // ---------- What is written ----------

  function TopFanTo(n: nat): (r: seq<Pair>)
    ensures |r| == n
  {
    if n == 0 then [] else TopFanTo(n - 1) + [(0, n)]
  }

  function TopFan(V: nat): (r: seq<Pair>)
    ensures |r| == V + 1
  {
    TopFanTo(V) + [(0, 1)]
  }

  function RowTo(base: nat, V: nat, n: nat): (r: seq<Pair>)
    ensures |r| == n
  {
    if n == 0 then [] else RowTo(base, V, n - 1) + [(base + (n - 1), base + (n - 1) + V)]
  }

  function Row(base: nat, V: nat): (r: seq<Pair>)
    ensures |r| == V + 1
  {
    RowTo(base, V, V) + [(base, base + V)]
  }

  /** The first `n` rows; each but a last one with nothing behind it is linked to what comes next. */
  function RowsTo(s: Shape, n: nat): seq<Pair>
    requires s.Valid() && n <= s.Rows()
  {
    if n == 0 then []
    else
      var link := if n < s.Rows() || s.bottom then [(s.RowStart(n), s.RowStart(n))] else [];
      RowsTo(s, n - 1) + Row(s.RowStart(n - 1), s.V) + link
  }

  function BottomFanTo(base: nat, last: nat, n: nat): (r: seq<Pair>)
    ensures |r| == n
  {
    if n == 0 then [] else BottomFanTo(base, last, n - 1) + [(base + (n - 1), last)]
  }

  function BottomFan(base: nat, last: nat, V: nat): (r: seq<Pair>)
    ensures |r| == V + 1
  {
    BottomFanTo(base, last, V) + [(base, last)]
  }

  /** All pairs that FillIndexBuffer writes. */
  function Strip(s: Shape): seq<Pair>
    requires s.Valid()
  {
    (if s.top then TopFan(s.V) else []) + RowsTo(s, s.Rows()) +
    (if s.bottom then BottomFan(s.RowStart(s.Rows()), s.Last(), s.V) else [])
  }

  // ---------- The count ----------

  /** The two link indices that CreateBuffers reserves and FillIndexBuffer does not write. */
  predicate Short(s: Shape) {
    !s.bottom && s.H > 1
  }

  lemma {:induction false} RowsLength(s: Shape, n: nat)
    requires s.Valid() && n <= s.Rows()
    ensures |RowsTo(s, n)| == n * (s.V + 2) - (if n > 0 && n == s.Rows() && !s.bottom then 1 else 0)
  {
    if n > 0 {
      RowsLength(s, n - 1);
      Distribute(n - 1, 1, s.V + 2);
    }
  }

  lemma Distribute(a: int, b: int, c: int)
    ensures (a + b) * c == a * c + b * c
  {
  }

  /** With a bottom hemisphere, or a single slice, the indices written fill the buffer
      exactly; otherwise two are missing.
   */
  lemma CountExact(s: Shape)
    requires s.Valid()
    ensures 2 * |Strip(s)| == s.IndexCount() - (if Short(s) then 2 else 0)
  {
    RowsLength(s, s.Rows());
    var h, k, V := s.Hemispheres(), s.H - 1, s.V;
    assert h == 1 || h == 2;
    assert s.Rows() * (V + 2) == h * (k * (V + 2)) by { Associate(h, k, V + 2); }
    Expand(k, V);
    if k == 0 { assert s.Rows() == 0; }
  }

  lemma Associate(a: int, b: int, c: int)
    ensures (a * b) * c == a * (b * c)
  {
  }

  lemma Expand(k: int, V: int)
    ensures 2 * (k * (V + 2)) == (2 + V * 2) * k + 2 * k
  {
  }

  // ---------- Indices name vertices ----------

  ghost predicate Below(ps: seq<Pair>, n: nat) {
    forall i :: 0 <= i < |ps| ==> ps[i].0 < n && ps[i].1 < n
  }

  /** Where the rings end. */
  lemma RingEnd(s: Shape)
    requires s.Valid()
    ensures s.RowStart(s.Rows()) + s.V + (if s.bottom then 1 else 0) == s.VertexCount()
  {
    var h, k, V := s.Hemispheres(), s.H - 1, s.V;
    assert h == 1 || h == 2;
    assert h * V * k == h * k * V;
  }

  lemma {:induction false} TopFanBelow(n: nat, m: nat)
    requires n < m
    ensures Below(TopFanTo(n), m)
  {
    if n > 0 { TopFanBelow(n - 1, m); }
  }

  lemma {:induction false} RowBelow(base: nat, V: nat, n: nat, m: nat)
    requires n <= V && base + 2 * V <= m
    ensures Below(RowTo(base, V, n), m)
  {
    if n > 0 { RowBelow(base, V, n - 1, m); }
  }

  /** Ring `n` lies within the vertices. */
  lemma RingWithin(s: Shape, n: nat)
    requires s.Valid() && n <= s.Rows()
    ensures s.RowStart(n) + s.V + (if s.bottom then 1 else 0) <= s.VertexCount()
    ensures n > 0 ==> s.RowStart(n) == s.RowStart(n - 1) + s.V
  {
    RingEnd(s);
    Distribute(n, s.Rows() - n, s.V);
    Distribute(n - 1, 1, s.V);
    NotNegative(s.Rows() - n, s.V);
  }

  lemma NotNegative(a: int, b: int)
    requires a >= 0 && b >= 0
    ensures a * b >= 0
  {
  }

  lemma {:induction false} RowsBelow(s: Shape, n: nat)
    requires s.Valid() && n <= s.Rows()
    ensures Below(RowsTo(s, n), s.VertexCount())
  {
    hide Shape.VertexCount, Shape.RowStart;
    RingWithin(s, n);
    if n > 0 {
      RowsBelow(s, n - 1);
      RowBelow(s.RowStart(n - 1), s.V, s.V, s.VertexCount());
    }
  }

  lemma {:induction false} BottomFanBelow(base: nat, last: nat, n: nat, m: nat)
    requires base + n <= m && last < m
    ensures Below(BottomFanTo(base, last, n), m)
  {
    if n > 0 { BottomFanBelow(base, last, n - 1, m); }
  }

  /** Every index is that of a vertex. */
  lemma IndicesBelow(s: Shape)
    requires s.Valid()
    ensures Below(Strip(s), s.VertexCount())
  {
    RingEnd(s);
    RingWithin(s, 0);
    RowsBelow(s, s.Rows());
    if s.top { TopFanBelow(s.V, s.VertexCount()); }
    if s.bottom { BottomFanBelow(s.RowStart(s.Rows()), s.Last(), s.V, s.VertexCount()); }
  }

  /** So 16 bits are enough wherever the index count selects them. */
  lemma SixteenBits(s: Shape)
    requires s.Valid()
    ensures s.VertexCount() <= s.IndexCount()
  {
    var h, k, V := s.Hemispheres(), s.H - 1, s.V;
    assert h == 1 || h == 2;
    assert V * k >= 0;
    assert h * V * k == h * (V * k);
    assert (2 + V * 2) * k == 2 * k + 2 * (V * k);
  }

  // ---------- Triangles ----------

  datatype Triangle = Triangle(a: nat, b: nat, c: nat)

  predicate Proper(a: nat, b: nat, c: nat) {
    a != b && b != c && a != c
  }

  /** Triangle number `k` of a strip, in its winding order; nothing if two of its corners are the same. */
  function At(v: seq<nat>, k: nat): seq<Triangle>
    requires k + 2 < |v|
  {
    if !Proper(v[k], v[k + 1], v[k + 2]) then []
    else if k % 2 == 0 then [Triangle(v[k], v[k + 1], v[k + 2])]
    else [Triangle(v[k + 1], v[k], v[k + 2])]
  }

  /** The proper triangles of the first `n` of a strip, as the device draws it. */
  function Drawn(v: seq<nat>, n: nat): seq<Triangle>
    requires n == 0 || n + 2 <= |v|
  {
    if n == 0 then [] else Drawn(v, n - 1) + At(v, n - 1)
  }

  /** DrawIndexedPrimitive with all indices of the buffer. */
  function Triangles(v: seq<nat>): seq<Triangle> {
    Drawn(v, if |v| < 2 then 0 else |v| - 2)
  }

  function Flat(ps: seq<Pair>): (v: seq<nat>)
    ensures |v| == 2 * |ps|
  {
    if ps == [] then [] else Flat(ps[..|ps| - 1]) + [ps[|ps| - 1].0, ps[|ps| - 1].1]
  }

  /** The two triangles between two pairs. */
  function Between(p: Pair, q: Pair): seq<Triangle> {
    (if Proper(p.0, p.1, q.0) then [Triangle(p.0, p.1, q.0)] else []) +
    (if Proper(p.1, q.0, q.1) then [Triangle(q.0, p.1, q.1)] else [])
  }

  function PairTriangles(ps: seq<Pair>): seq<Triangle> {
    if |ps| < 2 then [] else PairTriangles(ps[..|ps| - 1]) + Between(ps[|ps| - 2], ps[|ps| - 1])
  }

  lemma {:induction false} DrawnPrefix(v: seq<nat>, w: seq<nat>, n: nat)
    requires n == 0 || n + 2 <= |v|
    requires v <= w
    ensures Drawn(v, n) == Drawn(w, n)
  {
    if n > 0 {
      DrawnPrefix(v, w, n - 1);
      assert v[n - 1] == w[n - 1] && v[n] == w[n] && v[n + 1] == w[n + 1];
    }
  }

  /** Two more indices make two more triangles, if both are proper. */
  lemma DrawnPair(v: seq<nat>, p: Pair, q: Pair)
    requires |v| >= 2 && |v| % 2 == 0 && v[|v| - 2] == p.0 && v[|v| - 1] == p.1
    ensures Triangles(v + [q.0, q.1]) == Triangles(v) + Between(p, q)
  {
    var n, w := |v|, v + [q.0, q.1];
    DrawnPrefix(v, w, n - 2);
    assert w[n - 2] == p.0 && w[n - 1] == p.1 && w[n] == q.0 && w[n + 1] == q.1;
    assert Drawn(w, n) == Drawn(w, n - 1) + At(w, n - 1);
    assert Drawn(w, n - 1) == Drawn(w, n - 2) + At(w, n - 2);
    JoinTriangles(Drawn(w, n - 2), At(w, n - 2), At(w, n - 1));
  }

  lemma JoinTriangles(a: seq<Triangle>, b: seq<Triangle>, c: seq<Triangle>)
    ensures (a + b) + c == a + (b + c)
  {
  }

  /** Drawing the indices of a sequence of pairs. */
  lemma {:induction false} TrianglesOfPairs(ps: seq<Pair>)
    ensures Triangles(Flat(ps)) == PairTriangles(ps)
  {
    if |ps| == 1 {
      assert Flat(ps[..0]) == [];
    } else if |ps| > 1 {
      var init := ps[..|ps| - 1];
      TrianglesOfPairs(init);
      FlatLast(init);
      DrawnPair(Flat(init), init[|init| - 1], ps[|ps| - 1]);
    }
  }

  lemma FlatLast(ps: seq<Pair>)
    requires ps != []
    ensures Flat(ps)[2 * |ps| - 2] == ps[|ps| - 1].0 && Flat(ps)[2 * |ps| - 1] == ps[|ps| - 1].1
  {
  }

  /** Two parts of a strip, with the triangles where they meet. */
  lemma {:induction false} PairJoin(a: seq<Pair>, b: seq<Pair>)
    requires a != [] && b != []
    ensures PairTriangles(a + b) == PairTriangles(a) + Between(a[|a| - 1], b[0]) + PairTriangles(b)
    decreases |b|
  {
    var n := |b|;
    assert (a + b)[..|a + b| - 1] == a + b[..n - 1];
    if n == 1 {
      assert a + b[..0] == a;
    } else {
      PairJoin(a, b[..n - 1]);
    }
  }
}
