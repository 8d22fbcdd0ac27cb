/** The triangles that the strip of SphereStrip makes: those of the sphere, in one orientation. */
module SphereMesh {
  import opened SphereStrip

  // ---------- The mesh, stated directly ----------

  /** Vertex `j` of the ring that starts at `base`; the ring closes at V. */
  function Ring(base: nat, j: nat, V: nat): nat {
    base + if j == V then 0 else j
  }

  /** The fan around the top pole. */
  function TopTriangles(V: nat): seq<Triangle> {
    seq(V, i requires 0 <= i < V => Triangle(0, Ring(1, i, V), Ring(1, i + 1, V)))
  }

  /** Two triangles for every quad between the ring at `base` and the next one. */
  function RowTriangles(base: nat, V: nat): seq<Triangle> {
    seq(2 * V, k requires 0 <= k < 2 * V =>
      var j := k / 2;
      if k % 2 == 0 then Triangle(Ring(base, j, V), Ring(base + V, j, V), Ring(base, j + 1, V))
      else Triangle(Ring(base, j + 1, V), Ring(base + V, j, V), Ring(base + V, j + 1, V)))
  }

  function RowsTriangles(s: Shape, n: nat): seq<Triangle> {
    if n == 0 then [] else RowsTriangles(s, n - 1) + RowTriangles(s.RowStart(n - 1), s.V)
  }

  /** The fan around the bottom pole. */
  function BottomTriangles(base: nat, last: nat, V: nat): seq<Triangle> {
    seq(V, i requires 0 <= i < V => Triangle(Ring(base, i, V), last, Ring(base, i + 1, V)))
  }

  function Mesh(s: Shape): seq<Triangle>
    requires s.Valid()
  {
    (if s.top then TopTriangles(s.V) else []) + RowsTriangles(s, s.Rows()) +
    (if s.bottom then BottomTriangles(s.RowStart(s.Rows()), s.Last(), s.V) else [])
  }

  // ---------- Part by part ----------

  lemma {:induction false} TopPart(n: nat)
    requires n > 0
    ensures PairTriangles(TopFanTo(n)) == seq(n - 1, i requires 0 <= i < n - 1 => Triangle(0, i + 1, i + 2))
  {
    if n > 1 {
      TopPart(n - 1);
      assert TopFanTo(n)[..n - 1] == TopFanTo(n - 1);
      assert TopFanTo(n)[n - 2] == TopFanTo(n - 1)[n - 2] == (0, n - 1);
      assert Between((0, n - 1), (0, n)) == [Triangle(0, n - 1, n)];
    }
  }

  lemma TopWhole(V: nat)
    requires V > 2
    ensures PairTriangles(TopFan(V)) == TopTriangles(V)
  {
    TopPart(V);
    var fan := TopFan(V);
    assert fan[..V] == TopFanTo(V) && fan[V - 1] == (0, V) && fan[V] == (0, 1);
    assert Between((0, V), (0, 1)) == [Triangle(0, V, 1)];
    assert PairTriangles(fan) == PairTriangles(fan[..V]) + Between(fan[V - 1], fan[V]);
    assert TopTriangles(V) == PairTriangles(TopFanTo(V)) + [Triangle(0, V, 1)];
  }

  lemma {:induction false} RowPart(base: nat, V: nat, n: nat)
    requires 0 < n <= V && V > 2
    ensures PairTriangles(RowTo(base, V, n)) == RowTriangles(base, V)[..2 * (n - 1)]
    ensures RowTo(base, V, n)[n - 1] == (base + (n - 1), base + (n - 1) + V)
  {
    hide Between;
    if n > 1 {
      RowPart(base, V, n - 1);
      var j := n - 2;
      assert RowTo(base, V, n)[..n - 1] == RowTo(base, V, n - 1);
      assert RowTo(base, V, n)[j] == RowTo(base, V, n - 1)[j] == (base + j, base + j + V);
      RowPiece(base, V, j);
      SliceJoin(RowTriangles(base, V), 2 * j, 2 * j + 2);
    }
  }

  lemma SliceJoin(s: seq<Triangle>, a: nat, b: nat)
    requires a <= b <= |s|
    ensures s[..a] + s[a..b] == s[..b]
  {
  }

  /** The two triangles of quad `j`. */
  lemma RowPiece(base: nat, V: nat, j: nat)
    requires j < V && V > 2
    ensures RowTriangles(base, V)[2 * j..2 * j + 2]
         == Between((Ring(base, j, V), Ring(base + V, j, V)), (Ring(base, j + 1, V), Ring(base + V, j + 1, V)))
  {
    assert (2 * j) % 2 == 0 && (2 * j) / 2 == j && (2 * j + 1) % 2 == 1;
    var all := RowTriangles(base, V);
    assert all[2 * j..2 * j + 2] == [all[2 * j], all[2 * j + 1]];
    assert (2 * j + 1) / 2 == j;
  }

  lemma RowWhole(base: nat, V: nat)
    requires V > 2
    ensures PairTriangles(Row(base, V)) == RowTriangles(base, V)
  {
    RowPart(base, V, V);
    assert Row(base, V)[..V] == RowTo(base, V, V);
    assert Row(base, V)[V - 1] == (base + (V - 1), base + (V - 1) + V);
    RowPiece(base, V, V - 1);
    assert RowTriangles(base, V)[..2 * (V - 1)]
        + RowTriangles(base, V)[2 * (V - 1)..2 * (V - 1) + 2] == RowTriangles(base, V);
  }

  lemma {:induction false} BottomPart(base: nat, last: nat, n: nat)
    requires n > 0 && last >= base + n
    ensures PairTriangles(BottomFanTo(base, last, n))
        == seq(n - 1, i requires 0 <= i < n - 1 => Triangle(base + i, last, base + i + 1))
  {
    if n > 1 {
      BottomPart(base, last, n - 1);
      assert BottomFanTo(base, last, n)[..n - 1] == BottomFanTo(base, last, n - 1);
      assert BottomFanTo(base, last, n)[n - 2] == BottomFanTo(base, last, n - 1)[n - 2] == (base + (n - 2), last);
      assert Between((base + (n - 2), last), (base + (n - 1), last))
          == [Triangle(base + (n - 2), last, base + (n - 1))];
    }
  }

  lemma BottomWhole(base: nat, last: nat, V: nat)
    requires V > 2 && last >= base + V
    ensures PairTriangles(BottomFan(base, last, V)) == BottomTriangles(base, last, V)
  {
    BottomPart(base, last, V);
    assert BottomFan(base, last, V)[..V] == BottomFanTo(base, last, V);
    assert BottomFan(base, last, V)[V - 1] == (base + (V - 1), last);
    assert Between((base + (V - 1), last), (base, last)) == [Triangle(base + (V - 1), last, base)];
  }

  // ---------- Where the parts meet ----------

  /** A row begins and ends at its first two vertices. */
  lemma RowEnds(base: nat, V: nat)
    requires V > 2
    ensures Row(base, V)[0] == Row(base, V)[V] == (base, base + V)
  {
    RowFirst(base, V, V);
  }

  lemma {:induction false} RowFirst(base: nat, V: nat, n: nat)
    requires n > 0
    ensures RowTo(base, V, n)[0] == (base, base + V)
  {
    if n > 1 { RowFirst(base, V, n - 1); }
  }

  lemma {:induction false} BottomFirst(base: nat, last: nat, n: nat)
    requires n > 0
    ensures BottomFanTo(base, last, n)[0] == (base, last)
  {
    if n > 1 { BottomFirst(base, last, n - 1); }
  }

  lemma Alone(p: Pair)
    ensures PairTriangles([p]) == []
  {
  }

  /** The rows so far begin at the first ring, and end at the ring below: at a link, or at the last pair of a row. */
  lemma {:induction false} RowsPart(s: Shape, n: nat)
    requires s.Valid() && 0 < n <= s.Rows()
    ensures var ps := RowsTo(s, n);
            && ps != [] && ps[0] == (s.FirstRing(), s.FirstRing() + s.V)
            && ps[|ps| - 1] == (if n < s.Rows()
                                || s.bottom then (s.RowStart(n), s.RowStart(n)) else (s.RowStart(n - 1), s.RowStart(n)))
            && PairTriangles(ps) == RowsTriangles(s, n)
  {
    hide Between, PairTriangles, RowTriangles, Row, Shape.VertexCount;
    var base, link := s.RowStart(n - 1), s.RowStart(n);
    RingWithin(s, n);
    RowEnds(base, s.V);
    RowWhole(base, s.V);
    var row := Row(base, s.V);
    var before := RowsTo(s, n - 1);
    if n > 1 {
      RowsPart(s, n - 1);
      PairJoin(before, row);
      LinkedOn(base, base + s.V);
    } else {
      assert before == [] && before + row == row;
      assert [] + RowTriangles(base, s.V) == RowTriangles(base, s.V);
    }
    var ps := before + row;
    assert PairTriangles(ps) == RowsTriangles(s, n) by { DropEmpty(RowsTriangles(s, n - 1), RowTriangles(base, s.V)); }
    assert ps[|ps| - 1] == row[s.V];
    if n < s.Rows() || s.bottom {
      PairJoin(ps, [(link, link)]);
      Alone((link, link));
      LinkedTo(base, link);
      DropEmpty(RowsTriangles(s, n), []);
      assert RowsTriangles(s, n) + [] == RowsTriangles(s, n);
    } else {
      assert ps + [] == ps;
    }
  }

  lemma DropEmpty(a: seq<Triangle>, b: seq<Triangle>)
    ensures a + [] + b == a + b
  {
  }

  /** A link makes no proper triangle, neither with what is before it nor with what is behind it. */
  lemma LinkedOn(x: nat, y: nat)
    ensures Between((x, x), (x, y)) == []
  {
  }

  lemma LinkedTo(x: nat, y: nat)
    ensures Between((x, y), (y, y)) == [] && Between((x, y), (y, x)) == []
  {
  }

  lemma PoleLinked(y: nat)
    ensures Between((0, 1), (1, y)) == []
  {
  }

  // ---------- The whole buffer ----------

  /** The index buffer as pairs: what is written, and a pair of zeros where two indices are missing. */
  function Buffer(s: Shape): seq<Pair>
    requires s.Valid()
  {
    Strip(s) + if Short(s) then [(0, 0)] else []
  }

  /** The top fan and the rows, without what may follow. */
  lemma UpperPart(s: Shape)
    requires s.Valid()
    ensures var ps := (if s.top then TopFan(s.V) else []) + RowsTo(s, s.Rows());
            var tris := (if s.top then TopTriangles(s.V) else []) + RowsTriangles(s, s.Rows());
            && PairTriangles(ps) == tris
            && (ps == [] <==> !s.top && s.H == 1)
            && (ps != [] && s.bottom ==>
                  ps[|ps| - 1] == if s.H > 1 then (s.RowStart(s.Rows()), s.RowStart(s.Rows())) else (0, 1))
            && (Short(s) ==> ps != [] && ps[|ps| - 1] == (s.RowStart(s.Rows() - 1), s.RowStart(s.Rows())))
  {
    hide Between, PairTriangles, RowTriangles, TopTriangles, Row, TopFanTo, Shape.VertexCount;
    var n := s.Rows();
    var rows := RowsTo(s, n);
    assert n > 0 <==> s.H > 1;
    if n > 0 { RowsPart(s, n); } else { NoPairs(); }
    if s.top {
      TopWhole(s.V);
      var fan := TopFan(s.V);
      assert fan[|fan| - 1] == (0, 1);
      if n > 0 {
        PairJoin(fan, rows);
        PoleLinked(1 + s.V);
        DropEmpty(TopTriangles(s.V), RowsTriangles(s, n));
      } else {
        assert fan + rows == fan && TopTriangles(s.V) + [] == TopTriangles(s.V);
      }
    } else {
      assert [] + rows == rows && [] + RowsTriangles(s, n) == RowsTriangles(s, n);
    }
  }

  lemma NoPairs()
    ensures PairTriangles([]) == []
  {
  }

  /** The strip draws exactly the triangles of the mesh, each once and in the mesh's orientation. With a top
      hemisphere alone and more than one slice, the two zeros behind the strip draw one more: from the last
      row's first quad edge to the pole.
   */
  lemma StripIsMesh(s: Shape)
    requires s.Valid()
    ensures Triangles(Flat(Buffer(s))) == Mesh(s)
        + if Short(s) then [Triangle(s.RowStart(s.Rows() - 1), s.RowStart(s.Rows()), 0)] else []
  {
    hide PairTriangles, RowTriangles, TopTriangles, BottomTriangles, TopFan, RowsTo, BottomFanTo, RowsTriangles,
      Triangles, Shape.VertexCount;
    TrianglesOfPairs(Buffer(s));
    UpperPart(s);
    var ps := (if s.top then TopFan(s.V) else []) + RowsTo(s, s.Rows());
    var tris := (if s.top then TopTriangles(s.V) else []) + RowsTriangles(s, s.Rows());
    if s.bottom {
      LowerPart(s, ps, tris);
    } else {
      assert Strip(s) == ps + [] == ps && Mesh(s) == tris + [] == tris;
      if Short(s) {
        PairJoin(ps, [(0, 0)]);
        Alone((0, 0));
        ZerosDraw(s);
      } else {
        assert Buffer(s) == ps + [] == ps && tris + [] == tris;
      }
    }
  }

  lemma ZerosDraw(s: Shape)
    requires s.Valid() && Short(s)
    ensures Between((s.RowStart(s.Rows() - 1), s.RowStart(s.Rows())), (0, 0))
        == [Triangle(s.RowStart(s.Rows() - 1), s.RowStart(s.Rows()), 0)]
  {
    RingWithin(s, s.Rows());
    assert s.RowStart(s.Rows() - 1) >= 1;
  }

  lemma LowerPart(s: Shape, ps: seq<Pair>, tris: seq<Triangle>)
    requires s.Valid() && s.bottom && PairTriangles(ps) == tris
    requires ps == [] <==> !s.top && s.H == 1
    requires ps != [] ==> ps[|ps| - 1] == (if s.H > 1 then (s.RowStart(s.Rows()), s.RowStart(s.Rows())) else (0, 1))
    ensures var base := s.RowStart(s.Rows());
            PairTriangles((ps + BottomFan(base, s.Last(), s.V)) + []) == (tris + BottomTriangles(base, s.Last(), s.V))
              + []
  {
    hide Between, PairTriangles, BottomTriangles, BottomFanTo;
    var base := s.RowStart(s.Rows());
    var fan := BottomFan(base, s.Last(), s.V);
    RingEnd(s);
    BottomWhole(base, s.Last(), s.V);
    BottomFirst(base, s.Last(), s.V);
    assert ps + fan + [] == ps + fan;
    if ps == [] {
      NoPairs();
      assert ps + fan == fan && tris + BottomTriangles(base, s.Last(), s.V) == BottomTriangles(base, s.Last(), s.V);
    } else {
      PairJoin(ps, fan);
      if s.H > 1 {
        LinkedOn(base, s.Last());
      } else {
        assert s.Rows() == 0 && base == 1;
        PoleLinked(s.Last());
      }
      DropEmpty(tris, BottomTriangles(base, s.Last(), s.V));
    }
  }
}
