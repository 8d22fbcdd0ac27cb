/** CreateBuffers, FillVertexBuffer and FillIndexBuffer of Display/GeometryHelperSphere.cpp on arrays, proved against
    SphereStrip. Positions stay symbolic: a pole, or a place on a ring.
*/
module SphereBuffers {
  import opened SphereStrip
  import opened SphereMesh

  const WRAP16 := 0x1_0000
  const WRAP32 := 0x1_0000_0000

  /** Storing a value in an index type that wraps. */
  function Wrapped(x: nat, wrap: nat): (r: nat)
    requires wrap > 0
    ensures x < wrap ==> r == x
  {
    x % wrap
  }

  // ---------- Prefixes of the strip ----------

  lemma {:induction false} TopFanPrefix(n: nat, m: nat)
    requires n <= m
    ensures TopFanTo(n) <= TopFanTo(m)
  {
    if n < m { TopFanPrefix(n, m - 1); }
  }

  lemma {:induction false} RowPrefix(base: nat, V: nat, n: nat, m: nat)
    requires n <= m
    ensures RowTo(base, V, n) <= RowTo(base, V, m)
  {
    if n < m { RowPrefix(base, V, n, m - 1); }
  }

  lemma {:induction false} BottomFanPrefix(base: nat, last: nat, n: nat, m: nat)
    requires n <= m
    ensures BottomFanTo(base, last, n) <= BottomFanTo(base, last, m)
  {
    if n < m { BottomFanPrefix(base, last, n, m - 1); }
  }

  lemma {:induction false} RowsPrefix(s: Shape, n: nat, m: nat)
    requires s.Valid() && n <= m <= s.Rows()
    ensures RowsTo(s, n) <= RowsTo(s, m)
  {
    if n < m { RowsPrefix(s, n, m - 1); }
  }

  // ---------- The array ----------

  /** The pairs that were written are at the front, and everything behind is still 0. */
  ghost predicate Holds(index: array<nat>, p: nat, pairs: seq<Pair>)
    reads index
  {
    && p == 2 * |pairs| <= index.Length && index[..p] == Flat(pairs)
    && forall k :: p <= k < index.Length ==> index[k] == 0
  }

  /** Writes pIndex[0] and pIndex[1]. */
  method Put(index: array<nat>, p: nat, x: nat, y: nat, ghost pairs: seq<Pair>)
    requires Holds(index, p, pairs) && 2 * |pairs| + 2 <= index.Length
    modifies index
    ensures Holds(index, p + 2, pairs + [(x, y)])
  {
    index[p] := x;
    index[p + 1] := y;
    ghost var more := pairs + [(x, y)];
    assert more[..|more| - 1] == pairs;
    assert index[..p + 2] == index[..p] + [x, y];
  }

  /** There is room for `piece`, and its indices are small enough for the index type. */
  ghost predicate Room(index: array<nat>, pairs: seq<Pair>, piece: seq<Pair>, wrap: nat) {
    2 * (|pairs| + |piece|) <= index.Length && Below(piece, wrap)
  }

  lemma RoomNext(index: array<nat>, pairs: seq<Pair>, piece: seq<Pair>, wrap: nat, part: seq<Pair>, q: Pair)
    requires Room(index, pairs, piece, wrap) && part + [q] <= piece
    ensures 2 * |pairs + part| + 2 <= index.Length && q.0 < wrap && q.1 < wrap
  {
    assert q == piece[|part|];
  }

  lemma TopFanStep(index: array<nat>, pairs: seq<Pair>, V: nat, wrap: nat, i: nat)
    requires Room(index, pairs, TopFan(V), wrap) && i <= V
    ensures 2 * |pairs + TopFanTo(i)| + 2 <= index.Length
    ensures pairs + TopFanTo(0) == pairs
    ensures i < V ==> i + 1 < wrap && pairs + TopFanTo(i) + [(0, i + 1)] == pairs + TopFanTo(i + 1)
    ensures i == V ==> pairs + TopFanTo(i) + [(0, 1)] == pairs + TopFan(V)
  {
    if i < V {
      TopFanPrefix(i + 1, V);
      RoomNext(index, pairs, TopFan(V), wrap, TopFanTo(i), (0, i + 1));
    }
  }

  /** The fan around the top pole. */
  method FillTopFan(index: array<nat>, p0: nat, V: nat, wrap: nat, ghost pairs: seq<Pair>) returns (p: nat)
    requires Holds(index, p0, pairs) && Room(index, pairs, TopFan(V), wrap) && wrap > 0
    modifies index
    ensures Holds(index, p, pairs + TopFan(V))
  {
    hide Wrapped, Holds, Room, TopFanTo, TopFan;
    p := p0;
    TopFanStep(index, pairs, V, wrap, 0);
    for i := 0 to V
      invariant Holds(index, p, pairs + TopFanTo(i))
    {
      TopFanStep(index, pairs, V, wrap, i);
      Put(index, p, 0, Wrapped(i + 1, wrap), pairs + TopFanTo(i));
      p := p + 2;
    }
    TopFanStep(index, pairs, V, wrap, V);
    Put(index, p, 0, 1, pairs + TopFanTo(V));
    p := p + 2;
  }

  lemma RowStep(index: array<nat>, pairs: seq<Pair>, start: nat, V: nat, wrap: nat, j: nat)
    requires Room(index, pairs, Row(start, V), wrap) && j <= V
    ensures 2 * |pairs + RowTo(start, V, j)| + 2 <= index.Length
    ensures pairs + RowTo(start, V, 0) == pairs
    ensures j < V ==> start + j + V < wrap
    ensures j < V ==> pairs + RowTo(start, V, j) + [(start + j, start + j + V)] == pairs + RowTo(start, V, j + 1)
    ensures j == V ==> pairs + RowTo(start, V, j) + [(start, start + V)] == pairs + Row(start, V)
  {
    if j < V {
      RowPrefix(start, V, j + 1, V);
      RoomNext(index, pairs, Row(start, V), wrap, RowTo(start, V, j), (start + j, start + j + V));
    }
  }

  /** One strip between two rings. */
  method FillRow(index: array<nat>, p0: nat, start: nat, V: nat, wrap: nat, ghost pairs: seq<Pair>)
    returns (p: nat, current: nat)
    requires Holds(index, p0, pairs) && Room(index, pairs, Row(start, V), wrap) && start + V < wrap
    modifies index
    ensures Holds(index, p, pairs + Row(start, V)) && current == start + V
  {
    hide Wrapped, Holds, Room, RowTo, Row;
    p, current := p0, start;
    RowStep(index, pairs, start, V, wrap, 0);
    for j := 0 to V
      invariant Holds(index, p, pairs + RowTo(start, V, j)) && current == start + j
    {
      RowStep(index, pairs, start, V, wrap, j);
      Put(index, p, current, Wrapped(current + V, wrap), pairs + RowTo(start, V, j));
      p := p + 2;
      current := Wrapped(current + 1, wrap);
    }
    RowStep(index, pairs, start, V, wrap, V);
    current := start;
    var first := current;
    current := Wrapped(current + V, wrap);
    Put(index, p, first, current, pairs + RowTo(start, V, V));
    p := p + 2;
  }

  /** All strips between rings, with their links. */
  method FillRows(index: array<nat>, p0: nat, s: Shape, wrap: nat, ghost pairs: seq<Pair>)
    returns (p: nat, current: nat)
    requires s.Valid() && s.VertexCount() < wrap
    requires Holds(index, p0, pairs) && Room(index, pairs, RowsTo(s, s.Rows()), wrap)
    modifies index
    ensures Holds(index, p, pairs + RowsTo(s, s.Rows())) && current == s.RowStart(s.Rows())
  {
    hide Wrapped, Holds, Room, Row, Shape.VertexCount, Shape.RowStart;
    FirstRow(s);
    p, current := p0, if s.top then 1 else 0;
    var rows := s.Hemispheres() * (s.H - 1);
    assert pairs + RowsTo(s, 0) == pairs;
    for i := 0 to rows
      invariant Holds(index, p, pairs + RowsTo(s, i)) && current == s.RowStart(i)
    {
      ghost var before := pairs + RowsTo(s, i);
      RowRoom(index, s, pairs, i, wrap);
      RowsStep(s, pairs, i);
      p, current := FillRow(index, p, current, s.V, wrap, before);
      if i + 1 < rows || s.bottom {
        ghost var row := before + Row(s.RowStart(i), s.V);
        Put(index, p, current, current, row);
        p := p + 2;
      }
    }
  }

  lemma FirstRow(s: Shape)
    ensures s.RowStart(0) == if s.top then 1 else 0
  {
  }

  lemma RowsStep(s: Shape, pairs: seq<Pair>, i: nat)
    requires s.Valid() && i < s.Rows()
    ensures var row := pairs + RowsTo(s, i) + Row(s.RowStart(i), s.V);
            pairs + RowsTo(s, i + 1) == if i + 1 < s.Rows()
              || s.bottom then row + [(s.RowStart(i + 1), s.RowStart(i + 1))] else row
  {
  }

  /** Row `i` is a part of all rows. */
  lemma RowInRows(s: Shape, i: nat)
    requires s.Valid() && i < s.Rows()
    ensures var n := |RowsTo(s, i)|;
            && n + s.V + 1 <= |RowsTo(s, i + 1)| <= |RowsTo(s, s.Rows())|
            && RowsTo(s, s.Rows())[n..n + s.V + 1] == Row(s.RowStart(i), s.V)
            && (i + 1 < s.Rows() || s.bottom ==> n + s.V + 2 <= |RowsTo(s, s.Rows())|)
  {
    hide Row, Shape.RowStart;
    RowsPrefix(s, i + 1, s.Rows());
    var n, next := |RowsTo(s, i)|, RowsTo(s, i + 1);
    assert next[n..n + s.V + 1] == Row(s.RowStart(i), s.V);
    assert RowsTo(s, s.Rows())[..|next|] == next;
    assert RowsTo(s, s.Rows())[n..n + s.V + 1] == next[n..n + s.V + 1];
  }

  lemma BelowPart(ps: seq<Pair>, lo: nat, hi: nat, n: nat)
    requires lo <= hi <= |ps| && Below(ps, n)
    ensures Below(ps[lo..hi], n)
  {
  }

  lemma RowRoom(index: array<nat>, s: Shape, pairs: seq<Pair>, i: nat, wrap: nat)
    requires s.Valid() && s.VertexCount() < wrap && i < s.Rows() && Room(index, pairs, RowsTo(s, s.Rows()), wrap)
    ensures Room(index, pairs + RowsTo(s, i), Row(s.RowStart(i), s.V), wrap) && s.RowStart(i) + s.V < wrap
    ensures s.RowStart(i + 1) == s.RowStart(i) + s.V
    ensures i + 1 < s.Rows() || s.bottom ==> 2 * |pairs + RowsTo(s, i) + Row(s.RowStart(i), s.V)| + 2 <= index.Length
  {
    hide Row, RowsTo, Below, Shape.RowStart, Shape.VertexCount;
    RingWithin(s, i + 1);
    RowInRows(s, i);
    BelowPart(RowsTo(s, s.Rows()), |RowsTo(s, i)|, |RowsTo(s, i)| + s.V + 1, wrap);
  }

  lemma BottomFanStep(index: array<nat>, pairs: seq<Pair>, base: nat, last: nat, V: nat, wrap: nat, i: nat)
    requires Room(index, pairs, BottomFan(base, last, V), wrap) && i <= V
    ensures 2 * |pairs + BottomFanTo(base, last, i)| + 2 <= index.Length
    ensures pairs + BottomFanTo(base, last, 0) == pairs
    ensures i < V ==> base + i < wrap
    ensures i < V ==> pairs + BottomFanTo(base, last, i) + [(base + i, last)] == pairs + BottomFanTo(base, last, i + 1)
    ensures i == V ==> pairs + BottomFanTo(base, last, i) + [(base, last)] == pairs + BottomFan(base, last, V)
  {
    if i < V {
      BottomFanPrefix(base, last, i + 1, V);
      RoomNext(index, pairs, BottomFan(base, last, V), wrap, BottomFanTo(base, last, i), (base + i, last));
    }
  }

  /** The fan around the bottom pole. */
  method FillBottomFan(index: array<nat>, p0: nat, base: nat, last: nat, V: nat, wrap: nat, ghost pairs: seq<Pair>)
    returns (ghost p: nat)
    requires Holds(index, p0, pairs) && Room(index, pairs, BottomFan(base, last, V), wrap) && wrap > 0
    modifies index
    ensures Holds(index, p, pairs + BottomFan(base, last, V))
  {
    hide Wrapped, Holds, Room, BottomFanTo, BottomFan;
    var q := p0;
    BottomFanStep(index, pairs, base, last, V, wrap, 0);
    for i := 0 to V
      invariant Holds(index, q, pairs + BottomFanTo(base, last, i))
    {
      BottomFanStep(index, pairs, base, last, V, wrap, i);
      Put(index, q, Wrapped(base + i, wrap), last, pairs + BottomFanTo(base, last, i));
      q := q + 2;
    }
    BottomFanStep(index, pairs, base, last, V, wrap, V);
    Put(index, q, base, last, pairs + BottomFanTo(base, last, V));
    p := q + 2;
  }

  /** FillIndexBuffer for one index type: 16-bit or 32-bit, by where it wraps. */
  method FillIndices(s: Shape, count: nat, wrap: nat) returns (index: array<nat>)
    requires s.Valid() && count == s.IndexCount() && s.VertexCount() < wrap
    ensures fresh(index) && index.Length == s.IndexCount() && index[..] == Flat(Buffer(s))
  {
    hide Room, Holds, RowsTo, TopFan, BottomFan, Strip, Below, Buffer, Flat, Shape.RowStart, Shape.IndexCount,
      Shape.VertexCount;
    index := new nat[count](_ => 0);
    StripParts(index, s, wrap);
    NothingYet(index);
    var p, current := 0, 0;
    ghost var upper: seq<Pair> := if s.top then TopFan(s.V) else [];
    if s.top { p := FillTopFan(index, p, s.V, wrap, []); }
    p, current := FillRows(index, p, s, wrap, upper);
    if s.bottom {
      ghost var end := FillBottomFan(index, p, current, s.VertexCount() - 1, s.V, wrap, upper + RowsTo(s, s.Rows()));
    }
    WholeBuffer(index, s);
  }

  lemma NothingYet(index: array<nat>)
    requires forall k :: 0 <= k < index.Length ==> index[k] == 0
    ensures Holds(index, 0, [])
  {
  }

  /** The parts of the strip one after the other, each with room for it. */
  lemma StripParts(index: array<nat>, s: Shape, wrap: nat)
    requires s.Valid() && index.Length == s.IndexCount() && s.VertexCount() < wrap
    ensures s.VertexCount() > 0
    ensures var upper: seq<Pair> := if s.top then TopFan(s.V) else [];
            && (s.top ==> Room(index, [], TopFan(s.V), wrap) && [] + TopFan(s.V) == TopFan(s.V))
            && Room(index, upper, RowsTo(s, s.Rows()), wrap)
            && (s.bottom ==> Room(index, upper
                                  + RowsTo(s, s.Rows()), BottomFan(s.RowStart(s.Rows()), s.VertexCount() - 1, s.V),
                                    wrap))
            && Strip(s) == upper + RowsTo(s, s.Rows()) +
                           (if s.bottom then BottomFan(s.RowStart(s.Rows()), s.VertexCount() - 1, s.V) else [])
            && (!s.bottom ==> Strip(s) == upper + RowsTo(s, s.Rows()))
  {
    hide Room, RowsTo, TopFan, BottomFan, Below, Shape.RowStart, Shape.IndexCount;
    CountExact(s);
    IndicesBelow(s);
    RingEnd(s);
    var upper: seq<Pair> := if s.top then TopFan(s.V) else [];
    var rows := RowsTo(s, s.Rows());
    var lower: seq<Pair> := if s.bottom then BottomFan(s.RowStart(s.Rows()), s.Last(), s.V) else [];
    assert Strip(s) == upper + rows + lower;
    if s.top { PieceRoom(index, s, [], upper, wrap); }
    PieceRoom(index, s, upper, rows, wrap);
    if s.bottom { PieceRoom(index, s, upper + rows, lower, wrap); } else { assert upper + rows + [] == upper + rows; }
  }

  lemma PieceRoom(index: array<nat>, s: Shape, before: seq<Pair>, piece: seq<Pair>, wrap: nat)
    requires s.Valid() && before + piece <= Strip(s) && 2 * |Strip(s)| <= index.Length
    requires Below(Strip(s), s.VertexCount()) && s.VertexCount() < wrap
    ensures Room(index, before, piece, wrap)
  {
    forall k | 0 <= k < |piece|
      ensures piece[k].0 < wrap && piece[k].1 < wrap
    {
      assert piece[k] == Strip(s)[|before| + k];
    }
  }

  /** What is written, and the zeros behind it. */
  lemma WholeBuffer(index: array<nat>, s: Shape)
    requires s.Valid() && index.Length == s.IndexCount() && exists p :: Holds(index, p, Strip(s))
    ensures index[..] == Flat(Buffer(s))
  {
    CountExact(s);
    var strip := Strip(s);
    if Short(s) {
      assert Buffer(s)[..|Buffer(s)| - 1] == strip;
      assert index[..] == index[..2 * |strip|] + [0, 0];
    } else {
      assert Buffer(s) == strip && index[..] == index[..2 * |strip|];
    }
  }

  lemma CountForms(s: Shape, h: nat)
    requires s.Valid() && h == s.Hemispheres()
    ensures h * s.V * (s.H - 1) >= 0 && h * (2 * (s.V + 1)) >= 0
    ensures h * ((2 + s.V * 2) * (s.H - 1)) >= 0 && h * (2 * (s.H - 1)) >= 0
    ensures s.VertexCount() == h + (h * s.V * (s.H - 1)) + s.V
    ensures s.IndexCount() == h * (2 * (s.V + 1)) + h * ((2 + s.V * 2) * (s.H - 1)) + h * (2 * (s.H - 1))
  {
    NotNegative(h * s.V, s.H - 1);
    NotNegative(2 + s.V * 2, s.H - 1);
    NotNegative(h, (2 + s.V * 2) * (s.H - 1));
  }

  // ---------- Vertices ----------

  /** A vertex before it is scaled by the radius: a pole, or the place at angle `j` of the ring at polar angle
      `i`, above or below the equator.
   */
  datatype Place = Pole(up: bool) | OnRing(i: nat, j: nat, lower: bool)

  /** The angle at position `j` of a ring; seen from inside the ring runs the other way. */
  function Angle(j: nat, V: nat, inside: bool): nat
    requires j < V
  {
    if inside then V - 1 - j else j
  }

  function RingPlaces(i: nat, lower: bool, V: nat, inside: bool): (r: seq<Place>)
    ensures |r| == V
  {
    seq(V, j requires 0 <= j < V => OnRing(i, Angle(j, V, inside), lower))
  }

  function TopPlaces(n: nat, V: nat, inside: bool): seq<Place> {
    if n == 0 then [Pole(true)] else TopPlaces(n - 1, V, inside) + RingPlaces(n, false, V, inside)
  }

  /** The rings from polar angle `i` down to 1, and the pole. */
  function BottomPlaces(i: nat, V: nat, inside: bool): seq<Place> {
    if i == 0 then [Pole(false)] else RingPlaces(i, true, V, inside) + BottomPlaces(i - 1, V, inside)
  }

  function StartSlice(s: Shape): nat
    requires s.H > 0
  {
    if s.top then s.H - 1 else s.H
  }

  /** All vertices, in order. */
  function Vertices(s: Shape, inside: bool): seq<Place>
    requires s.Valid()
  {
    (if s.top then TopPlaces(s.H, s.V, inside) else [])
      + (if s.bottom then BottomPlaces(StartSlice(s), s.V, inside) else [])
  }

  lemma {:induction false} TopLength(n: nat, V: nat, inside: bool)
    ensures |TopPlaces(n, V, inside)| == 1 + n * V
  {
    hide RingPlaces;
    if n > 0 {
      TopLength(n - 1, V, inside);
      Distribute(n - 1, 1, V);
    }
  }

  lemma {:induction false} TopPrefix(n: nat, m: nat, V: nat, inside: bool)
    requires n <= m
    ensures TopPlaces(n, V, inside) <= TopPlaces(m, V, inside)
  {
    hide RingPlaces;
    if n < m { TopPrefix(n, m - 1, V, inside); }
  }

  lemma TopPlacesAt(n: nat, V: nat, inside: bool, r: nat)
    requires r < n
    ensures 1 + r * V + V <= |TopPlaces(n, V, inside)|
    ensures TopPlaces(n, V, inside)[1 + r * V..1 + r * V + V] == RingPlaces(r + 1, false, V, inside)
  {
    hide RingPlaces;
    TopLength(r, V, inside);
    TopPrefix(r + 1, n, V, inside);
    var before, after := TopPlaces(r, V, inside), TopPlaces(r + 1, V, inside);
    assert after == before + RingPlaces(r + 1, false, V, inside);
    SlicePrefix(before, RingPlaces(r + 1, false, V, inside), TopPlaces(n, V, inside));
  }

  lemma SlicePrefix(a: seq<Place>, b: seq<Place>, whole: seq<Place>)
    requires a + b <= whole
    ensures |a| + |b| <= |whole| && whole[|a|..|a| + |b|] == b
  {
    assert whole[..|a + b|] == a + b;
    assert whole[|a|..|a| + |b|] == whole[..|a + b|][|a|..];
  }

  lemma {:induction false} BottomLength(n: nat, V: nat, inside: bool)
    ensures |BottomPlaces(n, V, inside)| == n * V + 1
  {
    hide RingPlaces;
    if n > 0 {
      BottomLength(n - 1, V, inside);
      Distribute(n - 1, 1, V);
    }
  }

  lemma {:induction false} BottomPlacesAt(n: nat, V: nat, inside: bool, r: nat)
    requires r < n
    ensures r * V + V <= |BottomPlaces(n, V, inside)|
    ensures BottomPlaces(n, V, inside)[r * V..r * V + V] == RingPlaces(n - r, true, V, inside)
  {
    hide RingPlaces;
    var ring, rest := RingPlaces(n, true, V, inside), BottomPlaces(n - 1, V, inside);
    if r > 0 {
      BottomPlacesAt(n - 1, V, inside, r - 1);
      Distribute(r - 1, 1, V);
      PartBehind(ring, rest, (r - 1) * V, V, r * V);
    } else {
      assert (ring + rest)[..V] == ring;
    }
  }

  lemma PartBehind(a: seq<Place>, b: seq<Place>, k: nat, n: nat, at: nat)
    requires k + n <= |b| && at == |a| + k
    ensures at + n <= |a + b| && (a + b)[at..at + n] == b[k..k + n]
  {
  }

  /** As many vertices as were counted. */
  lemma VerticesLength(s: Shape, inside: bool)
    requires s.Valid()
    ensures |Vertices(s, inside)| == s.VertexCount()
  {
    hide TopPlaces, BottomPlaces, Shape.VertexCount;
    TopLength(s.H, s.V, inside);
    BottomLength(StartSlice(s), s.V, inside);
    CountInRings(s);
  }

  lemma CountInRings(s: Shape)
    requires s.Valid()
    ensures s.VertexCount() == (if s.top then 1 + s.H * s.V else 0) + (if s.bottom then StartSlice(s) * s.V + 1 else 0)
  {
    RingEnd(s);
    Distribute(s.H - 1, 1, s.V);
    Distribute(s.H - 1, s.H - 1, s.V);
  }

  lemma RingOnTop(s: Shape, inside: bool, r: nat)
    requires s.Valid() && s.top && r < s.H
    ensures s.RowStart(r) + s.V <= |Vertices(s, inside)|
    ensures Vertices(s, inside)[s.RowStart(r)..s.RowStart(r) + s.V] == RingPlaces(r + 1, false, s.V, inside)
  {
    TopPlacesAt(s.H, s.V, inside, r);
    var top := TopPlaces(s.H, s.V, inside);
    assert Vertices(s, inside)[..|top|] == top;
    assert Vertices(s, inside)[s.RowStart(r)..s.RowStart(r) + s.V] == top[s.RowStart(r)..s.RowStart(r) + s.V];
  }

  lemma RingOnBottom(s: Shape, inside: bool, r: nat, q: nat)
    requires s.Valid() && s.bottom && q < StartSlice(s) && r == (if s.top then s.H else 0) + q
    ensures s.RowStart(r) + s.V <= |Vertices(s, inside)|
    ensures Vertices(s, inside)[s.RowStart(r)..s.RowStart(r) + s.V] == RingPlaces(StartSlice(s) - q, true, s.V, inside)
  {
    hide TopPlaces, BottomPlaces, RingPlaces, Shape.VertexCount, Shape.RowStart;
    BottomPlacesAt(StartSlice(s), s.V, inside, q);
    var upper: seq<Place> := if s.top then TopPlaces(s.H, s.V, inside) else [];
    var lower := BottomPlaces(StartSlice(s), s.V, inside);
    TopLength(s.H, s.V, inside);
    RowStartSplit(s, q);
    assert Vertices(s, inside) == upper + lower;
    PartBehind(upper, lower, q * s.V, s.V, s.RowStart(r));
  }

  lemma RowStartSplit(s: Shape, q: nat)
    ensures s.RowStart((if s.top then s.H else 0) + q) == (if s.top then 1 + s.H * s.V else 0) + q * s.V
  {
    Distribute(s.H, q, s.V);
  }

  /** Ring `r` of the index strip is one circle of the sphere: from the top pole the polar angles grow to the equator,
      and below it they shrink again.
   */
  lemma RingIsCircle(s: Shape, inside: bool, r: nat)
    requires s.Valid() && r <= s.Rows()
    ensures s.RowStart(r) + s.V <= |Vertices(s, inside)|
    ensures Vertices(s, inside)[s.RowStart(r)..s.RowStart(r) + s.V]
         == if s.top && r < s.H then RingPlaces(r + 1, false, s.V, inside)
            else RingPlaces(if s.top then 2 * s.H - 1 - r else s.H - r, true, s.V, inside)
  {
    if s.top && r < s.H {
      RingOnTop(s, inside, r);
    } else {
      RingOnBottom(s, inside, r, if s.top then r - s.H else r);
    }
  }

  /** Along a ring of the strip the angle grows by one from vertex to vertex, and closes after the last; seen from
      inside it shrinks, so that every triangle of the mesh is turned round.
   */
  lemma RingTurns(s: Shape, inside: bool, r: nat, j: nat)
    requires s.Valid() && r <= s.Rows() && j < s.V
    ensures s.RowStart(r) + s.V <= |Vertices(s, inside)|
    ensures var here := Vertices(s, inside)[s.RowStart(r) + j];
            var next := Vertices(s, inside)[s.RowStart(r) + if j + 1 == s.V then 0 else j + 1];
            && here.OnRing? && next.OnRing? && here.i == next.i && here.lower == next.lower
            && if inside then here.j == (next.j + 1) % s.V else next.j == (here.j + 1) % s.V
  {
    hide Vertices;
    RingIsCircle(s, inside, r);
    var ring := Vertices(s, inside)[s.RowStart(r)..s.RowStart(r) + s.V];
    var j' := if j + 1 == s.V then 0 else j + 1;
    assert ring[j] == Vertices(s, inside)[s.RowStart(r) + j] && ring[j'] == Vertices(s, inside)[s.RowStart(r) + j'];
    NextAngle(j, s.V, inside);
  }

  lemma NextAngle(j: nat, V: nat, inside: bool)
    requires j < V
    ensures var j' := if j + 1 == V then 0 else j + 1;
            if inside then Angle(j, V, inside) == (Angle(j', V, inside) + 1) % V
            else Angle(j', V, inside) == (Angle(j, V, inside) + 1) % V
  {
  }

  /** The poles are the first and the last vertex. */
  lemma PolesAtEnds(s: Shape, inside: bool)
    requires s.Valid()
    ensures |Vertices(s, inside)| == s.VertexCount() > 0
    ensures s.top ==> Vertices(s, inside)[0] == Pole(true)
    ensures s.bottom ==> Vertices(s, inside)[s.Last()] == Pole(false)
  {
    hide RingPlaces, TopPlaces, BottomPlaces, Shape.VertexCount;
    VerticesLength(s, inside);
    if s.top { FirstPole(s.H, s.V, inside); }
    if s.bottom { LastPole(StartSlice(s), s.V, inside); }
  }

  lemma FirstPole(n: nat, V: nat, inside: bool)
    ensures TopPlaces(n, V, inside) != [] && TopPlaces(n, V, inside)[0] == Pole(true)
  {
    TopPrefix(0, n, V, inside);
    assert TopPlaces(0, V, inside) == [Pole(true)];
  }

  lemma {:induction false} LastPole(n: nat, V: nat, inside: bool)
    ensures var p := BottomPlaces(n, V, inside); p != [] && p[|p| - 1] == Pole(false)
  {
    hide RingPlaces;
    if n > 0 { LastPole(n - 1, V, inside); }
  }

  /** The vertices that were written are at the front. */
  ghost predicate Filled(vertices: array<Place>, p: nat, places: seq<Place>)
    reads vertices
  {
    p == |places| <= vertices.Length && vertices[..p] == places
  }

  method PutPlace(vertices: array<Place>, p: nat, place: Place, ghost places: seq<Place>)
    requires Filled(vertices, p, places) && p < vertices.Length
    modifies vertices
    ensures Filled(vertices, p + 1, places + [place])
  {
    vertices[p] := place;
  }

  /** The loop over one ring. Seen from inside it counts down until the unsigned counter wraps. */
  method FillRing(vertices: array<Place>, p0: nat, i: nat, lower: bool, V: nat, inside: bool, ghost places: seq<Place>)
    returns (p: nat)
    requires Filled(vertices, p0, places) && p0 + V <= vertices.Length && 0 < V < WRAP32
    modifies vertices
    ensures Filled(vertices, p, places + RingPlaces(i, lower, V, inside)) && p == p0 + V
  {
    p := p0;
    ghost var ring, n := RingPlaces(i, lower, V, inside), 0;
    assert places + ring[..0] == places;
    if !inside {
      for j := 0 to V
        invariant Filled(vertices, p, places + ring[..j]) && p == p0 + j
      {
        PutPlace(vertices, p, OnRing(i, j, lower), places + ring[..j]);
        assert places + ring[..j] + [ring[j]] == places + ring[..j + 1];
        p := p + 1;
      }
    } else {
      var j := V - 1;
      while V > j
        invariant 0 <= n <= V && j == (if n < V then V - 1 - n else WRAP32 - 1)
        invariant Filled(vertices, p, places + ring[..n]) && p == p0 + n
        decreases V - n
      {
        PutPlace(vertices, p, OnRing(i, j, lower), places + ring[..n]);
        assert places + ring[..n] + [ring[n]] == places + ring[..n + 1];
        p := p + 1;
        j := if j == 0 then WRAP32 - 1 else j - 1;
        n := n + 1;
      }
    }
    assert ring[..V] == ring;
  }

  /** The top pole and the rings down to the equator. */
  method FillTopHalf(vertices: array<Place>, s: Shape, inside: bool) returns (p: nat)
    requires s.Valid() && s.top && vertices.Length == s.VertexCount() && s.V < WRAP32
    modifies vertices
    ensures Filled(vertices, p, TopPlaces(s.H, s.V, inside))
  {
    hide Filled, RingPlaces, Shape.VertexCount;
    EmptyFilled(vertices);
    TopRoom(s, inside, 0);
    PutPlace(vertices, 0, Pole(true), []);
    assert [] + [Pole(true)] == TopPlaces(0, s.V, inside);
    p := 1;
    for i := 0 to s.H
      invariant Filled(vertices, p, TopPlaces(i, s.V, inside)) && p == |TopPlaces(i, s.V, inside)|
    {
      TopRoom(s, inside, i);
      p := FillRing(vertices, p, i + 1, false, s.V, inside, TopPlaces(i, s.V, inside));
    }
  }

  /** The rings below the equator, and the bottom pole. */
  method FillBottomHalf(vertices: array<Place>, p0: nat, s: Shape, inside: bool, ghost places: seq<Place>)
    requires s.Valid() && s.V < WRAP32 && Filled(vertices, p0, places) && p0 == |places|
    requires |places| + |BottomPlaces(StartSlice(s), s.V, inside)| == vertices.Length
    modifies vertices
    ensures vertices[..] == places + BottomPlaces(StartSlice(s), s.V, inside)
  {
    hide Filled, RingPlaces;
    var p := p0;
    var i := if s.top then s.H - 1 else s.H;
    ghost var whole := places + BottomPlaces(i, s.V, inside);
    ghost var done := places;
    while 0 < i
      invariant 0 <= i <= s.H && p == |done| && Filled(vertices, p, done)
          && done + BottomPlaces(i, s.V, inside) == whole
    {
      ghost var ring := RingPlaces(i, true, s.V, inside);
      assert done + BottomPlaces(i, s.V, inside) == (done + ring) + BottomPlaces(i - 1, s.V, inside);
      p := FillRing(vertices, p, i, true, s.V, inside, done);
      done := done + ring;
      i := i - 1;
    }
    PutPlace(vertices, p, Pole(false), done);
    AllFilled(vertices, whole);
  }

  /** FillVertexBuffer, up to the scaling by the radius: every vertex of the buffer is written, and no other. */
  method FillVertices(s: Shape, inside: bool, count: nat) returns (vertices: array<Place>)
    requires s.Valid() && count == s.VertexCount() && s.V < WRAP32
    ensures fresh(vertices) && vertices[..] == Vertices(s, inside)
  {
    hide Filled, RingPlaces, TopPlaces, BottomPlaces, Shape.VertexCount;
    vertices := new Place[count](_ => Pole(true));
    VerticesLength(s, inside);
    EmptyFilled(vertices);
    var p := 0;
    ghost var upper: seq<Place> := if s.top then TopPlaces(s.H, s.V, inside) else [];
    if s.top { p := FillTopHalf(vertices, s, inside); }
    FilledLength(vertices, p, upper);
    if s.bottom {
      FillBottomHalf(vertices, p, s, inside, upper);
    } else {
      assert Vertices(s, inside) == upper + [] == upper;
      AllFilled(vertices, upper);
    }
  }

  lemma FilledLength(vertices: array<Place>, p: nat, places: seq<Place>)
    requires Filled(vertices, p, places)
    ensures p == |places|
  {
  }

  lemma EmptyFilled(vertices: array<Place>)
    ensures Filled(vertices, 0, [])
  {
  }

  lemma AllFilled(vertices: array<Place>, places: seq<Place>)
    requires (exists p :: Filled(vertices, p, places)) && |places| == vertices.Length
    ensures vertices[..] == places
  {
  }

  lemma TopRoom(s: Shape, inside: bool, i: nat)
    requires s.Valid() && s.top && i < s.H
    ensures |TopPlaces(i, s.V, inside)| + s.V <= s.VertexCount()
  {
    VerticesLength(s, inside);
    RingOnTop(s, inside, i);
    TopLength(i, s.V, inside);
  }

  class DisplayGeometrySphere {
    var vertexCount: nat
    var indexCount: nat
    var index16: array?<nat>
    var index32: array?<nat>

    constructor ()
      ensures vertexCount == indexCount == 0 && index16 == null && index32 == null
    {
      vertexCount, indexCount, index16, index32 := 0, 0, null, null;
    }

    /** CreateBuffers, without the device */
    method CreateBuffers(s: Shape) returns (ok: bool)
      modifies this`vertexCount, this`indexCount
      ensures ok <==> s.Valid()
      ensures ok ==> vertexCount == s.VertexCount() && indexCount == s.IndexCount()
    {
      hide Shape.VertexCount, Shape.IndexCount;
      var hemispheres := (if s.bottom then 1 else 0) + (if s.top then 1 else 0);
      ok := 0 < hemispheres && 0 < s.H && 2 < s.V;
      if ok {
        CountForms(s, hemispheres);
        vertexCount := hemispheres + (hemispheres * s.V * (s.H - 1)) + s.V;
        var normalStripSize, stripLink := 2 + s.V * 2, 2;
        indexCount := hemispheres * (2 * (s.V + 1));
        indexCount := indexCount + hemispheres * (normalStripSize * (s.H - 1));
        indexCount := indexCount + hemispheres * (stripLink * (s.H - 1));
      }
    }

    /** FillIndexBuffer. The 16-bit buffer holds the same indices as a 32-bit one would, and they draw the mesh. */
    method FillIndexBuffer(s: Shape)
      requires s.Valid() && vertexCount == s.VertexCount() && indexCount == s.IndexCount() < WRAP32
      modifies this`index16, this`index32
      ensures if s.IndexCount() <= 0xffff then index16 != null && index16[..] == Flat(Buffer(s))
          && index32 == old(index32)
              else index32 != null && index32[..] == Flat(Buffer(s)) && index16 == old(index16)
      ensures Triangles(Flat(Buffer(s))) == Mesh(s)
          + if Short(s) then [Triangle(s.RowStart(s.Rows() - 1), s.RowStart(s.Rows()), 0)] else []
    {
      SixteenBits(s);
      StripIsMesh(s);
      if indexCount <= 0xffff {
        index16 := FillIndices(s, indexCount, WRAP16);
      } else {
        index32 := FillIndices(s, indexCount, WRAP32);
      }
    }
  }
}
