/**
 The triangle of the scanline fill: edge functions, scanline spans and depth, over exact reals.
 `y` grows downwards and vertices run clockwise on the screen.
 */
module Triangle {
  import opened Reals
  import opened Raster

  datatype Vertex = Vertex(x: real, y: real, z: real)

  datatype Tri = Tri(a: Vertex, b: Vertex, c: Vertex) {
    /** Twice the signed area, positive for clockwise vertices. */
    function Area(): real {
      (b.x - a.x) * (c.y - a.y) - (c.x - a.x) * (b.y - a.y)
    }

    /** The same triangle, its vertices named from another one on. */
    function Turned(n: nat): Tri {
      if n == 0 then this else if n == 1 then Tri(b, c, a) else Tri(c, a, b)
    }

    function Wa(px: real, py: real): real { EdgeFn(b, c, px, py) }

    function Wb(px: real, py: real): real { EdgeFn(c, a, px, py) }

    function Wc(px: real, py: real): real { EdgeFn(a, b, px, py) }

    /** The point lies in the closed triangle. */
    predicate Inside(px: real, py: real) {
      Wa(px, py) >= 0.0 && Wb(px, py) >= 0.0 && Wc(px, py) >= 0.0
    }

    function YMin(): real { MinReal(MinReal(a.y, b.y), c.y) }

    function YMax(): real { MaxReal(MaxReal(a.y, b.y), c.y) }

    /** Depth interpolated with the barycentric weights of the point. */
    function Depth(px: real, py: real): real
      requires Area() > 0.0
    {
      (Wa(px, py) * a.z + Wb(px, py) * b.z + Wc(px, py) * c.z) * (1.0 / Area())
    }

    /** The depth step from one pixel to the next in a row. */
    function DzDx(): real
      requires Area() > 0.0
    {
      ((b.y - c.y) * a.z + (c.y - a.y) * b.z + (a.y - b.y) * c.z) * (1.0 / Area())
    }

    /** The edges that the fill does not skip hold at the point. */
    predicate SteepEdgesHold(px: real, py: real) {
      && (Steep(b, c) ==> Wa(px, py) >= 0.0)
      && (Steep(c, a) ==> Wb(px, py) >= 0.0)
      && (Steep(a, b) ==> Wc(px, py) >= 0.0)
    }

    /** Pixel `(x, y)` is painted: in the area, in the rows visited, and inside the steep edges. */
    predicate Paints(area: Rectangle, x: int, y: int) {
      && Area() > 0.0
      && area.Has(x, y)
      && YMin().Floor <= y < Ceil(YMax())
      && SteepEdgesHold(x as real + 0.5, y as real + 0.5)
    }
  }

  /** Which side of edge `ij` the point is on; not negative is inside. */
  function EdgeFn(i: Vertex, j: Vertex, px: real, py: real): real {
    (j.x - i.x) * (py - i.y) - (j.y - i.y) * (px - i.x)
  }

  predicate Steep(i: Vertex, j: Vertex) {
    Abs(j.y - i.y) > 0.000001
  }

  /** Where edge `ij` meets the scanline. */
  function EdgeX(i: Vertex, j: Vertex, py: real): real
    requires i.y != j.y
  {
    i.x + (j.x - i.x) * (py - i.y) / (j.y - i.y)
  }

  /** The scanline span narrowed by one edge. */
  function Narrow(span: (real, real), i: Vertex, j: Vertex, py: real): (real, real) {
    if !Steep(i, j) then span
    else if j.y - i.y > 0.0 then (span.0, MinReal(span.1, EdgeX(i, j, py)))
    else (MaxReal(span.0, EdgeX(i, j, py)), span.1)
  }

  // ---------------------------------------------------------------- spans

  /** An edge bounds the span exactly where its edge function changes sign. */
  lemma NarrowIsEdge(span: (real, real), i: Vertex, j: Vertex, px: real, py: real)
    ensures var n := Narrow(span, i, j, py);
            n.0 <= px <= n.1 <==> span.0 <= px <= span.1 && (Steep(i, j) ==> EdgeFn(i, j, px, py) >= 0.0)
  {
    if Steep(i, j) {
      var dx, dy, v, u := j.x - i.x, j.y - i.y, py - i.y, px - i.x;
      EdgeSide(dx, dy, v, u);
      assert EdgeX(i, j, py) == i.x + dx * v / dy && EdgeFn(i, j, px, py) == dx * v - dy * u;
    }
  }

  lemma EdgeSide(dx: real, dy: real, v: real, u: real)
    requires dy != 0.0
    ensures dy > 0.0 ==> (u <= dx * v / dy <==> dx * v - dy * u >= 0.0)
    ensures dy < 0.0 ==> (u >= dx * v / dy <==> dx * v - dy * u >= 0.0)
  {
    var q := dx * v / dy;
    assert q * dy == dx * v;
    assert (q - u) * dy == dx * v - dy * u;
    if dy > 0.0 {
      if q >= u { assert (q - u) * dy >= 0.0; } else { assert (q - u) * dy < 0.0; }
    } else {
      if q <= u { assert (q - u) * dy >= 0.0; } else { assert (q - u) * dy < 0.0; }
    }
  }

  lemma CeilBorder(r: real, x: int)
    ensures Ceil(r) <= x <==> r <= x as real
  {
  }

  lemma FloorBorder(r: real, x: int)
    ensures x <= r.Floor <==> x as real <= r
  {
  }

  // ---------------------------------------------------------------- depth

  /** One pixel to the right, the depth grows by `DzDx`: stepping equals interpolating. */
  lemma DepthSteps(t: Tri, px: real, py: real)
    requires t.Area() > 0.0
    ensures t.Depth(px + 1.0, py) == t.Depth(px, py) + t.DzDx()
  {
    EdgeStep(t.b, t.c, px, py);
    EdgeStep(t.c, t.a, px, py);
    EdgeStep(t.a, t.b, px, py);
    var (wa, wb, wc) := (t.Wa(px, py), t.Wb(px, py), t.Wc(px, py));
    var (da, db, dc) := (t.b.y - t.c.y, t.c.y - t.a.y, t.a.y - t.b.y);
    var inv := 1.0 / t.Area();
    assert (wa + da) * t.a.z == wa * t.a.z + da * t.a.z;
    assert (wb + db) * t.b.z == wb * t.b.z + db * t.b.z;
    assert (wc + dc) * t.c.z == wc * t.c.z + dc * t.c.z;
    Spread(wa * t.a.z + wb * t.b.z + wc * t.c.z, da * t.a.z + db * t.b.z + dc * t.c.z, inv);
  }

  lemma Spread(x: real, y: real, k: real)
    ensures (x + y) * k == x * k + y * k
  {
  }

  lemma EdgeStep(i: Vertex, j: Vertex, px: real, py: real)
    ensures EdgeFn(i, j, px + 1.0, py) == EdgeFn(i, j, px, py) + (i.y - j.y)
  {
    assert (j.y - i.y) * (px + 1.0 - i.x) == (j.y - i.y) * (px - i.x) + (j.y - i.y);
  }

  /** At a vertex the depth is that of the vertex. */
  lemma DepthAtVertices(t: Tri)
    requires t.Area() > 0.0
    ensures t.Depth(t.a.x, t.a.y) == t.a.z && t.Depth(t.b.x, t.b.y) == t.b.z && t.Depth(t.c.x, t.c.y) == t.c.z
  {
    var s, inv := t.Area(), 1.0 / t.Area();
    assert s * inv == 1.0;
    AreaIsEdge(t);
    EdgeAtEnds(t.a, t.b); EdgeAtEnds(t.b, t.c); EdgeAtEnds(t.c, t.a);
    assert (s * t.a.z) * inv == t.a.z * (s * inv);
    assert (s * t.b.z) * inv == t.b.z * (s * inv);
    assert (s * t.c.z) * inv == t.c.z * (s * inv);
  }

  lemma EdgeAtEnds(i: Vertex, j: Vertex)
    ensures EdgeFn(i, j, i.x, i.y) == 0.0 && EdgeFn(i, j, j.x, j.y) == 0.0
  {
  }

  lemma AreaIsEdge(t: Tri)
    ensures t.Wa(t.a.x, t.a.y) == t.Area() && t.Wb(t.b.x, t.b.y) == t.Area() && t.Wc(t.c.x, t.c.y) == t.Area()
  {
    CrossCyclic(t.a.x, t.a.y, t.b.x, t.b.y, t.c.x, t.c.y);
    CrossCyclic(t.b.x, t.b.y, t.c.x, t.c.y, t.a.x, t.a.y);
  }

  lemma CrossCyclic(x1: real, y1: real, x2: real, y2: real, x3: real, y3: real)
    ensures (x2 - x1) * (y3 - y1) - (x3 - x1) * (y2 - y1) == (x3 - x2) * (y1 - y2) - (x1 - x2) * (y3 - y2)
  {
  }

  // ---------------------------------------------------------------- coverage

  /** The weights add up to the area and reproduce the row of the point. */
  lemma Barycentric(t: Tri, px: real, py: real)
    ensures t.Wa(px, py) + t.Wb(px, py) + t.Wc(px, py) == t.Area()
    ensures t.Wa(px, py) * (t.a.y - py) + t.Wb(px, py) * (t.b.y - py) + t.Wc(px, py) * (t.c.y - py) == 0.0
  {
    var (x1, y1) := (t.a.x - px, t.a.y - py);
    var (x2, y2) := (t.b.x - px, t.b.y - py);
    var (x3, y3) := (t.c.x - px, t.c.y - py);
    EdgeRelative(t.b, t.c, px, py);
    EdgeRelative(t.c, t.a, px, py);
    EdgeRelative(t.a, t.b, px, py);
    RelativeArea(x1, y1, x2, y2, x3, y3);
    WeightsCancel(x1, y1, x2, y2, x3, y3);
  }

  lemma EdgeRelative(i: Vertex, j: Vertex, px: real, py: real)
    ensures EdgeFn(i, j, px, py) == (i.x - px) * (j.y - py) - (j.x - px) * (i.y - py)
  {
    var (u, v, p, q) := (i.x - px, i.y - py, j.x - px, j.y - py);
    assert (p - u) * (-v) - (q - v) * (-u) == u * q - p * v;
  }

  lemma RelativeArea(x1: real, y1: real, x2: real, y2: real, x3: real, y3: real)
    ensures (x2 * y3 - x3 * y2) + (x3 * y1 - x1 * y3) + (x1 * y2 - x2 * y1)
         == (x2 - x1) * (y3 - y1) - (x3 - x1) * (y2 - y1)
  {
  }

  lemma WeightsCancel(x1: real, y1: real, x2: real, y2: real, x3: real, y3: real)
    ensures (x2 * y3 - x3 * y2) * y1 + (x3 * y1 - x1 * y3) * y2 + (x1 * y2 - x2 * y1) * y3 == 0.0
  {
    var (p, q, r) := (x1 * (y2 * y3), x2 * (y1 * y3), x3 * (y1 * y2));
    assert (x2 * y3 - x3 * y2) * y1 == q - r;
    assert (x3 * y1 - x1 * y3) * y2 == r - p;
    assert (x1 * y2 - x2 * y1) * y3 == p - q;
  }

  lemma WeightedSign(w: real, d: real)
    requires w >= 0.0
    ensures d > 0.0 ==> w * d >= 0.0 && (w > 0.0 ==> w * d > 0.0)
    ensures d < 0.0 ==> w * d <= 0.0 && (w > 0.0 ==> w * d < 0.0)
  {
  }

  /** Weights that balance out cannot all pull the same way. */
  lemma WeightsStraddle(u: real, v: real, w: real, a: real, b: real, c: real)
    requires u >= 0.0 && v >= 0.0 && w >= 0.0 && u + v + w > 0.0
    requires u * a + v * b + w * c == 0.0
    ensures (a <= 0.0 || b <= 0.0 || c <= 0.0) && (a >= 0.0 || b >= 0.0 || c >= 0.0)
  {
    WeightedSign(u, a);
    WeightedSign(v, b);
    WeightedSign(w, c);
  }

  /** A point of the triangle lies between its highest and its lowest vertex. */
  lemma InsideBetween(t: Tri, px: real, py: real)
    requires t.Area() > 0.0 && t.Inside(px, py)
    ensures t.YMin() <= py <= t.YMax()
  {
    Barycentric(t, px, py);
    WeightsStraddle(t.Wa(px, py), t.Wb(px, py), t.Wc(px, py), t.a.y - py, t.b.y - py, t.c.y - py);
  }

  lemma RowsVisited(t: Tri, y: int)
    requires t.YMin() <= y as real + 0.5 <= t.YMax()
    ensures t.YMin().Floor <= y < Ceil(t.YMax())
  {
  }

  /** No pixel whose centre is in the triangle is ever missed, whatever edges are skipped. */
  lemma NoCentreMissed(t: Tri, area: Rectangle, x: int, y: int)
    requires t.Area() > 0.0 && area.Has(x, y) && t.Inside(x as real + 0.5, y as real + 0.5)
    ensures t.Paints(area, x, y)
  {
    InsideBetween(t, x as real + 0.5, y as real + 0.5);
    RowsVisited(t, y);
  }

  /** Without skipped edges the painted pixels are exactly those whose centres are in the triangle. */
  lemma CoverageIsExact(t: Tri, area: Rectangle, x: int, y: int)
    requires t.Area() > 0.0 && Steep(t.a, t.b) && Steep(t.b, t.c) && Steep(t.c, t.a)
    ensures t.Paints(area, x, y) <==> area.Has(x, y) && t.Inside(x as real + 0.5, y as real + 0.5)
  {
    if area.Has(x, y) && t.Inside(x as real + 0.5, y as real + 0.5) { NoCentreMissed(t, area, x, y); }
  }

  /** A skipped horizontal edge holds exactly on the triangle's side of its row. */
  lemma FlatEdge(i: Vertex, j: Vertex, k: Vertex, px: real, py: real)
    requires i.y == j.y && EdgeFn(i, j, k.x, k.y) > 0.0
    ensures EdgeFn(i, j, px, py) >= 0.0 <==> if k.y > i.y then py >= i.y else py <= i.y
    ensures k.y != i.y
  {
    FlatEdgeFn(i, j, k.x, k.y);
    FlatEdgeFn(i, j, px, py);
    SameSide(j.x - i.x, k.y - i.y, py - i.y, EdgeFn(i, j, k.x, k.y), EdgeFn(i, j, px, py));
  }

  lemma FlatEdgeFn(i: Vertex, j: Vertex, px: real, py: real)
    requires i.y == j.y
    ensures EdgeFn(i, j, px, py) == (j.x - i.x) * (py - i.y)
  {
    assert j.y - i.y == 0.0;
  }

  lemma SameSide(d: real, u: real, v: real, e: real, g: real)
    requires e == d * u && e > 0.0 && g == d * v
    ensures u != 0.0 && (g >= 0.0 <==> if u > 0.0 then v >= 0.0 else v <= 0.0)
  {
    if d > 0.0 {
      WeightedSign(d, u);
      WeightedSign(d, v);
    } else if d < 0.0 {
      WeightedSign(-d, u);
      WeightedSign(-d, v);
      assert (-d) * u == -(d * u) && (-d) * v == -(d * v);
    }
  }

  /**
   When the skipped edges are exactly horizontal, a painted pixel is in the triangle if and only if
   the centre of its row lies between the highest and the lowest vertex.
   */
  lemma OverpaintIsOneRow(t: Tri, area: Rectangle, x: int, y: int)
    requires t.Paints(area, x, y)
    requires (Steep(t.a, t.b) || t.a.y == t.b.y) && (Steep(t.b, t.c) || t.b.y == t.c.y)
    requires (Steep(t.c, t.a) || t.c.y == t.a.y)
    ensures t.Inside(x as real + 0.5, y as real + 0.5) <==> t.YMin() <= y as real + 0.5 <= t.YMax()
  {
    var px, py := x as real + 0.5, y as real + 0.5;
    AreaIsEdge(t);
    if t.Inside(px, py) { InsideBetween(t, px, py); }
    if t.b.y == t.c.y { FlatEdge(t.b, t.c, t.a, px, py); }
    if t.c.y == t.a.y { FlatEdge(t.c, t.a, t.b, px, py); }
    if t.a.y == t.b.y { FlatEdge(t.a, t.b, t.c, px, py); }
  }

  lemma TurnedIsSame(t: Tri, n: nat, area: Rectangle, x: int, y: int)
    ensures var r, px, py := t.Turned(n), x as real + 0.5, y as real + 0.5;
            && r.Area() == t.Area() && r.YMin() == t.YMin() && r.YMax() == t.YMax()
            && (r.Inside(px, py) <==> t.Inside(px, py)) && (r.Paints(area, x, y) <==> t.Paints(area, x, y))
  {
    CrossCyclic(t.a.x, t.a.y, t.b.x, t.b.y, t.c.x, t.c.y);
    CrossCyclic(t.b.x, t.b.y, t.c.x, t.c.y, t.a.x, t.a.y);
  }

  /** With two weights known, the third is not negative exactly when its vertex lies on the other side of the row. */
  lemma ThirdWeight(u: real, v: real, w: real, a: real, b: real, c: real)
    requires u >= 0.0 && v >= 0.0 && u + v + w > 0.0 && u * a + v * b + w * c == 0.0
    requires (a > 0.0 && b > 0.0) || (a < 0.0 && b < 0.0)
    ensures w >= 0.0 <==> if a > 0.0 then c <= 0.0 else c >= 0.0
  {
    WeightedSign(u, a);
    WeightedSign(v, b);
    if w >= 0.0 { WeightedSign(w, c); } else { WeightedSign(-w, c); assert (-w) * c == -(w * c); }
  }

  /** The row centre lies between the ends of an edge that is not horizontal. */
  predicate Spans(i: Vertex, j: Vertex, py: real) {
    i.y != j.y && (i.y <= py <= j.y || j.y <= py <= i.y)
  }

  /** The point lies on the inner side of where edge `ij` crosses its row. */
  predicate InnerSide(i: Vertex, j: Vertex, px: real, py: real)
    requires i.y != j.y
  {
    if i.y < j.y then px <= EdgeX(i, j, py) else px >= EdgeX(i, j, py)
  }

  lemma InnerSideIsEdge(i: Vertex, j: Vertex, px: real, py: real)
    requires i.y != j.y
    ensures InnerSide(i, j, px, py) <==> EdgeFn(i, j, px, py) >= 0.0
  {
    var dx, dy, v, u := j.x - i.x, j.y - i.y, py - i.y, px - i.x;
    EdgeSide(dx, dy, v, u);
    assert EdgeX(i, j, py) == i.x + dx * v / dy && EdgeFn(i, j, px, py) == dx * v - dy * u;
  }

  /**
   Exactly when a painted pixel is in the triangle although an edge was skipped: in a row that the
   skipped edge spans, when the centre is on its inner side; in every other row, when the row lies
   between the highest and the lowest vertex.  `n` says which edge is skipped.
   */
  lemma SkippedEdge(t: Tri, n: nat, area: Rectangle, x: int, y: int)
    requires t.Paints(area, x, y) && Steep(t.Turned(n).b, t.Turned(n).c) && Steep(t.Turned(n).c, t.Turned(n).a)
    ensures var r, px, py := t.Turned(n), x as real + 0.5, y as real + 0.5;
            t.Inside(px, py) <==>
            if Spans(r.a, r.b, py) then InnerSide(r.a, r.b, px, py) else t.YMin() <= py <= t.YMax()
  {
    TurnedIsSame(t, n, area, x, y);
    FirstEdgeSkipped(t.Turned(n), area, x, y);
  }

  lemma FirstEdgeSkipped(t: Tri, area: Rectangle, x: int, y: int)
    requires t.Paints(area, x, y) && Steep(t.b, t.c) && Steep(t.c, t.a)
    ensures var px, py := x as real + 0.5, y as real + 0.5;
            t.Inside(px, py) <==>
            if Spans(t.a, t.b, py) then InnerSide(t.a, t.b, px, py) else t.YMin() <= py <= t.YMax()
  {
    var px, py := x as real + 0.5, y as real + 0.5;
    if Spans(t.a, t.b, py) {
      InnerSideIsEdge(t.a, t.b, px, py);
    } else if t.a.y == t.b.y {
      AreaIsEdge(t);
      FlatEdge(t.a, t.b, t.c, px, py);
      if t.Inside(px, py) { InsideBetween(t, px, py); }
    } else {
      Barycentric(t, px, py);
      ThirdWeight(t.Wa(px, py), t.Wb(px, py), t.Wc(px, py), t.a.y - py, t.b.y - py, t.c.y - py);
    }
  }

  /** At least two edges are skipped. */
  predicate Needle(t: Tri) {
    || (!Steep(t.a, t.b) && !Steep(t.b, t.c))
    || (!Steep(t.b, t.c) && !Steep(t.c, t.a))
    || (!Steep(t.c, t.a) && !Steep(t.a, t.b))
  }

  /** The rest: with fewer than two steep edges the triangle is a needle, two rows at most are visited. */
  lemma NeedleIsThin(t: Tri)
    requires Needle(t)
    ensures t.YMax() - t.YMin() <= 0.000002
    ensures Ceil(t.YMax()) - t.YMin().Floor <= 2
  {
  }

  /**
   Without any steep edge a needle paints its whole rows, from border to border of the area; of
   these the pixels on the inner side of all sloping edges, in rows it reaches, are in the triangle.
   */
  lemma NeedlePaintsRows(t: Tri, area: Rectangle, x: int, y: int)
    requires t.Area() > 0.0 && !Steep(t.a, t.b) && !Steep(t.b, t.c) && !Steep(t.c, t.a)
    ensures t.Paints(area, x, y) <==> area.Has(x, y) && t.YMin().Floor <= y < Ceil(t.YMax())
    ensures var px, py := x as real + 0.5, y as real + 0.5;
            t.Inside(px, py) <==>
              && t.YMin() <= py <= t.YMax()
              && (t.a.y != t.b.y ==> InnerSide(t.a, t.b, px, py))
              && (t.b.y != t.c.y ==> InnerSide(t.b, t.c, px, py))
              && (t.c.y != t.a.y ==> InnerSide(t.c, t.a, px, py))
  {
    InsideByCrossings(t, x as real + 0.5, y as real + 0.5);
  }

  /**
   The triangle is the inner side of all its sloping edges, between its highest and lowest vertex;
   the fill asks for the inner side of the steep ones only.
   */
  lemma InsideByCrossings(t: Tri, px: real, py: real)
    requires t.Area() > 0.0
    ensures t.SteepEdgesHold(px, py) <==>
              && (Steep(t.a, t.b) ==> InnerSide(t.a, t.b, px, py))
              && (Steep(t.b, t.c) ==> InnerSide(t.b, t.c, px, py))
              && (Steep(t.c, t.a) ==> InnerSide(t.c, t.a, px, py))
    ensures t.Inside(px, py) <==>
              && t.YMin() <= py <= t.YMax()
              && (t.a.y != t.b.y ==> InnerSide(t.a, t.b, px, py))
              && (t.b.y != t.c.y ==> InnerSide(t.b, t.c, px, py))
              && (t.c.y != t.a.y ==> InnerSide(t.c, t.a, px, py))
  {
    AreaIsEdge(t);
    if t.Inside(px, py) { InsideBetween(t, px, py); }
    if t.a.y != t.b.y { InnerSideIsEdge(t.a, t.b, px, py); } else { FlatEdge(t.a, t.b, t.c, px, py); }
    if t.b.y != t.c.y { InnerSideIsEdge(t.b, t.c, px, py); } else { FlatEdge(t.b, t.c, t.a, px, py); }
    if t.c.y != t.a.y { InnerSideIsEdge(t.c, t.a, px, py); } else { FlatEdge(t.c, t.a, t.b, px, py); }
  }

  /** A needle ten pixels long, half a micro-pixel high, paints all of row 0, however wide the area. */
  lemma NeedleOverpaints(area: Rectangle, x: int)
    requires area.Has(x, 0)
    ensures var t := Tri(Vertex(0.0, 0.5, 0.0), Vertex(10.0, 0.5, 0.0), Vertex(5.0, 0.5000005, 0.0));
            t.Paints(area, x, 0) && (t.Inside(x as real + 0.5, 0.5) <==> 0 <= x < 10)
  {
    var t := Tri(Vertex(0.0, 0.5, 0.0), Vertex(10.0, 0.5, 0.0), Vertex(5.0, 0.5000005, 0.0));
    var px := x as real + 0.5;
    assert t.Wa(px, 0.5) == 0.0000005 * (10.0 - px) && t.Wb(px, 0.5) == 0.0000005 * px && t.Wc(px, 0.5) == 0.0;
    assert t.YMin() == 0.5 && t.YMax() == 0.5000005;
    assert 0.5.Floor == 0;
    CeilBorder(0.5000005, 0);
  }

  /** A flat top at y = 0.9 paints row 0, whose centres are above the triangle. */
  lemma FlatTopOverpaints()
    ensures var t := Tri(Vertex(0.0, 0.9, 0.0), Vertex(10.0, 0.9, 0.0), Vertex(5.0, 10.0, 0.0));
            t.Paints(Rectangle(0, 0, 16, 16), 5, 0) && !t.Inside(5.5, 0.5)
  {
    assert 0.9.Floor == 0;
    CeilBorder(10.0, 0);
  }
}
