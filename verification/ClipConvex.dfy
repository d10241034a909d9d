/**
 Clipping keeps convexity, so for a convex polygon the unsigned overlap areas with the pixels of a
 grid, early exits included, add up to the area of the polygon.
 */
module ClipConvex {
  import opened Reals
  import opened Clip
  import opened ClipGrid

  /** Twice the signed area of triangle `abc`. */
  function Orient(a: Point, b: Point, c: Point): real {
    (b.x - a.x) * (c.y - a.y) - (c.x - a.x) * (b.y - a.y)
  }

  /** `x` for a counter-clockwise, `-x` for a clockwise polygon. */
  function Oriented(ccw: bool, x: real): real {
    if ccw then x else -x
  }

  /** Triangle `abc` turns the way `ccw` says, or is flat. */
  predicate Turns(ccw: bool, a: Point, b: Point, c: Point) {
    Oriented(ccw, Orient(a, b, c)) >= 0.0
  }

  /** All vertices in order turn the same way: a convex polygon of that orientation. */
  ghost predicate Convex(ccw: bool, poly: Polygon) {
    forall i, j, k :: 0 <= i < j < k < |poly| ==> Turns(ccw, poly[i], poly[j], poly[k])
  }

  function Lerp(a: Point, b: Point, s: real): Point {
    Point(a.x + s * (b.x - a.x), a.y + s * (b.y - a.y))
  }

  function Prev(poly: Polygon, k: nat): Point
    requires k < |poly|
  {
    if k == 0 then Last(poly) else poly[k - 1]
  }

  /**
   No edge takes the EPSILON branch on the line: an edge that touches it without lying in it is
   longer than EPSILON across it.
   */
  ghost predicate Crisp(vertical: bool, c: real, poly: Polygon) {
    var s := Side(vertical, true, c);
    forall k :: 0 <= k < |poly| ==>
      || (s.Coord(Prev(poly, k)) < c && s.Coord(poly[k]) < c)
      || (s.Coord(Prev(poly, k)) > c && s.Coord(poly[k]) > c)
      || (s.Coord(Prev(poly, k)) == c && s.Coord(poly[k]) == c)
      || Abs(s.Coord(poly[k]) - s.Coord(Prev(poly, k))) > EPSILON
  }

  // ---------------------------------------------------------------- orientation algebra

  lemma OrientCyclic(a: Point, b: Point, c: Point)
    ensures Orient(a, b, c) == Orient(b, c, a)
  {
  }

  lemma OrientFlat(a: Point, b: Point)
    ensures Orient(a, a, b) == 0.0 && Orient(a, b, a) == 0.0 && Orient(b, a, a) == 0.0
  {
  }

  lemma OrientLerp(a: Point, b: Point, s: real, c: Point, d: Point)
    ensures Orient(Lerp(a, b, s), c, d) == (1.0 - s) * Orient(a, c, d) + s * Orient(b, c, d)
  {
    var u, v := b.x - a.x, b.y - a.y;
    var p := Lerp(a, b, s);
    LinearOrient(a, c, d, s * u, s * v);
    LinearOrient(a, c, d, u, v);
    var l := (c.x - d.x) * v + (d.y - c.y) * u;
    assert Orient(b, c, d) == Orient(a, c, d) + (-(d.y - c.y) * u + (d.x - c.x) * v);
    var m := -(d.y - c.y) * u + (d.x - c.x) * v;
    assert Orient(p, c, d) == Orient(a, c, d) + (-(d.y - c.y) * (s * u) + (d.x - c.x) * (s * v));
    assert (d.y - c.y) * (s * u) == s * ((d.y - c.y) * u);
    assert (d.x - c.x) * (s * v) == s * ((d.x - c.x) * v);
    assert -(d.y - c.y) * (s * u) + (d.x - c.x) * (s * v) == s * m;
    var o := Orient(a, c, d);
    assert (1.0 - s) * o + s * (o + m) == o + s * m;
  }

  lemma LinearOrient(a: Point, c: Point, d: Point, u: real, v: real)
    ensures Orient(Point(a.x + u, a.y + v), c, d) == Orient(a, c, d) + (-(d.y - c.y) * u + (d.x - c.x) * v)
  {
    var p, q, r, t := c.x - a.x, c.y - a.y, d.x - a.x, d.y - a.y;
    assert (p - u) * (t - v) == p * t - p * v - u * t + u * v;
    assert (r - u) * (q - v) == r * q - r * v - u * q + u * v;
    assert (t - q) * u == t * u - q * u;
    assert (r - p) * v == r * v - p * v;
  }

  lemma TurnsLerp(ccw: bool, a: Point, b: Point, s: real, c: Point, d: Point)
    requires 0.0 <= s <= 1.0 && Turns(ccw, a, c, d) && Turns(ccw, b, c, d)
    ensures Turns(ccw, Lerp(a, b, s), c, d)
  {
    OrientLerp(a, b, s, c, d);
    var x, y := Orient(a, c, d), Orient(b, c, d);
    MulNonNegative(1.0 - s, Oriented(ccw, x));
    MulNonNegative(s, Oriented(ccw, y));
    assert (1.0 - s) * (-x) == -((1.0 - s) * x) && s * (-y) == -(s * y);
  }

  lemma TurnsCyclic(ccw: bool, a: Point, b: Point, c: Point)
    ensures Turns(ccw, a, b, c) <==> Turns(ccw, b, c, a)
  {
    OrientCyclic(a, b, c);
  }

  /** Two points of one segment, in order, turn like the segment. */
  lemma TurnsOnSegment(ccw: bool, a: Point, b: Point, s: real, t: real, c: Point)
    requires 0.0 <= s <= t && Turns(ccw, a, b, c)
    ensures Turns(ccw, Lerp(a, b, s), Lerp(a, b, t), c)
  {
    var p, q := Lerp(a, b, s), Lerp(a, b, t);
    var o := Orient(a, b, c);
    OrientFlat(a, c); OrientFlat(b, c);
    OrientLerp(a, b, s, q, c);
    OrientLerp(a, b, t, c, a);
    OrientLerp(a, b, t, c, b);
    OrientCyclic(a, q, c); OrientCyclic(b, q, c);
    OrientCyclic(a, b, c); OrientCyclic(b, c, a); OrientFlat(a, c);
    assert Orient(a, c, a) == 0.0 && Orient(b, c, a) == o;
    assert Orient(a, q, c) == t * o;
    assert Orient(a, c, b) == -o;
    assert Orient(b, q, c) == (1.0 - t) * (-o);
    assert (1.0 - s) * (t * o) + s * ((1.0 - t) * (-o)) == (t - s) * o;
    MulNonNegative(t - s, Oriented(ccw, o));
    assert (t - s) * (-o) == -((t - s) * o);
  }

  // ---------------------------------------------------------------- points of the outline

  /** A point of the outline: fraction `s` of the edge into vertex `k`. */
  datatype Mark = Mark(k: nat, s: real)

  predicate MarkOf(poly: Polygon, m: Mark) {
    m.k < |poly| && 0.0 <= m.s <= 1.0
  }

  function At(poly: Polygon, m: Mark): Point
    requires m.k < |poly|
  {
    Lerp(Prev(poly, m.k), poly[m.k], m.s)
  }

  predicate NotAfter(m: Mark, n: Mark) {
    m.k < n.k || (m.k == n.k && m.s <= n.s)
  }

  lemma TurnsVertices(ccw: bool, poly: Polygon, i: nat, j: nat, k: nat)
    requires Convex(ccw, poly) && i <= j <= k < |poly|
    ensures Turns(ccw, poly[i], poly[j], poly[k])
  {
    OrientFlat(poly[i], poly[k]);
    OrientFlat(poly[k], poly[i]);
  }

  /** The edge into `k` and a later vertex. */
  lemma TurnsEdge(ccw: bool, poly: Polygon, k: nat, l: nat)
    requires Convex(ccw, poly) && k <= l < |poly|
    ensures Turns(ccw, Prev(poly, k), poly[k], poly[l])
  {
    if k > 0 { TurnsVertices(ccw, poly, k - 1, k, l); }
    else { TurnsVertices(ccw, poly, 0, l, |poly| - 1); TurnsCyclic(ccw, Last(poly), poly[0], poly[l]); }
  }

  /** An outline point and two vertices, in order. */
  lemma TurnsMark(ccw: bool, poly: Polygon, m: Mark, j: nat, k: nat)
    requires Convex(ccw, poly) && MarkOf(poly, m) && m.k <= j <= k < |poly|
    ensures Turns(ccw, At(poly, m), poly[j], poly[k])
  {
    TurnsVertices(ccw, poly, m.k, j, k);
    if m.k > 0 { TurnsVertices(ccw, poly, m.k - 1, j, k); }
    else { TurnsVertices(ccw, poly, j, k, |poly| - 1); TurnsCyclic(ccw, Last(poly), poly[j], poly[k]); }
    TurnsLerp(ccw, Prev(poly, m.k), poly[m.k], m.s, poly[j], poly[k]);
  }

  lemma TurnsMarkMark(ccw: bool, poly: Polygon, m: Mark, n: Mark, k: nat)
    requires Convex(ccw, poly) && MarkOf(poly, m) && MarkOf(poly, n) && NotAfter(m, n) && n.k <= k < |poly|
    ensures Turns(ccw, At(poly, m), At(poly, n), poly[k])
  {
    var p := At(poly, m);
    if m.k == n.k {
      TurnsEdge(ccw, poly, m.k, k);
      TurnsOnSegment(ccw, Prev(poly, m.k), poly[m.k], m.s, n.s, poly[k]);
    } else {
      TurnsMark(ccw, poly, m, n.k - 1, k);
      TurnsMark(ccw, poly, m, n.k, k);
      TurnsCyclic(ccw, p, poly[n.k - 1], poly[k]);
      TurnsCyclic(ccw, p, poly[n.k], poly[k]);
      TurnsLerp(ccw, poly[n.k - 1], poly[n.k], n.s, poly[k], p);
      TurnsCyclic(ccw, p, At(poly, n), poly[k]);
    }
  }

  /** Three outline points in order turn like the polygon. */
  lemma TurnsMarks(ccw: bool, poly: Polygon, m: Mark, n: Mark, o: Mark)
    requires Convex(ccw, poly) && MarkOf(poly, m) && MarkOf(poly, n) && MarkOf(poly, o)
    requires NotAfter(m, n) && NotAfter(n, o)
    ensures Turns(ccw, At(poly, m), At(poly, n), At(poly, o))
  {
    var p, q, r := At(poly, m), At(poly, n), At(poly, o);
    if n.k < o.k {
      TurnsMarkMark(ccw, poly, m, n, o.k - 1);
      TurnsMarkMark(ccw, poly, m, n, o.k);
      TurnsCyclic(ccw, q, poly[o.k - 1], p); TurnsCyclic(ccw, p, q, poly[o.k - 1]);
      TurnsCyclic(ccw, q, poly[o.k], p); TurnsCyclic(ccw, p, q, poly[o.k]);
      TurnsLerp(ccw, poly[o.k - 1], poly[o.k], o.s, p, q);
      TurnsCyclic(ccw, p, q, r); TurnsCyclic(ccw, q, r, p);
    } else {
      var a, b := Prev(poly, n.k), poly[n.k];
      if m.k < n.k {
        TurnsMark(ccw, poly, m, n.k - 1, n.k);
      } else {
        TurnsEdge(ccw, poly, n.k, n.k);
        OrientFlat(a, b);
        OrientLerp(a, b, m.s, a, b);
        OrientFlat(b, a);
        assert Orient(p, a, b) == 0.0;
      }
      TurnsCyclic(ccw, p, a, b);
      TurnsOnSegment(ccw, a, b, n.s, o.s, p);
      TurnsCyclic(ccw, p, q, r);
    }
  }

  // ---------------------------------------------------------------- the clipped outline

  function Fraction(s: Side, a: Point, b: Point): real
    requires s.Inside(a) != s.Inside(b)
  {
    (s.c - s.Coord(a)) / (s.Coord(b) - s.Coord(a))
  }

  function EdgeMarks(s: Side, poly: Polygon, k: nat): seq<Mark>
    requires k < |poly|
  {
    var a, b := Prev(poly, k), poly[k];
    (if s.Inside(a) == s.Inside(b) then [] else [Mark(k, Fraction(s, a, b))])
    + (if s.Inside(b) then [Mark(k, 1.0)] else [])
  }

  function Marks(s: Side, poly: Polygon, k: nat): seq<Mark>
    requires k <= |poly|
    decreases |poly| - k
  {
    if k == |poly| then [] else EdgeMarks(s, poly, k) + Marks(s, poly, k + 1)
  }

  ghost predicate MarksFit(poly: Polygon, marks: seq<Mark>, out: Polygon, k: nat) {
    && |marks| == |out|
    && (forall m :: 0 <= m < |marks| ==> MarkOf(poly, marks[m]) && marks[m].k >= k && out[m] == At(poly, marks[m]))
    && (forall m, n :: 0 <= m < n < |marks| ==> NotAfter(marks[m], marks[n]))
  }

  lemma FullLerp(a: Point, b: Point)
    ensures Lerp(a, b, 1.0) == b
  {
  }

  lemma CutIsLerp(s: Side, a: Point, b: Point)
    requires s.Inside(a) != s.Inside(b) && Abs(s.Coord(b) - s.Coord(a)) > EPSILON
    ensures 0.0 <= Fraction(s, a, b) <= 1.0 && s.Cut(a, b) == Lerp(a, b, Fraction(s, a, b))
  {
    var n, d := s.c - s.Coord(a), s.Coord(b) - s.Coord(a);
    FractionInUnit(n, d);
    assert (n / d) * d == n;
  }

  lemma EdgeMarksFit(s: Side, poly: Polygon, k: nat)
    requires k < |poly| && Crisp(s.vertical, s.c, poly)
    ensures MarksFit(poly, EdgeMarks(s, poly, k), EdgeOut(s, Prev(poly, k), poly[k]), k)
    ensures forall m :: 0 <= m < |EdgeMarks(s, poly, k)| ==> EdgeMarks(s, poly, k)[m].k == k
  {
    var a, b := Prev(poly, k), poly[k];
    FullLerp(a, b);
    if s.Inside(a) != s.Inside(b) { CutIsLerp(s, a, b); }
  }

  lemma FitConcat(poly: Polygon, a: seq<Mark>, x: Polygon, b: seq<Mark>, y: Polygon, k: nat)
    requires MarksFit(poly, a, x, k) && MarksFit(poly, b, y, k + 1) && forall m :: 0 <= m < |a| ==> a[m].k == k
    ensures MarksFit(poly, a + b, x + y, k)
  {
  }

  lemma {:induction false} MarksAreClip(s: Side, poly: Polygon, k: nat)
    requires k <= |poly| && poly != [] && Crisp(s.vertical, s.c, poly)
    ensures MarksFit(poly, Marks(s, poly, k), ClipEdges(s, if k == 0 then Last(poly) else poly[k - 1], poly[k..]), k)
    decreases |poly| - k
  {
    if k < |poly| {
      var prev, curr, rest := Prev(poly, k), poly[k], poly[k + 1..];
      EdgeMarksFit(s, poly, k);
      MarksAreClip(s, poly, k + 1);
      assert poly[k..][1..] == rest;
      assert ClipEdges(s, prev, poly[k..]) == EdgeOut(s, prev, curr) + ClipEdges(s, curr, rest);
      FitConcat(poly, EdgeMarks(s, poly, k), EdgeOut(s, prev, curr),
                Marks(s, poly, k + 1), ClipEdges(s, curr, rest), k);
    }
  }

  /** Clipping a convex polygon gives a convex polygon. */
  lemma ClipIsConvex(ccw: bool, s: Side, poly: Polygon)
    requires Convex(ccw, poly) && Crisp(s.vertical, s.c, poly)
    ensures Convex(ccw, ClipTo(s, poly))
  {
    if poly != [] {
      MarksAreClip(s, poly, 0);
      assert poly[0..] == poly;
      var out, marks := ClipTo(s, poly), Marks(s, poly, 0);
      forall i, j, k | 0 <= i < j < k < |out|
        ensures Turns(ccw, out[i], out[j], out[k])
      {
        TurnsMarks(ccw, poly, marks[i], marks[j], marks[k]);
      }
    }
  }

  // ---------------------------------------------------------------- area of a convex polygon

  /** Twice the signed area of the triangle that an edge spans with `z`. */
  function Fan(z: Point): (Point, Point) -> real {
    (a: Point, b: Point) => Orient(z, a, b)
  }

  /** What the fan of an edge adds to its cross product; it cancels around a closed polygon. */
  function Offset(z: Point): (Point, Point) -> real {
    (a: Point, b: Point) => z.y * (b.x - a.x) - z.x * (b.y - a.y)
  }

  lemma OffsetAdds(z: Point, a: Point, b: Point, e: Point)
    ensures Offset(z)(a, b) + Offset(z)(b, e) == Offset(z)(a, e)
  {
    Distribute(z.y, e.x - b.x, b.x - a.x);
    Distribute(z.x, e.y - b.y, b.y - a.y);
  }

  lemma {:induction false} OffsetPath(z: Point, prev: Point, pts: Polygon)
    decreases |pts|
    ensures PathSum(Offset(z), prev, pts) == if pts == [] then 0.0 else Offset(z)(prev, Last(pts))
  {
    if pts != [] {
      OffsetPath(z, pts[0], pts[1..]);
      if |pts| > 1 { assert Last(pts[1..]) == Last(pts); }
      OffsetAdds(z, prev, pts[0], Last(pts));
    }
  }

  /** A closed fan has the area of the polygon. */
  lemma FanIsShoelace(z: Point, poly: Polygon)
    ensures Around(Fan(z), poly) == Shoelace(poly)
  {
    if poly != [] {
      forall a, b ensures Fan(z)(a, b) == Plus(Cross, Offset(z))(a, b) { FanEdge(z, a, b); }
      PathSumAgree(Fan(z), Plus(Cross, Offset(z)), Last(poly), poly);
      PathSumPlus(Cross, Offset(z), Last(poly), poly);
      OffsetPath(z, Last(poly), poly);
    }
  }

  lemma FanEdge(z: Point, a: Point, b: Point)
    ensures Orient(z, a, b) == Cross(a, b) + z.y * (b.x - a.x) - z.x * (b.y - a.y)
  {
    assert (a.x - z.x) * (b.y - z.y) == a.x * b.y - a.x * z.y - z.x * b.y + z.x * z.y;
    assert (b.x - z.x) * (a.y - z.y) == b.x * a.y - b.x * z.y - z.x * a.y + z.x * z.y;
  }

  lemma {:induction false} FanIsNonNegative(ccw: bool, poly: Polygon, k: nat)
    requires Convex(ccw, poly) && 0 < k <= |poly|
    ensures Oriented(ccw, PathSum(Fan(poly[0]), poly[k - 1], poly[k..])) >= 0.0
    decreases |poly| - k
  {
    if k < |poly| {
      FanIsNonNegative(ccw, poly, k + 1);
      assert poly[k..][0] == poly[k] && poly[k..][1..] == poly[k + 1..];
      TurnsVertices(ccw, poly, 0, k - 1, k);
      var head, tail := Fan(poly[0])(poly[k - 1], poly[k]), PathSum(Fan(poly[0]), poly[k], poly[k + 1..]);
      assert PathSum(Fan(poly[0]), poly[k - 1], poly[k..]) == head + tail;
    }
  }

  /** The signed area of a convex polygon has the sign of its orientation. */
  lemma ConvexArea(ccw: bool, poly: Polygon)
    requires Convex(ccw, poly)
    ensures Oriented(ccw, Shoelace(poly)) >= 0.0
  {
    if poly != [] {
      FanIsShoelace(poly[0], poly);
      OrientFlat(poly[0], Last(poly));
      FanIsNonNegative(ccw, poly, 1);
      assert PathSum(Fan(poly[0]), Last(poly), poly)
          == Orient(poly[0], Last(poly), poly[0]) + PathSum(Fan(poly[0]), poly[0], poly[1..]);
    }
  }

  // ---------------------------------------------------------------- one rectangle

  lemma {:induction false} CrispPathHasNoDefect(c: real, prev: Point, pts: Polygon)
    requires !(pts != [] && Sliver(c, prev, pts[0]))
    requires forall k :: 1 <= k < |pts| ==> !Sliver(c, pts[k - 1], pts[k])
    decreases |pts|
    ensures PathSum(Defect(c), prev, pts) == 0.0
  {
    if pts != [] {
      assert |pts| > 1 ==> !Sliver(c, pts[1 - 1], pts[1]);
      CrispPathHasNoDefect(c, pts[0], pts[1..]);
    }
  }

  lemma CrispHasNoDefect(c: real, poly: Polygon)
    ensures Crisp(true, c, poly) ==> Around(Defect(c), poly) == 0.0
    ensures Crisp(false, c, poly) ==> Around(Defect(c), SwapAll(poly)) == 0.0
  {
    if poly != [] {
      if Crisp(true, c, poly) {
        assert !Sliver(c, Prev(poly, 0), poly[0]);
        forall k | 1 <= k < |poly| ensures !Sliver(c, poly[k - 1], poly[k]) { assert Prev(poly, k) == poly[k - 1]; }
        CrispPathHasNoDefect(c, Last(poly), poly);
      }
      if Crisp(false, c, poly) {
        var w := SwapAll(poly);
        assert Prev(poly, 0) == Last(poly);
        assert !Sliver(c, Last(w), w[0]);
        forall k | 1 <= k < |w| ensures !Sliver(c, w[k - 1], w[k]) { assert Prev(poly, k) == poly[k - 1]; }
        CrispPathHasNoDefect(c, Last(w), w);
      }
    }
  }

  /** A convex polygon without area stays without area. */
  lemma FlatStaysFlat(ccw: bool, s: Side, poly: Polygon)
    requires Convex(ccw, poly) && Crisp(s.vertical, s.c, poly) && Shoelace(poly) == 0.0
    ensures Shoelace(ClipTo(s, poly)) == 0.0
  {
    ClipIsConvex(ccw, s, poly);
    ClipIsConvex(ccw, s.Opposite(), poly);
    ConvexArea(ccw, ClipTo(s, poly));
    ConvexArea(ccw, ClipTo(s.Opposite(), poly));
    CrispSplit(s, poly);
    OppositeSigns(ccw, Shoelace(ClipTo(s, poly)), Shoelace(ClipTo(s.Opposite(), poly)));
  }

  lemma CrispSplit(s: Side, poly: Polygon)
    requires Crisp(s.vertical, s.c, poly)
    ensures Shoelace(ClipTo(s, poly)) + Shoelace(ClipTo(s.Opposite(), poly)) == Shoelace(poly)
  {
    CrispHasNoDefect(s.c, poly);
    if s.vertical { AreaSplits(s.c, poly); } else { AreaSplitsHorizontally(s.c, poly); }
  }

  lemma OppositeSigns(ccw: bool, x: real, y: real)
    requires Oriented(ccw, x) >= 0.0 && Oriented(ccw, y) >= 0.0 && x + y == 0.0
    ensures x == 0.0 && y == 0.0
  {
  }

  ghost predicate CrispRect(poly: Polygon, tl: Point, br: Point) {
    && Crisp(true, tl.x, poly) && Crisp(true, br.x, Stage1(poly, tl))
    && Crisp(false, tl.y, Stage2(poly, tl, br)) && Crisp(false, br.y, Stage3(poly, tl, br))
  }

  /** Fewer than three vertices stay without area through the next stage, whatever it is. */
  lemma SmallStaysFlat(s: Side, poly: Polygon)
    requires |poly| < 3 && Crisp(s.vertical, s.c, poly)
    ensures Flat(ClipTo(s, poly))
  {
    SmallPolygonsAreFlat(poly);
    FlatStaysFlat(true, s, poly);
    ClipIsConvex(true, s, poly);
  }

  /** Convex and without area. */
  ghost predicate Flat(poly: Polygon) {
    Convex(true, poly) && Shoelace(poly) == 0.0
  }

  lemma FlatStage(s: Side, poly: Polygon)
    requires Flat(poly) && Crisp(s.vertical, s.c, poly)
    ensures Flat(ClipTo(s, poly))
  {
    FlatStaysFlat(true, s, poly);
    ClipIsConvex(true, s, poly);
  }

  /**
   The early exits change nothing, for any polygon: the result is half the absolute shoelace sum of all four clips.
   */
  lemma EarlyExitsAreRight(poly: Polygon, tl: Point, br: Point)
    requires CrispRect(poly, tl, br)
    ensures OverlapArea(poly, tl, br) == 0.5 * Abs(Shoelace(ClipToRect(poly, tl, br)))
  {
    var l, r := Side(true, true, tl.x), Side(true, false, br.x);
    var t, b := Side(false, true, tl.y), Side(false, false, br.y);
    var s1, s2, s3, s4 := Stage1(poly, tl), Stage2(poly, tl, br), Stage3(poly, tl, br), ClipToRect(poly, tl, br);
    if |poly| < 3 { SmallStaysFlat(l, poly); }
    if |s1| < 3 { SmallStaysFlat(r, s1); } else if Flat(s1) { FlatStage(r, s1); }
    if |s2| < 3 { SmallStaysFlat(t, s2); } else if Flat(s2) { FlatStage(t, s2); }
    if |s3| < 3 { SmallStaysFlat(b, s3); } else if Flat(s3) { FlatStage(b, s3); }
    if |s4| < 3 { SmallPolygonsAreFlat(s4); }
  }

  /** For a convex polygon the result has the sign of its orientation. */
  lemma OverlapIsShoelace(ccw: bool, poly: Polygon, tl: Point, br: Point)
    requires Convex(ccw, poly) && CrispRect(poly, tl, br)
    ensures OverlapArea(poly, tl, br) == 0.5 * Oriented(ccw, Shoelace(ClipToRect(poly, tl, br)))
  {
    EarlyExitsAreRight(poly, tl, br);
    ClipIsConvex(ccw, Side(true, true, tl.x), poly);
    ClipIsConvex(ccw, Side(true, false, br.x), Stage1(poly, tl));
    ClipIsConvex(ccw, Side(false, true, tl.y), Stage2(poly, tl, br));
    ClipIsConvex(ccw, Side(false, false, br.y), Stage3(poly, tl, br));
    ConvexArea(ccw, ClipToRect(poly, tl, br));
  }

  // ---------------------------------------------------------------- the pixel grid

  function Overlap(poly: Polygon, i: int): int -> real {
    (j: int) => OverlapArea(poly, Point(i as real, j as real), Point((i + 1) as real, (j + 1) as real))
  }

  function OverlapColumn(poly: Polygon, h: nat): int -> real {
    (i: int) => SumTo(Overlap(poly, i), h)
  }

  ghost predicate CrispLine(vertical: bool, poly: Polygon, i: int) {
    Crisp(vertical, (i + 1) as real, poly)
  }

  ghost predicate CrispPixel(poly: Polygon, i: int, j: int) {
    CrispRect(poly, Point(i as real, j as real), Point((i + 1) as real, (j + 1) as real))
  }

  /** No clip against a grid line takes the EPSILON branch. */
  ghost predicate CrispGrid(poly: Polygon, w: nat, h: nat) {
    && (forall i :: 0 <= i < w ==> CrispLine(true, poly, i))
    && (forall i, j :: 0 <= i < w && 0 <= j < h ==> CrispLine(false, Column(poly, i), j) && CrispPixel(poly, i, j))
  }

  lemma {:induction false} SumZero(g: int -> real, n: nat)
    requires forall i :: 0 <= i < n ==> g(i) == 0.0
    ensures SumTo(g, n) == 0.0
  {
    if n > 0 { SumZero(g, n - 1); }
  }

  lemma CrispLineDefect(poly: Polygon, i: int)
    ensures CrispLine(true, poly, i) ==> LineDefect(poly)(i) == 0.0
    ensures CrispLine(false, poly, i) ==> LineDefect(SwapAll(poly))(i) == 0.0
  {
    CrispHasNoDefect((i + 1) as real, poly);
  }

  lemma GridHasNoDefect(poly: Polygon, w: nat, h: nat)
    requires CrispGrid(poly, w, h)
    ensures DefectSum(poly, w) == 0.0 && SumTo(ColumnDefect(poly, h), w) == 0.0
  {
    forall i | 0 <= i < w ensures LineDefect(poly)(i) == 0.0 { CrispLineDefect(poly, i); }
    SumZero(LineDefect(poly), w);
    forall i | 0 <= i < w ensures ColumnDefect(poly, h)(i) == 0.0 {
      var q := Column(poly, i);
      forall j | 0 <= j < h ensures LineDefect(SwapAll(q))(j) == 0.0 { CrispLineDefect(q, j); }
      SumZero(LineDefect(SwapAll(q)), h);
    }
    SumZero(ColumnDefect(poly, h), w);
  }

  lemma OverlapColumnIsPixels(ccw: bool, poly: Polygon, i: int, w: nat, h: nat)
    requires Convex(ccw, poly) && CrispGrid(poly, w, h) && 0 <= i < w
    ensures OverlapColumn(poly, h)(i) == Half(ccw, PixelColumn(poly, h)(i))
  {
    forall j | 0 <= j < h ensures Overlap(poly, i)(j) == Half(ccw, PixelArea(poly, i)(j)) {
      OverlapOfPixel(ccw, poly, i, j);
    }
    SumHalves(ccw, Overlap(poly, i), PixelArea(poly, i), h);
  }

  lemma OverlapOfPixel(ccw: bool, poly: Polygon, i: int, j: int)
    requires Convex(ccw, poly) && CrispPixel(poly, i, j)
    ensures Overlap(poly, i)(j) == Half(ccw, PixelArea(poly, i)(j))
  {
    var tl, br := Point(i as real, j as real), Point((i + 1) as real, (j + 1) as real);
    assert Overlap(poly, i)(j) == OverlapArea(poly, tl, br) && PixelArea(poly, i)(j) == Shoelace(Pixel(poly, i, j));
    OverlapIsShoelace(ccw, poly, tl, br);
    OrientedHalf(ccw, Shoelace(ClipToRect(poly, tl, br)));
  }

  function Half(ccw: bool, x: real): real {
    if ccw then 0.5 * x else -0.5 * x
  }

  lemma OrientedHalf(ccw: bool, x: real)
    ensures 0.5 * Oriented(ccw, x) == Half(ccw, x)
  {
  }

  lemma {:induction false} SumHalves(ccw: bool, g: int -> real, f: int -> real, n: nat)
    requires forall i :: 0 <= i < n ==> g(i) == Half(ccw, f(i))
    ensures SumTo(g, n) == Half(ccw, SumTo(f, n))
  {
    if n > 0 { SumHalves(ccw, g, f, n - 1); }
  }

  /** The overlap areas of a convex polygon with all pixels of the grid add up to its area. */
  lemma OverlapAreasAddUp(ccw: bool, poly: Polygon, w: nat, h: nat)
    requires Convex(ccw, poly)
    requires InGrid(poly, w, h) && CrispGrid(poly, w, h)
    ensures SumTo(OverlapColumn(poly, h), w) == 0.5 * Abs(Shoelace(poly))
  {
    forall i | 0 <= i < w ensures OverlapColumn(poly, h)(i) == Half(ccw, PixelColumn(poly, h)(i)) {
      OverlapColumnIsPixels(ccw, poly, i, w, h);
    }
    SumHalves(ccw, OverlapColumn(poly, h), PixelColumn(poly, h), w);
    GridHasNoDefect(poly, w, h);
    PixelsAddUp(poly, w, h);
    ConvexArea(ccw, poly);
  }

  // ---------------------------------------------------------------- a polygon that leaves the grid

  lemma ConvexSwap(ccw: bool, poly: Polygon)
    requires Convex(ccw, poly)
    ensures Convex(!ccw, SwapAll(poly))
  {
    var w := SwapAll(poly);
    forall i, j, k | 0 <= i < j < k < |w|
      ensures Turns(!ccw, w[i], w[j], w[k])
    {
      assert Turns(ccw, poly[i], poly[j], poly[k]);
      OrientSwap(poly[i], poly[j], poly[k]);
    }
  }

  lemma OrientSwap(a: Point, b: Point, c: Point)
    ensures Orient(a.Swap(), b.Swap(), c.Swap()) == -Orient(a, b, c)
  {
  }

  lemma CrispSwap(c: real, poly: Polygon)
    requires Crisp(false, c, poly)
    ensures Crisp(true, c, SwapAll(poly))
  {
    var w := SwapAll(poly);
    forall k | 0 <= k < |w|
      ensures Prev(w, k) == Prev(poly, k).Swap() && w[k] == poly[k].Swap()
    {
    }
  }

  /** The columns of a grid hold no more of a convex polygon than there is. */
  lemma ColumnsAtMost(ccw: bool, poly: Polygon, n: nat)
    requires Convex(ccw, poly) && Crisp(true, 0.0, poly) && forall i :: 0 <= i < n ==> CrispLine(true, poly, i)
    ensures Oriented(ccw, SumTo(ColumnArea(poly), n)) <= Oriented(ccw, Shoelace(poly))
  {
    ColumnsTelescope(poly, n);
    forall i | 0 <= i < n ensures LineDefect(poly)(i) == 0.0 { CrispLineDefect(poly, i); }
    SumZero(LineDefect(poly), n);
    var s, right := AtLeastX(0.0), AtLeastX(n as real);
    assert Crisp(true, n as real, poly) by { assert n > 0 ==> CrispLine(true, poly, n - 1); }
    CrispSplit(s, poly);
    ClipIsConvex(ccw, s.Opposite(), poly);
    ConvexArea(ccw, ClipTo(s.Opposite(), poly));
    ClipIsConvex(ccw, right, poly);
    ConvexArea(ccw, ClipTo(right, poly));
    assert RightOf(poly)(0) == Shoelace(ClipTo(s, poly)) && RightOf(poly)(n) == Shoelace(ClipTo(right, poly));
  }

  /** The pixels of a column hold no more than the column does. */
  lemma PixelsAtMost(ccw: bool, poly: Polygon, i: int, w: nat, h: nat)
    requires Convex(ccw, poly) && CrispGrid(poly, w, h) && 0 <= i < w && h > 0
    ensures Oriented(ccw, PixelColumn(poly, h)(i)) <= Oriented(ccw, ColumnArea(poly)(i))
  {
    var column := Column(poly, i);
    var q := SwapAll(column);
    assert CrispPixel(poly, i, 0);
    ClipIsConvex(ccw, AtLeastX(i as real), poly);
    ClipIsConvex(ccw, AtMostX((i + 1) as real), ClipTo(AtLeastX(i as real), poly));
    ConvexSwap(ccw, column);
    CrispSwap(0.0, column);
    forall j | 0 <= j < h
      ensures CrispLine(true, q, j)
    {
      assert CrispLine(false, column, j);
      CrispSwap((j + 1) as real, column);
    }
    ColumnsAtMost(!ccw, q, h);
    PixelsOfColumn(poly, i, h);
    ShoelaceSwap(column);
  }

  lemma {:induction false} SumOrdered(ccw: bool, g: int -> real, f: int -> real, n: nat)
    requires forall i :: 0 <= i < n ==> Oriented(ccw, g(i)) <= Oriented(ccw, f(i))
    ensures Oriented(ccw, SumTo(g, n)) <= Oriented(ccw, SumTo(f, n))
  {
    if n > 0 { SumOrdered(ccw, g, f, n - 1); }
  }

  /** The overlap areas of a convex polygon with all pixels of any grid add up to no more than its area. */
  lemma OverlapAreasAtMost(ccw: bool, poly: Polygon, w: nat, h: nat)
    requires Convex(ccw, poly) && CrispGrid(poly, w, h) && w > 0 && h > 0
    ensures SumTo(OverlapColumn(poly, h), w) <= 0.5 * Abs(Shoelace(poly))
  {
    forall i | 0 <= i < w
      ensures OverlapColumn(poly, h)(i) == Half(ccw, PixelColumn(poly, h)(i))
      ensures Oriented(ccw, PixelColumn(poly, h)(i)) <= Oriented(ccw, ColumnArea(poly)(i))
    {
      OverlapColumnIsPixels(ccw, poly, i, w, h);
      PixelsAtMost(ccw, poly, i, w, h);
    }
    SumHalves(ccw, OverlapColumn(poly, h), PixelColumn(poly, h), w);
    SumOrdered(ccw, PixelColumn(poly, h), ColumnArea(poly), w);
    assert CrispPixel(poly, 0, 0);
    assert forall i :: 0 <= i < w ==> CrispLine(true, poly, i);
    ColumnsAtMost(ccw, poly, w);
    ConvexArea(ccw, poly);
  }
}
