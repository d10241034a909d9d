/**
 Sutherland-Hodgman clipping of a polygon against the four sides of a rectangle, and the
 shoelace area.  Coordinates are exact reals.
 */
module Clip {
  import opened Reals

  datatype Point = Point(x: real, y: real) {
    function Swap(): Point {
      Point(y, x)
    }
  }

  type Polygon = seq<Point>

  /** `f32::EPSILON`, two to the power of -23. */
  const EPSILON: real := 1.0 / 8388608.0

  /** One clipping side: keep the points with `x >= c`, `x <= c`, `y >= c` or `y <= c`. */
  datatype Side = Side(vertical: bool, atLeast: bool, c: real) {
    function Coord(p: Point): real {
      if vertical then p.x else p.y
    }

    predicate Inside(p: Point) {
      if atLeast then Coord(p) >= c else Coord(p) <= c
    }

    predicate OnLine(p: Point) {
      Coord(p) == c
    }

    /** Where the clip line cuts edge `ab`. */
    function Cut(a: Point, b: Point): Point {
      if vertical then IntersectVertical(a, b, c) else IntersectHorizontal(a, b, c)
    }

    function Opposite(): Side {
      Side(vertical, !atLeast, c)
    }

    function Swap(): Side {
      Side(!vertical, atLeast, c)
    }
  }

  /** The second coordinate where edge `(u0, v0)`-`(u1, v1)` meets `u`; a step up to EPSILON counts as none. */
  function Interpolate(u0: real, v0: real, u1: real, v1: real, u: real): real {
    var du := u1 - u0;
    if Abs(du) <= EPSILON then v0
    else
      var t := (u - u0) / du;
      v0 + t * (v1 - v0)
  }

  function IntersectVertical(a: Point, b: Point, x: real): Point {
    Point(x, Interpolate(a.x, a.y, b.x, b.y, x))
  }

  function IntersectHorizontal(a: Point, b: Point, y: real): Point {
    Point(Interpolate(a.y, a.x, b.y, b.x, y), y)
  }

  // ---------------------------------------------------------------- specification

  /** What one edge contributes to the clipped polygon. */
  function EdgeOut(s: Side, prev: Point, curr: Point): Polygon {
    if s.Inside(curr) then
      (if s.Inside(prev) then [] else [s.Cut(prev, curr)]) + [curr]
    else if s.Inside(prev) then [s.Cut(prev, curr)]
    else []
  }

  function ClipEdges(s: Side, prev: Point, pts: Polygon): Polygon
    decreases |pts|
  {
    if pts == [] then [] else EdgeOut(s, prev, pts[0]) + ClipEdges(s, pts[0], pts[1..])
  }

  function Last(pts: Polygon): Point
    requires pts != []
  {
    pts[|pts| - 1]
  }

  /** The polygon clipped to one side. */
  function ClipTo(s: Side, poly: Polygon): Polygon {
    if poly == [] then [] else ClipEdges(s, Last(poly), poly)
  }

  /** A quantity summed over the edges of a path that starts at `prev`. */
  function PathSum(f: (Point, Point) -> real, prev: Point, pts: Polygon): real
    decreases |pts|
  {
    if pts == [] then 0.0 else f(prev, pts[0]) + PathSum(f, pts[0], pts[1..])
  }

  /** A quantity summed over the edges of a closed polygon. */
  function Around(f: (Point, Point) -> real, poly: Polygon): real {
    if poly == [] then 0.0 else PathSum(f, Last(poly), poly)
  }

  function Cross(a: Point, b: Point): real {
    a.x * b.y - b.x * a.y
  }

  /** Twice the signed area of a polygon. */
  function Shoelace(poly: Polygon): real {
    Around(Cross, poly)
  }

  // ---------------------------------------------------------------- the loops

  method ClipPolygonGeneric(input: Polygon, s: Side) returns (output: Polygon)
    ensures output == ClipTo(s, input)
  {
    output := [];
    if input == [] { return; }
    var prev := input[|input| - 1];
    var prevInside := s.Inside(prev);
    for i := 0 to |input|
      invariant prevInside == s.Inside(prev)
      invariant output + ClipEdges(s, prev, input[i..]) == ClipTo(s, input)
    {
      var curr := input[i];
      var currInside := s.Inside(curr);
      ClipOneEdge(s, output, prev, input[i..]);
      assert input[i..][1..] == input[i + 1..];
      ghost var before := output;
      if currInside {
        if !prevInside {
          output := output + [s.Cut(prev, curr)];
        }
        output := output + [curr];
      } else if prevInside {
        output := output + [s.Cut(prev, curr)];
      }
      assert output == before + EdgeOut(s, prev, curr);
      prev := curr;
      prevInside := currInside;
    }
    assert input[|input|..] == [];
  }

  lemma ClipOneEdge(s: Side, done: Polygon, prev: Point, pts: Polygon)
    requires pts != []
    ensures done + ClipEdges(s, prev, pts) == (done + EdgeOut(s, prev, pts[0])) + ClipEdges(s, pts[0], pts[1..])
  {
  }

  method PolygonArea(vertices: Polygon) returns (area: real)
    ensures area == 0.5 * Abs(Shoelace(vertices))
  {
    if |vertices| < 3 {
      SmallPolygonsAreFlat(vertices);
      return 0.0;
    }
    area := 0.0;
    var prev := vertices[|vertices| - 1];
    for i := 0 to |vertices|
      invariant area + PathSum(Cross, prev, vertices[i..]) == Shoelace(vertices)
    {
      var curr := vertices[i];
      assert vertices[i..][1..] == vertices[i + 1..];
      area := area + (prev.x * curr.y - curr.x * prev.y);
      prev := curr;
    }
    assert vertices[|vertices|..] == [];
    area := 0.5 * (if area < 0.0 then -area else area);
  }

  /** Returning 0 for fewer than three vertices agrees with the shoelace sum. */
  lemma SmallPolygonsAreFlat(poly: Polygon)
    requires |poly| < 3
    ensures Shoelace(poly) == 0.0
  {
    if |poly| == 1 {
      assert poly[1..] == [];
      assert PathSum(Cross, poly[0], poly) == Cross(poly[0], poly[0]) + PathSum(Cross, poly[0], poly[1..]);
    } else if |poly| == 2 {
      assert poly[1..][1..] == [];
      assert PathSum(Cross, poly[0], poly[1..]) == Cross(poly[0], poly[1]);
    }
  }

  // ---------------------------------------------------------------- sums over clipped paths

  lemma {:induction false} PathSumConcat(f: (Point, Point) -> real, prev: Point, a: Polygon, b: Polygon)
    decreases |a|
    ensures PathSum(f, prev, a + b) == PathSum(f, prev, a) + PathSum(f, if a == [] then prev else Last(a), b)
  {
    if a == [] {
      assert a + b == b;
    } else {
      assert (a + b)[1..] == a[1..] + b;
      PathSumConcat(f, a[0], a[1..], b);
      if |a| > 1 { assert Last(a[1..]) == Last(a); }
    }
  }

  /** The part of edge `ab` that survives the clip, measured by `f`. */
  function Kept(s: Side, f: (Point, Point) -> real): (Point, Point) -> real {
    (a: Point, b: Point) =>
      if s.Inside(a) then (if s.Inside(b) then f(a, b) else f(a, s.Cut(a, b)))
      else if s.Inside(b) then f(s.Cut(a, b), b)
      else 0.0
  }

  ghost predicate VanishesOn(s: Side, f: (Point, Point) -> real) {
    forall p, q {:trigger f(p, q)} :: s.OnLine(p) && s.OnLine(q) ==> f(p, q) == 0.0
  }

  /** The pen of the clipped path: at `prev` while inside, on the clip line otherwise. */
  predicate PenAt(s: Side, prev: Point, pen: Point) {
    if s.Inside(prev) then pen == prev else s.OnLine(pen)
  }

  lemma CutIsOnLine(s: Side, a: Point, b: Point)
    ensures s.OnLine(s.Cut(a, b)) && s.Inside(s.Cut(a, b))
  {
  }

  lemma {:induction false} ClipEdgesSum(s: Side, f: (Point, Point) -> real, prev: Point, pts: Polygon, pen: Point)
    requires VanishesOn(s, f) && PenAt(s, prev, pen)
    decreases |pts|
    ensures PathSum(f, pen, ClipEdges(s, prev, pts)) == PathSum(Kept(s, f), prev, pts)
    ensures pts != [] ==>
              PenAt(s, Last(pts), if ClipEdges(s, prev, pts) == [] then pen else Last(ClipEdges(s, prev, pts)))
  {
    if pts != [] {
      var curr, out, rest := pts[0], EdgeOut(s, prev, pts[0]), ClipEdges(s, pts[0], pts[1..]);
      var pen' := if out == [] then pen else Last(out);
      var q := s.Cut(prev, curr);
      CutIsOnLine(s, prev, curr);
      assert PenAt(s, curr, pen');
      ClipEdgesSum(s, f, curr, pts[1..], pen');
      PathSumConcat(f, pen, out, rest);
      EdgeSum(s, f, prev, curr, pen);
      assert out + rest == ClipEdges(s, prev, pts);
      if rest != [] { assert Last(out + rest) == Last(rest); } else { assert out + rest == out; }
      if |pts| > 1 { assert Last(pts[1..]) == Last(pts); } else { assert pts[1..] == [] && Last(pts) == curr; }
    }
  }

  lemma EdgeSum(s: Side, f: (Point, Point) -> real, prev: Point, curr: Point, pen: Point)
    requires VanishesOn(s, f) && PenAt(s, prev, pen)
    ensures PathSum(f, pen, EdgeOut(s, prev, curr)) == Kept(s, f)(prev, curr)
  {
    var q := s.Cut(prev, curr);
    CutIsOnLine(s, prev, curr);
    var out := EdgeOut(s, prev, curr);
    if s.Inside(curr) {
      if s.Inside(prev) {
        assert out == [curr] && out[1..] == [];
        assert PathSum(f, pen, out) == f(pen, out[0]) + PathSum(f, out[0], out[1..]);
      } else {
        assert out == [q, curr] && out[1..] == [curr] && out[1..][1..] == [];
        assert f(pen, q) == 0.0;
        assert PathSum(f, q, [curr]) == f(q, curr) + PathSum(f, curr, [curr][1..]);
      }
    } else if s.Inside(prev) {
      assert out == [q] && out[1..] == [];
    }
  }

  /** Summing over the clipped polygon is summing the kept part of every original edge. */
  lemma ClipSum(s: Side, f: (Point, Point) -> real, poly: Polygon)
    requires VanishesOn(s, f)
    ensures Around(f, ClipTo(s, poly)) == Around(Kept(s, f), poly)
  {
    if poly != [] {
      var out := ClipTo(s, poly);
      var onLine := if s.vertical then Point(s.c, 0.0) else Point(0.0, s.c);
      var start := if s.Inside(Last(poly)) then Last(poly) else onLine;
      ClipEdgesSum(s, f, Last(poly), poly, start);
      if out != [] {
        ClipEdgesSum(s, f, Last(poly), poly, Last(out));
      }
    }
  }

  // ---------------------------------------------------------------- conservation of area

  /** Twice the area between edge `ab` and the line `x = c`. */
  function Strip(c: real): (Point, Point) -> real {
    (a: Point, b: Point) => (a.x + b.x - 2.0 * c) * (b.y - a.y)
  }

  lemma {:induction false} StripPath(c: real, prev: Point, pts: Polygon)
    decreases |pts|
    ensures var e := if pts == [] then prev else Last(pts);
            PathSum(Strip(c), prev, pts) ==
            PathSum(Cross, prev, pts) + (e.x * e.y - prev.x * prev.y) - 2.0 * c * (e.y - prev.y)
  {
    if pts != [] {
      var a, b := prev, pts[0];
      StripPath(c, b, pts[1..]);
      StripEdge(c, a, b);
      var e := Last(pts);
      if |pts| > 1 { assert Last(pts[1..]) == e; }
      assert 2.0 * c * (e.y - b.y) + 2.0 * c * (b.y - a.y) == 2.0 * c * (e.y - a.y);
    }
  }

  lemma StripEdge(c: real, a: Point, b: Point)
    ensures Strip(c)(a, b) == Cross(a, b) + (b.x * b.y - a.x * a.y) - 2.0 * c * (b.y - a.y)
  {
    assert (a.x + b.x - 2.0 * c) * (b.y - a.y)
        == a.x * (b.y - a.y) + b.x * (b.y - a.y) - 2.0 * c * (b.y - a.y);
    assert a.x * (b.y - a.y) == a.x * b.y - a.x * a.y;
    assert b.x * (b.y - a.y) == b.x * b.y - b.x * a.y;
  }

  /** Around a closed polygon the reference line does not matter. */
  lemma StripIsShoelace(c: real, poly: Polygon)
    ensures Around(Strip(c), poly) == Shoelace(poly)
  {
    if poly != [] { StripPath(c, Last(poly), poly); }
  }

  lemma StripVanishes(s: Side)
    requires s.vertical
    ensures VanishesOn(s, Strip(s.c))
  {
    forall p, q | s.OnLine(p) && s.OnLine(q)
      ensures Strip(s.c)(p, q) == 0.0
    {
      assert p.x + q.x - 2.0 * s.c == 0.0;
    }
  }

  /** Edge `ab` crosses the line `x = c` but is too steep for a division: the cut keeps `a.y`. */
  predicate Sliver(c: real, a: Point, b: Point) {
    ((a.x < c < b.x) || (b.x < c < a.x)) && Abs(b.x - a.x) <= EPSILON
  }

  /** What the clip of a sliver edge adds to the area: twice the triangle of `a`, the cut and `b`. */
  function Defect(c: real): (Point, Point) -> real {
    (a: Point, b: Point) => if Sliver(c, a, b) then (c - a.x) * (b.y - a.y) else 0.0
  }

  function Plus(f: (Point, Point) -> real, g: (Point, Point) -> real): (Point, Point) -> real {
    (a: Point, b: Point) => f(a, b) + g(a, b)
  }

  lemma {:induction false} PathSumPlus(f: (Point, Point) -> real, g: (Point, Point) -> real, prev: Point, pts: Polygon)
    decreases |pts|
    ensures PathSum(Plus(f, g), prev, pts) == PathSum(f, prev, pts) + PathSum(g, prev, pts)
  {
    if pts != [] { PathSumPlus(f, g, pts[0], pts[1..]); }
  }

  lemma {:induction false} PathSumAgree(f: (Point, Point) -> real, g: (Point, Point) -> real, prev: Point, pts: Polygon)
    requires forall a, b {:trigger f(a, b)} :: f(a, b) == g(a, b)
    decreases |pts|
    ensures PathSum(f, prev, pts) == PathSum(g, prev, pts)
  {
    if pts != [] { PathSumAgree(f, g, pts[0], pts[1..]); }
  }

  function AtLeastX(c: real): Side { Side(true, true, c) }

  function AtMostX(c: real): Side { Side(true, false, c) }

  /** Edge by edge, the two kept parts make up the edge, apart from the defect. */
  lemma EdgeConserved(c: real, a: Point, b: Point)
    ensures Kept(AtLeastX(c), Strip(c))(a, b) + Kept(AtMostX(c), Strip(c))(a, b) == Strip(c)(a, b) + Defect(c)(a, b)
  {
    if (a.x < c < b.x) || (b.x < c < a.x) {
      CutConserves(c, a, b);
      EdgeCrosses(c, Strip(c), a, b);
    } else {
      EdgeOnOneSide(c, a, b);
    }
  }

  /** The two halves of a crossing edge make up the edge, apart from the defect. */
  lemma CutConserves(c: real, a: Point, b: Point)
    requires (a.x < c < b.x) || (b.x < c < a.x)
    ensures var q := AtLeastX(c).Cut(a, b); Strip(c)(a, q) + Strip(c)(q, b) == Strip(c)(a, b) + Defect(c)(a, b)
  {
    if Sliver(c, a, b) { SliverSplit(c, a, b); } else { ExactSplit(c, a, b, IntersectVertical(a, b, c)); }
  }

  lemma EdgeCrosses(c: real, f: (Point, Point) -> real, a: Point, b: Point)
    requires (a.x < c < b.x) || (b.x < c < a.x)
    ensures var q := AtLeastX(c).Cut(a, b);
            Kept(AtLeastX(c), f)(a, b) + Kept(AtMostX(c), f)(a, b) == f(a, q) + f(q, b)
  {
    assert AtLeastX(c).Cut(a, b) == AtMostX(c).Cut(a, b);
  }

  lemma EdgeOnOneSide(c: real, a: Point, b: Point)
    requires !((a.x < c < b.x) || (b.x < c < a.x))
    ensures Kept(AtLeastX(c), Strip(c))(a, b) + Kept(AtMostX(c), Strip(c))(a, b) == Strip(c)(a, b)
  {
    var q := IntersectVertical(a, b, c);
    assert AtLeastX(c).Cut(a, b) == q && AtMostX(c).Cut(a, b) == q && q.x == c;
    var l, r := AtLeastX(c), AtMostX(c);
    if a.x == c {
      StripZero(c, a, q);
      if b.x == c { StripZero(c, a, b); }
    } else if b.x == c {
      StripZero(c, q, b);
    } else if a.x > c {
      assert l.Inside(a) && l.Inside(b) && !r.Inside(a) && !r.Inside(b);
    } else {
      assert !l.Inside(a) && !l.Inside(b) && r.Inside(a) && r.Inside(b);
    }
  }

  lemma StripZero(c: real, a: Point, b: Point)
    requires a.x == c && b.x == c
    ensures Strip(c)(a, b) == 0.0
  {
  }

  lemma SliverSplit(c: real, a: Point, b: Point)
    requires Sliver(c, a, b)
    ensures var q := IntersectVertical(a, b, c);
            Strip(c)(a, q) + Strip(c)(q, b) == Strip(c)(a, b) + (c - a.x) * (b.y - a.y)
  {
    var q := IntersectVertical(a, b, c);
    assert q == Point(c, a.y);
    assert Strip(c)(a, q) == 0.0;
    assert Strip(c)(q, b) == (b.x - c) * (b.y - a.y);
    assert (b.x - c) * (b.y - a.y) == ((a.x + b.x - 2.0 * c) + (c - a.x)) * (b.y - a.y);
  }

  lemma ExactSplit(c: real, a: Point, b: Point, q: Point)
    requires b.x != a.x && Abs(b.x - a.x) > EPSILON && q == IntersectVertical(a, b, c)
    ensures Strip(c)(a, q) + Strip(c)(q, b) == Strip(c)(a, b)
  {
    var d, h := b.x - a.x, b.y - a.y;
    var t := (c - a.x) / d;
    assert t * d == c - a.x;
    assert q == Point(c, a.y + t * h);
    var u, v := a.x - c, b.x - c;
    assert u == -(t * d) && v == d - t * d;
    assert Strip(c)(a, q) == u * (t * h);
    assert b.y - q.y == h - t * h;
    assert Strip(c)(q, b) == v * (h - t * h);
    SplitAlgebra(t, d, h);
    assert Strip(c)(a, b) == (u + v) * h;
  }

  lemma SplitAlgebra(t: real, d: real, h: real)
    ensures (-(t * d)) * (t * h) + (d - t * d) * (h - t * h) == (-(t * d) + (d - t * d)) * h
  {
    var k := d * h;
    assert (-(t * d)) * (t * h) == -(t * t * k);
    assert (d - t * d) * (h - t * h) == k - t * k - t * k + t * t * k;
    assert (-(t * d) + (d - t * d)) * h == k - 2.0 * (t * k);
  }

  /**
   Clipping to `x >= c` and to `x <= c` splits the signed area exactly, up to the defect of the
   edges that take the EPSILON branch.
   */
  lemma AreaSplits(c: real, poly: Polygon)
    ensures Shoelace(ClipTo(AtLeastX(c), poly)) + Shoelace(ClipTo(AtMostX(c), poly))
         == Shoelace(poly) + Around(Defect(c), poly)
  {
    var l, r := AtLeastX(c), AtMostX(c);
    StripIsShoelace(c, ClipTo(l, poly));
    StripIsShoelace(c, ClipTo(r, poly));
    StripIsShoelace(c, poly);
    StripVanishes(l);
    StripVanishes(r);
    ClipSum(l, Strip(c), poly);
    ClipSum(r, Strip(c), poly);
    if poly != [] {
      var prev := Last(poly);
      PathSumPlus(Kept(l, Strip(c)), Kept(r, Strip(c)), prev, poly);
      PathSumPlus(Strip(c), Defect(c), prev, poly);
      forall a, b
        ensures Plus(Kept(l, Strip(c)), Kept(r, Strip(c)))(a, b) == Plus(Strip(c), Defect(c))(a, b)
      {
        EdgeConserved(c, a, b);
      }
      PathSumAgree(Plus(Kept(l, Strip(c)), Kept(r, Strip(c))), Plus(Strip(c), Defect(c)), prev, poly);
    }
  }

  /** How far the edges of a path climb in total. */
  function Rise(): (Point, Point) -> real {
    (a: Point, b: Point) => Abs(b.y - a.y)
  }

  /** The defect of a clip is at most EPSILON times the length of the outline in the other axis. */
  lemma {:induction false} DefectIsTiny(c: real, prev: Point, pts: Polygon)
    decreases |pts|
    ensures Abs(PathSum(Defect(c), prev, pts)) <= 1.0 / 8388608.0 * PathSum(Rise(), prev, pts)
  {
    if pts != [] {
      var a, b := prev, pts[0];
      DefectIsTiny(c, b, pts[1..]);
      DefectOfEdge(c, a, b);
      Distribute(EPSILON, Rise()(a, b), PathSum(Rise(), b, pts[1..]));
    }
  }

  lemma Distribute(k: real, x: real, y: real)
    ensures k * (x + y) == k * x + k * y
  {
  }

  lemma DefectOfEdge(c: real, a: Point, b: Point)
    ensures Abs(Defect(c)(a, b)) <= EPSILON * Rise()(a, b)
  {
    if Sliver(c, a, b) { AbsProduct(c - a.x, b.y - a.y); } else { MulNonNegative(EPSILON, Rise()(a, b)); }
  }

  lemma MulNonNegative(x: real, y: real)
    requires x >= 0.0 && y >= 0.0
    ensures x * y >= 0.0
  {
  }

  lemma AbsProduct(x: real, y: real)
    requires Abs(x) <= EPSILON
    ensures Abs(x * y) <= EPSILON * Abs(y)
  {
    var ax, ay := Abs(x), Abs(y);
    MulNonNegative(ax, ay);
    assert x * y == ax * ay || x * y == -(ax * ay);
    MulNonNegative(EPSILON - ax, ay);
    assert (EPSILON - ax) * ay == EPSILON * ay - ax * ay;
  }

  // ---------------------------------------------------------------- the horizontal sides

  function SwapAll(poly: Polygon): Polygon {
    seq(|poly|, i requires 0 <= i < |poly| => poly[i].Swap())
  }

  lemma SwapConcat(a: Polygon, b: Polygon)
    ensures SwapAll(a + b) == SwapAll(a) + SwapAll(b)
  {
  }

  lemma EdgeOutSwap(s: Side, a: Point, b: Point)
    ensures EdgeOut(s.Swap(), a.Swap(), b.Swap()) == SwapAll(EdgeOut(s, a, b))
  {
    assert s.Swap().Cut(a.Swap(), b.Swap()) == s.Cut(a, b).Swap();
  }

  /** Clipping against a horizontal side is clipping the transposed polygon against a vertical one. */
  lemma {:induction false} ClipEdgesSwap(s: Side, prev: Point, pts: Polygon)
    decreases |pts|
    ensures ClipEdges(s.Swap(), prev.Swap(), SwapAll(pts)) == SwapAll(ClipEdges(s, prev, pts))
  {
    if pts != [] {
      ClipEdgesSwap(s, pts[0], pts[1..]);
      assert SwapAll(pts)[1..] == SwapAll(pts[1..]);
      EdgeOutSwap(s, prev, pts[0]);
      SwapConcat(EdgeOut(s, prev, pts[0]), ClipEdges(s, pts[0], pts[1..]));
    }
  }

  lemma ClipSwap(s: Side, poly: Polygon)
    ensures ClipTo(s.Swap(), SwapAll(poly)) == SwapAll(ClipTo(s, poly))
  {
    if poly != [] { ClipEdgesSwap(s, Last(poly), poly); }
  }

  /** Transposing a polygon reverses its orientation. */
  lemma {:induction false} PathSwap(prev: Point, pts: Polygon)
    decreases |pts|
    ensures PathSum(Cross, prev.Swap(), SwapAll(pts)) == -PathSum(Cross, prev, pts)
  {
    if pts != [] {
      PathSwap(pts[0], pts[1..]);
      assert SwapAll(pts)[1..] == SwapAll(pts[1..]);
    }
  }

  lemma ShoelaceSwap(poly: Polygon)
    ensures Shoelace(SwapAll(poly)) == -Shoelace(poly)
  {
    if poly != [] { PathSwap(Last(poly), poly); }
  }

  /** The same split for a horizontal clip line. */
  lemma AreaSplitsHorizontally(c: real, poly: Polygon)
    ensures Shoelace(ClipTo(Side(false, true, c), poly)) + Shoelace(ClipTo(Side(false, false, c), poly))
         == Shoelace(poly) - Around(Defect(c), SwapAll(poly))
  {
    AreaSplits(c, SwapAll(poly));
    ClipSwap(Side(false, true, c), poly);
    ClipSwap(Side(false, false, c), poly);
    ShoelaceSwap(poly);
    ShoelaceSwap(ClipTo(Side(false, true, c), poly));
    ShoelaceSwap(ClipTo(Side(false, false, c), poly));
  }

  // ---------------------------------------------------------------- staying in the rectangle

  ghost predicate AllInside(s: Side, poly: Polygon) {
    forall k :: 0 <= k < |poly| ==> s.Inside(poly[k])
  }

  predicate Between(x: real, a: real, b: real) {
    a <= x <= b || b <= x <= a
  }

  /** A cut lies on the clip line, and between the end points on the other axis. */
  lemma CutIsBetween(s: Side, a: Point, b: Point)
    requires s.Inside(a) != s.Inside(b)
    ensures s.OnLine(s.Cut(a, b)) && Between(s.Swap().Coord(s.Cut(a, b)), s.Swap().Coord(a), s.Swap().Coord(b))
  {
    InterpolateBetween(s.Coord(a), s.Swap().Coord(a), s.Coord(b), s.Swap().Coord(b), s.c);
  }

  lemma InterpolateBetween(u0: real, v0: real, u1: real, v1: real, u: real)
    requires Between(u, u0, u1)
    ensures Between(Interpolate(u0, v0, u1, v1, u), v0, v1)
  {
    var d := u1 - u0;
    if Abs(d) > EPSILON {
      FractionInUnit(u - u0, d);
      LerpBetween(v0, (u - u0) / d, v1);
    }
  }

  lemma FractionInUnit(n: real, d: real)
    requires d != 0.0 && (0.0 <= n <= d || d <= n <= 0.0)
    ensures 0.0 <= n / d <= 1.0
  {
    var q := n / d;
    assert q * d == n;
    if q < 0.0 { SignOfProduct(-q, d); }
    if q > 1.0 { SignOfProduct(q - 1.0, d); assert (q - 1.0) * d == n - d; }
  }

  lemma SignOfProduct(q: real, d: real)
    requires q > 0.0
    ensures d > 0.0 ==> q * d > 0.0
    ensures d < 0.0 ==> q * d < 0.0
  {
  }

  lemma LerpBetween(v0: real, t: real, v1: real)
    requires 0.0 <= t <= 1.0
    ensures Between(v0 + t * (v1 - v0), v0, v1)
  {
    var h := v1 - v0;
    assert (1.0 - t) * h == h - t * h;
    if h >= 0.0 {
      MulNonNegative(t, h); MulNonNegative(1.0 - t, h);
    } else {
      MulNonNegative(t, -h); MulNonNegative(1.0 - t, -h);
      assert t * (-h) == -(t * h) && (1.0 - t) * (-h) == -((1.0 - t) * h);
    }
  }

  /** Sides that a clip to `s` cannot break: across the axes, or along the axis with `s.c` inside. */
  predicate Compatible(s: Side, other: Side) {
    s.vertical == other.vertical ==> if other.atLeast then s.c >= other.c else s.c <= other.c
  }

  lemma {:induction false} ClipEdgesInside(s: Side, other: Side, prev: Point, pts: Polygon)
    requires other == s || (Compatible(s, other) && other.Inside(prev) && AllInside(other, pts))
    decreases |pts|
    ensures AllInside(other, ClipEdges(s, prev, pts))
  {
    if pts != [] {
      assert other != s ==> other.Inside(pts[0]);
      ClipEdgesInside(s, other, pts[0], pts[1..]);
      if s.Inside(prev) != s.Inside(pts[0]) { CutIsBetween(s, prev, pts[0]); }
      assert AllInside(other, EdgeOut(s, prev, pts[0]));
    }
  }

  /** A clip puts every vertex inside its own side and keeps the polygon inside every compatible side. */
  lemma ClipInside(s: Side, other: Side, poly: Polygon)
    requires other == s || (Compatible(s, other) && AllInside(other, poly))
    ensures AllInside(other, ClipTo(s, poly))
  {
    if poly != [] { ClipEdgesInside(s, other, Last(poly), poly); }
  }

  function Stage1(poly: Polygon, topLeft: Point): Polygon {
    ClipTo(Side(true, true, topLeft.x), poly)
  }

  function Stage2(poly: Polygon, topLeft: Point, bottomRight: Point): Polygon {
    ClipTo(Side(true, false, bottomRight.x), Stage1(poly, topLeft))
  }

  function Stage3(poly: Polygon, topLeft: Point, bottomRight: Point): Polygon {
    ClipTo(Side(false, true, topLeft.y), Stage2(poly, topLeft, bottomRight))
  }

  /** The polygon clipped to the four sides of a rectangle, in the order left, right, top, bottom. */
  function ClipToRect(poly: Polygon, topLeft: Point, bottomRight: Point): Polygon {
    ClipTo(Side(false, false, bottomRight.y), Stage3(poly, topLeft, bottomRight))
  }

  /** No stage breaks an earlier one: the final polygon lies in the rectangle. */
  lemma ClipStaysInRect(poly: Polygon, topLeft: Point, bottomRight: Point)
    requires topLeft.x <= bottomRight.x && topLeft.y <= bottomRight.y
    ensures forall k :: 0 <= k < |ClipToRect(poly, topLeft, bottomRight)| ==>
              var p := ClipToRect(poly, topLeft, bottomRight)[k];
              topLeft.x <= p.x <= bottomRight.x && topLeft.y <= p.y <= bottomRight.y
  {
    var l, r := Side(true, true, topLeft.x), Side(true, false, bottomRight.x);
    var t, b := Side(false, true, topLeft.y), Side(false, false, bottomRight.y);
    var s1, s2, s3 := Stage1(poly, topLeft), Stage2(poly, topLeft, bottomRight), Stage3(poly, topLeft, bottomRight);
    ClipInside(l, l, poly);
    ClipInside(r, l, s1); ClipInside(r, r, s1);
    ClipInside(t, l, s2); ClipInside(t, r, s2); ClipInside(t, t, s2);
    ClipInside(b, l, s3); ClipInside(b, r, s3); ClipInside(b, t, s3); ClipInside(b, b, s3);
    var out := ClipToRect(poly, topLeft, bottomRight);
    assert AllInside(l, out) && AllInside(r, out) && AllInside(t, out) && AllInside(b, out);
  }

  /** The area of the overlap, with the early exits. */
  function OverlapArea(poly: Polygon, topLeft: Point, bottomRight: Point): real {
    if |poly| < 3 || |Stage1(poly, topLeft)| < 3 || |Stage2(poly, topLeft, bottomRight)| < 3
      || |Stage3(poly, topLeft, bottomRight)| < 3 || |ClipToRect(poly, topLeft, bottomRight)| < 3 then 0.0
    else 0.5 * Abs(Shoelace(ClipToRect(poly, topLeft, bottomRight)))
  }

  method OverlapAreaPolygonWithRect(polygon: Polygon, topLeft: Point, bottomRight: Point) returns (area: real)
    ensures area == OverlapArea(polygon, topLeft, bottomRight)
  {
    var input := polygon;
    if |input| < 3 { return 0.0; }
    var output := ClipPolygonGeneric(input, Side(true, true, topLeft.x));
    if |output| < 3 { return 0.0; }
    input, output := output, input;
    output := ClipPolygonGeneric(input, Side(true, false, bottomRight.x));
    if |output| < 3 { return 0.0; }
    input, output := output, input;
    output := ClipPolygonGeneric(input, Side(false, true, topLeft.y));
    if |output| < 3 { return 0.0; }
    input, output := output, input;
    output := ClipPolygonGeneric(input, Side(false, false, bottomRight.y));
    if |output| < 3 { return 0.0; }
    area := PolygonArea(output);
  }
}
