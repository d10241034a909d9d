/**
 Clipping a polygon to every pixel of a grid: the signed areas of the pieces add up to the signed
 area of the polygon, and for a convex polygon the overlap areas add up to its area.
 */
module ClipGrid {
  import opened Reals
  import opened Clip

  function Column(poly: Polygon, i: int): Polygon {
    ClipTo(AtMostX((i + 1) as real), ClipTo(AtLeastX(i as real), poly))
  }

  function Pixel(poly: Polygon, i: int, j: int): Polygon {
    ClipToRect(poly, Point(i as real, j as real), Point((i + 1) as real, (j + 1) as real))
  }

  function SumTo(g: int -> real, n: nat): real {
    if n == 0 then 0.0 else SumTo(g, n - 1) + g(n - 1)
  }

  /** Twice the signed area of each column. */
  function ColumnArea(poly: Polygon): int -> real {
    (i: int) => Shoelace(Column(poly, i))
  }

  /** Twice the signed area right of each grid line. */
  function RightOf(poly: Polygon): int -> real {
    (i: int) => Shoelace(ClipTo(AtLeastX(i as real), poly))
  }

  /** The defect of the clip at the right border of each column. */
  function LineDefect(poly: Polygon): int -> real {
    (i: int) => Around(Defect((i + 1) as real), poly)
  }

  /** The defects of the clips at `x = 1 .. n`. */
  function DefectSum(poly: Polygon, n: nat): real {
    SumTo(LineDefect(poly), n)
  }

  /** Twice the signed area of each pixel of column `i`. */
  function PixelArea(poly: Polygon, i: int): int -> real {
    (j: int) => Shoelace(Pixel(poly, i, j))
  }

  function PixelColumn(poly: Polygon, h: nat): int -> real {
    (i: int) => SumTo(PixelArea(poly, i), h)
  }

  function ColumnDefect(poly: Polygon, h: nat): int -> real {
    (i: int) => DefectSum(SwapAll(Column(poly, i)), h)
  }

  /** Twice the signed areas of all pixel pieces, added up. */
  function GridSum(poly: Polygon, w: nat, h: nat): real {
    SumTo(PixelColumn(poly, h), w)
  }

  lemma {:induction false} SumTelescopes(g: int -> real, f: int -> real, d: int -> real, n: nat)
    requires forall i :: 0 <= i < n ==> g(i) == f(i) - f(i + 1) + d(i)
    ensures SumTo(g, n) == f(0) - f(n) + SumTo(d, n)
  {
    if n > 0 { SumTelescopes(g, f, d, n - 1); assert g(n - 1) == f(n - 1) - f((n - 1) + 1) + d(n - 1); }
  }

  lemma {:induction false} SumIsDifference(g: int -> real, f: int -> real, d: int -> real, n: nat)
    requires forall i :: 0 <= i < n ==> g(i) == f(i) - d(i)
    ensures SumTo(g, n) == SumTo(f, n) - SumTo(d, n)
  {
    if n > 0 { SumIsDifference(g, f, d, n - 1); }
  }

  lemma {:induction false} SumNegates(g: int -> real, f: int -> real, n: nat)
    requires forall i :: 0 <= i < n ==> g(i) == -f(i)
    ensures SumTo(g, n) == -SumTo(f, n)
  {
    if n > 0 { SumNegates(g, f, n - 1); }
  }

  // ---------------------------------------------------------------- clipping twice

  lemma KeptValue(s: Side, f: (Point, Point) -> real, a: Point, b: Point)
    ensures Kept(s, f)(a, b) == if s.Inside(a) then (if s.Inside(b) then f(a, b) else f(a, s.Cut(a, b)))
                                else if s.Inside(b) then f(s.Cut(a, b), b) else 0.0
  {
  }

  /** What lies beyond `c` is not touched by an earlier clip at least one unit before it. */
  lemma KeptTwice(i: real, c: real, a: Point, b: Point)
    requires c >= i + 1.0
    ensures Kept(AtLeastX(i), Kept(AtLeastX(c), Strip(c)))(a, b) == Kept(AtLeastX(c), Strip(c))(a, b)
  {
    var s, s' := AtLeastX(i), AtLeastX(c);
    var f := Kept(s', Strip(c));
    var q := s.Cut(a, b);
    assert q.x == i && !s'.Inside(q);
    KeptValue(s, f, a, b);
    KeptValue(s', Strip(c), a, b);
    KeptValue(s', Strip(c), a, q);
    KeptValue(s', Strip(c), q, b);
    if s.Inside(a) && !s.Inside(b) && s'.Inside(a) {
      if a.x == c { StripZero(c, a, s'.Cut(a, q)); StripZero(c, a, s'.Cut(a, b)); } else { CutOfPart(i, c, a, b); }
    } else if !s.Inside(a) && s.Inside(b) && s'.Inside(b) {
      if b.x == c { StripZero(c, s'.Cut(q, b), b); StripZero(c, s'.Cut(a, b), b); } else { CutOfRest(i, c, a, b); }
    }
  }

  lemma DefectTwice(i: real, c: real, a: Point, b: Point)
    requires c >= i + 1.0
    ensures Kept(AtLeastX(i), Defect(c))(a, b) == Defect(c)(a, b)
  {
    KeptValue(AtLeastX(i), Defect(c), a, b);
  }

  lemma CutOfPart(i: real, c: real, a: Point, b: Point)
    requires c >= i + 1.0 && a.x > c && b.x < i
    ensures var q := IntersectVertical(a, b, i); IntersectVertical(a, q, c) == IntersectVertical(a, b, c)
  {
    var d, h := b.x - a.x, b.y - a.y;
    var q := IntersectVertical(a, b, i);
    var u, v := (i - a.x) / d, (c - a.x) / d;
    assert q == Point(i, a.y + u * h);
    SameFraction(i - a.x, c - a.x, d, h);
  }

  lemma CutOfRest(i: real, c: real, a: Point, b: Point)
    requires c >= i + 1.0 && b.x > c && a.x < i
    ensures var q := IntersectVertical(a, b, i); IntersectVertical(q, b, c) == IntersectVertical(a, b, c)
  {
    var d, h := b.x - a.x, b.y - a.y;
    var q := IntersectVertical(a, b, i);
    var u, v := (i - a.x) / d, (c - a.x) / d;
    assert q == Point(i, a.y + u * h);
    RestFraction(i - a.x, c - a.x, d, h);
    assert b.x - i == d - (i - a.x) && c - i == (c - a.x) - (i - a.x);
    assert b.y - q.y == h - u * h;
  }

  lemma SameFraction(m: real, n: real, d: real, h: real)
    requires d != 0.0 && m != 0.0
    ensures (n / m) * ((m / d) * h) == (n / d) * h
  {
    assert (n / m) * (m / d) == n / d by {
      var x, y := n / m, m / d;
      assert x * m == n && y * d == m;
      assert (x * y) * d == x * (y * d);
      assert (x * y) * d == n;
    }
    assert (n / m) * ((m / d) * h) == ((n / m) * (m / d)) * h;
  }

  lemma RestFraction(m: real, n: real, d: real, h: real)
    requires d != 0.0 && d != m
    ensures (m / d) * h + ((n - m) / (d - m)) * (h - (m / d) * h) == (n / d) * h
  {
    var u, v, x := m / d, n / d, (n - m) / (d - m);
    assert u * d == m && v * d == n && x * (d - m) == n - m;
    assert x * (1.0 - u) == v - u by {
      assert (x * (1.0 - u)) * d == x * (d - u * d);
      assert (v - u) * d == n - m;
      assert (x * (1.0 - u) - (v - u)) * d == 0.0;
    }
    assert h - u * h == (1.0 - u) * h;
    assert x * ((1.0 - u) * h) == (x * (1.0 - u)) * h;
  }

  lemma BeyondVanishes(i: real, c: real)
    requires c >= i + 1.0
    ensures VanishesOn(AtLeastX(i), Kept(AtLeastX(c), Strip(c)))
    ensures VanishesOn(AtLeastX(i), Defect(c))
  {
    var s, s' := AtLeastX(i), AtLeastX(c);
    forall p, q | s.OnLine(p) && s.OnLine(q)
      ensures Kept(s', Strip(c))(p, q) == 0.0
    {
      assert !s'.Inside(p) && !s'.Inside(q);
    }
  }

  lemma ClipTwice(i: real, c: real, poly: Polygon)
    requires c >= i + 1.0
    ensures Shoelace(ClipTo(AtLeastX(c), ClipTo(AtLeastX(i), poly))) == Shoelace(ClipTo(AtLeastX(c), poly))
    ensures Around(Defect(c), ClipTo(AtLeastX(i), poly)) == Around(Defect(c), poly)
  {
    var s, s' := AtLeastX(i), AtLeastX(c);
    var f := Kept(s', Strip(c));
    StripVanishes(s');
    BeyondVanishes(i, c);
    StripIsShoelace(c, ClipTo(s', ClipTo(s, poly)));
    StripIsShoelace(c, ClipTo(s', poly));
    ClipSum(s', Strip(c), ClipTo(s, poly));
    ClipSum(s', Strip(c), poly);
    ClipSum(s, f, poly);
    ClipSum(s, Defect(c), poly);
    if poly != [] {
      forall a, b ensures Kept(s, f)(a, b) == f(a, b) { KeptTwice(i, c, a, b); }
      forall a, b ensures Kept(s, Defect(c))(a, b) == Defect(c)(a, b) { DefectTwice(i, c, a, b); }
      PathSumAgree(Kept(s, f), f, Last(poly), poly);
      PathSumAgree(Kept(s, Defect(c)), Defect(c), Last(poly), poly);
    }
  }

  // ---------------------------------------------------------------- all columns, all pixels

  lemma ColumnStep(poly: Polygon, i: int)
    ensures ColumnArea(poly)(i) == RightOf(poly)(i) - RightOf(poly)(i + 1) + LineDefect(poly)(i)
  {
    ClipTwice(i as real, (i + 1) as real, poly);
    AreaSplits((i + 1) as real, ClipTo(AtLeastX(i as real), poly));
  }

  lemma ColumnsTelescope(poly: Polygon, n: nat)
    ensures SumTo(ColumnArea(poly), n) == RightOf(poly)(0) - RightOf(poly)(n) + DefectSum(poly, n)
  {
    var g, f, d := ColumnArea(poly), RightOf(poly), LineDefect(poly);
    forall i | 0 <= i < n
      ensures g(i) == f(i) - f(i + 1) + d(i)
    {
      ColumnStep(poly, i);
    }
    SumTelescopes(g, f, d, n);
  }

  lemma {:induction false} ClipEdgesIdentity(s: Side, prev: Point, pts: Polygon)
    requires s.Inside(prev) && AllInside(s, pts)
    decreases |pts|
    ensures ClipEdges(s, prev, pts) == pts
  {
    if pts != [] {
      ClipEdgesIdentity(s, pts[0], pts[1..]);
      assert [pts[0]] + pts[1..] == pts;
    }
  }

  lemma {:induction false} ClipEdgesFlat(s: Side, f: (Point, Point) -> real, prev: Point, pts: Polygon)
    requires VanishesOn(s, f)
    requires (s.Inside(prev) ==> s.OnLine(prev)) && forall k :: 0 <= k < |pts| ==> s.Inside(pts[k]) ==> s.OnLine(pts[k])
    decreases |pts|
    ensures PathSum(Kept(s, f), prev, pts) == 0.0
  {
    if pts != [] {
      var a, b := prev, pts[0];
      ClipEdgesFlat(s, f, b, pts[1..]);
      CutIsOnLine(s, a, b);
      assert Kept(s, f)(a, b) == 0.0;
    }
  }

  lemma NothingIsLost(poly: Polygon)
    requires forall k :: 0 <= k < |poly| ==> 0.0 <= poly[k].x
    ensures ClipTo(AtLeastX(0.0), poly) == poly
  {
    if poly != [] { ClipEdgesIdentity(AtLeastX(0.0), Last(poly), poly); }
  }

  lemma NothingIsLeft(poly: Polygon, w: real)
    requires forall k :: 0 <= k < |poly| ==> poly[k].x <= w
    ensures Shoelace(ClipTo(AtLeastX(w), poly)) == 0.0
  {
    var s := AtLeastX(w);
    StripVanishes(s);
    StripIsShoelace(w, ClipTo(s, poly));
    ClipSum(s, Strip(w), poly);
    if poly != [] { ClipEdgesFlat(s, Strip(w), Last(poly), poly); }
  }

  /** A polygon between `x = 0` and `x = w` is the sum of its columns. */
  lemma ColumnsAddUp(poly: Polygon, w: nat)
    requires forall k :: 0 <= k < |poly| ==> 0.0 <= poly[k].x <= w as real
    ensures SumTo(ColumnArea(poly), w) == Shoelace(poly) + DefectSum(poly, w)
  {
    ColumnsTelescope(poly, w);
    NothingIsLost(poly);
    NothingIsLeft(poly, w as real);
  }

  lemma PixelIsSwappedColumn(poly: Polygon, i: int, j: int)
    ensures Pixel(poly, i, j) == SwapAll(Column(SwapAll(Column(poly, i)), j))
  {
    var q := Column(poly, i);
    ClipSwap(Side(false, true, j as real), q);
    ClipSwap(Side(false, false, (j + 1) as real), ClipTo(Side(false, true, j as real), q));
    assert SwapAll(SwapAll(Pixel(poly, i, j))) == Pixel(poly, i, j);
  }

  lemma PixelStep(poly: Polygon, i: int, j: int)
    ensures PixelArea(poly, i)(j) == -ColumnArea(SwapAll(Column(poly, i)))(j)
  {
    PixelIsSwappedColumn(poly, i, j);
    ShoelaceSwap(Column(SwapAll(Column(poly, i)), j));
  }

  /** The polygon lies in the `w` by `h` pixel grid. */
  predicate InGrid(poly: Polygon, w: nat, h: nat) {
    forall k :: 0 <= k < |poly| ==> 0.0 <= poly[k].x <= w as real && 0.0 <= poly[k].y <= h as real
  }

  lemma ColumnInRows(poly: Polygon, i: int, w: nat, h: nat)
    requires InGrid(poly, w, h)
    ensures forall k :: 0 <= k < |Column(poly, i)| ==> 0.0 <= Column(poly, i)[k].y <= h as real
  {
    var t, b := Side(false, true, 0.0), Side(false, false, h as real);
    var l, r := AtLeastX(i as real), AtMostX((i + 1) as real);
    ClipInside(l, t, poly); ClipInside(l, b, poly);
    ClipInside(r, t, ClipTo(l, poly)); ClipInside(r, b, ClipTo(l, poly));
    assert AllInside(t, Column(poly, i)) && AllInside(b, Column(poly, i));
  }

  lemma PixelColumnStep(poly: Polygon, i: int, w: nat, h: nat)
    requires InGrid(poly, w, h)
    ensures PixelColumn(poly, h)(i) == ColumnArea(poly)(i) - ColumnDefect(poly, h)(i)
  {
    PixelsOfColumn(poly, i, h);
    ColumnInRows(poly, i, w, h);
    ColumnsAddUp(SwapAll(Column(poly, i)), h);
    ShoelaceSwap(Column(poly, i));
  }

  lemma PixelsOfColumn(poly: Polygon, i: int, h: nat)
    ensures SumTo(PixelArea(poly, i), h) == -SumTo(ColumnArea(SwapAll(Column(poly, i))), h)
  {
    var g, f := PixelArea(poly, i), ColumnArea(SwapAll(Column(poly, i)));
    forall j | 0 <= j < h
      ensures g(j) == -f(j)
    {
      PixelStep(poly, i, j);
    }
    SumNegates(g, f, h);
  }

  /**
   The signed areas of all pixel pieces add up to the signed area of the polygon, up to the defects
   of the edges that take the EPSILON branch: vertical clips on the polygon itself, horizontal ones
   on its columns.
   */
  lemma PixelsAddUp(poly: Polygon, w: nat, h: nat)
    requires InGrid(poly, w, h)
    ensures GridSum(poly, w, h) == Shoelace(poly) + DefectSum(poly, w) - SumTo(ColumnDefect(poly, h), w)
  {
    forall i | 0 <= i < w ensures PixelColumn(poly, h)(i) == ColumnArea(poly)(i) - ColumnDefect(poly, h)(i) {
      PixelColumnStep(poly, i, w, h);
    }
    SumIsDifference(PixelColumn(poly, h), ColumnArea(poly), ColumnDefect(poly, h), w);
    ColumnsAddUp(poly, w);
  }
}
