/**
 The line of the two-dimensional renderer: a rectangle around the line is clipped to every pixel of
 its bounding box, and the pixels at least half covered are painted.
 */
module ThickLine {
  import opened Wrappers
  import opened Reals
  import opened Bytes
  import opened DivMod
  import opened Color
  import opened Raster
  import opened Clip
  import opened ClipGrid
  import opened ClipConvex

  // ---------------------------------------------------------------- the outline

  /** The corners of the line's rectangle; `length` is the distance of its end points. */
  function Outline(start: Point, end: Point, thickness: real, length: real): Polygon
    requires length > 0.0
  {
    Corners(start, end, OffsetOf(start, end, thickness, length))
  }

  /** Half the thickness along the normal of the line. */
  function OffsetOf(start: Point, end: Point, thickness: real, length: real): Point
    requires length > 0.0
  {
    var half := thickness * 0.5;
    var direction := Point((end.x - start.x) / length, (end.y - start.y) / length);
    Point(-direction.y * half, direction.x * half)
  }

  function Corners(start: Point, end: Point, offset: Point): Polygon {
    [ Point(start.x + offset.x, start.y + offset.y),
      Point(end.x + offset.x, end.y + offset.y),
      Point(end.x - offset.x, end.y - offset.y),
      Point(start.x - offset.x, start.y - offset.y) ]
  }

  /** `length` is the distance of the two points; the square root itself is foreign code. */
  predicate IsDistance(length: real, start: Point, end: Point) {
    && length >= 0.0
    && length * length == (end.x - start.x) * (end.x - start.x) + (end.y - start.y) * (end.y - start.y)
  }

  /** The cross product of the line with its offset is half its area. */
  lemma OffsetCross(start: Point, end: Point, thickness: real, length: real)
    requires length > 0.0 && IsDistance(length, start, end)
    ensures var o := OffsetOf(start, end, thickness, length);
            (end.x - start.x) * o.y - (end.y - start.y) * o.x == length * (thickness * 0.5)
  {
    var dx, dy, half := end.x - start.x, end.y - start.y, thickness * 0.5;
    var u, v := dx / length, dy / length;
    assert u * length == dx && v * length == dy;
    assert dx * u + dy * v == length by {
      assert (dx * u + dy * v) * length == dx * (u * length) + dy * (v * length);
      assert (dx * u + dy * v) * length == length * length;
      CancelFactor(dx * u + dy * v, length, length);
    }
    assert dx * (u * half) - dy * (-v * half) == (dx * u + dy * v) * half;
  }

  lemma CancelFactor(a: real, b: real, k: real)
    requires k > 0.0 && a * k == b * k
    ensures a == b
  {
    assert (a - b) * k == 0.0;
  }

  /** The corners turn one way, every three of them around half the rectangle. */
  lemma CornerTurns(start: Point, end: Point, o: Point)
    ensures var p, cross := Corners(start, end, o), (end.x - start.x) * o.y - (end.y - start.y) * o.x;
            && Orient(p[0], p[1], p[2]) == -2.0 * cross && Orient(p[0], p[1], p[3]) == -2.0 * cross
            && Orient(p[0], p[2], p[3]) == -2.0 * cross && Orient(p[1], p[2], p[3]) == -2.0 * cross
  {
    var dx, dy := end.x - start.x, end.y - start.y;
    var p := Corners(start, end, o);
    assert p[1].x - p[0].x == dx && p[1].y - p[0].y == dy;
    assert p[2].x - p[0].x == dx - 2.0 * o.x && p[2].y - p[0].y == dy - 2.0 * o.y;
    assert p[3].x - p[0].x == -2.0 * o.x && p[3].y - p[0].y == -2.0 * o.y;
    assert p[2].x - p[1].x == -2.0 * o.x && p[2].y - p[1].y == -2.0 * o.y;
    assert p[3].x - p[1].x == -2.0 * o.x - dx && p[3].y - p[1].y == -2.0 * o.y - dy;
  }

  /** The rectangle is convex, and its area is length times thickness. */
  lemma OutlineIsRectangle(start: Point, end: Point, thickness: real, length: real)
    requires length > 0.0 && thickness > 0.0 && IsDistance(length, start, end)
    ensures Convex(false, Outline(start, end, thickness, length))
    ensures Shoelace(Outline(start, end, thickness, length)) == -2.0 * (length * thickness)
  {
    var p, o := Outline(start, end, thickness, length), OffsetOf(start, end, thickness, length);
    OffsetCross(start, end, thickness, length);
    CornerTurns(start, end, o);
    MulNonNegative(length, thickness * 0.5);
    FourCorners(p);
    assert Orient(p[0], p[1], p[2]) + Orient(p[0], p[2], p[3]) == -4.0 * (length * (thickness * 0.5));
    assert length * (thickness * 0.5) == (length * thickness) * 0.5;
  }

  /** The point is on the inner side of every edge of the clockwise outline. */
  predicate InOutline(p: Polygon, q: Point)
    requires |p| == 4
  {
    && Orient(p[0], p[1], q) <= 0.0 && Orient(p[1], p[2], q) <= 0.0
    && Orient(p[2], p[3], q) <= 0.0 && Orient(p[3], p[0], q) <= 0.0
  }

  /** How far along the line the foot of `q` is, times the length. */
  function Along(start: Point, end: Point, q: Point): real {
    (end.x - start.x) * (q.x - start.x) + (end.y - start.y) * (q.y - start.y)
  }

  /** How far beside the line `q` is, times the length; the sign tells the side. */
  function Beside(start: Point, end: Point, q: Point): real {
    (end.x - start.x) * (q.y - start.y) - (end.y - start.y) * (q.x - start.x)
  }

  /** The long sides are half the thickness away from the line. */
  lemma LongSides(start: Point, end: Point, o: Point, q: Point)
    ensures var p, cross := Corners(start, end, o), (end.x - start.x) * o.y - (end.y - start.y) * o.x;
            && Orient(p[0], p[1], q) == Beside(start, end, q) - cross
            && Orient(p[2], p[3], q) == -Beside(start, end, q) - cross
  {
    var dx, dy, x, y := end.x - start.x, end.y - start.y, q.x - start.x, q.y - start.y;
    var p := Corners(start, end, o);
    assert p[1].x - p[0].x == dx && p[1].y - p[0].y == dy && p[3].x - p[2].x == -dx && p[3].y - p[2].y == -dy;
    assert q.x - p[0].x == x - o.x && q.y - p[0].y == y - o.y;
    assert q.x - p[2].x == x - dx + o.x && q.y - p[2].y == y - dy + o.y;
    assert dx * (y - o.y) - dy * (x - o.x) == (dx * y - dy * x) - (dx * o.y - dy * o.x);
    assert -dx * (y - dy + o.y) - (-dy) * (x - dx + o.x) == -(dx * y - dy * x) - (dx * o.y - dy * o.x);
  }

  /** The short sides stand on the line, at its end points. */
  lemma ShortSides(start: Point, end: Point, o: Point, k: real, q: Point)
    requires o.x == -(end.y - start.y) * k && o.y == (end.x - start.x) * k
    ensures var p, d := Corners(start, end, o), Along(start, end, end);
            && Orient(p[1], p[2], q) == 2.0 * k * (Along(start, end, q) - d)
            && Orient(p[3], p[0], q) == -2.0 * k * Along(start, end, q)
  {
    var dx, dy, x, y := end.x - start.x, end.y - start.y, q.x - start.x, q.y - start.y;
    var p := Corners(start, end, o);
    assert p[2].x - p[1].x == 2.0 * (dy * k) && p[2].y - p[1].y == -2.0 * (dx * k);
    assert p[0].x - p[3].x == -2.0 * (dy * k) && p[0].y - p[3].y == 2.0 * (dx * k);
    EdgeAcross(dx, dy, k, x - dx, y - dy);
    EdgeAcross(dx, dy, k, x, y);
    assert q.x - p[1].x == (x - dx) + dy * k && q.y - p[1].y == (y - dy) - dx * k;
    assert q.x - p[3].x == x - dy * k && q.y - p[3].y == y + dx * k;
    assert dx * (x - dx) + dy * (y - dy) == (dx * x + dy * y) - (dx * dx + dy * dy);
  }

  lemma EdgeAcross(dx: real, dy: real, k: real, x: real, y: real)
    ensures 2.0 * (dy * k) * (y - dx * k) - (-2.0 * (dx * k)) * (x + dy * k) == 2.0 * k * (dx * x + dy * y)
    ensures -2.0 * (dy * k) * (y + dx * k) - 2.0 * (dx * k) * (x - dy * k) == -2.0 * k * (dx * x + dy * y)
  {
    assert (dy * k) * (dx * k) == (dx * k) * (dy * k);
    assert (dy * k) * y == k * (dy * y) && (dx * k) * x == k * (dx * x);
    assert (dy * k) * (y - dx * k) == (dy * k) * y - (dy * k) * (dx * k);
    assert (dx * k) * (x + dy * k) == (dx * k) * x + (dx * k) * (dy * k);
    assert (dy * k) * (y + dx * k) == (dy * k) * y + (dy * k) * (dx * k);
    assert (dx * k) * (x - dy * k) == (dx * k) * x - (dx * k) * (dy * k);
    assert k * (dx * x + dy * y) == k * (dx * x) + k * (dy * y);
  }

  /**
   What the outline is: the points whose foot on the line lies between its end points and whose
   distance from it, |Beside| / length, is at most half the thickness.
   */
  lemma OutlineIsStroke(start: Point, end: Point, thickness: real, length: real, q: Point)
    requires length > 0.0 && thickness > 0.0 && IsDistance(length, start, end)
    ensures InOutline(Outline(start, end, thickness, length), q) <==>
            && 0.0 <= Along(start, end, q) <= length * length
            && Abs(Beside(start, end, q)) <= length * (thickness * 0.5)
  {
    LongSidesHold(start, end, thickness, length, q);
    ShortSidesHold(start, end, thickness, length, q);
  }

  lemma LongSidesHold(start: Point, end: Point, thickness: real, length: real, q: Point)
    requires length > 0.0 && thickness > 0.0 && IsDistance(length, start, end)
    ensures var p, beside := Outline(start, end, thickness, length), Beside(start, end, q);
            var most := length * (thickness * 0.5);
            && (Orient(p[0], p[1], q) <= 0.0 <==> beside <= most)
            && (Orient(p[2], p[3], q) <= 0.0 <==> -most <= beside)
  {
    var o := OffsetOf(start, end, thickness, length);
    var cross := (end.x - start.x) * o.y - (end.y - start.y) * o.x;
    OffsetCross(start, end, thickness, length);
    LongSides(start, end, o, q);
    assert cross == length * (thickness * 0.5);
  }

  lemma ShortSidesHold(start: Point, end: Point, thickness: real, length: real, q: Point)
    requires length > 0.0 && thickness > 0.0 && IsDistance(length, start, end)
    ensures var p, along := Outline(start, end, thickness, length), Along(start, end, q);
            && (Orient(p[1], p[2], q) <= 0.0 <==> along <= length * length)
            && (Orient(p[3], p[0], q) <= 0.0 <==> 0.0 <= along)
  {
    var o, k, along := OffsetOf(start, end, thickness, length), thickness * 0.5 / length, Along(start, end, q);
    OffsetIsNormal(end.x - start.x, end.y - start.y, thickness * 0.5, length);
    ShortSides(start, end, o, k, q);
    assert Along(start, end, end) == length * length;
    SignOfMultiple(k, along - length * length);
    SignOfMultiple(k, along);
  }

  lemma OffsetIsNormal(dx: real, dy: real, half: real, length: real)
    requires length > 0.0
    ensures -(dy / length) * half == -dy * (half / length) && (dx / length) * half == dx * (half / length)
  {
    var r := 1.0 / length;
    assert dy / length == dy * r && dx / length == dx * r && half / length == half * r;
    assert (dy * r) * half == dy * (half * r) && (dx * r) * half == dx * (half * r);
  }

  lemma SignOfMultiple(k: real, x: real)
    requires k > 0.0
    ensures 2.0 * k * x <= 0.0 <==> x <= 0.0
    ensures -2.0 * k * x <= 0.0 <==> x >= 0.0
  {
    if x > 0.0 { assert k * x > 0.0; } else if x < 0.0 { assert k * x < 0.0; }
    assert 2.0 * k * x == 2.0 * (k * x) && -2.0 * k * x == -2.0 * (k * x);
  }

  lemma FourCorners(p: Polygon)
    requires |p| == 4
    ensures Shoelace(p) == Orient(p[0], p[1], p[2]) + Orient(p[0], p[2], p[3])
  {
    var q1, q2, q3 := p[1..], p[2..], p[3..];
    assert q1[1..] == q2 && q2[1..] == q3 && q3[1..] == [];
    assert PathSum(Cross, p[2], q3) == Cross(p[2], p[3]);
    assert PathSum(Cross, p[1], q2) == Cross(p[1], p[2]) + PathSum(Cross, p[2], q3);
    assert PathSum(Cross, p[0], q1) == Cross(p[0], p[1]) + PathSum(Cross, p[1], q2);
    assert PathSum(Cross, p[3], p) == Cross(p[3], p[0]) + PathSum(Cross, p[0], q1);
    OrientIsCross(p[0], p[1], p[2]);
    OrientIsCross(p[0], p[2], p[3]);
  }

  lemma OrientIsCross(a: Point, b: Point, c: Point)
    ensures Orient(a, b, c) == Cross(a, b) + Cross(b, c) + Cross(c, a)
  {
    assert (b.x - a.x) * (c.y - a.y) == b.x * c.y - b.x * a.y - a.x * c.y + a.x * a.y;
    assert (c.x - a.x) * (b.y - a.y) == c.x * b.y - c.x * a.y - a.x * b.y + a.x * a.y;
  }

  // ---------------------------------------------------------------- no overlap outside

  lemma {:induction false} LinePathIsZero(s: Side, prev: Point, pts: Polygon)
    requires s.vertical && s.OnLine(prev) && forall k :: 0 <= k < |pts| ==> s.OnLine(pts[k])
    ensures PathSum(Strip(s.c), prev, pts) == 0.0
    decreases |pts|
  {
    if pts != [] {
      StripZero(s.c, prev, pts[0]);
      LinePathIsZero(s, pts[0], pts[1..]);
    }
  }

  /** A polygon squeezed onto a line has no area. */
  lemma LineHasNoArea(s: Side, poly: Polygon)
    requires forall k :: 0 <= k < |poly| ==> s.OnLine(poly[k])
    ensures Shoelace(poly) == 0.0
  {
    if s.vertical {
      if poly != [] { LinePathIsZero(s, Last(poly), poly); }
      StripIsShoelace(s.c, poly);
    } else {
      var w := SwapAll(poly);
      if w != [] { LinePathIsZero(s.Swap(), Last(w), w); }
      StripIsShoelace(s.c, w);
      ShoelaceSwap(poly);
    }
  }

  lemma ClipAllInside(s: Side, poly: Polygon)
    requires AllInside(s, poly)
    ensures ClipTo(s, poly) == poly
  {
    if poly != [] { ClipEdgesIdentity(s, Last(poly), poly); }
  }

  /** A polygon beyond a side of the rectangle, touching it at most. */
  ghost predicate Beyond(s: Side, poly: Polygon) {
    AllInside(s.Opposite(), poly)
  }

  lemma ClippedOntoLine(s: Side, poly: Polygon)
    requires Beyond(s, poly)
    ensures forall k :: 0 <= k < |ClipTo(s, poly)| ==> s.OnLine(ClipTo(s, poly)[k])
  {
    ClipInside(s, s, poly);
    ClipInside(s, s.Opposite(), poly);
  }

  /** A polygon on the other side of one border of the rectangle has no overlap with it. */
  lemma NoOverlapBeyond(s: Side, poly: Polygon, tl: Point, br: Point)
    requires tl.x <= br.x && tl.y <= br.y && Beyond(s, poly)
    requires s == Side(true, true, tl.x) || s == Side(true, false, br.x) || s == Side(false, true, tl.y) || s
          == Side(false, false, br.y)
    ensures OverlapArea(poly, tl, br) == 0.0
  {
    var l, r := Side(true, true, tl.x), Side(true, false, br.x);
    var t, b := Side(false, true, tl.y), Side(false, false, br.y);
    var s1, s2, s3 := Stage1(poly, tl), Stage2(poly, tl, br), Stage3(poly, tl, br);
    var o := s.Opposite();
    if s == l {
      ClippedOntoLine(l, poly);
      ClipAllInside(r, s1);
      KeepsBoth(t, s, s2); KeepsBoth(b, s, s3);
    } else if s == r {
      ClipAllInside(l, poly);
      ClippedOntoLine(r, s1);
      KeepsBoth(t, s, s2); KeepsBoth(b, s, s3);
    } else if s == t {
      ClipInside(l, o, poly); ClipInside(r, o, s1);
      ClippedOntoLine(t, s2);
      ClipAllInside(b, s3);
    } else {
      ClipInside(l, o, poly); ClipInside(r, o, s1);
      ClipAllInside(t, s2);
      ClippedOntoLine(b, s3);
    }
    LineHasNoArea(s, ClipToRect(poly, tl, br));
  }

  lemma KeepsBoth(clip: Side, s: Side, poly: Polygon)
    requires clip.vertical != s.vertical && forall k :: 0 <= k < |poly| ==> s.OnLine(poly[k])
    ensures forall k :: 0 <= k < |ClipTo(clip, poly)| ==> s.OnLine(ClipTo(clip, poly)[k])
  {
    ClipInside(clip, s, poly);
    ClipInside(clip, s.Opposite(), poly);
  }

  // ---------------------------------------------------------------- what is painted

  function PixelOverlap(poly: Polygon, x: int, y: int): real {
    OverlapArea(poly, Point(x as real, y as real), Point((x + 1) as real, (y + 1) as real))
  }

  /** At least half of the pixel is covered. */
  predicate HalfCovered(poly: Polygon, x: int, y: int) {
    PixelOverlap(poly, x, y) >= 0.5
  }

  /** The least and greatest coordinates of a non-empty polygon. */
  function MinX(poly: Polygon): real
    requires poly != []
  {
    if |poly| == 1 then poly[0].x else MinReal(poly[0].x, MinX(poly[1..]))
  }

  function MaxX(poly: Polygon): real
    requires poly != []
  {
    if |poly| == 1 then poly[0].x else MaxReal(poly[0].x, MaxX(poly[1..]))
  }

  function MinY(poly: Polygon): real
    requires poly != []
  {
    MinX(SwapAll(poly))
  }

  function MaxY(poly: Polygon): real
    requires poly != []
  {
    MaxX(SwapAll(poly))
  }

  lemma {:induction false} ExtremesBound(poly: Polygon)
    requires poly != []
    ensures forall k :: 0 <= k < |poly| ==> MinX(poly) <= poly[k].x <= MaxX(poly)
  {
    if |poly| > 1 {
      ExtremesBound(poly[1..]);
      forall k | 0 <= k < |poly|
        ensures MinX(poly) <= poly[k].x <= MaxX(poly)
      {
        assert k > 0 ==> poly[k] == poly[1..][k - 1];
      }
    }
  }

  /** No pixel outside the bounding box is half covered, nor covered at all. */
  lemma NothingOutsideBox(poly: Polygon, x: int, y: int)
    requires poly != []
    requires !(MinX(poly).Floor <= x < Ceil(MaxX(poly)) && MinY(poly).Floor <= y < Ceil(MaxY(poly)))
    ensures PixelOverlap(poly, x, y) == 0.0
  {
    var tl, br := Point(x as real, y as real), Point((x + 1) as real, (y + 1) as real);
    ExtremesBound(poly);
    ExtremesBound(SwapAll(poly));
    assert forall k :: 0 <= k < |poly| ==> SwapAll(poly)[k].x == poly[k].y;
    if x < MinX(poly).Floor {
      NoOverlapBeyond(Side(true, false, br.x), poly, tl, br);
    } else if x >= Ceil(MaxX(poly)) {
      NoOverlapBeyond(Side(true, true, tl.x), poly, tl, br);
    } else if y < MinY(poly).Floor {
      NoOverlapBeyond(Side(false, false, br.y), poly, tl, br);
    } else {
      NoOverlapBeyond(Side(false, true, tl.y), poly, tl, br);
    }
  }

  /** Byte `i` after painting the half-covered pixels of a set of columns in a set of rows. */
  function PaintedByte(info: Info, poly: Polygon, color: Rgb, x0: int, x1: int, y0: int, y1: int, i: nat,
                       was: byte): byte {
    if Hit(info, info.Bounds(), i) && x0 <= info.Column(i) < x1 && y0 <= info.Row(i) < y1
       && HalfCovered(poly, info.Column(i), info.Row(i)) && i % info.bpp < ChannelCount(info.format)
    then Channels(color, info.format)[i % info.bpp] else was
  }

  /** The channel bytes of a pixel, found from the byte. */
  lemma ChannelByte(info: Info, len: nat, x: int, y: int, i: nat)
    requires info.Fits(len) && info.Bounds().Has(x, y)
    ensures info.bpp > 0 && info.stride > 0
    ensures var k := i - info.Offset(x, y);
            0 <= k < ChannelCount(info.format) <==>
            info.Row(i) == y && info.Column(i) == x && i % info.bpp < ChannelCount(info.format)
    ensures var k := i - info.Offset(x, y); 0 <= k < ChannelCount(info.format) ==> k == i % info.bpp
  {
    RowSpan(info, x, y, 1, i);
    var k := i - info.Offset(x, y);
    if 0 <= k < info.bpp { DivModUnique(k, info.bpp, 0, k); }
  }

  lemma OnePixelMore(info: Info, len: nat, poly: Polygon, color: Rgb, x0: nat, x: nat, y: nat, i: nat, was: byte,
                     before: byte, after: byte)
    requires info.Fits(len) && info.Bounds().Has(x, y) && x0 <= x
    requires before == PaintedByte(info, poly, color, x0, x, y, y + 1, i, was)
    requires var k := i - info.Offset(x, y);
             after == if HalfCovered(poly, x, y) && 0 <= k < ChannelCount(info.format)
                      then Channels(color, info.format)[k] else before
    ensures after == PaintedByte(info, poly, color, x0, x + 1, y, y + 1, i, was)
  {
    ChannelByte(info, len, x, y, i);
  }

  /** Paint the half-covered pixels of one row. */
  method PaintRow(r: Renderer, poly: Polygon, color: Rgb, x0: nat, x1: nat, y: nat)
    requires r.info.Fits(r.framebuffer.Length) && x1 <= r.info.width && y < r.info.height
    modifies r.framebuffer
    ensures forall i :: 0 <= i < r.framebuffer.Length ==>
      r.framebuffer[i] == PaintedByte(r.info, poly, color, x0, x1, y, y + 1, i, old(r.framebuffer[i]))
  {
    if x0 >= x1 { return; }
    for x := x0 to x1
      invariant forall i :: 0 <= i < r.framebuffer.Length ==>
        r.framebuffer[i] == PaintedByte(r.info, poly, color, x0, x, y, y + 1, i, old(r.framebuffer[i]))
    {
      var topLeft, bottomRight := Point(x as real, y as real), Point((x + 1) as real, (y + 1) as real);
      var overlap := OverlapAreaPolygonWithRect(poly, topLeft, bottomRight);
      ghost var before := r.framebuffer[..];
      if overlap >= 0.5 { r.RenderPixel(x, y, color); }
      forall i | 0 <= i < r.framebuffer.Length
        ensures r.framebuffer[i] == PaintedByte(r.info, poly, color, x0, x + 1, y, y + 1, i, old(r.framebuffer[i]))
      {
        OnePixelMore(r.info, r.framebuffer.Length, poly, color, x0, x, y, i,
                     old(r.framebuffer[i]), before[i], r.framebuffer[i]);
      }
    }
  }

  /** Clamp to the screen. */
  function Clamped(v: int, size: nat): nat {
    MinInt(MaxInt(v, 0), size)
  }

  /**
   Draw a line: exactly the pixels of the screen that its rectangle covers at least by half get the
   colour, in their channel bytes, and nothing else changes.
   */
  method DrawLine(r: Renderer, start: Point, end: Point, color: Rgb, thickness: real, length: real)
    requires r.info.Fits(r.framebuffer.Length) && IsDistance(length, start, end)
    modifies r.framebuffer
    ensures thickness <= 0.0 || length <= 1.0 / 8388608.0 ==> r.framebuffer[..] == old(r.framebuffer[..])
    ensures thickness > 0.0 && length > 1.0 / 8388608.0 ==>
      forall i :: 0 <= i < r.framebuffer.Length ==>
        r.framebuffer[i] == PaintedByte(r.info, Outline(start, end, thickness, length), color,
                                        0, r.info.width, 0, r.info.height, i, old(r.framebuffer[i]))
  {
    if thickness <= 0.0 || length <= EPSILON { return; }
    var poly := Outline(start, end, thickness, length);
    var x0, x1 := Clamped(MinX(poly).Floor, r.info.width), Clamped(Ceil(MaxX(poly)), r.info.width);
    var y0, y1 := Clamped(MinY(poly).Floor, r.info.height), Clamped(Ceil(MaxY(poly)), r.info.height);
    PaintBox(r, poly, color, x0, x1, y0, y1);
    forall i | 0 <= i < r.framebuffer.Length
      ensures PaintedByte(r.info, poly, color, x0, x1, y0, y1, i, old(r.framebuffer[i]))
           == PaintedByte(r.info, poly, color, 0, r.info.width, 0, r.info.height, i, old(r.framebuffer[i]))
    {
      if Hit(r.info, r.info.Bounds(), i) && HalfCovered(poly, r.info.Column(i), r.info.Row(i)) {
        var x, y := r.info.Column(i), r.info.Row(i);
        if !(MinX(poly).Floor <= x < Ceil(MaxX(poly)) && MinY(poly).Floor <= y < Ceil(MaxY(poly))) {
          NothingOutsideBox(poly, x, y);
        }
      }
    }
  }

  method PaintBox(r: Renderer, poly: Polygon, color: Rgb, x0: nat, x1: nat, y0: nat, y1: nat)
    requires r.info.Fits(r.framebuffer.Length) && x1 <= r.info.width && y1 <= r.info.height
    modifies r.framebuffer
    ensures forall i :: 0 <= i < r.framebuffer.Length ==>
      r.framebuffer[i] == PaintedByte(r.info, poly, color, x0, x1, y0, y1, i, old(r.framebuffer[i]))
  {
    if y0 >= y1 { return; }
    for y := y0 to y1
      invariant forall i :: 0 <= i < r.framebuffer.Length ==>
        r.framebuffer[i] == PaintedByte(r.info, poly, color, x0, x1, y0, y, i, old(r.framebuffer[i]))
    {
      PaintRow(r, poly, color, x0, x1, y);
    }
  }

  // ---------------------------------------------------------------- conservation

  /** On a screen that holds the line, the coverages of all pixels add up to length times thickness. */
  lemma CoverageAddsUp(start: Point, end: Point, thickness: real, length: real, w: nat, h: nat)
    requires length > 0.0 && thickness > 0.0 && IsDistance(length, start, end)
    requires var poly := Outline(start, end, thickness, length); InGrid(poly, w, h) && CrispGrid(poly, w, h)
    ensures SumTo(OverlapColumn(Outline(start, end, thickness, length), h), w) == length * thickness
  {
    OutlineIsRectangle(start, end, thickness, length);
    MulNonNegative(length, thickness);
    OverlapAreasAddUp(false, Outline(start, end, thickness, length), w, h);
  }

  /** One for every painted pixel of a column. */
  function Marks(poly: Polygon, x: int): int -> real {
    (y: int) => if HalfCovered(poly, x, y) then 1.0 else 0.0
  }

  function MarkColumns(poly: Polygon, h: nat): int -> real {
    (x: int) => SumTo(Marks(poly, x), h)
  }

  lemma {:induction false} SumAtMostDouble(g: int -> real, f: int -> real, n: nat)
    requires forall i :: 0 <= i < n ==> g(i) <= 2.0 * f(i)
    ensures SumTo(g, n) <= 2.0 * SumTo(f, n)
  {
    if n > 0 { SumAtMostDouble(g, f, n - 1); }
  }

  /** On any screen, also one that the line leaves, at most twice that many pixels are painted. */
  lemma PaintsFewPixels(start: Point, end: Point, thickness: real, length: real, w: nat, h: nat)
    requires length > 0.0 && thickness > 0.0 && IsDistance(length, start, end)
    requires w > 0 && h > 0 && CrispGrid(Outline(start, end, thickness, length), w, h)
    ensures SumTo(MarkColumns(Outline(start, end, thickness, length), h), w) <= 2.0 * (length * thickness)
  {
    var poly := Outline(start, end, thickness, length);
    OutlineIsRectangle(start, end, thickness, length);
    MulNonNegative(length, thickness);
    OverlapAreasAtMost(false, poly, w, h);
    MarksAreFew(poly, w, h);
  }

  lemma MarksAreFew(poly: Polygon, w: nat, h: nat)
    ensures SumTo(MarkColumns(poly, h), w) <= 2.0 * SumTo(OverlapColumn(poly, h), w)
  {
    forall x | 0 <= x < w
      ensures MarkColumns(poly, h)(x) <= 2.0 * OverlapColumn(poly, h)(x)
    {
      ColumnMarksAreFew(poly, x, h);
    }
    SumAtMostDouble(MarkColumns(poly, h), OverlapColumn(poly, h), w);
  }

  lemma ColumnMarksAreFew(poly: Polygon, x: int, h: nat)
    ensures SumTo(Marks(poly, x), h) <= 2.0 * SumTo(Overlap(poly, x), h)
  {
    forall y | 0 <= y < h
      ensures Marks(poly, x)(y) <= 2.0 * Overlap(poly, x)(y)
    {
      assert Overlap(poly, x)(y) == PixelOverlap(poly, x, y) >= 0.0;
    }
    SumAtMostDouble(Marks(poly, x), Overlap(poly, x), h);
  }
}
