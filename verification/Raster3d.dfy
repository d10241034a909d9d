/** The renderer with a depth buffer: thin lines and triangles (depth is "larger is nearer"). */
module Raster3d {
  import opened Wrappers
  import opened Reals
  import opened Bytes
  import opened DivMod
  import opened Color
  import opened Raster
  import opened Triangle
  import opened Line

  /** `as i32` on a float: truncate towards zero, saturate at the ends of the range. */
  function TruncI32(r: real): int {
    var t := if r < 0.0 then Ceil(r) else r.Floor;
    MaxInt(-0x8000_0000, MinInt(t, 0x7fff_ffff))
  }

  const LINE_Z_BIAS: real := 0.0001

  /** The part of the screen that a drawing call may touch. */
  function ClipArea(info: Info, clip: Option<Rectangle>): (r: Option<Rectangle>)
    ensures r.Some? ==>
              forall x, y :: r.value.Has(x, y) <==> info.Bounds().Has(x, y) && (clip.Some? ==> clip.value.Has(x, y))
    ensures r.Some? ==> r.value.width > 0 && r.value.height > 0
    ensures r.None? ==> forall x, y :: !(info.Bounds().Has(x, y) && (clip.Some? ==> clip.value.Has(x, y)))
  {
    var area := if clip.Some? then clip.value.Intersection(info.Bounds()) else Some(info.Bounds());
    if area.None? || area.value.width == 0 || area.value.height == 0 then None else area
  }

  function SegmentOf(a: Vertex, b: Vertex): Segment {
    Segment(TruncI32(a.x), TruncI32(a.y), TruncI32(b.x), TruncI32(b.y))
  }

  /** The pixel coordinate of `r`: towards zero, and the nearest one of 32 bits if it is out of their range. */
  predicate TruncatesTo(r: real, i: int) {
    if r >= 2147483648.0 then i == 2147483647
    else if r <= -2147483649.0 then i == -2147483648
    else if r >= 0.0 then i as real <= r < i as real + 1.0
    else i as real - 1.0 < r <= i as real
  }

  lemma TruncIsOnly(r: real, i: int)
    ensures TruncatesTo(r, i) <==> i == TruncI32(r)
  {
    var f := r.Floor;
    assert f as real <= r < f as real + 1.0;
    assert (f + 1) as real == f as real + 1.0 && (i + 1) as real == i as real + 1.0;
  }

  /** The line joins the pixels that hold its end points. */
  lemma LineJoins(a: Vertex, b: Vertex, x0: int, y0: int, x1: int, y1: int)
    requires TruncatesTo(a.x, x0) && TruncatesTo(a.y, y0) && TruncatesTo(b.x, x1) && TruncatesTo(b.y, y1)
    ensures SegmentOf(a, b) == Segment(x0, y0, x1, y1)
    ensures SegmentOf(a, b).Pixel(0) == (x0, y0) && SegmentOf(a, b).Pixel(SegmentOf(a, b).Steps()) == (x1, y1)
  {
    TruncIsOnly(a.x, x0); TruncIsOnly(a.y, y0); TruncIsOnly(b.x, x1); TruncIsOnly(b.y, y1);
    LineEnds(SegmentOf(a, b));
  }

  /** Pixel `(x, y)` is on the screen and in the clip, if there is one. */
  predicate Drawable(info: Info, clip: Option<Rectangle>, x: int, y: int) {
    0 <= x < info.width && 0 <= y < info.height && (clip.Some? ==> clip.value.Has(x, y))
  }

  lemma LinePaintsPixel(a: Vertex, b: Vertex, info: Info, clip: Option<Rectangle>, k: nat, x: int, y: int, was: real)
    requires k <= SegmentOf(a, b).Steps() && (x, y) == SegmentOf(a, b).Pixel(k)
    ensures LineRule(a, b, info, clip)(x, y, was)
         == if Drawable(info, clip, x, y) && LineZ(a, b, k) + 0.0001 > was then Some(LineZ(a, b, k)) else None
  {
    PixelIndex(SegmentOf(a, b), k);
    DrawableIsArea(info, clip, x, y);
  }

  lemma DrawableIsArea(info: Info, clip: Option<Rectangle>, x: int, y: int)
    ensures Drawable(info, clip, x, y) <==> ClipArea(info, clip).Some? && ClipArea(info, clip).value.Has(x, y)
  {
    var area := ClipArea(info, clip);
    assert Drawable(info, clip, x, y) <==> info.Bounds().Has(x, y) && (clip.Some? ==> clip.value.Has(x, y));
    if area.Some? { assert area.value.Has(x, y) <==> Drawable(info, clip, x, y); }
  }

  /**
   What drawing a line leaves at the pixels of its end points: their depths, where clip and screen
   allow it and nothing is nearer by 0.0001 or more.
   */
  lemma LinePaintsEnds(a: Vertex, b: Vertex, info: Info, clip: Option<Rectangle>, x0: int, y0: int, x1: int, y1: int,
                       was: real)
    requires TruncatesTo(a.x, x0) && TruncatesTo(a.y, y0) && TruncatesTo(b.x, x1) && TruncatesTo(b.y, y1)
    ensures LineRule(a, b, info, clip)(x0, y0, was)
         == if Drawable(info, clip, x0, y0) && a.z + 0.0001 > was then Some(a.z) else None
    ensures (x0, y0) != (x1, y1) ==>
      LineRule(a, b, info, clip)(x1, y1, was)
      == if Drawable(info, clip, x1, y1) && b.z + 0.0001 > was then Some(b.z) else None
  {
    LineJoins(a, b, x0, y0, x1, y1);
    LinePaintsPixel(a, b, info, clip, 0, x0, y0, was);
    assert LineZ(a, b, 0) == a.z;
    var n := SegmentOf(a, b).Steps();
    LinePaintsPixel(a, b, info, clip, n, x1, y1, was);
    if n > 0 { LineZEnds(a, b); }
  }

  /** Every pixel painted is within half a pixel of the straight line between the end pixels. */
  lemma LinePaintsNearby(a: Vertex, b: Vertex, info: Info, clip: Option<Rectangle>, x0: int, y0: int, x1: int, y1: int,
                         x: int, y: int, was: real)
    requires TruncatesTo(a.x, x0) && TruncatesTo(a.y, y0) && TruncatesTo(b.x, x1) && TruncatesTo(b.y, y1)
    requires LineRule(a, b, info, clip)(x, y, was).Some?
    ensures Drawable(info, clip, x, y) && Segment(x0, y0, x1, y1).IsNear(x, y)
  {
    LineJoins(a, b, x0, y0, x1, y1);
    DrawableIsArea(info, clip, x, y);
    HasIsNear(Segment(x0, y0, x1, y1), x, y);
  }

  /** Depth of pixel `k` of the line. */
  function LineZ(a: Vertex, b: Vertex, k: nat): real {
    a.z + k as real * LineDz(a, b)
  }

  function LineDz(a: Vertex, b: Vertex): real {
    var n := SegmentOf(a, b).Steps();
    if n > 0 then (b.z - a.z) / n as real else 0.0
  }

  /** The depth steps arrive at the depth of the end point. */
  lemma LineZEnds(a: Vertex, b: Vertex)
    requires SegmentOf(a, b).Steps() > 0
    ensures LineZ(a, b, 0) == a.z && LineZ(a, b, SegmentOf(a, b).Steps()) == b.z
  {
  }

  /** What drawing the line does at a pixel of depth `was`: the depth it leaves there, if it writes. */
  function LinePaint(a: Vertex, b: Vertex, area: Rectangle, x: int, y: int, was: real): Option<real> {
    var s := SegmentOf(a, b);
    if area.Has(x, y) && s.Has(x, y) && LineZ(a, b, s.IndexOf(x, y)) + LINE_Z_BIAS > was
    then Some(LineZ(a, b, s.IndexOf(x, y))) else None
  }

  /** The same for a triangle: a painted pixel keeps the nearer depth. */
  function TrianglePaint(t: Tri, area: Rectangle, x: int, y: int, was: real): Option<real> {
    if t.Paints(area, x, y) && t.Depth(x as real + 0.5, y as real + 0.5) > was
    then Some(t.Depth(x as real + 0.5, y as real + 0.5)) else None
  }

  // ---------------------------------------------------------------- pictures

  /** A drawing rule: the depth to leave at pixel `(x, y)` of depth `was`, or nothing. */
  type Paint = (int, int, real) -> Option<real>

  /** The colour and depth buffers of a frame, as values. */
  datatype Frame = Frame(info: Info, bytes: seq<byte>, depth: seq<real>) {
    predicate Valid() {
      info.Fits(|bytes|) && info.bpp <= 8 && info.width * info.height <= |depth|
    }

    predicate OnScreen(x: int, y: int) {
      info.Bounds().Has(x, y)
    }

    function DepthAt(x: int, y: int): real
      requires Valid() && OnScreen(x, y)
    {
      DepthIndex(x, y);
      depth[y * info.width + x]
    }

    function PixelAt(x: int, y: int): seq<byte>
      requires Valid() && OnScreen(x, y)
    {
      OffsetInRow(info, x, y, |bytes|);
      bytes[info.Offset(x, y)..info.Offset(x, y) + info.bpp]
    }

    lemma DepthIndex(x: int, y: int)
      requires Valid() && OnScreen(x, y)
      ensures 0 <= y * info.width + x < |depth|
      ensures (y * info.width + x) / info.width == y && (y * info.width + x) % info.width == x
    {
      MulMono(y + 1, info.height, info.width);
      MulMono(0, y, info.width);
      assert (y + 1) * info.width == y * info.width + info.width;
      DivModUnique(y * info.width + x, info.width, y, x);
    }

    /** The frame with one pixel and its depth replaced. */
    function Plot(x: int, y: int, z: real, pixel: seq<byte>): Frame
      requires Valid() && OnScreen(x, y) && |pixel| == info.bpp
    {
      DepthIndex(x, y);
      OffsetInRow(info, x, y, |bytes|);
      var off := info.Offset(x, y);
      Frame(info, Splice(bytes, off, pixel), depth[y * info.width + x := z])
    }

    /** Bytes outside the screen: row padding and the tail of the buffer. */
    ghost predicate SameMargin(that: Frame) {
      && |bytes| == |that.bytes|
      && forall i :: 0 <= i < |bytes| && !Hit(info, info.Bounds(), i) ==> bytes[i] == that.bytes[i]
    }

    /** `that` is this frame after painting by a rule in one colour, and nothing else has changed. */
    ghost predicate PaintedAs(paint: Paint, pixel: seq<byte>, that: Frame)
      requires Valid()
    {
      && that.info == info && that.Valid() && SameMargin(that)
      && forall x, y :: OnScreen(x, y) ==>
           && that.DepthAt(x, y) == (var p := paint(x, y, DepthAt(x, y)); if p.Some? then p.value else DepthAt(x, y))
           && that.PixelAt(x, y) == if paint(x, y, DepthAt(x, y)).Some? then pixel else PixelAt(x, y)
    }
  }

  /** The bytes of a pixel are exactly those at its offset. */
  lemma PixelSpan(info: Info, len: nat, x: int, y: int, i: nat)
    requires info.Fits(len) && info.Bounds().Has(x, y)
    ensures info.Offset(x, y) <= i < info.Offset(x, y) + info.bpp <==> info.Row(i) == y && info.Column(i) == x
  {
    RowSpan(info, x, y, 1, i);
  }

  lemma PlotDepth(f: Frame, x: int, y: int, z: real, pixel: seq<byte>, u: int, v: int)
    requires f.Valid() && f.OnScreen(x, y) && |pixel| == f.info.bpp && f.OnScreen(u, v)
    ensures var g := f.Plot(x, y, z, pixel);
            g.Valid() && g.DepthAt(u, v) == if (u, v) == (x, y) then z else f.DepthAt(u, v)
  {
    f.DepthIndex(x, y);
    f.DepthIndex(u, v);
    OffsetInRow(f.info, x, y, |f.bytes|);
  }

  /** One byte of the buffer after a plot. */
  lemma PlotByte(f: Frame, x: int, y: int, z: real, pixel: seq<byte>, i: nat)
    requires f.Valid() && f.OnScreen(x, y) && |pixel| == f.info.bpp && i < |f.bytes|
    ensures var g, off := f.Plot(x, y, z, pixel), f.info.Offset(x, y);
            |g.bytes| == |f.bytes| && 0 <= off
            && (f.info.Row(i) == y && f.info.Column(i) == x <==> off <= i < off + f.info.bpp)
            && g.bytes[i] == if off <= i < off + f.info.bpp then pixel[i - off] else f.bytes[i]
  {
    OffsetInRow(f.info, x, y, |f.bytes|);
    PixelSpan(f.info, |f.bytes|, x, y, i);
  }

  lemma PlotShape(f: Frame, x: int, y: int, z: real, pixel: seq<byte>)
    requires f.Valid() && f.OnScreen(x, y) && |pixel| == f.info.bpp
    ensures var g := f.Plot(x, y, z, pixel);
            |g.bytes| == |f.bytes| && |g.depth| == |f.depth| && g.info == f.info && g.Valid()
  {
    f.DepthIndex(x, y);
    OffsetInRow(f.info, x, y, |f.bytes|);
    SameShape(f, f.Plot(x, y, z, pixel));
  }

  lemma SameShape(f: Frame, g: Frame)
    requires f.Valid() && g.info == f.info && |g.bytes| == |f.bytes| && |g.depth| == |f.depth|
    ensures g.Valid()
  {
  }

  lemma PlotMargin(f: Frame, x: int, y: int, z: real, pixel: seq<byte>)
    requires f.Valid() && f.OnScreen(x, y) && |pixel| == f.info.bpp
    ensures f.SameMargin(f.Plot(x, y, z, pixel)) && f.Plot(x, y, z, pixel).Valid()
  {
    PlotShape(f, x, y, z, pixel);
    forall i: nat | i < |f.bytes| && !Hit(f.info, f.info.Bounds(), i)
      ensures f.Plot(x, y, z, pixel).bytes[i] == f.bytes[i]
    {
      PlotByte(f, x, y, z, pixel, i);
    }
  }

  lemma PlotPixel(f: Frame, x: int, y: int, z: real, pixel: seq<byte>, u: int, v: int)
    requires f.Valid() && f.OnScreen(x, y) && |pixel| == f.info.bpp && f.OnScreen(u, v)
    ensures var g := f.Plot(x, y, z, pixel);
            g.Valid() && g.PixelAt(u, v) == if (u, v) == (x, y) then pixel else f.PixelAt(u, v)
  {
    var g, at := f.Plot(x, y, z, pixel), f.info.Offset(u, v);
    PlotMargin(f, x, y, z, pixel);
    OffsetInRow(f.info, u, v, |f.bytes|);
    forall i: nat | at <= i < at + f.info.bpp
      ensures g.bytes[i] == if (u, v) == (x, y) then pixel[i - at] else f.bytes[i]
    {
      PlotByte(f, x, y, z, pixel, i);
      PixelSpan(f.info, |f.bytes|, u, v, i);
    }
    assert forall k :: 0 <= k < f.info.bpp ==> g.PixelAt(u, v)[k] == g.bytes[at + k];
    if (u, v) != (x, y) { assert forall k :: 0 <= k < f.info.bpp ==> f.PixelAt(u, v)[k] == f.bytes[at + k]; }
  }

  /** Plotting changes its own pixel and no other. */
  lemma PlotIsLocal(f: Frame, x: int, y: int, z: real, pixel: seq<byte>, u: int, v: int)
    requires f.Valid() && f.OnScreen(x, y) && |pixel| == f.info.bpp && f.OnScreen(u, v)
    ensures var g := f.Plot(x, y, z, pixel);
            && g.Valid() && f.SameMargin(g)
            && g.DepthAt(u, v) == (if (u, v) == (x, y) then z else f.DepthAt(u, v))
            && g.PixelAt(u, v) == if (u, v) == (x, y) then pixel else f.PixelAt(u, v)
  {
    PlotMargin(f, x, y, z, pixel);
    PlotDepth(f, x, y, z, pixel, u, v);
    PlotPixel(f, x, y, z, pixel, u, v);
  }

  /** Painting one more pixel: `after` agrees with `before` elsewhere, and `before` has not reached `(x, y)`. */
  lemma PaintOneMore(f: Frame, g: Frame, before: Paint, after: Paint, pixel: seq<byte>, x: int, y: int)
    requires f.Valid() && f.PaintedAs(before, pixel, g) && f.OnScreen(x, y) && |pixel| == f.info.bpp
    requires forall was :: before(x, y, was) == None
    requires forall u, v, was :: f.OnScreen(u, v) && (u, v) != (x, y) ==> after(u, v, was) == before(u, v, was)
    ensures var p := after(x, y, f.DepthAt(x, y));
            f.PaintedAs(after, pixel, if p.Some? then g.Plot(x, y, p.value, pixel) else g)
    ensures g.DepthAt(x, y) == f.DepthAt(x, y)
  {
    var p := after(x, y, f.DepthAt(x, y));
    assert before(x, y, f.DepthAt(x, y)) == None;
    if p.Some? {
      forall u, v | f.OnScreen(u, v)
        ensures g.Plot(x, y, p.value, pixel).Valid() && g.SameMargin(g.Plot(x, y, p.value, pixel))
        ensures g.Plot(x, y, p.value, pixel).DepthAt(u, v) == if (u, v) == (x, y) then p.value else g.DepthAt(u, v)
        ensures g.Plot(x, y, p.value, pixel).PixelAt(u, v) == if (u, v) == (x, y) then pixel else g.PixelAt(u, v)
      {
        PlotIsLocal(g, x, y, p.value, pixel, u, v);
      }
      PlotIsLocal(g, x, y, p.value, pixel, x, y);
    }
  }

  /** Only what a rule does on the screen matters. */
  lemma PaintAgree(f: Frame, g: Frame, before: Paint, after: Paint, pixel: seq<byte>)
    requires f.Valid() && f.PaintedAs(before, pixel, g)
    requires forall x, y, was :: f.OnScreen(x, y) ==> after(x, y, was) == before(x, y, was)
    ensures f.PaintedAs(after, pixel, g)
  {
  }

  function LineRule(a: Vertex, b: Vertex, info: Info, clip: Option<Rectangle>): Paint {
    (x: int, y: int, was: real) =>
      if ClipArea(info, clip).Some? then LinePaint(a, b, ClipArea(info, clip).value, x, y, was) else None
  }

  /** The rule restricted to the pixels of the line before index `k`. */
  function LineBefore(a: Vertex, b: Vertex, area: Rectangle, k: nat): Paint {
    (x: int, y: int, was: real) => if SegmentOf(a, b).IndexOf(x, y) < k then LinePaint(a, b, area, x, y, was) else None
  }

  function TriangleRule(t: Tri, info: Info, clip: Option<Rectangle>): Paint {
    (x: int, y: int, was: real) =>
      if ClipArea(info, clip).Some? then TrianglePaint(t, ClipArea(info, clip).value, x, y, was) else None
  }

  lemma LineZStep(a: Vertex, b: Vertex, k: nat)
    ensures LineZ(a, b, k + 1) == LineZ(a, b, k) + LineDz(a, b)
  {
    assert (k + 1) as real * LineDz(a, b) == k as real * LineDz(a, b) + LineDz(a, b);
  }

  /** Visiting pixel `k` of the line, the loop extends the painted part by that pixel. */
  lemma LineOneMore(f: Frame, g: Frame, a: Vertex, b: Vertex, area: Rectangle, pixel: seq<byte>, k: nat, x: int, y: int)
    requires f.Valid() && |pixel| == f.info.bpp && k <= SegmentOf(a, b).Steps() && (x, y) == SegmentOf(a, b).Pixel(k)
    requires forall u, v :: area.Has(u, v) ==> f.OnScreen(u, v)
    requires f.PaintedAs(LineBefore(a, b, area, k), pixel, g)
    ensures area.Has(x, y) ==> g.DepthAt(x, y) == f.DepthAt(x, y)
    ensures f.PaintedAs(LineBefore(a, b, area, k + 1), pixel,
              if area.Has(x, y) && LineZ(a, b, k) + LINE_Z_BIAS > g.DepthAt(x, y)
              then g.Plot(x, y, LineZ(a, b, k), pixel) else g)
  {
    var s := SegmentOf(a, b);
    PixelIndex(s, k);
    if area.Has(x, y) {
      PaintOneMore(f, g, LineBefore(a, b, area, k), LineBefore(a, b, area, k + 1), pixel, x, y);
    } else {
      PaintAgree(f, g, LineBefore(a, b, area, k), LineBefore(a, b, area, k + 1), pixel);
    }
  }

  /** All pixels of the line visited, the rule of the whole line has been applied. */
  lemma LineFinished(f: Frame, g: Frame, a: Vertex, b: Vertex, clip: Option<Rectangle>, area: Rectangle,
                     pixel: seq<byte>)
    requires f.Valid() && ClipArea(f.info, clip) == Some(area)
    requires f.PaintedAs(LineBefore(a, b, area, SegmentOf(a, b).Steps() + 1), pixel, g)
    ensures f.PaintedAs(LineRule(a, b, f.info, clip), pixel, g)
  {
    PaintAgree(f, g, LineBefore(a, b, area, SegmentOf(a, b).Steps() + 1), LineRule(a, b, f.info, clip), pixel);
  }

  // ---------------------------------------------------------------- scanlines

  /** The triangle rule restricted to the rows above `y`. */
  function TriangleRows(t: Tri, area: Rectangle, y: int): Paint {
    (u: int, v: int, was: real) => if v < y then TrianglePaint(t, area, u, v, was) else None
  }

  /** The triangle rule restricted to the rows above `y` and, in row `y`, to the pixels left of `x`. */
  function TriangleBefore(t: Tri, area: Rectangle, y: int, x: int): Paint {
    (u: int, v: int, was: real) => if v < y || (v == y && u < x) then TrianglePaint(t, area, u, v, was) else None
  }

  function SpanOf(t: Tri, w: nat, py: real): (real, real) {
    Narrow(Narrow(Narrow((0.0, w as real), t.b, t.c, py), t.c, t.a, py), t.a, t.b, py)
  }

  /** The first and the last pixel of the row, inclusive. */
  function FirstPixel(t: Tri, info: Info, area: Rectangle, y: int): int {
    MaxInt(MaxInt(Ceil(SpanOf(t, info.width, y as real + 0.5).0 - 0.5), 0), area.left)
  }

  function LastPixel(t: Tri, info: Info, area: Rectangle, y: int): int {
    MinInt(MinInt((SpanOf(t, info.width, y as real + 0.5).1 - 0.5).Floor, info.width - 1), area.Right() - 1)
  }

  /** The span of a row holds exactly the pixels of the area whose centres satisfy the steep edges. */
  lemma SpanIsRow(t: Tri, info: Info, area: Rectangle, x: int, y: int)
    requires 0 <= area.left && area.Right() <= info.width
    ensures FirstPixel(t, info, area, y) <= x <= LastPixel(t, info, area, y)
       <==> area.left <= x < area.Right() && t.SteepEdgesHold(x as real + 0.5, y as real + 0.5)
  {
    var px, py := x as real + 0.5, y as real + 0.5;
    var s0 := (0.0, info.width as real);
    var s1 := Narrow(s0, t.b, t.c, py);
    var s2 := Narrow(s1, t.c, t.a, py);
    var s3 := Narrow(s2, t.a, t.b, py);
    NarrowIsEdge(s0, t.b, t.c, px, py);
    NarrowIsEdge(s1, t.c, t.a, px, py);
    NarrowIsEdge(s2, t.a, t.b, px, py);
    CeilBorder(s3.0 - 0.5, x);
    FloorBorder(s3.1 - 0.5, x);
  }

  lemma RowStarts(f: Frame, g: Frame, t: Tri, area: Rectangle, pixel: seq<byte>, y: int)
    requires f.Valid() && f.PaintedAs(TriangleRows(t, area, y), pixel, g)
    requires 0 <= area.left && area.Right() <= f.info.width
    ensures var x := FirstPixel(t, f.info, area, y); f.PaintedAs(TriangleBefore(t, area, y, x), pixel, g)
  {
    var x := FirstPixel(t, f.info, area, y);
    forall u, v, was | f.OnScreen(u, v)
      ensures TriangleBefore(t, area, y, x)(u, v, was) == TriangleRows(t, area, y)(u, v, was)
    {
      SpanIsRow(t, f.info, area, u, v);
    }
    PaintAgree(f, g, TriangleRows(t, area, y), TriangleBefore(t, area, y, x), pixel);
  }

  lemma RowEnds(f: Frame, g: Frame, t: Tri, area: Rectangle, pixel: seq<byte>, y: int, x: int)
    requires f.Valid() && f.PaintedAs(TriangleBefore(t, area, y, x), pixel, g)
    requires 0 <= area.left && area.Right() <= f.info.width && LastPixel(t, f.info, area, y) < x
    ensures f.PaintedAs(TriangleRows(t, area, y + 1), pixel, g)
  {
    forall u, v, was | f.OnScreen(u, v)
      ensures TriangleRows(t, area, y + 1)(u, v, was) == TriangleBefore(t, area, y, x)(u, v, was)
    {
      SpanIsRow(t, f.info, area, u, v);
    }
    PaintAgree(f, g, TriangleBefore(t, area, y, x), TriangleRows(t, area, y + 1), pixel);
  }

  /** Visiting one pixel of a span extends the painted part by that pixel. */
  lemma SpanOneMore(f: Frame, g: Frame, t: Tri, area: Rectangle, pixel: seq<byte>, x: int, y: int)
    requires f.Valid() && |pixel| == f.info.bpp && f.PaintedAs(TriangleBefore(t, area, y, x), pixel, g)
    requires t.Paints(area, x, y) && f.OnScreen(x, y)
    ensures var z := t.Depth(x as real + 0.5, y as real + 0.5);
            f.PaintedAs(TriangleBefore(t, area, y, x + 1), pixel,
                        if z > g.DepthAt(x, y) then g.Plot(x, y, z, pixel) else g)
  {
    PaintOneMore(f, g, TriangleBefore(t, area, y, x), TriangleBefore(t, area, y, x + 1), pixel, x, y);
  }

  /** No row is left: the rule of the whole triangle has been applied. */
  lemma TriangleFinished(f: Frame, g: Frame, t: Tri, clip: Option<Rectangle>, area: Rectangle, pixel: seq<byte>, y: int)
    requires f.Valid() && ClipArea(f.info, clip) == Some(area) && f.PaintedAs(TriangleRows(t, area, y), pixel, g)
    requires y >= Ceil(t.YMax()) || y >= area.Bottom() || t.Area() <= 0.0
    ensures f.PaintedAs(TriangleRule(t, f.info, clip), pixel, g)
  {
    PaintAgree(f, g, TriangleRows(t, area, y), TriangleRule(t, f.info, clip), pixel);
  }

  lemma TriangleBegins(f: Frame, t: Tri, area: Rectangle, pixel: seq<byte>, y: int)
    requires f.Valid() && (y <= t.YMin().Floor || y <= area.top || t.Area() <= 0.0)
    ensures f.PaintedAs(TriangleRows(t, area, y), pixel, f)
  {
  }

  // ---------------------------------------------------------------- the renderer

  class Renderer3d {
    const buffer: array<byte>
    const depth: array<real>
    const info: Info

    constructor (buffer: array<byte>, depth: array<real>, info: Info)
      requires info.Fits(buffer.Length) && info.bpp <= 8 && info.width * info.height <= depth.Length
      ensures this.buffer == buffer && this.depth == depth && this.info == info && Picture().Valid()
    {
      this.buffer := buffer;
      this.depth := depth;
      this.info := info;
    }

    /** The frame held by the two buffers. */
    ghost function Picture(): Frame
      reads buffer, depth
    {
      Frame(info, buffer[..], depth[..])
    }

    method Plot(x: int, y: int, z: real, pixel: seq<byte>)
      requires Picture().Valid() && Picture().OnScreen(x, y) && |pixel| == info.bpp
      modifies buffer, depth
      ensures Picture() == old(Picture()).Plot(x, y, z, pixel)
      ensures Picture().Valid()
    {
      Picture().DepthIndex(x, y);
      OffsetInRow(info, x, y, buffer.Length);
      var off := info.Offset(x, y);
      depth[y * info.width + x] := z;
      forall k | 0 <= k < info.bpp { buffer[off + k] := pixel[k]; }
    }

    /** The depth test: a pixel replaces a farther one, up to a bias. */
    method PlotIfNearer(x: int, y: int, z: real, bias: real, pixel: seq<byte>)
      requires Picture().Valid() && Picture().OnScreen(x, y) && |pixel| == info.bpp
      modifies buffer, depth
      ensures var was := old(Picture());
              Picture() == if z + bias > was.DepthAt(x, y) then was.Plot(x, y, z, pixel) else was
      ensures Picture().Valid()
    {
      Picture().DepthIndex(x, y);
      if z + bias > depth[y * info.width + x] { Plot(x, y, z, pixel); }
    }

    /** Draw pixel `k` of the line if it is in the area and near enough. */
    method PlotLinePixel(ghost f: Frame, a: Vertex, b: Vertex, area: Rectangle, pixel: seq<byte>, ghost k: nat, x: int,
                         y: int, z: real)
      requires f.Valid() && f.info == info && |pixel| == info.bpp && k <= SegmentOf(a, b).Steps()
      requires (x, y) == SegmentOf(a, b).Pixel(k) && z == LineZ(a, b, k)
      requires forall u, v :: area.Has(u, v) ==> f.OnScreen(u, v)
      requires f.PaintedAs(LineBefore(a, b, area, k), pixel, Picture())
      modifies buffer, depth
      ensures f.PaintedAs(LineBefore(a, b, area, k + 1), pixel, Picture())
    {
      LineOneMore(f, Picture(), a, b, area, pixel, k, x, y);
      if area.Has(x, y) { PlotIfNearer(x, y, z, LINE_Z_BIAS, pixel); }
    }

    /** Move to the next pixel of the line, driven by the error term. */
    static method StepLine(s: Segment, pen: Pen) returns (next: Pen)
      ensures next == Turn(s, pen)
    {
      var x, y, err := pen.x, pen.y, pen.err;
      var e2 := 2 * err;
      if e2 > 0 - s.Dy() {
        err := err - s.Dy();
        x := x + s.Sx();
      }
      if e2 < s.Dx() {
        err := err + s.Dx();
        y := y + s.Sy();
      }
      next := Pen(x, y, err);
    }

    /** Draw a line one pixel wide. */
    method FillLineThin(a: Vertex, b: Vertex, color: Rgb, clip: Option<Rectangle>)
      requires Picture().Valid()
      modifies buffer, depth
      ensures old(Picture()).PaintedAs(LineRule(a, b, info, clip), PixelBytes(color, info.format, info.bpp), Picture())
    {
      var clipped := ClipArea(info, clip);
      if clipped.None? { return; }
      var area := clipped.value;
      var colorBytes := PixelBytes(color, info.format, info.bpp);

      ghost var f := Picture();
      var s := SegmentOf(a, b);
      var steps := s.Steps();
      var dz := if steps > 0 then (b.z - a.z) / steps as real else 0.0;
      var pen, z := Pen(s.x0, s.y0, s.Dx() - s.Dy()), a.z;

      ghost var k: nat := 0;
      StartsAtPixel(s);
      assert LineZ(a, b, 0) == a.z;
      while true
        invariant AtPixel(s, k, pen) && z == LineZ(a, b, k)
        invariant f.PaintedAs(LineBefore(a, b, area, k), colorBytes, Picture())
        decreases s.Steps() - k
      {
        PlotLinePixel(f, a, b, area, colorBytes, k, pen.x, pen.y, z);
        OnlyTheEnd(s, k);
        if pen.x == s.x1 && pen.y == s.y1 { break; }
        TurnsToNext(s, k, pen);
        LineZStep(a, b, k);
        pen := StepLine(s, pen);
        z := z + dz;
        k := k + 1;
      }
      LineFinished(f, Picture(), a, b, clip, area, colorBytes);
    }

    /** Draw one pixel of a triangle if it is near enough. */
    method PlotTrianglePixel(ghost f: Frame, t: Tri, area: Rectangle, pixel: seq<byte>, x: int, y: int, z: real)
      requires f.Valid() && f.info == info && |pixel| == info.bpp && f.OnScreen(x, y) && t.Paints(area, x, y)
      requires z == t.Depth(x as real + 0.5, y as real + 0.5)
      requires f.PaintedAs(TriangleBefore(t, area, y, x), pixel, Picture())
      modifies buffer, depth
      ensures f.PaintedAs(TriangleBefore(t, area, y, x + 1), pixel, Picture())
    {
      SpanOneMore(f, Picture(), t, area, pixel, x, y);
      PlotIfNearer(x, y, z, 0.0, pixel);
    }

    /** Fill one row of a triangle from its first to its last pixel. */
    method FillSpan(ghost f: Frame, t: Tri, area: Rectangle, pixel: seq<byte>, y: int)
      requires f.Valid() && f.info == info && |pixel| == info.bpp && t.Area() > 0.0
      requires forall u, v :: area.Has(u, v) ==> f.OnScreen(u, v)
      requires 0 <= area.left && area.Right() <= info.width
      requires area.top <= y < area.Bottom() && t.YMin().Floor <= y < Ceil(t.YMax())
      requires f.PaintedAs(TriangleRows(t, area, y), pixel, Picture())
      modifies buffer, depth
      ensures f.PaintedAs(TriangleRows(t, area, y + 1), pixel, Picture())
    {
      RowStarts(f, Picture(), t, area, pixel, y);
      var xiLeft, xiRight := FirstPixel(t, info, area, y), LastPixel(t, info, area, y);
      if xiRight < xiLeft {
        RowEnds(f, Picture(), t, area, pixel, y, xiLeft);
        return;
      }
      var z := t.Depth(xiLeft as real + 0.5, y as real + 0.5);
      for x := xiLeft to xiRight + 1
        invariant z == t.Depth(x as real + 0.5, y as real + 0.5)
        invariant f.PaintedAs(TriangleBefore(t, area, y, x), pixel, Picture())
      {
        SpanIsRow(t, info, area, x, y);
        PlotTrianglePixel(f, t, area, pixel, x, y, z);
        DepthSteps(t, x as real + 0.5, y as real + 0.5);
        z := z + t.DzDx();
      }
      RowEnds(f, Picture(), t, area, pixel, y, xiRight + 1);
    }

    /** Fill a clockwise triangle row by row, keeping the nearer depth. */
    method FillTriangle(t: Tri, color: Rgb, clip: Option<Rectangle>)
      requires Picture().Valid()
      modifies buffer, depth
      ensures old(Picture()).PaintedAs(TriangleRule(t, info, clip), PixelBytes(color, info.format, info.bpp), Picture())
    {
      var clipped := ClipArea(info, clip);
      if clipped.None? { return; }
      var area := clipped.value;
      AreaBounds(area);
      ghost var f := Picture();
      var colorBytes := PixelBytes(color, info.format, info.bpp);
      if t.Area() <= 0.0 {
        TriangleBegins(f, t, area, colorBytes, 0);
        TriangleFinished(f, f, t, clip, area, colorBytes, 0);
        return;
      }
      var yMin := MaxInt(t.YMin().Floor, 0);
      var yMax := MinInt(Ceil(t.YMax()), info.height);
      if yMin < area.top { yMin := area.top; }
      if yMax > area.Bottom() { yMax := area.Bottom(); }
      TriangleBegins(f, t, area, colorBytes, yMin);
      if yMin >= yMax {
        TriangleFinished(f, f, t, clip, area, colorBytes, yMin);
        return;
      }
      for y := yMin to yMax
        invariant f.PaintedAs(TriangleRows(t, area, y), colorBytes, Picture())
      {
        FillSpan(f, t, area, colorBytes, y);
      }
      TriangleFinished(f, Picture(), t, clip, area, colorBytes, yMax);
    }

    lemma AreaBounds(area: Rectangle)
      requires area.width > 0 && area.height > 0 && forall x, y :: area.Has(x, y) ==> info.Bounds().Has(x, y)
      ensures 0 <= area.left && area.Right() <= info.width && 0 <= area.top && area.Bottom() <= info.height
    {
      assert area.Has(area.left, area.top) && area.Has(area.Right() - 1, area.Bottom() - 1);
    }
  }
}
