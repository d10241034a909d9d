/** Drawing a list of triangles: the depth buffer makes the order irrelevant. */
module DepthOrder {
  import opened Wrappers
  import opened Reals
  import opened Bytes
  import opened Color
  import opened Raster
  import opened Triangle
  import opened Raster3d

  /** A projected triangle and its shade. */
  datatype Shaded = Shaded(t: Tri, color: Rgb)

  predicate Covers(s: Shaded, info: Info, clip: Option<Rectangle>, x: int, y: int) {
    ClipArea(info, clip).Some? && s.t.Paints(ClipArea(info, clip).value, x, y)
  }

  function FragmentDepth(s: Shaded, info: Info, clip: Option<Rectangle>, x: int, y: int): real
    requires Covers(s, info, clip, x, y)
  {
    s.t.Depth(x as real + 0.5, y as real + 0.5)
  }

  /** Depth and colour bytes of one pixel after drawing a list over it. */
  function After(list: seq<Shaded>, info: Info, clip: Option<Rectangle>, x: int, y: int, d: real,
                 p: seq<byte>): (real, seq<byte>)
    requires ChannelCount(info.format) <= info.bpp
  {
    if list == [] then (d, p)
    else
      var r := TriangleRule(list[0].t, info, clip)(x, y, d);
      After(list[1..], info, clip, x, y, if r.Some? then r.value else d,
            if r.Some? then PixelBytes(list[0].color, info.format, info.bpp) else p)
  }

  /** Triangle `s` of the list covers the pixel at depth `m`. */
  ghost predicate IsAt(list: seq<Shaded>, info: Info, clip: Option<Rectangle>, x: int, y: int, m: real, s: Shaded) {
    s in list && Covers(s, info, clip, x, y) && FragmentDepth(s, info, clip, x, y) == m
  }

  /** `m` is the largest of `d` and the depths that cover the pixel. */
  ghost predicate IsDepthMax(list: seq<Shaded>, info: Info, clip: Option<Rectangle>, x: int, y: int, d: real, m: real) {
    && d <= m
    && (forall s :: s in list && Covers(s, info, clip, x, y) ==> FragmentDepth(s, info, clip, x, y) <= m)
    && (m == d || exists s :: IsAt(list, info, clip, x, y, m, s))
  }

  /** The depth left behind is the maximum; the colour is untouched or belongs to a fragment at the maximum. */
  lemma {:induction false} AfterIsMax(list: seq<Shaded>, info: Info, clip: Option<Rectangle>, x: int, y: int, d: real,
                                      p: seq<byte>)
    requires ChannelCount(info.format) <= info.bpp
    ensures var (m, q) := After(list, info, clip, x, y, d, p);
            && IsDepthMax(list, info, clip, x, y, d, m)
            && (m == d ==> q == p)
            && (m > d ==>
                  exists s :: IsAt(list, info, clip, x, y, m, s) && q == PixelBytes(s.color, info.format, info.bpp))
  {
    if list != [] {
      var r := TriangleRule(list[0].t, info, clip)(x, y, d);
      var d' := if r.Some? then r.value else d;
      var p' := if r.Some? then PixelBytes(list[0].color, info.format, info.bpp) else p;
      AfterIsMax(list[1..], info, clip, x, y, d', p');
      assert list == [list[0]] + list[1..];
      assert r.Some? <==> Covers(list[0], info, clip, x, y) && FragmentDepth(list[0], info, clip, x, y) > d;
      var (m, q) := After(list, info, clip, x, y, d, p);
      if m > d' {
        var s :| IsAt(list[1..], info, clip, x, y, m, s) && q == PixelBytes(s.color, info.format, info.bpp);
        assert IsAt(list, info, clip, x, y, m, s);
      } else if m > d {
        assert IsAt(list, info, clip, x, y, m, list[0]);
      }
    }
  }

  lemma MaxIsUnique(list: seq<Shaded>, list': seq<Shaded>, info: Info, clip: Option<Rectangle>, x: int, y: int, d: real,
                    m: real, m': real)
    requires forall s :: s in list <==> s in list'
    requires IsDepthMax(list, info, clip, x, y, d, m) && IsDepthMax(list', info, clip, x, y, d, m')
    ensures m == m'
  {
  }

  /** All fragments that reach depth `m` have one colour. */
  ghost predicate OneColourAt(list: seq<Shaded>, info: Info, clip: Option<Rectangle>, x: int, y: int, m: real) {
    forall s, s' ::
      (s in list && Covers(s, info, clip, x, y) && FragmentDepth(s, info, clip, x, y) == m) &&
      (s' in list && Covers(s', info, clip, x, y) && FragmentDepth(s', info, clip, x, y) == m)
      ==> s.color == s'.color
  }

  /**
   Order independence.  Drawing the same triangles in any order leaves the same depth at every
   pixel, and the same colour wherever the nearest fragments agree on one.
   */
  lemma OrderDoesNotMatter(list: seq<Shaded>, list': seq<Shaded>, info: Info, clip: Option<Rectangle>, x: int, y: int,
                           d: real, p: seq<byte>)
    requires ChannelCount(info.format) <= info.bpp && multiset(list) == multiset(list')
    ensures var (m, q), (m', q') := After(list, info, clip, x, y, d, p), After(list', info, clip, x, y, d, p);
            && m == m'
            && (OneColourAt(list, info, clip, x, y, m) ==> q == q')
  {
    assert forall s :: s in list <==> s in multiset(list);
    assert forall s :: s in list' <==> s in multiset(list');
    AfterIsMax(list, info, clip, x, y, d, p);
    AfterIsMax(list', info, clip, x, y, d, p);
    var (m, q) := After(list, info, clip, x, y, d, p);
    var (m', q') := After(list', info, clip, x, y, d, p);
    MaxIsUnique(list, list', info, clip, x, y, d, m, m');
    if OneColourAt(list, info, clip, x, y, m) && m > d {
      var s :| IsAt(list, info, clip, x, y, m, s) && q == PixelBytes(s.color, info.format, info.bpp);
      var s' :| IsAt(list', info, clip, x, y, m', s') && q' == PixelBytes(s'.color, info.format, info.bpp);
      assert s' in list && s.color == s'.color;
    }
  }

  /** `g` is frame `f` after drawing the list. */
  ghost predicate DrawnAs(f: Frame, list: seq<Shaded>, clip: Option<Rectangle>, g: Frame)
    requires f.Valid()
  {
    && g.info == f.info && g.Valid() && f.SameMargin(g)
    && forall x, y :: f.OnScreen(x, y) ==>
         (g.DepthAt(x, y), g.PixelAt(x, y)) == After(list, f.info, clip, x, y, f.DepthAt(x, y), f.PixelAt(x, y))
  }

  lemma {:induction false} AfterConcat(list: seq<Shaded>, s: Shaded, info: Info, clip: Option<Rectangle>, x: int,
                                       y: int, d: real, p: seq<byte>)
    requires ChannelCount(info.format) <= info.bpp
    ensures var (m, q) := After(list, info, clip, x, y, d, p);
            After(list + [s], info, clip, x, y, d, p) == After([s], info, clip, x, y, m, q)
  {
    if list == [] {
      assert list + [s] == [s];
    } else {
      assert (list + [s])[1..] == list[1..] + [s];
      var r := TriangleRule(list[0].t, info, clip)(x, y, d);
      AfterConcat(list[1..], s, info, clip, x, y, if r.Some? then r.value else d,
                  if r.Some? then PixelBytes(list[0].color, info.format, info.bpp) else p);
    }
  }

  lemma AfterOne(s: Shaded, info: Info, clip: Option<Rectangle>, x: int, y: int, d: real, p: seq<byte>)
    requires ChannelCount(info.format) <= info.bpp
    ensures var r := TriangleRule(s.t, info, clip)(x, y, d);
            After([s], info, clip, x, y, d, p)
            == (if r.Some? then r.value else d, if r.Some? then PixelBytes(s.color, info.format, info.bpp) else p)
  {
    assert [s][1..] == [];
  }

  lemma DrawOneMore(f: Frame, list: seq<Shaded>, s: Shaded, clip: Option<Rectangle>, g: Frame, h: Frame)
    requires f.Valid() && DrawnAs(f, list, clip, g)
    requires g.PaintedAs(TriangleRule(s.t, g.info, clip), PixelBytes(s.color, g.info.format, g.info.bpp), h)
    ensures DrawnAs(f, list + [s], clip, h)
  {
    forall x, y | f.OnScreen(x, y)
      ensures (h.DepthAt(x, y), h.PixelAt(x, y))
           == After(list + [s], f.info, clip, x, y, f.DepthAt(x, y), f.PixelAt(x, y))
    {
      AfterConcat(list, s, f.info, clip, x, y, f.DepthAt(x, y), f.PixelAt(x, y));
      AfterOne(s, f.info, clip, x, y, g.DepthAt(x, y), g.PixelAt(x, y));
    }
  }

  function MovedVertex(v: Vertex, dx: int, dy: int): Vertex {
    Vertex(v.x + dx as real, v.y + dy as real, v.z)
  }

  /** A triangle of the mesh, moved by the top left corner of the part of the screen it is drawn in. */
  function Moved(s: Shaded, box: Rectangle): Shaded {
    var a, b := MovedVertex(s.t.a, box.left, box.top), MovedVertex(s.t.b, box.left, box.top);
    Shaded(Tri(a, b, MovedVertex(s.t.c, box.left, box.top)), s.color)
  }

  function Placed(mesh: seq<Shaded>, box: Rectangle): seq<Shaded> {
    seq(|mesh|, i requires 0 <= i < |mesh| => Moved(mesh[i], box))
  }

  lemma MovedEdge(i: Vertex, j: Vertex, dx: int, dy: int, px: real, py: real)
    ensures EdgeFn(MovedVertex(i, dx, dy), MovedVertex(j, dx, dy), px + dx as real, py + dy as real)
         == EdgeFn(i, j, px, py)
  {
    var i', j' := MovedVertex(i, dx, dy), MovedVertex(j, dx, dy);
    assert j'.x - i'.x == j.x - i.x && j'.y - i'.y == j.y - i.y;
    assert (py + dy as real) - i'.y == py - i.y && (px + dx as real) - i'.x == px - i.x;
  }

  lemma MovedEdges(s: Shaded, box: Rectangle, px: real, py: real)
    ensures var t, t' := s.t, Moved(s, box).t; var px', py' := px + box.left as real, py + box.top as real;
            && t'.Area() == t.Area() && t'.Wa(px', py') == t.Wa(px, py)
            && t'.Wb(px', py') == t.Wb(px, py) && t'.Wc(px', py') == t.Wc(px, py)
  {
    MovedEdge(s.t.b, s.t.c, box.left, box.top, px, py);
    MovedEdge(s.t.c, s.t.a, box.left, box.top, px, py);
    MovedEdge(s.t.a, s.t.b, box.left, box.top, px, py);
    Barycentric(s.t, px, py);
    Barycentric(Moved(s, box).t, px + box.left as real, py + box.top as real);
  }

  lemma MovedDepth(s: Shaded, box: Rectangle, px: real, py: real)
    requires s.t.Area() > 0.0
    ensures Moved(s, box).t.Area() == s.t.Area()
    ensures Moved(s, box).t.Depth(px + box.left as real, py + box.top as real) == s.t.Depth(px, py)
  {
    MovedEdges(s, box, px, py);
  }

  lemma MovedRow(r: real, d: int)
    ensures (r + d as real).Floor == r.Floor + d && Ceil(r + d as real) == Ceil(r) + d
  {
  }

  /** Moving a triangle by whole pixels moves its pixels and their depths with it. */
  lemma PlacementMovesPixels(s: Shaded, box: Rectangle, area: Rectangle, x: int, y: int)
    ensures var inner := Rectangle(area.left - box.left, area.top - box.top, area.width, area.height);
            var x', y' := x + box.left, y + box.top;
            Moved(s, box).t.Paints(area, x', y') <==> s.t.Paints(inner, x, y)
    ensures Moved(s, box).t.Area() == s.t.Area() && Moved(s, box).color == s.color
    ensures s.t.Area() > 0.0 ==>
      Moved(s, box).t.Depth((x + box.left) as real + 0.5, (y + box.top) as real + 0.5)
      == s.t.Depth(x as real + 0.5, y as real + 0.5)
  {
    var px, py := x as real + 0.5, y as real + 0.5;
    MovedEdges(s, box, px, py);
    assert (x + box.left) as real + 0.5 == px + box.left as real && (y + box.top) as real + 0.5 == py + box.top as real;
    if s.t.Area() > 0.0 { MovedDepth(s, box, px, py); }
    MovedRow(s.t.YMin(), box.top);
    MovedRow(s.t.YMax(), box.top);
    assert Moved(s, box).t.YMin() == s.t.YMin() + box.top as real;
    assert Moved(s, box).t.YMax() == s.t.YMax() + box.top as real;
  }

  /** Draw all triangles of a projected mesh in one part of the screen. */
  method DrawMesh(renderer: Renderer3d, mesh: seq<Shaded>, box: Rectangle)
    requires renderer.Picture().Valid()
    modifies renderer.buffer, renderer.depth
    ensures DrawnAs(old(renderer.Picture()), Placed(mesh, box), Some(box), renderer.Picture())
  {
    ghost var f, placed := renderer.Picture(), Placed(mesh, box);
    for i := 0 to |mesh|
      invariant DrawnAs(f, placed[..i], Some(box), renderer.Picture())
    {
      ghost var g := renderer.Picture();
      var triangle := Moved(mesh[i], box);
      renderer.FillTriangle(triangle.t, triangle.color, Some(box));
      DrawOneMore(f, placed[..i], triangle, Some(box), g, renderer.Picture());
      assert placed[..i + 1] == placed[..i] + [triangle];
    }
    assert placed[..|mesh|] == placed;
  }
}
