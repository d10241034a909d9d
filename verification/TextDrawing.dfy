/** What drawing a page of the text box puts on the screen: glyphs, and the cursor. */
module TextDrawing {
  import opened Wrappers
  import opened Bytes
  import opened TextParser
  import opened TextLayout
  import opened VisualLines

  datatype DrawOp = DrawGlyph(glyph: Glyph, x: int, y: int) | DrawCursor(x: int, y: int)

  /** The glyphs of a visual line from number `i` on, with the cursor before glyph `cursor`. */
  function LineOps(glyphs: seq<Glyph>, start: nat, i: nat, x: int, y: int, cursor: Option<nat>,
                   advance: byte -> int): seq<DrawOp>
    requires i <= |glyphs|
    decreases |glyphs| - i
  {
    if i == |glyphs| then []
    else (if cursor == Some(start + i) then [DrawCursor(x, y)] else []) + [DrawGlyph(glyphs[i], x, y)]
         + LineOps(glyphs, start, i + 1, x + advance(glyphs[i].b), y, cursor, advance)
  }

  function PenAfter(glyphs: seq<Glyph>, i: nat, x: int, advance: byte -> int): int
    requires i <= |glyphs|
    decreases |glyphs| - i
  {
    if i == |glyphs| then x else PenAfter(glyphs, i + 1, x + advance(glyphs[i].b), advance)
  }

  /** A whole visual line, with the cursor behind the last glyph of the text if it belongs there. */
  function VisualOps(buffer: TextBuffer, v: VisualLine, left: int, y: int, cursor: Option<nat>,
                     advance: byte -> int): seq<DrawOp>
    requires InRange(buffer, v)
  {
    var glyphs, total := SliceOf(buffer, v), |AllGlyphs(buffer)|;
    LineOps(glyphs, v.start, 0, left, y, cursor, advance)
    + if cursor == Some(total) && v.end == total then [DrawCursor(PenAfter(glyphs, 0, left, advance), y)] else []
  }

  /** The visible lines from the bottom up. */
  function PageOps(buffer: TextBuffer, lines: seq<VisualLine>, left: int, y: int, pitch: int, cursor: Option<nat>,
                   advance: byte -> int): seq<DrawOp>
    requires forall i :: 0 <= i < |lines| ==> InRange(buffer, lines[i])
  {
    if lines == [] then []
    else VisualOps(buffer, LastOf(lines), left, y, cursor, advance)
         + PageOps(buffer, lines[..|lines| - 1], left, y - pitch, pitch, cursor, advance)
  }

  /** Drawing one more line moves its operations from what is left to what is done. */
  lemma PageStep(done: seq<DrawOp>, buffer: TextBuffer, page: seq<VisualLine>, k: nat, left: int, y: int, pitch: int,
                 cursor: Option<nat>, advance: byte -> int)
    requires k < |page| && forall i :: 0 <= i < |page| ==> InRange(buffer, page[i])
    ensures done + PageOps(buffer, page[..k + 1], left, y, pitch, cursor, advance)
         == (done + VisualOps(buffer, page[k], left, y, cursor, advance))
            + PageOps(buffer, page[..k], left, y - pitch, pitch, cursor, advance)
  {
    var pre := page[..k + 1];
    assert pre[..|pre| - 1] == page[..k] && LastOf(pre) == page[k];
    assert PageOps(buffer, pre, left, y, pitch, cursor, advance)
        == VisualOps(buffer, page[k], left, y, cursor, advance)
           + PageOps(buffer, page[..k], left, y - pitch, pitch, cursor, advance);
  }

  // ---------------------------------------------------------------- every glyph is drawn once, in its place

  /** The glyphs drawn, in drawing order. */
  function Drawn(ops: seq<DrawOp>): seq<Glyph> {
    if ops == [] then [] else (if ops[0].DrawGlyph? then [ops[0].glyph] else []) + Drawn(ops[1..])
  }

  lemma {:induction false} DrawnConcat(a: seq<DrawOp>, b: seq<DrawOp>)
    ensures Drawn(a + b) == Drawn(a) + Drawn(b)
  {
    if a == [] {
      assert a + b == b;
    } else {
      assert (a + b)[1..] == a[1..] + b && (a + b)[0] == a[0];
      DrawnConcat(a[1..], b);
    }
  }

  lemma {:induction false} LineDrawn(glyphs: seq<Glyph>, start: nat, i: nat, x: int, y: int, cursor: Option<nat>,
                                     advance: byte -> int)
    requires i <= |glyphs|
    ensures Drawn(LineOps(glyphs, start, i, x, y, cursor, advance)) == glyphs[i..]
    decreases |glyphs| - i
  {
    if i < |glyphs| {
      var x' := x + advance(glyphs[i].b);
      LineDrawn(glyphs, start, i + 1, x', y, cursor, advance);
      var mark := if cursor == Some(start + i) then [DrawCursor(x, y)] else [];
      var one := [DrawGlyph(glyphs[i], x, y)];
      DrawnConcat(mark + one, LineOps(glyphs, start, i + 1, x', y, cursor, advance));
      DrawnConcat(mark, one);
      assert Drawn(one) == [glyphs[i]];
      assert Drawn(mark) == [];
      assert glyphs[i..] == [glyphs[i]] + glyphs[i + 1..];
    }
  }

  lemma VisualDrawn(buffer: TextBuffer, v: VisualLine, left: int, y: int, cursor: Option<nat>, advance: byte -> int)
    requires InRange(buffer, v)
    ensures Drawn(VisualOps(buffer, v, left, y, cursor, advance)) == SliceOf(buffer, v)
  {
    var glyphs, total := SliceOf(buffer, v), |AllGlyphs(buffer)|;
    LineDrawn(glyphs, v.start, 0, left, y, cursor, advance);
    var mark := DrawCursor(PenAfter(glyphs, 0, left, advance), y);
    var tail := if cursor == Some(total) && v.end == total then [mark] else [];
    DrawnConcat(LineOps(glyphs, v.start, 0, left, y, cursor, advance), tail);
    assert Drawn(tail) == [];
  }

  /** The slices of the lines, the last line first. */
  function BottomUp(buffer: TextBuffer, lines: seq<VisualLine>): seq<Glyph>
    requires forall i :: 0 <= i < |lines| ==> InRange(buffer, lines[i])
  {
    if lines == [] then [] else SliceOf(buffer, LastOf(lines)) + BottomUp(buffer, lines[..|lines| - 1])
  }

  lemma {:induction false} PageDrawn(buffer: TextBuffer, lines: seq<VisualLine>, left: int, y: int, pitch: int,
                                     cursor: Option<nat>, advance: byte -> int)
    requires forall i :: 0 <= i < |lines| ==> InRange(buffer, lines[i])
    ensures Drawn(PageOps(buffer, lines, left, y, pitch, cursor, advance)) == BottomUp(buffer, lines)
  {
    if lines != [] {
      var front, v := lines[..|lines| - 1], LastOf(lines);
      PageDrawn(buffer, front, left, y - pitch, pitch, cursor, advance);
      VisualDrawn(buffer, v, left, y, cursor, advance);
      PageUnfolds(buffer, lines, left, y, pitch, cursor, advance);
      DrawnConcat(VisualOps(buffer, v, left, y, cursor, advance),
                  PageOps(buffer, front, left, y - pitch, pitch, cursor, advance));
    }
  }

  lemma PageUnfolds(buffer: TextBuffer, lines: seq<VisualLine>, left: int, y: int, pitch: int, cursor: Option<nat>,
                    advance: byte -> int)
    requires lines != [] && forall i :: 0 <= i < |lines| ==> InRange(buffer, lines[i])
    ensures var front, v := lines[..|lines| - 1], LastOf(lines);
            && BottomUp(buffer, lines) == SliceOf(buffer, v) + BottomUp(buffer, front)
            && PageOps(buffer, lines, left, y, pitch, cursor, advance)
               == VisualOps(buffer, v, left, y, cursor, advance)
                  + PageOps(buffer, front, left, y - pitch, pitch, cursor, advance)
  {
  }

  lemma {:induction false} BottomUpIsAll(buffer: TextBuffer, lines: seq<VisualLine>)
    requires forall i :: 0 <= i < |lines| ==> InRange(buffer, lines[i])
    ensures multiset(BottomUp(buffer, lines)) == multiset(AllSlices(buffer, lines))
  {
    if lines != [] {
      var front := lines[..|lines| - 1];
      BottomUpIsAll(buffer, front);
      MultisetSwap(SliceOf(buffer, LastOf(lines)), BottomUp(buffer, front), AllSlices(buffer, front));
    }
  }

  lemma MultisetSwap(a: seq<Glyph>, b: seq<Glyph>, c: seq<Glyph>)
    requires multiset(b) == multiset(c)
    ensures multiset(a + b) == multiset(c + a)
  {
  }

  /** A page with all visual lines draws every glyph of the text exactly once, wherever the cursor is. */
  lemma WholePageDrawsText(buffer: TextBuffer, lines: seq<VisualLine>, left: int, y: int, pitch: int,
                           cursor: Option<nat>, advance: byte -> int)
    requires Partition(buffer, lines)
    ensures multiset(Drawn(PageOps(buffer, lines, left, y, pitch, cursor, advance))) == multiset(AllGlyphs(buffer))
  {
    PageDrawn(buffer, lines, left, y, pitch, cursor, advance);
    BottomUpIsAll(buffer, lines);
  }

  /** Without a cursor, operation `j` of a line draws glyph `j` behind the advances of those before it. */
  lemma {:induction false} LineOpAt(glyphs: seq<Glyph>, start: nat, i: nat, x: int, y: int, advance: byte -> int,
                                    j: nat)
    requires i + j < |glyphs|
    ensures var ops := LineOps(glyphs, start, i, x, y, None, advance);
            j < |ops| && ops[j] == DrawGlyph(glyphs[i + j], x + Advance(Advances(glyphs, advance), i, i + j), y)
    decreases j
  {
    if j > 0 {
      LineOpAt(glyphs, start, i + 1, x + advance(glyphs[i].b), y, advance, j - 1);
      AdvanceHead(Advances(glyphs, advance), i, i + j);
    }
  }

  lemma {:induction false} AdvanceSlice(line: LogicalLine, s: nat, e: nat, advance: byte -> int, j: nat)
    requires s + j <= e <= |line|
    ensures Advance(Advances(line[s..e], advance), 0, j) == Advance(Advances(line, advance), s, s + j)
  {
    if j > 0 { AdvanceSlice(line, s, e, advance, j - 1); }
  }

  /** On every visual line of a laid-out logical line, each glyph after the first ends within the margin. */
  lemma GlyphsStayInMargin(m: Margins, line: LogicalLine, k: nat, j: nat, y: int, advance: byte -> int)
    requires k < |Wrap(m, Advances(line, advance))|
    requires var (s, e) := Wrap(m, Advances(line, advance))[k]; 0 < j < e - s
    ensures var (s, e) := Wrap(m, Advances(line, advance))[k];
            var ops := LineOps(line[s..e], s, 0, m.left, y, None, advance);
            j < |ops| && ops[j].DrawGlyph? && ops[j].glyph == line[s + j] && ops[j].x + advance(line[s + j].b) <= m.end
  {
    var advs := Advances(line, advance);
    var (s, e) := Wrap(m, advs)[k];
    WrapIsGreedy(m, advs);
    assert GreedyLine(m, advs, Wrap(m, advs), k);
    assert Fits(m, advs, s, s + j + 1);
    LineOpAt(line[s..e], s, 0, m.left, y, advance, j);
    AdvanceSlice(line, s, e, advance, j);
  }

  // ---------------------------------------------------------------- where the cursor stands

  function Cursors(ops: seq<DrawOp>): nat {
    if ops == [] then 0 else (if ops[0].DrawCursor? then 1 else 0) + Cursors(ops[1..])
  }

  lemma {:induction false} CursorsConcat(a: seq<DrawOp>, b: seq<DrawOp>)
    ensures Cursors(a + b) == Cursors(a) + Cursors(b)
  {
    if a == [] {
      assert a + b == b;
    } else {
      assert (a + b)[1..] == a[1..] + b;
      CursorsConcat(a[1..], b);
    }
  }

  /**
   Reading a line's operations when its first glyph is number `k` of the text: each cursor stands before the next
   glyph.
   */
  function OpSpots(ops: seq<DrawOp>, k: nat): seq<nat> {
    if ops == [] then []
    else if ops[0].DrawCursor? then [k] + OpSpots(ops[1..], k)
    else OpSpots(ops[1..], k + 1)
  }

  lemma {:induction false} OpSpotsConcat(a: seq<DrawOp>, b: seq<DrawOp>, k: nat)
    ensures OpSpots(a + b, k) == OpSpots(a, k) + OpSpots(b, k + |Drawn(a)|)
    decreases |a|
  {
    if a == [] {
      assert a + b == b;
    } else {
      assert (a + b)[1..] == a[1..] + b && (a + b)[0] == a[0];
      OpSpotsConcat(a[1..], b, if a[0].DrawCursor? then k else k + 1);
    }
  }

  lemma {:induction false} SpotsAreCursors(ops: seq<DrawOp>, k: nat)
    ensures |OpSpots(ops, k)| == Cursors(ops)
    decreases |ops|
  {
    if ops != [] { SpotsAreCursors(ops[1..], if ops[0].DrawCursor? then k else k + 1); }
  }

  /** Number of glyphs before logical line `i`. */
  function FlatStart(buffer: TextBuffer, i: nat): nat {
    if i <= |buffer| then |AllGlyphs(buffer[..i])| else 0
  }

  /** Where the cursors of a page stand in the text, read off the drawing of each visual line. */
  function PageSpots(buffer: TextBuffer, lines: seq<VisualLine>, left: int, y: int, pitch: int, cursor: Option<nat>,
                     advance: byte -> int): seq<nat>
    requires forall i :: 0 <= i < |lines| ==> InRange(buffer, lines[i])
  {
    if lines == [] then []
    else
      var v := LastOf(lines);
      PageSpots(buffer, lines[..|lines| - 1], left, y - pitch, pitch, cursor, advance)
      + OpSpots(VisualOps(buffer, v, left, y, cursor, advance), FlatStart(buffer, v.lineIdx) + v.start)
  }

  lemma SpotsUnfold(buffer: TextBuffer, lines: seq<VisualLine>, left: int, y: int, pitch: int, cursor: Option<nat>,
                    advance: byte -> int)
    requires lines != [] && forall i :: 0 <= i < |lines| ==> InRange(buffer, lines[i])
    ensures var v := LastOf(lines);
            PageSpots(buffer, lines, left, y, pitch, cursor, advance)
            == PageSpots(buffer, lines[..|lines| - 1], left, y - pitch, pitch, cursor, advance)
               + OpSpots(VisualOps(buffer, v, left, y, cursor, advance), FlatStart(buffer, v.lineIdx) + v.start)
  {
  }

  /** As many spots as cursors in the drawing. */
  lemma {:induction false} PageCursors(buffer: TextBuffer, lines: seq<VisualLine>, left: int, y: int, pitch: int,
                                       cursor: Option<nat>, advance: byte -> int)
    requires forall i :: 0 <= i < |lines| ==> InRange(buffer, lines[i])
    ensures Cursors(PageOps(buffer, lines, left, y, pitch, cursor, advance))
         == |PageSpots(buffer, lines, left, y, pitch, cursor, advance)|
  {
    if lines != [] {
      var front, v := lines[..|lines| - 1], LastOf(lines);
      PageCursors(buffer, front, left, y - pitch, pitch, cursor, advance);
      PageUnfolds(buffer, lines, left, y, pitch, cursor, advance);
      SpotsUnfold(buffer, lines, left, y, pitch, cursor, advance);
      CursorsConcat(VisualOps(buffer, v, left, y, cursor, advance),
                    PageOps(buffer, front, left, y - pitch, pitch, cursor, advance));
      SpotsAreCursors(VisualOps(buffer, v, left, y, cursor, advance), FlatStart(buffer, v.lineIdx) + v.start);
    }
  }

  /** The spots of a stretch `start .. end` of a logical line whose first glyph is number `base`. */
  function StretchSpots(base: nat, start: nat, end: nat, n: nat, total: nat): seq<nat> {
    (if start <= n < end then [base + n] else []) + (if n == total == end then [base + end] else [])
  }

  lemma {:induction false} LineSpot(glyphs: seq<Glyph>, start: nat, i: nat, x: int, y: int, n: nat,
                                    advance: byte -> int, k: nat)
    requires i <= |glyphs|
    ensures OpSpots(LineOps(glyphs, start, i, x, y, Some(n), advance), k)
         == if start + i <= n < start + |glyphs| then [k + n - start - i] else []
    decreases |glyphs| - i
  {
    if i < |glyphs| {
      var x' := x + advance(glyphs[i].b);
      LineSpot(glyphs, start, i + 1, x', y, n, advance, k + 1);
      var rest := LineOps(glyphs, start, i + 1, x', y, Some(n), advance);
      var mark := if n == start + i then [DrawCursor(x, y)] else [];
      LineUnfolds(glyphs, start, i, x, y, n, advance);
      GlyphSpot(mark, glyphs[i], x, y, rest, k);
    }
  }

  lemma LineUnfolds(glyphs: seq<Glyph>, start: nat, i: nat, x: int, y: int, n: nat, advance: byte -> int)
    requires i < |glyphs|
    ensures LineOps(glyphs, start, i, x, y, Some(n), advance)
         == (if n == start + i then [DrawCursor(x, y)] else [])
            + ([DrawGlyph(glyphs[i], x, y)]
               + LineOps(glyphs, start, i + 1, x + advance(glyphs[i].b), y, Some(n), advance))
  {
  }

  /** A glyph, with the cursor before it or not, and what follows. */
  lemma GlyphSpot(mark: seq<DrawOp>, glyph: Glyph, x: int, y: int, rest: seq<DrawOp>, k: nat)
    requires mark == [] || mark == [DrawCursor(x, y)]
    ensures OpSpots(mark + ([DrawGlyph(glyph, x, y)] + rest), k)
         == (if mark == [] then [] else [k]) + OpSpots(rest, k + 1)
  {
    var one := [DrawGlyph(glyph, x, y)];
    assert (one + rest)[1..] == rest;
    assert mark != [] ==> (mark + (one + rest))[1..] == one + rest;
    assert mark == [] ==> mark + (one + rest) == one + rest;
  }

  lemma VisualSpots(buffer: TextBuffer, v: VisualLine, left: int, y: int, n: nat, advance: byte -> int)
    requires InRange(buffer, v)
    ensures var base := FlatStart(buffer, v.lineIdx);
            OpSpots(VisualOps(buffer, v, left, y, Some(n), advance), base + v.start)
            == StretchSpots(base, v.start, v.end, n, |AllGlyphs(buffer)|)
  {
    var glyphs, total, k := SliceOf(buffer, v), |AllGlyphs(buffer)|, FlatStart(buffer, v.lineIdx) + v.start;
    var ops := LineOps(glyphs, v.start, 0, left, y, Some(n), advance);
    var tail := if n == total && v.end == total then [DrawCursor(PenAfter(glyphs, 0, left, advance), y)] else [];
    LineSpot(glyphs, v.start, 0, left, y, n, advance, k);
    LineDrawn(glyphs, v.start, 0, left, y, Some(n), advance);
    OpSpotsConcat(ops, tail, k);
    assert tail != [] ==> tail[1..] == [];
  }

  function SpansSpots(buffer: TextBuffer, lines: seq<VisualLine>, n: nat, total: nat): seq<nat> {
    if lines == [] then []
    else
      var v := LastOf(lines);
      SpansSpots(buffer, lines[..|lines| - 1], n, total)
      + StretchSpots(FlatStart(buffer, v.lineIdx), v.start, v.end, n, total)
  }

  lemma SpansUnfold(buffer: TextBuffer, lines: seq<VisualLine>, n: nat, total: nat)
    requires lines != []
    ensures var v := LastOf(lines);
            SpansSpots(buffer, lines, n, total)
            == SpansSpots(buffer, lines[..|lines| - 1], n, total)
               + StretchSpots(FlatStart(buffer, v.lineIdx), v.start, v.end, n, total)
  {
  }

  lemma {:induction false} PageSpotsAre(buffer: TextBuffer, lines: seq<VisualLine>, left: int, y: int, pitch: int,
                                        n: nat, advance: byte -> int)
    requires forall i :: 0 <= i < |lines| ==> InRange(buffer, lines[i])
    ensures PageSpots(buffer, lines, left, y, pitch, Some(n), advance)
         == SpansSpots(buffer, lines, n, |AllGlyphs(buffer)|)
  {
    if lines != [] {
      SpotsUnfold(buffer, lines, left, y, pitch, Some(n), advance);
      SpansUnfold(buffer, lines, n, |AllGlyphs(buffer)|);
      PageSpotsAre(buffer, lines[..|lines| - 1], left, y - pitch, pitch, n, advance);
      VisualSpots(buffer, LastOf(lines), left, y, n, advance);
    }
  }

  lemma {:induction false} SpansSpotsConcat(buffer: TextBuffer, a: seq<VisualLine>, b: seq<VisualLine>, n: nat,
                                            total: nat)
    ensures SpansSpots(buffer, a + b, n, total) == SpansSpots(buffer, a, n, total) + SpansSpots(buffer, b, n, total)
  {
    if b == [] {
      assert a + b == a;
    } else {
      var front := b[..|b| - 1];
      assert (a + b)[..|a + b| - 1] == a + front && LastOf(a + b) == LastOf(b);
      SpansSpotsConcat(buffer, a, front, n, total);
    }
  }

  /** Lines of a shorter buffer have the same spots in a longer one. */
  lemma {:induction false} SpansSpotsPrefix(buffer: TextBuffer, k: nat, lines: seq<VisualLine>, n: nat, total: nat)
    requires k <= |buffer| && forall i :: 0 <= i < |lines| ==> lines[i].lineIdx < k
    ensures SpansSpots(buffer, lines, n, total) == SpansSpots(buffer[..k], lines, n, total)
  {
    if lines != [] {
      SpansSpotsPrefix(buffer, k, lines[..|lines| - 1], n, total);
      var i := LastOf(lines).lineIdx;
      assert buffer[..k][..i] == buffer[..i];
    }
  }

  /** Spans that tile `0 .. end`, where only the first may be empty. */
  ghost predicate Tiles(spans: seq<Span>, end: nat) {
    && spans != [] && spans[0].0 == 0 && LastOf(spans).1 == end
    && (forall i :: 0 <= i < |spans| ==>
          spans[i].0 <= spans[i].1 && (i > 0 ==> spans[i].0 == spans[i - 1].1 && spans[i].0 < spans[i].1))
  }

  /** The stretches of one logical line have the spots of the whole line. */
  lemma {:induction false} TilesSpots(buffer: TextBuffer, lineIdx: nat, spans: seq<Span>, end: nat, n: nat, total: nat)
    requires Tiles(spans, end) && end <= total
    ensures SpansSpots(buffer, Lift(lineIdx, spans), n, total)
         == StretchSpots(FlatStart(buffer, lineIdx), 0, end, n, total)
  {
    var lines, front := Lift(lineIdx, spans), spans[..|spans| - 1];
    assert lines[..|lines| - 1] == Lift(lineIdx, front);
    assert LastOf(lines) == VisualLine(lineIdx, LastOf(spans).0, LastOf(spans).1);
    if |spans| > 1 {
      assert LastOf(front) == spans[|spans| - 2] && LastOf(front).1 == LastOf(spans).0;
      TilesSpots(buffer, lineIdx, front, LastOf(front).1, n, total);
    } else {
      assert Lift(lineIdx, front) == [];
    }
  }

  lemma GreedyTiles(m: Margins, advs: seq<int>, spans: seq<Span>)
    requires Greedy(m, advs, spans)
    ensures Tiles(spans, |advs|)
  {
    assert GreedyLine(m, advs, spans, 0) && GreedyLine(m, advs, spans, |spans| - 1);
    forall i | 0 <= i < |spans|
      ensures spans[i].0 <= spans[i].1 && (i > 0 ==> spans[i].0 == spans[i - 1].1 && spans[i].0 < spans[i].1)
    {
      assert GreedyLine(m, advs, spans, i);
    }
  }

  /** The spots of whole logical lines. */
  function TextSpots(buffer: TextBuffer, n: nat, total: nat): seq<nat> {
    if buffer == [] then []
    else
      var k := |buffer| - 1;
      TextSpots(buffer[..k], n, total) + StretchSpots(FlatStart(buffer, k), 0, |buffer[k]|, n, total)
  }

  lemma {:induction false} BatchInRange(m: Margins, buffer: TextBuffer, advance: byte -> int)
    ensures forall i :: 0 <= i < |BatchLines(m, buffer, advance)| ==> InRange(buffer, BatchLines(m, buffer, advance)[i])
  {
    if buffer != [] {
      var k := |buffer| - 1;
      var front, spans := BatchLines(m, buffer[..k], advance), Wrap(m, Advances(buffer[k], advance));
      BatchInRange(m, buffer[..k], advance);
      var lines := BatchLines(m, buffer, advance);
      assert lines == front + Lift(k, spans);
      forall i | 0 <= i < |lines|
        ensures InRange(buffer, lines[i])
      {
        if i < |front| {
          assert InRange(buffer[..k], front[i]);
        } else {
          assert lines[i] == Lift(k, spans)[i - |front|];
        }
      }
    }
  }

  lemma {:induction false} BatchSpots(m: Margins, buffer: TextBuffer, advance: byte -> int, n: nat, total: nat)
    requires |AllGlyphs(buffer)| <= total
    ensures SpansSpots(buffer, BatchLines(m, buffer, advance), n, total) == TextSpots(buffer, n, total)
  {
    if buffer != [] {
      var k := |buffer| - 1;
      var advs := Advances(buffer[k], advance);
      var front, last := BatchLines(m, buffer[..k], advance), Lift(k, Wrap(m, advs));
      BatchSpots(m, buffer[..k], advance, n, total);
      BatchInRange(m, buffer[..k], advance);
      SpansSpotsConcat(buffer, front, last, n, total);
      SpansSpotsPrefix(buffer, k, front, n, total);
      WrapIsGreedy(m, advs);
      GreedyTiles(m, advs, Wrap(m, advs));
      TilesSpots(buffer, k, Wrap(m, advs), |advs|, n, total);
    }
  }

  /**
   Where the cursor of index `n` is drawn when a laid-out text is on screen as a whole: on every
   logical line with more than `n` glyphs before its glyph `n`, and if `n` is the length of the
   text, behind every logical line of that length.
   */
  lemma CursorSpots(m: Margins, buffer: TextBuffer, left: int, y: int, pitch: int, n: nat, advance: byte -> int)
    ensures var lines := BatchLines(m, buffer, advance);
            (forall i :: 0 <= i < |lines| ==> InRange(buffer, lines[i])) &&
            PageSpots(buffer, lines, left, y, pitch, Some(n), advance) == TextSpots(buffer, n, |AllGlyphs(buffer)|)
  {
    BatchInRange(m, buffer, advance);
    PageSpotsAre(buffer, BatchLines(m, buffer, advance), left, y, pitch, n, advance);
    BatchSpots(m, buffer, advance, n, |AllGlyphs(buffer)|);
  }

  /** Number of logical lines with more than `n` glyphs. */
  function LongerThan(buffer: TextBuffer, n: nat): nat {
    |LinesOf(buffer, (len: nat) => len > n)|
  }

  /** Number of logical lines with exactly `n` glyphs. */
  function OfLength(buffer: TextBuffer, n: nat): nat {
    |LinesOf(buffer, (len: nat) => len == n)|
  }

  function LinesOf(buffer: TextBuffer, p: nat -> bool): set<int> {
    set i | 0 <= i < |buffer| && p(|buffer[i]|)
  }

  lemma LinesOfStep(buffer: TextBuffer, p: nat -> bool)
    requires buffer != []
    ensures var k := |buffer| - 1; |LinesOf(buffer, p)| == |LinesOf(buffer[..k], p)| + if p(|buffer[k]|) then 1 else 0
  {
    var k := |buffer| - 1;
    var before := LinesOf(buffer[..k], p);
    assert LinesOf(buffer, p) == before + if p(|buffer[k]|) then {k} else {};
    assert k !in before;
  }

  lemma {:induction false} SpotCount(buffer: TextBuffer, n: nat, total: nat)
    ensures |TextSpots(buffer, n, total)| == LongerThan(buffer, n) + if n == total then OfLength(buffer, n) else 0
  {
    if buffer != [] {
      SpotCount(buffer[..|buffer| - 1], n, total);
      LinesOfStep(buffer, (len: nat) => len > n);
      LinesOfStep(buffer, (len: nat) => len == n);
    }
  }

  /** How often the cursor is drawn. */
  lemma CursorCount(m: Margins, buffer: TextBuffer, left: int, y: int, pitch: int, n: nat, advance: byte -> int)
    ensures var lines, total := BatchLines(m, buffer, advance), |AllGlyphs(buffer)|;
            (forall i :: 0 <= i < |lines| ==> InRange(buffer, lines[i])) &&
            Cursors(PageOps(buffer, lines, left, y, pitch, Some(n), advance))
            == LongerThan(buffer, n) + if n == total then OfLength(buffer, n) else 0
  {
    CursorSpots(m, buffer, left, y, pitch, n, advance);
    PageCursors(buffer, BatchLines(m, buffer, advance), left, y, pitch, Some(n), advance);
    SpotCount(buffer, n, |AllGlyphs(buffer)|);
  }

  /** Line `i` is the first with glyphs, it has more than `n`, and no later line has. */
  ghost predicate OnlyLongLine(buffer: TextBuffer, n: nat, i: nat) {
    && i < |buffer| && n < |buffer[i]|
    && (forall j :: 0 <= j < i ==> buffer[j] == [])
    && (forall j :: i < j < |buffer| ==> |buffer[j]| <= n)
  }

  /** Index `n` as documented: one cursor, before glyph `n` of the text, or behind the text when `n` is its length. */
  ghost predicate AsDocumented(buffer: TextBuffer, n: nat) {
    TextSpots(buffer, n, |AllGlyphs(buffer)|) == if n <= |AllGlyphs(buffer)| then [n] else []
  }

  /**
   Exactly when the cursor is drawn as documented: inside the text when only the first line with
   glyphs is longer than `n`; at its end when one line holds the whole text, and a text without
   glyphs has one line only; beyond the end always.
   */
  lemma CursorAsDocumented(buffer: TextBuffer, n: nat)
    ensures AsDocumented(buffer, n) <==>
            var total := |AllGlyphs(buffer)|;
            if n < total then exists i :: OnlyLongLine(buffer, n, i)
            else if n == total then HasLine(buffer, total) && (total == 0 ==> |buffer| == 1)
            else true
  {
    var total := |AllGlyphs(buffer)|;
    if n < total {
      if AsDocumented(buffer, n) { var i := SpotMeansLongLine(buffer, n, total); }
      if i :| OnlyLongLine(buffer, n, i) { LongLineMeansSpot(buffer, n, total, i); }
    } else if n == total {
      if total > 0 {
        EndSpots(buffer, total);
      } else {
        EmptySpots(buffer);
        assert buffer != [] ==> |buffer[0]| == total;
      }
    } else {
      NoSpots(buffer, n, total);
    }
  }

  /** A line is no longer than the text. */
  lemma {:induction false} LineInText(buffer: TextBuffer, i: nat)
    requires i < |buffer|
    ensures FlatStart(buffer, i) + |buffer[i]| <= |AllGlyphs(buffer)|
  {
    var k := |buffer| - 1;
    if i < k {
      LineInText(buffer[..k], i);
      assert buffer[..k][..i] == buffer[..i];
    }
  }

  lemma {:induction false} NoGlyphs(buffer: TextBuffer)
    ensures AllGlyphs(buffer) == [] <==> forall j :: 0 <= j < |buffer| ==> buffer[j] == []
  {
    if buffer != [] { NoGlyphs(buffer[..|buffer| - 1]); }
  }

  lemma {:induction false} NoSpots(buffer: TextBuffer, n: nat, total: nat)
    requires n != total && ((forall j :: 0 <= j < |buffer| ==> |buffer[j]| <= n) || n > total >= |AllGlyphs(buffer)|)
    ensures TextSpots(buffer, n, total) == []
  {
    if buffer != [] {
      var k := |buffer| - 1;
      NoSpots(buffer[..k], n, total);
      if n > total { LineInText(buffer, k); }
    }
  }

  lemma {:induction false} LongLineMeansSpot(buffer: TextBuffer, n: nat, total: nat, i: nat)
    requires n != total && OnlyLongLine(buffer, n, i)
    ensures TextSpots(buffer, n, total) == [n]
  {
    var k := |buffer| - 1;
    if i == k {
      NoSpots(buffer[..k], n, total);
      NoGlyphs(buffer[..k]);
    } else {
      LongLineMeansSpot(buffer[..k], n, total, i);
    }
  }

  lemma {:induction false} SpotMeansLongLine(buffer: TextBuffer, n: nat, total: nat) returns (i: nat)
    requires n != total && TextSpots(buffer, n, total) == [n]
    ensures OnlyLongLine(buffer, n, i)
  {
    var k := |buffer| - 1;
    if n < |buffer[k]| {
      i := k;
      assert LastOf(TextSpots(buffer, n, total)) == FlatStart(buffer, k) + n;
      NoGlyphs(buffer[..k]);
    } else {
      assert TextSpots(buffer, n, total) == TextSpots(buffer[..k], n, total);
      i := SpotMeansLongLine(buffer[..k], n, total);
    }
  }

  /** Some line has exactly `n` glyphs. */
  ghost predicate HasLine(buffer: TextBuffer, n: nat) {
    exists i :: 0 <= i < |buffer| && |buffer[i]| == n
  }

  lemma HasLineStep(buffer: TextBuffer, n: nat)
    requires buffer != []
    ensures var k := |buffer| - 1; HasLine(buffer, n) <==> HasLine(buffer[..k], n) || |buffer[k]| == n
  {
    var k := |buffer| - 1;
    if i :| 0 <= i < k && |buffer[..k][i]| == n { assert |buffer[i]| == n; }
    if i :| 0 <= i < |buffer| && |buffer[i]| == n { assert i < k ==> |buffer[..k][i]| == n; }
  }

  lemma {:induction false} EndSpots(buffer: TextBuffer, total: nat)
    requires total > 0 && |AllGlyphs(buffer)| <= total
    ensures TextSpots(buffer, total, total) == if HasLine(buffer, total) then [total] else []
  {
    if buffer != [] {
      var k := |buffer| - 1;
      HasLineStep(buffer, total);
      assert |AllGlyphs(buffer)| == FlatStart(buffer, k) + |buffer[k]|;
      EndSpots(buffer[..k], total);
      if |buffer[k]| == total && HasLine(buffer[..k], total) {
        var i :| 0 <= i < k && |buffer[..k][i]| == total;
        LineInText(buffer[..k], i);
      }
    }
  }

  lemma {:induction false} EmptySpots(buffer: TextBuffer)
    requires AllGlyphs(buffer) == []
    ensures TextSpots(buffer, 0, 0) == seq(|buffer|, _ => 0) && forall i :: 0 <= i < |buffer| ==> buffer[i] == []
  {
    NoGlyphs(buffer);
    if buffer != [] { EmptySpots(buffer[..|buffer| - 1]); }
  }

  /**
   With one logical line laid out in full, as the console uses the box, a cursor index up to the
   number of glyphs is drawn once, where it belongs, and a larger one never.
   */
  lemma CursorOnceInOneLine(m: Margins, line: LogicalLine, left: int, y: int, pitch: int, n: nat, advance: byte -> int)
    ensures var lines := BatchLines(m, [line], advance);
            (forall i :: 0 <= i < |lines| ==> InRange([line], lines[i])) &&
            PageSpots([line], lines, left, y, pitch, Some(n), advance) == if n <= |line| then [n] else []
  {
    var buffer := [line];
    assert buffer[..0] == [] && AllGlyphs(buffer) == line;
    CursorSpots(m, buffer, left, y, pitch, n, advance);
    CursorAsDocumented(buffer, n);
    if n < |line| {
      assert OnlyLongLine(buffer, n, 0);
    } else if n == |line| {
      assert |buffer[0]| == n && HasLine(buffer, n);
    }
  }

  /** With two one-glyph logical lines the cursor index 0 is drawn twice: indices restart on every logical line. */
  lemma CursorTwiceInTwoLines(a: Glyph, b: Glyph, m: Margins, advance: byte -> int, left: int, y: int, pitch: int)
    ensures var buffer := [[a], [b]];
            var lines := BatchLines(m, buffer, advance);
            (forall i :: 0 <= i < |lines| ==> InRange(buffer, lines[i])) &&
            PageSpots(buffer, lines, left, y, pitch, Some(0), advance) == [0, 1]
  {
    var buffer := [[a], [b]];
    CursorSpots(m, buffer, left, y, pitch, 0, advance);
    var one: TextBuffer := buffer[..1];
    assert one == [[a]] && one[..0] == [];
    assert AllGlyphs(one) == [a];
    assert AllGlyphs(buffer) == AllGlyphs(one) + [b];
    assert FlatStart(buffer, 1) == 1 && FlatStart(one, 0) == 0;
    assert TextSpots(one, 0, 2) == [] + StretchSpots(0, 0, 1, 0, 2);
    assert TextSpots(buffer, 0, 2) == TextSpots(one, 0, 2) + StretchSpots(1, 0, 1, 0, 2);
  }
}
