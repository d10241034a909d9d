/**
 Visual lines: stretches of the logical lines that partition the text, laid out glyph by glyph and
 in agreement with the greedy layout of the whole buffer.
 */
module VisualLines {
  import opened Bytes
  import opened TextParser
  import opened TextLayout

  /** A stretch `start .. end` of logical line `lineIdx`. */
  datatype VisualLine = VisualLine(lineIdx: nat, start: nat, end: nat)

  // ---------------------------------------------------------------- visual lines partition the buffer

  predicate InRange(buffer: TextBuffer, v: VisualLine) {
    v.lineIdx < |buffer| && v.start <= v.end <= |buffer[v.lineIdx]|
  }

  function SliceOf(buffer: TextBuffer, v: VisualLine): seq<Glyph>
    requires InRange(buffer, v)
  {
    buffer[v.lineIdx][v.start..v.end]
  }

  function AllGlyphs(buffer: TextBuffer): seq<Glyph> {
    if buffer == [] then [] else AllGlyphs(buffer[..|buffer| - 1]) + buffer[|buffer| - 1]
  }

  function AllSlices(buffer: TextBuffer, lines: seq<VisualLine>): seq<Glyph>
    requires forall i :: 0 <= i < |lines| ==> InRange(buffer, lines[i])
  {
    if lines == [] then [] else AllSlices(buffer, lines[..|lines| - 1]) + SliceOf(buffer, lines[|lines| - 1])
  }

  /** Every slice is in range, together they are the buffer's glyphs in order, and the last one is still growing. */
  ghost predicate Partition(buffer: TextBuffer, lines: seq<VisualLine>) {
    && buffer != [] && lines != []
    && (forall i :: 0 <= i < |lines| ==> InRange(buffer, lines[i]))
    && AllSlices(buffer, lines) == AllGlyphs(buffer)
    && LastOf(lines).lineIdx == |buffer| - 1 && LastOf(lines).end == |LastOf(buffer)|
  }

  /** Growing the buffer at its end does not change slices that are already there. */
  lemma {:induction false} SlicesStay(buffer: TextBuffer, buffer': TextBuffer, lines: seq<VisualLine>)
    requires |buffer| <= |buffer'| && forall i :: 0 <= i < |buffer| ==> buffer[i] <= buffer'[i]
    requires forall i :: 0 <= i < |lines| ==> InRange(buffer, lines[i])
    ensures forall i :: 0 <= i < |lines| ==> InRange(buffer', lines[i])
    ensures AllSlices(buffer', lines) == AllSlices(buffer, lines)
  {
    if lines != [] {
      SlicesStay(buffer, buffer', lines[..|lines| - 1]);
      var v := LastOf(lines);
      assert SliceOf(buffer', v) == SliceOf(buffer, v);
    }
  }

  /** The buffer with `g` at the end of its last line. */
  function Grown(buffer: TextBuffer, g: Glyph): TextBuffer
    requires buffer != []
  {
    buffer[|buffer| - 1 := LastOf(buffer) + [g]]
  }

  lemma GrownGlyphs(buffer: TextBuffer, g: Glyph)
    requires buffer != []
    ensures AllGlyphs(Grown(buffer, g)) == AllGlyphs(buffer) + [g]
  {
    assert Grown(buffer, g)[..|buffer| - 1] == buffer[..|buffer| - 1];
  }

  /** The new glyph joins the last visual line. */
  lemma PartitionJoin(buffer: TextBuffer, lines: seq<VisualLine>, g: Glyph)
    requires Partition(buffer, lines)
    ensures var last := LastOf(lines);
            Partition(Grown(buffer, g), lines[|lines| - 1 := last.(end := last.end + 1)])
  {
    var last, front, buffer' := LastOf(lines), lines[..|lines| - 1], Grown(buffer, g);
    var last' := last.(end := last.end + 1);
    var lines' := lines[|lines| - 1 := last'];
    GrownGlyphs(buffer, g);
    SlicesStay(buffer, buffer', front);
    assert lines' == front + [last'] && lines'[..|lines| - 1] == front;
    assert LastOf(lines') == last' && InRange(buffer', last');
    assert SliceOf(buffer', last') == SliceOf(buffer, last) + [g];
    assert AllSlices(buffer', lines') == AllSlices(buffer, front) + (SliceOf(buffer, last) + [g]);
  }

  /** The new glyph starts a visual line of its own. */
  lemma PartitionWrap(buffer: TextBuffer, lines: seq<VisualLine>, g: Glyph)
    requires Partition(buffer, lines)
    ensures var n := |LastOf(buffer)|;
            Partition(Grown(buffer, g), lines + [VisualLine(|buffer| - 1, n, n + 1)])
  {
    var n, buffer' := |LastOf(buffer)|, Grown(buffer, g);
    var v := VisualLine(|buffer| - 1, n, n + 1);
    var lines' := lines + [v];
    GrownGlyphs(buffer, g);
    SlicesStay(buffer, buffer', lines);
    assert lines'[..|lines|] == lines && LastOf(lines') == v;
    assert SliceOf(buffer', v) == [g];
  }

  /** Either way of laying out the new glyph keeps the partition. */
  lemma PartitionStep(m: Margins, buffer: TextBuffer, lines: seq<VisualLine>, pen: int, g: Glyph, a: int)
    requires Partition(buffer, lines)
    ensures Partition(Grown(buffer, g), LayoutStep(m, lines, pen, |buffer| - 1, |LastOf(buffer)|, a).0)
  {
    if pen + a > m.end {
      assert lines[|lines| - 1 := LastOf(lines).(end := |LastOf(buffer)|)] == lines;
      PartitionWrap(buffer, lines, g);
    } else {
      PartitionJoin(buffer, lines, g);
    }
  }

  lemma PartitionNewLine(buffer: TextBuffer, lines: seq<VisualLine>)
    requires Partition(buffer, lines)
    ensures Partition(buffer + [[]], lines + [VisualLine(|buffer|, 0, 0)])
  {
    var buffer', lines' := buffer + [[]], lines + [VisualLine(|buffer|, 0, 0)];
    SlicesStay(buffer, buffer', lines);
    assert buffer'[..|buffer|] == buffer && lines'[..|lines|] == lines;
    assert SliceOf(buffer', VisualLine(|buffer|, 0, 0)) == [];
  }

  // ---------------------------------------------------------------- batch layout of the buffer

  function Advances(line: LogicalLine, advance: byte -> int): seq<int> {
    seq(|line|, i requires 0 <= i < |line| => advance(line[i].b))
  }

  function Lift(lineIdx: nat, spans: seq<Span>): seq<VisualLine> {
    seq(|spans|, i requires 0 <= i < |spans| => VisualLine(lineIdx, spans[i].0, spans[i].1))
  }

  /** Greedy wrapping of every logical line. */
  function BatchLines(m: Margins, buffer: TextBuffer, advance: byte -> int): seq<VisualLine> {
    if buffer == [] then []
    else BatchLines(m, buffer[..|buffer| - 1], advance) + Lift(|buffer| - 1, Wrap(m, Advances(LastOf(buffer), advance)))
  }

  function BatchPen(m: Margins, buffer: TextBuffer, advance: byte -> int): int
    requires buffer != []
  {
    Pen(m, Advances(LastOf(buffer), advance))
  }

  /** The incremental rule on visual lines: glyph number `n` of logical line `lineIdx` arrives. */
  function LayoutStep(m: Margins, lines: seq<VisualLine>, pen: int, lineIdx: nat, n: nat, a: int): (seq<VisualLine>,
                      int)
    requires lines != []
  {
    var last := LastOf(lines);
    if pen + a > m.end then (lines[|lines| - 1 := last.(end := n)] + [VisualLine(lineIdx, n, n + 1)], m.left + a)
    else (lines[|lines| - 1 := last.(end := last.end + 1)], pen + a)
  }

  lemma LayoutStepIsWrapStep(m: Margins, front: seq<VisualLine>, lineIdx: nat, spans: seq<Span>, pen: int, n: nat,
                             a: int)
    requires spans != []
    ensures var (s, p) := WrapStep(m, spans, pen, n, a);
            LayoutStep(m, front + Lift(lineIdx, spans), pen, lineIdx, n, a) == (front + Lift(lineIdx, s), p)
  {
    var lines, last := front + Lift(lineIdx, spans), LastOf(spans);
    assert LastOf(lines) == VisualLine(lineIdx, last.0, last.1);
    var (s, p) := WrapStep(m, spans, pen, n, a);
    assert LayoutStep(m, lines, pen, lineIdx, n, a).0 == front + Lift(lineIdx, s);
  }

  /** One glyph more: the incremental rule takes the batch layout to the batch layout. */
  lemma BatchGlyph(m: Margins, buffer: TextBuffer, g: Glyph, advance: byte -> int)
    requires buffer != []
    ensures var buffer' := Grown(buffer, g);
            BatchLines(m, buffer, advance) != [] &&
            LayoutStep(m, BatchLines(m, buffer, advance), BatchPen(m, buffer, advance),
                       |buffer| - 1, |LastOf(buffer)|, advance(g.b))
            == (BatchLines(m, buffer', advance), BatchPen(m, buffer', advance))
  {
    var buffer' := Grown(buffer, g);
    var advs, front := Advances(LastOf(buffer), advance), BatchLines(m, buffer[..|buffer| - 1], advance);
    assert buffer'[..|buffer| - 1] == buffer[..|buffer| - 1];
    assert Advances(LastOf(buffer'), advance) == advs + [advance(g.b)];
    WrapSnoc(m, advs, advance(g.b));
    LayoutStepIsWrapStep(m, front, |buffer| - 1, Wrap(m, advs), Pen(m, advs), |advs|, advance(g.b));
  }

  lemma BatchNewLine(m: Margins, buffer: TextBuffer, advance: byte -> int)
    ensures BatchLines(m, buffer + [[]], advance) == BatchLines(m, buffer, advance) + [VisualLine(|buffer|, 0, 0)]
    ensures BatchPen(m, buffer + [[]], advance) == m.left
  {
    var longer := buffer + [[]];
    assert longer[..|longer| - 1] == buffer && LastOf(longer) == [];
    assert Advances([], advance) == [];
    WrapEmpty(m);
    assert Lift(|buffer|, [(0, 0)]) == [VisualLine(|buffer|, 0, 0)];
  }

  /** What one parsed byte does to the visual lines and the pen. */
  function LayoutPush(m: Margins, lines: seq<VisualLine>, pen: int, buffer: TextBuffer, result: ParserResult,
                      advance: byte -> int): (seq<VisualLine>, int)
    requires lines != [] && buffer != []
  {
    match result
    case PushedGlyph(g) => LayoutStep(m, lines, pen, |buffer| - 1, |LastOf(buffer)|, advance(g.b))
    case NewLogicalLine => (lines + [VisualLine(|buffer|, 0, 0)], m.left)
    case NoNewGlyph => (lines, pen)
  }

  /** What `Push` reports is what it did to the buffer. */
  lemma PushResult(p: Parsing, b: byte, before: TextBuffer)
    requires before != []
    ensures var (_, after, result) := Push(p, b, before);
            match result
            case PushedGlyph(g) => after == Grown(before, g)
            case NewLogicalLine => after == before + [[]]
            case NoNewGlyph => after == before
  {
  }

  /** Every byte keeps the partition, and keeps the incremental layout equal to the batch layout. */
  lemma PushKeepsLayout(p: Parsing, b: byte, before: TextBuffer, m: Margins, lines: seq<VisualLine>, pen: int,
                        advance: byte -> int)
    requires Partition(before, lines)
    ensures var (_, after, result) := Push(p, b, before);
            var (lines', pen') := LayoutPush(m, lines, pen, before, result, advance);
            && Partition(after, lines') && |lines'| >= |lines|
            && ((lines, pen) == (BatchLines(m, before, advance), BatchPen(m, before, advance))
                ==> (lines', pen') == (BatchLines(m, after, advance), BatchPen(m, after, advance)))
  {
    var (_, after, result) := Push(p, b, before);
    PushResult(p, b, before);
    match result
    case PushedGlyph(g) =>
      PartitionStep(m, before, lines, pen, g, advance(g.b));
      BatchGlyph(m, before, g, advance);
    case NewLogicalLine =>
      PartitionNewLine(before, lines);
      BatchNewLine(m, before, advance);
    case NoNewGlyph =>
  }
}
