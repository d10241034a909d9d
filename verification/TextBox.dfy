/**
 The text box: parser, logical lines, visual lines, scrolling and the choice of what to draw.
 Glyph advances and line metrics come from the font and are uninterpreted functions.
 */
module TextBox {
  import opened Wrappers
  import opened Bytes
  import opened DivMod
  import opened Color
  import opened TextParser
  import opened TextContent
  import opened TextLayout
  import opened VisualLines
  import opened TextDrawing

  const MIN_FONT_SIZE := 4

  const MAX_FONT_SIZE := 72

  /** Division that truncates towards zero. */
  function TruncDiv(a: int, b: int): int
    requires b != 0
  {
    if a >= 0 then (if b > 0 then a / b else -(a / -b)) else if b > 0 then -(-a / b) else -a / -b
  }

  /** `as usize`, 64 bits wide: negative numbers wrap to the top of the range. */
  function AsUsize(v: int): nat {
    v % 0x1_0000_0000_0000_0000
  }

  /** Truncation is symmetric about zero, unlike rounding down. */
  lemma TruncDivIsOdd(a: int, b: int)
    requires b != 0
    ensures TruncDiv(-a, b) == -TruncDiv(a, b) == TruncDiv(a, -b)
    ensures a >= 0 && b > 0 ==> TruncDiv(a, b) == a / b
  {
  }

  /** A count that is not negative is itself; a negative one wraps to the top of 64 bits. */
  lemma AsUsizeWraps(v: int)
    requires -0x8000_0000 <= v < 0x8000_0000
    ensures AsUsize(v) == if v >= 0 then v else 0x1_0000_0000_0000_0000 + v
  {
  }

  function SaturatingSub(a: int, b: int): nat {
    if a > b then a - b else 0
  }

  datatype Config = Config(
    letterSpacing: int, lineSpacing: int,
    left: int, right: int, top: int, bottom: int,
    color: Rgb)

  lemma QuotientAtMost(a: int, b: int)
    requires a >= 0 && b > 0
    ensures a / b <= a
  {
    DivBorder(a, b, a + 1);
    MulMono(1, b, a + 1);
  }

  /** With the margins of the minimum width, the pen is right of its due place by the left padding. */
  lemma MinWidthIsUniform(m: Margins, a: int, n: nat)
    requires m.end == n * a
    ensures UniformFits(m, a, n) <==> n == 0 || m.left <= if a < 0 then (n - 1) * a else 0
  {
    assert n > 0 ==> 1 * a == a && (n - 1) * a == n * a - a;
    if UniformFits(m, a, n) && n > 0 { assert m.left + 1 * a <= m.end && m.left + n * a <= m.end; }
    forall j {:trigger j * a} | 0 < j <= n && m.left <= if a < 0 then (n - 1) * a else 0
      ensures m.left + j * a <= m.end
    {
      if a < 0 { assert (j - 1) * a <= 0; } else { assert (n - j) * a >= 0; }
    }
  }

  class TextBox {
    const width: nat
    const height: nat
    const config: Config
    /** Rounded glyph advance and new-line size at a font size. */
    const glyphAdvance: (byte, nat) -> int
    const newLineSize: nat -> int
    const descent: nat -> int
    var fontSize: nat
    var cursorX: int
    var buffer: TextBuffer
    var visualLines: seq<VisualLine>
    var scrollOffset: nat
    var cursorIdx: Option<nat>
    var parser: Parser

    /** `line_height`, documented as the distance of two baselines. */
    function LineHeight(size: nat): int {
      newLineSize(size) + config.lineSpacing
    }

    /** Distance of two lines as scrolling and drawing compute it: the spacing is counted twice. */
    function Pitch(size: nat): int {
      LineHeight(size) + config.lineSpacing
    }

    /** Lines are drawn at their documented distance exactly when there is no spacing. */
    lemma PitchAsDocumentedIff(size: nat)
      ensures Pitch(size) == LineHeight(size) <==> config.lineSpacing == 0
    {
    }

    constructor (width: nat, height: nat, config: Config, fontSize: nat,
                 glyphAdvance: (byte, nat) -> int, newLineSize: nat -> int, descent: nat -> int)
      requires MIN_FONT_SIZE <= fontSize <= MAX_FONT_SIZE
      requires forall s :: MIN_FONT_SIZE <= s <= MAX_FONT_SIZE ==>
                 newLineSize(s) + config.lineSpacing + config.lineSpacing != 0
      ensures fresh(parser) && Valid() && LaidOut() && buffer == [[]] && scrollOffset == 0 && this.fontSize == fontSize
      ensures this.config == config && this.width == width && this.height == height
    {
      this.width, this.height, this.config, this.fontSize := width, height, config, fontSize;
      this.glyphAdvance, this.newLineSize, this.descent := glyphAdvance, newLineSize, descent;
      buffer, visualLines, scrollOffset, cursorIdx := [[]], [VisualLine(0, 0, 0)], 0, None;
      cursorX := config.left;
      parser := new Parser(config.color);
      new;
      EmptyBox(buffer, visualLines);
    }

    lemma EmptyBox(text: TextBuffer, lines: seq<VisualLine>)
      requires text == [[]] && lines == [VisualLine(0, 0, 0)]
      ensures Partition(text, lines) && AllPrintable(text)
      ensures BatchLines(Margins(), text, AdvanceFn()) == lines && BatchPen(Margins(), text, AdvanceFn()) == config.left
    {
      BatchNewLine(Margins(), [], AdvanceFn());
      var empty: TextBuffer := [];
      assert text == empty + [[]];
      assert BatchLines(Margins(), empty, AdvanceFn()) == [];
      assert text[..0] == empty && lines[..0] == [];
      assert AllGlyphs(text) == AllGlyphs(empty) + [];
      assert SliceOf(text, lines[0]) == [];
    }

    /** `calc_advance` at the current font size. */
    function AdvanceFn(): byte -> int
      reads this`fontSize
    {
      var size := fontSize;
      (b: byte) => glyphAdvance(b, size) + config.letterSpacing
    }

    function Margins(): Margins {
      TextLayout.Margins(config.left, width - config.right - config.left)
    }

    function MaxVisibleLines(): nat
      requires Pitch(fontSize) != 0
      reads this`fontSize
    {
      AsUsize(TruncDiv(height - config.bottom - config.top, Pitch(fontSize)))
    }

    /** The advance of the widest of the first `n` printable characters, not below 0. */
    function Widest(size: nat, n: nat): (r: int)
      requires n <= 0x5F
      ensures r >= 0 && forall b: byte :: 0x20 <= b < 0x20 + n ==> glyphAdvance(b, size) <= r
      ensures r > 0 ==> exists b: byte :: 0x20 <= b < 0x20 + n && glyphAdvance(b, size) == r
    {
      if n == 0 then 0
      else
        var before, a := Widest(size, n - 1), glyphAdvance(0x20 + n - 1, size);
        if a > before then a else before
    }

    /** The room every character gets in `MinDimensions`. */
    function AdvancePerChar(size: nat): int {
      Widest(size, 0x5F) + config.letterSpacing
    }

    /** The dimensions said to be required to fit so many characters and lines. */
    method MinDimensions(numChars: nat, numLines: nat) returns (w: int, h: int)
      ensures w == config.left + numChars * AdvancePerChar(fontSize) + config.right
      ensures h == config.top + numLines * LineHeight(fontSize) + config.bottom
    {
      var maxAdvance := 0;
      for i := 0 to 0x5F
        invariant maxAdvance == Widest(fontSize, i)
      {
        var a := glyphAdvance(0x20 + i, fontSize);
        if a > maxAdvance { maxAdvance := a; }
      }
      w := config.left + numChars * (maxAdvance + config.letterSpacing) + config.right;
      h := config.top + numLines * LineHeight(fontSize) + config.bottom;
    }

    /** The advances of a line of printable characters. */
    function Advances(line: seq<byte>): seq<int>
      reads this`fontSize
    {
      var advance := AdvanceFn();
      seq(|line|, i requires 0 <= i < |line| => advance(line[i]))
    }

    /** Whatever `n` printable characters the line holds, it is not broken. */
    ghost predicate HoldsLinesOf(n: nat)
      reads this`fontSize
    {
      forall line: seq<byte> :: |line| == n && (forall i :: 0 <= i < n ==> IsPrintable(line[i])) ==>
        Wrap(Margins(), Advances(line)) == [(0, n)]
    }

    /**
     A box of the minimum width for `n` characters holds every line of `n` characters exactly when
     there is no padding on the left, or, with characters that move the pen backwards, when the
     first of them still fits.
     */
    lemma MinWidthFitsIff(n: nat)
      requires forall b: byte :: IsPrintable(b) ==> glyphAdvance(b, fontSize) >= 0
      requires width == config.left + n * AdvancePerChar(fontSize) + config.right
      ensures var a := AdvancePerChar(fontSize);
              HoldsLinesOf(n) <==> n == 0 || config.left <= if a < 0 then (n - 1) * a else 0
    {
      var m, a := Margins(), AdvancePerChar(fontSize);
      MinWidthIsUniform(m, a, n);
      if HoldsLinesOf(n) { WidestLine(n); }
      forall line: seq<byte> | UniformFits(m, a, n) && |line| == n && forall i :: 0 <= i < n ==> IsPrintable(line[i])
        ensures Wrap(m, Advances(line)) == [(0, n)]
      {
        StaysWhole(m, Advances(line), a);
      }
    }

    lemma WidestLine(n: nat)
      requires forall b: byte :: IsPrintable(b) ==> glyphAdvance(b, fontSize) >= 0
      requires HoldsLinesOf(n)
      ensures UniformFits(Margins(), AdvancePerChar(fontSize), n)
    {
      var b: byte := WidestChar(fontSize);
      var line := seq(n, i => b);
      assert Wrap(Margins(), Advances(line)) == [(0, n)];
      StaysWhole(Margins(), Advances(line), AdvancePerChar(fontSize));
    }

    lemma WidestChar(size: nat) returns (b: byte)
      requires forall b: byte :: IsPrintable(b) ==> glyphAdvance(b, size) >= 0
      ensures IsPrintable(b) && glyphAdvance(b, size) == Widest(size, 0x5F)
    {
      if Widest(size, 0x5F) > 0 {
        b :| 0x20 <= b < 0x20 + 0x5F && glyphAdvance(b, size) == Widest(size, 0x5F);
      } else {
        b := 0x20;
      }
    }

    /**
     A box of the minimum height for `n` lines shows `n` lines exactly when the line spacing, which
     every line but none of the minimum counts twice, takes no room.
     */
    lemma MinHeightFitsIff(n: nat)
      requires LineHeight(fontSize) > 0 && Pitch(fontSize) > 0 && n * LineHeight(fontSize) < 0x8000_0000
      requires height == config.top + n * LineHeight(fontSize) + config.bottom
      ensures MaxVisibleLines() >= n <==> n == 0 || config.lineSpacing <= 0
    {
      var h, s := LineHeight(fontSize), config.lineSpacing;
      DivBorder(n * h, h + s, n);
      DivBorder(n * h, h + s, 0);
      QuotientAtMost(n * h, h + s);
      assert n * (h + s) == n * h + n * s;
      if n > 0 && s > 0 { MulMono(1, n, s); } else if s <= 0 { MulMono(0, n, -s); }
    }

    /**
     The visual lines partition the buffer, scrolling stays where a full page is shown, and the
     parser is in a good state.
     */
    ghost predicate Valid()
      reads this, parser
    {
      && MIN_FONT_SIZE <= fontSize <= MAX_FONT_SIZE
      && (forall s :: MIN_FONT_SIZE <= s <= MAX_FONT_SIZE ==> Pitch(s) != 0)
      && Partition(buffer, visualLines)
      && scrollOffset <= SaturatingSub(|visualLines|, MaxVisibleLines())
      && ParserInv(parser.State(), buffer)
    }

    /** The visual lines and the pen are those of the batch layout at the current font size. */
    ghost predicate LaidOut()
      reads this
    {
      && buffer != [] && visualLines == BatchLines(Margins(), buffer, AdvanceFn())
      && cursorX == BatchPen(Margins(), buffer, AdvanceFn())
    }

    /** Back to an empty box. */
    method ResetContent()
      requires Valid()
      modifies this
      ensures fresh(parser) && Valid() && LaidOut()
      ensures buffer == [[]] && visualLines == [VisualLine(0, 0, 0)]
      ensures scrollOffset == 0 && cursorIdx == None && fontSize == old(fontSize)
      ensures parser.State() == Parsing(Text, config.color, [])
    {
      buffer, visualLines, scrollOffset, cursorIdx := [[]], [VisualLine(0, 0, 0)], 0, None;
      cursorX := config.left;
      parser := new Parser(config.color);
      EmptyBox(buffer, visualLines);
    }

    /** One byte of text or escape. */
    method PushByte(b: byte)
      requires Valid()
      modifies this, parser
      ensures Valid() && parser == old(parser)
      ensures (parser.State(), buffer) == var r := Push(old(parser.State()), b, old(buffer)); (r.0, r.1)
      ensures (visualLines, cursorX) == LayoutPush(Margins(), old(visualLines), old(cursorX), old(buffer),
                                                   Push(old(parser.State()), b, old(buffer)).2, AdvanceFn())
      ensures scrollOffset == old(scrollOffset) && fontSize == old(fontSize) && cursorIdx == old(cursorIdx)
      ensures old(LaidOut()) ==> LaidOut()
    {
      PushInv(parser.State(), b, buffer);
      PushResult(parser.State(), b, buffer);
      PushKeepsLayout(parser.State(), b, buffer, Margins(), visualLines, cursorX, AdvanceFn());
      var lines, result := parser.PushByte(b, buffer);
      Accept(lines, result);
    }

    /** The layout follows the parser's result. */
    method Accept(lines: TextBuffer, result: ParserResult)
      requires buffer != [] && visualLines != []
      requires match result
               case PushedGlyph(g) => lines == Grown(buffer, g)
               case NewLogicalLine => lines == buffer + [[]]
               case NoNewGlyph => lines == buffer
      modifies this`buffer, this`visualLines, this`cursorX
      ensures buffer == lines
      ensures (visualLines, cursorX)
           == LayoutPush(Margins(), old(visualLines), old(cursorX), old(buffer), result, AdvanceFn())
    {
      buffer := lines;
      match result {
        case PushedGlyph(glyph) => UpdateLastLineLayout(glyph);
        case NewLogicalLine =>
          cursorX := config.left;
          visualLines := visualLines + [VisualLine(|buffer| - 1, 0, 0)];
        case NoNewGlyph =>
      }
    }

    /** Adjust the last visual line to the glyph just pushed. */
    method UpdateLastLineLayout(glyph: Glyph)
      requires visualLines != [] && buffer != [] && LastOf(buffer) != []
      modifies this`visualLines, this`cursorX
      ensures (visualLines, cursorX)
           == LayoutStep(Margins(), old(visualLines), old(cursorX), |buffer| - 1, |LastOf(buffer)| - 1,
                         AdvanceFn()(glyph.b))
    {
      var advance := AdvanceFn()(glyph.b);
      var lastVisualLine := visualLines[|visualLines| - 1];
      cursorX := cursorX + advance;
      var lineEnd := width - config.right - config.left;
      if cursorX > lineEnd {
        var i := |buffer[|buffer| - 1]| - 1;
        visualLines := visualLines[|visualLines| - 1 := lastVisualLine.(end := i)];
        visualLines := visualLines + [VisualLine(|buffer| - 1, i, i + 1)];
        cursorX := config.left + advance;
      } else {
        visualLines := visualLines[|visualLines| - 1 := lastVisualLine.(end := lastVisualLine.end + 1)];
      }
    }

    /** Replace the content. */
    method SetText(text: seq<byte>)
      requires Valid()
      modifies this, parser
      ensures Valid() && LaidOut() && scrollOffset == 0 && fontSize == old(fontSize)
      ensures (parser.State(), buffer) == Feed(Parsing(Text, config.color, []), text, [[]])
      ensures 0x1B !in text ==> buffer == BufferOf(Typed(text, config.color))
      ensures fresh(parser)
    {
      ResetContent();
      WriteStr(text);
      if 0x1B !in text { PlainBuffer(Parsing(Text, config.color, []), text); }
    }

    /** `write_str`: push every byte. */
    method WriteStr(text: seq<byte>)
      requires Valid()
      modifies this, parser
      ensures Valid() && parser == old(parser) && fontSize == old(fontSize) && scrollOffset == old(scrollOffset)
      ensures (parser.State(), buffer) == Feed(old(parser.State()), text, old(buffer))
      ensures 0x1B !in text && old(parser.mode) == Text ==>
        StreamOf(buffer) == StreamOf(old(buffer)) + Typed(text, old(parser.color))
      ensures old(LaidOut()) ==> LaidOut()
    {
      if 0x1B !in text && parser.mode == Text { PlainTextIsStored(parser.State(), text, buffer); }
      for i := 0 to |text|
        invariant Valid() && parser == old(parser) && fontSize == old(fontSize) && scrollOffset == old(scrollOffset)
        invariant (parser.State(), buffer) == Feed(old(parser.State()), text[..i], old(buffer))
        invariant old(LaidOut()) ==> LaidOut()
      {
        PushByte(text[i]);
        FeedNext(old(parser.State()), text, i, old(buffer));
      }
      assert text[..|text|] == text;
    }

    /** Empty the box. */
    method Clear()
      requires Valid()
      modifies this
      ensures fresh(parser) && Valid() && LaidOut() && buffer == [[]] && scrollOffset == 0
    {
      ResetContent();
    }

    /** The lines already laid out keep their breaks; only new glyphs use the new size. */
    method SetFontSize(size: nat)
      requires Valid()
      modifies this
      ensures Valid() && parser == old(parser)
      ensures fontSize
           == (if size < 4 then 4 else if size > 72 then 72 else size)
      ensures scrollOffset == 0 && buffer == old(buffer) && visualLines == old(visualLines) && cursorX == old(cursorX)
    {
      fontSize := if size < MIN_FONT_SIZE then MIN_FONT_SIZE else if size > MAX_FONT_SIZE then MAX_FONT_SIZE else size;
      scrollOffset := 0;
    }

    /** Scroll up (positive) or down; the offset saturates at both ends. */
    method Scroll(delta: int)
      requires Valid()
      modifies this`scrollOffset
      ensures Valid()
      ensures delta < 0 ==> scrollOffset == if old(scrollOffset) + delta > 0 then old(scrollOffset) + delta else 0
      ensures delta >= 0 ==>
        scrollOffset == (var most := SaturatingSub(|visualLines|, MaxVisibleLines());
                         if old(scrollOffset) + delta < most then old(scrollOffset) + delta else most)
    {
      if delta < 0 {
        scrollOffset := SaturatingSub(scrollOffset, -delta);
      } else {
        var most := SaturatingSub(|visualLines|, MaxVisibleLines());
        scrollOffset := if scrollOffset + delta < most then scrollOffset + delta else most;
      }
    }

    /** The page on screen: always in range, and full whenever there are enough lines. */
    method LinesToRender() returns (start: nat, end: nat)
      requires Valid()
      ensures start <= end <= |visualLines| && end == |visualLines| - scrollOffset
      ensures end - start == if |visualLines| < MaxVisibleLines() then |visualLines| else MaxVisibleLines()
    {
      end := |visualLines| - scrollOffset;
      start := SaturatingSub(end, MaxVisibleLines());
    }

    /** Draw the page from the bottom line up. */
    method Render() returns (ops: seq<DrawOp>)
      requires Valid()
      ensures var end := |visualLines| - scrollOffset;
              var page := visualLines[SaturatingSub(end, MaxVisibleLines())..end];
              ops == PageOps(buffer, page, config.left, height - config.bottom - descent(fontSize),
                             Pitch(fontSize), cursorIdx, AdvanceFn())
    {
      var start, end := LinesToRender();
      ops := RenderPage(visualLines[start..end], height - config.bottom - descent(fontSize));
    }

    /** Draw visual lines, the last one at `bottom`. */
    method RenderPage(page: seq<VisualLine>, bottom: int) returns (ops: seq<DrawOp>)
      requires forall i :: 0 <= i < |page| ==> InRange(buffer, page[i])
      ensures ops == PageOps(buffer, page, config.left, bottom, Pitch(fontSize), cursorIdx, AdvanceFn())
    {
      var totalGlyphs, pitch, k, y := |AllGlyphs(buffer)|, Pitch(fontSize), |page|, bottom;
      ghost var advance := AdvanceFn();
      ghost var all := PageOps(buffer, page, config.left, bottom, pitch, cursorIdx, advance);
      ops := [];
      assert page[..k] == page;
      while k > 0
        invariant 0 <= k <= |page|
        invariant ops + PageOps(buffer, page[..k], config.left, y, pitch, cursorIdx, advance) == all
      {
        k := k - 1;
        PageStep(ops, buffer, page, k, config.left, y, pitch, cursorIdx, advance);
        var lineOps := RenderLine(page[k], y, totalGlyphs);
        ops := ops + lineOps;
        y := y - pitch;
      }
    }

    /** Draw one visual line, left to right. */
    method RenderLine(line: VisualLine, y: int, totalGlyphs: nat) returns (ops: seq<DrawOp>)
      requires InRange(buffer, line) && totalGlyphs == |AllGlyphs(buffer)|
      ensures ops == VisualOps(buffer, line, config.left, y, cursorIdx, AdvanceFn())
    {
      var glyphs := SliceOf(buffer, line);
      var advance := AdvanceFn();
      var x := config.left;
      ops := [];
      for i := 0 to |glyphs|
        invariant ops + LineOps(glyphs, line.start, i, x, y, cursorIdx, advance)
               == LineOps(glyphs, line.start, 0, config.left, y, cursorIdx, advance)
        invariant PenAfter(glyphs, i, x, advance) == PenAfter(glyphs, 0, config.left, advance)
      {
        var flatIdx := line.start + i;
        ghost var before, x' := ops, x + advance(glyphs[i].b);
        ghost var rest := LineOps(glyphs, line.start, i + 1, x', y, cursorIdx, advance);
        if cursorIdx == Some(flatIdx) { ops := ops + [DrawCursor(x, y)]; }
        ops := ops + [DrawGlyph(glyphs[i], x, y)];
        assert ops + rest == before + LineOps(glyphs, line.start, i, x, y, cursorIdx, advance);
        x := x + advance(glyphs[i].b);
      }
      if cursorIdx == Some(totalGlyphs) && line.end == totalGlyphs { ops := ops + [DrawCursor(x, y)]; }
    }
  }
}
