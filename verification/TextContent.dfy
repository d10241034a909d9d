/** Which text the parser stores: every printable byte, in order, in the colour of the moment, on its line. */
module TextContent {
  import opened Wrappers
  import opened Bytes
  import opened Color
  import opened TextParser
  import opened VisualLines

  // ---------------------------------------------------------------- a buffer as one stream

  /** A glyph, or `None` for a line break. */
  type Stream = seq<Option<Glyph>>

  function LineStream(line: LogicalLine): Stream {
    seq(|line|, i requires 0 <= i < |line| => Some(line[i]))
  }

  /** The lines of a buffer, with breaks between them. */
  function StreamOf(buffer: TextBuffer): Stream {
    if buffer == [] then []
    else if |buffer| == 1 then LineStream(buffer[0])
    else StreamOf(buffer[..|buffer| - 1]) + [None] + LineStream(buffer[|buffer| - 1])
  }

  /** The buffer that a stream spells. */
  function BufferOf(s: Stream): (buffer: TextBuffer)
    ensures buffer != []
  {
    if s == [] then [[]]
    else
      var before := BufferOf(s[..|s| - 1]);
      match s[|s| - 1]
      case None => before + [[]]
      case Some(g) => Grown(before, g)
  }

  lemma StreamGrows(buffer: TextBuffer, g: Glyph)
    requires buffer != []
    ensures StreamOf(Grown(buffer, g)) == StreamOf(buffer) + [Some(g)]
  {
    var n, after := |buffer| - 1, Grown(buffer, g);
    assert LineStream(buffer[n] + [g]) == LineStream(buffer[n]) + [Some(g)];
    assert after[n] == buffer[n] + [g] && after[..n] == buffer[..n];
  }

  lemma StreamBreaks(buffer: TextBuffer)
    requires buffer != []
    ensures StreamOf(buffer + [[]]) == StreamOf(buffer) + [None]
  {
    var after := buffer + [[]];
    assert after[..|after| - 1] == buffer && LineStream([]) == [];
  }

  /** A buffer is determined by its stream. */
  lemma {:induction false} BufferOfStream(buffer: TextBuffer)
    requires buffer != []
    ensures BufferOf(StreamOf(buffer)) == buffer
    decreases |buffer|, |buffer[|buffer| - 1]|
  {
    var n := |buffer| - 1;
    var line := buffer[n];
    if line != [] {
      var g := line[|line| - 1];
      var before := buffer[n := line[..|line| - 1]];
      assert line[..|line| - 1] + [g] == line;
      assert Grown(before, g) == buffer;
      StreamGrows(before, g);
      BufferOfStream(before);
      BufferSnoc(StreamOf(before), Some(g));
    } else if n > 0 {
      var before := buffer[..n];
      assert before + [[]] == buffer;
      StreamBreaks(before);
      BufferOfStream(before);
      BufferSnoc(StreamOf(before), None);
    }
  }

  lemma BufferSnoc(s: Stream, e: Option<Glyph>)
    ensures BufferOf(s + [e]) == if e.Some? then Grown(BufferOf(s), e.value) else BufferOf(s) + [[]]
  {
    assert (s + [e])[..|s|] == s;
  }

  // ---------------------------------------------------------------- plain text

  /** What typing bytes in one colour should show: printable characters and line breaks. */
  function Typed(bytes: seq<byte>, color: Rgb): Stream {
    if bytes == [] then [] else TypedByte(bytes[0], color) + Typed(bytes[1..], color)
  }

  /** What one byte should show. */
  function TypedByte(b: byte, color: Rgb): Stream {
    if b == 0x0A then [None] else if 0x20 <= b <= 0x7E then [Some(Glyph(b, color))] else []
  }

  /** One byte outside of any escape. */
  lemma PlainByte(p: Parsing, b: byte, buffer: TextBuffer)
    requires p.mode == Text && b != 0x1B && buffer != []
    ensures var (q, lines, _) := Push(p, b, buffer);
            q == p && lines != [] && StreamOf(lines) == StreamOf(buffer) + TypedByte(b, p.color)
  {
    var lines := Push(p, b, buffer).1;
    if b == 0x0A {
      assert lines == buffer + [[]];
      StreamBreaks(buffer);
    } else if 0x20 <= b <= 0x7E {
      assert lines == Grown(buffer, Glyph(b, p.color));
      StreamGrows(buffer, Glyph(b, p.color));
    } else {
      assert lines == buffer && StreamOf(buffer) + [] == StreamOf(buffer);
    }
  }

  lemma Associate(a: Stream, b: Stream, c: Stream)
    ensures (a + b) + c == a + (b + c)
  {
  }

  /** Text without ESC appends its printable bytes in the current colour, broken at its line breaks. */
  lemma {:induction false} PlainTextIsStored(p: Parsing, bytes: seq<byte>, buffer: TextBuffer)
    requires p.mode == Text && 0x1B !in bytes && buffer != []
    ensures Feed(p, bytes, buffer).0 == p && Feed(p, bytes, buffer).1 != []
    ensures StreamOf(Feed(p, bytes, buffer).1) == StreamOf(buffer) + Typed(bytes, p.color)
    decreases |bytes|
  {
    if bytes == [] {
      assert StreamOf(buffer) + [] == StreamOf(buffer);
    } else {
      var lines := Push(p, bytes[0], buffer).1;
      PlainByte(p, bytes[0], buffer);
      assert Feed(p, bytes, buffer) == Feed(p, bytes[1..], lines);
      PlainTextIsStored(p, bytes[1..], lines);
      Associate(StreamOf(buffer), TypedByte(bytes[0], p.color), Typed(bytes[1..], p.color));
    }
  }

  /** An empty box with such text holds exactly what the text spells. */
  lemma PlainBuffer(p: Parsing, bytes: seq<byte>)
    requires p.mode == Text && 0x1B !in bytes
    ensures Feed(p, bytes, [[]]).1 == BufferOf(Typed(bytes, p.color))
  {
    var lines := Feed(p, bytes, [[]]).1;
    PlainTextIsStored(p, bytes, [[]]);
    assert StreamOf([[]]) + Typed(bytes, p.color) == Typed(bytes, p.color);
    BufferOfStream(lines);
  }

  /** An ESC that no command follows is dropped, and the byte behind it counts as if alone. */
  lemma LoneEscapeIsDropped(p: Parsing, b: byte, buffer: TextBuffer)
    requires p.mode == Text && b != 0x7E
    ensures Feed(p, [0x1B, b], buffer) == Feed(p, [b], buffer)
  {
    assert [0x1B, b] + [] == [0x1B, b];
    FeedTwo(p, 0x1B, b, [], buffer);
    FeedOne(p, b, buffer);
  }

  // ---------------------------------------------------------------- text in colours

  /** A document: pieces of text and changes of colour. */
  datatype Piece = Plain(bytes: seq<byte>) | Colour(c: Rgb)

  function Encode(pieces: seq<Piece>): seq<byte> {
    if pieces == [] then []
    else (match pieces[0] case Plain(bytes) => bytes case Colour(c) => Fg(c)) + Encode(pieces[1..])
  }

  function Meaning(pieces: seq<Piece>, color: Rgb): Stream {
    if pieces == [] then []
    else
      match pieces[0]
      case Plain(bytes) => Typed(bytes, color) + Meaning(pieces[1..], color)
      case Colour(c) => Meaning(pieces[1..], c)
  }

  function LastColour(pieces: seq<Piece>, color: Rgb): Rgb {
    if pieces == [] then color
    else LastColour(pieces[1..], match pieces[0] case Plain(_) => color case Colour(c) => c)
  }

  /** A document is stored as it is meant: each glyph in the colour set last before it. */
  lemma {:induction false} DocumentIsStored(p: Parsing, pieces: seq<Piece>, buffer: TextBuffer)
    requires p.mode == Text && p.cmd == [] && buffer != []
    requires forall piece :: piece in pieces && piece.Plain? ==> 0x1B !in piece.bytes
    ensures var (q, lines) := Feed(p, Encode(pieces), buffer);
            && q == Parsing(Text, LastColour(pieces, p.color), []) && lines != []
            && StreamOf(lines) == StreamOf(buffer) + Meaning(pieces, p.color)
    decreases |pieces|
  {
    if pieces == [] {
      assert StreamOf(buffer) + [] == StreamOf(buffer);
    } else {
      var rest := pieces[1..];
      match pieces[0] {
        case Plain(bytes) =>
          FeedConcat(p, bytes, Encode(rest), buffer);
          PlainTextIsStored(p, bytes, buffer);
          var lines := Feed(p, bytes, buffer).1;
          DocumentIsStored(p, rest, lines);
          Associate(StreamOf(buffer), Typed(bytes, p.color), Meaning(rest, p.color));
        case Colour(c) =>
          FeedConcat(p, Fg(c), Encode(rest), buffer);
          FgRoundTrip(p, c, buffer);
          DocumentIsStored(Parsing(Text, c, []), rest, buffer);
      }
    }
  }

  // ---------------------------------------------------------------- which commands there are

  /** `b` is the upper-case hexadecimal digit `v`. */
  predicate IsUpperDigit(b: byte, v: int) {
    0 <= v < 16 && b == "0123456789ABCDEF"[v] as int
  }

  /** The escape that sets a colour: ESC, a tilde, FG, a hash sign, six upper-case digits, BEL. */
  lemma FgBytes(c: Rgb)
    ensures var e := Fg(c);
            && |e| == 12 && e[..5] == [0x1B, 0x7E, 0x46, 0x47, 0x23] && e[11] == 0x07
            && IsUpperDigit(e[5], c.red / 16) && IsUpperDigit(e[6], c.red % 16)
            && IsUpperDigit(e[7], c.green / 16) && IsUpperDigit(e[8], c.green % 16)
            && IsUpperDigit(e[9], c.blue / 16) && IsUpperDigit(e[10], c.blue % 16)
  {
    UpperDigit(c.red / 16); UpperDigit(c.red % 16);
    UpperDigit(c.green / 16); UpperDigit(c.green % 16);
    UpperDigit(c.blue / 16); UpperDigit(c.blue % 16);
  }

  lemma UpperDigit(n: nat)
    requires n < 16
    ensures IsUpperDigit(HexDigit(n), n)
  {
  }

  /** `b` is the hexadecimal digit `v`, in either case. */
  predicate SpellsDigit(b: byte, v: int) {
    0 <= v < 16 && (b == "0123456789abcdef"[v] as int || b == "0123456789ABCDEF"[v] as int)
  }

  lemma HexValueIff(b: byte, v: int)
    ensures HexValue(b) == Some(v) <==> SpellsDigit(b, v)
  {
  }

  /** `digits` continue the number `acc` to `n`. */
  ghost predicate SpellsNumber(acc: nat, digits: seq<byte>, n: nat)
    decreases |digits|
  {
    if digits == [] then n == acc
    else exists v: nat :: SpellsDigit(digits[0], v) && SpellsNumber(acc * 16 + v, digits[1..], n)
  }

  lemma FirstDigit(acc: nat, digits: seq<byte>, n: nat) returns (next: nat)
    requires digits != [] && SpellsNumber(acc, digits, n)
    ensures acc <= next && SpellsNumber(next, digits[1..], n)
  {
    var v: nat :| SpellsDigit(digits[0], v) && SpellsNumber(acc * 16 + v, digits[1..], n);
    next := acc * 16 + v;
  }

  lemma {:induction false} NumberGrows(acc: nat, digits: seq<byte>, n: nat)
    requires SpellsNumber(acc, digits, n)
    ensures acc <= n
    decreases |digits|
  {
    if digits != [] {
      var next := FirstDigit(acc, digits, n);
      NumberGrows(next, digits[1..], n);
    }
  }

  lemma {:induction false} HexFoldIff(acc: nat, digits: seq<byte>, n: nat)
    requires acc < 0x1_0000_0000
    ensures HexFold(acc, digits) == Some(n) <==> SpellsNumber(acc, digits, n) && n < 0x1_0000_0000
    decreases |digits|
  {
    if digits != [] {
      var d := digits[0];
      if HexValue(d).Some? {
        var v: nat := HexValue(d).value;
        HexValueIff(d, v);
        forall w: nat | SpellsDigit(d, w) ensures w == v { HexValueIff(d, w); }
        assert SpellsNumber(acc, digits, n) <==> SpellsNumber(acc * 16 + v, digits[1..], n);
        if acc * 16 + v < 0x1_0000_0000 {
          HexFoldIff(acc * 16 + v, digits[1..], n);
        } else if SpellsNumber(acc * 16 + v, digits[1..], n) {
          NumberGrows(acc * 16 + v, digits[1..], n);
        }
      } else {
        forall w: nat ensures !SpellsDigit(d, w) { HexValueIff(d, w); }
      }
    }
  }

  /** FG, a hash sign, an optional plus sign, digits of a 32-bit number: its low 24 bits are the colour. */
  ghost predicate IsColourCommand(cmd: seq<byte>, c: Rgb) {
    && |cmd| > 3 && cmd[..3] == [0x46, 0x47, 0x23]
    && var digits := if cmd[3] == 0x2B then cmd[4..] else cmd[3..];
       && digits != []
       && exists n: nat :: n < 0x1_0000_0000 && SpellsNumber(0, digits, n)
            && c == Rgb(n / 0x10000 % 0x100, n / 0x100 % 0x100, n % 0x100)
  }

  /** Exactly these commands set a colour; any other leaves it alone. */
  lemma CommandsSetColours(cmd: seq<byte>, color: Rgb, c: Rgb)
    ensures IsColourCommand(cmd, c) ==> ExecCmd(cmd, color) == c
    ensures ExecCmd(cmd, color) != color ==> IsColourCommand(cmd, ExecCmd(cmd, color))
  {
    if |cmd| > 3 && cmd[..3] == [0x46, 0x47, 0x23] {
      assert cmd[..2] == cmd[..3][..2] && cmd[2] == cmd[..3][2];
      var code := cmd[2..];
      assert code[0] == 0x23 && code[1..] == cmd[3..];
      var digits := if cmd[3] == 0x2B then cmd[4..] else cmd[3..];
      assert FromHex(code[1..]) == if digits == [] then None else HexFold(0, digits);
      forall n: nat
        ensures HexFold(0, digits) == Some(n) <==> SpellsNumber(0, digits, n) && n < 0x1_0000_0000
      {
        HexFoldIff(0, digits, n);
      }
    } else if |cmd| > 2 && cmd[2] == 0x23 {
      assert cmd[..3] == cmd[..2] + [cmd[2]];
    }
  }
}
