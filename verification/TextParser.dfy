/** The byte-level escape parser of the text box, and the colour escape it understands. */
module TextParser {
  import opened Wrappers
  import opened Bytes
  import opened Color

  const ESC: byte := 0x1B

  const LEADER: byte := 0x7E

  const BEL: byte := 0x07

  const NEWLINE: byte := 0x0A

  /** The letters F and G and the hash sign. */
  const LETTER_F: byte := 0x46

  const LETTER_G: byte := 0x47

  const HASH: byte := 0x23

  const PLUS: byte := 0x2B

  datatype Glyph = Glyph(b: byte, color: Rgb)

  type LogicalLine = seq<Glyph>

  type TextBuffer = seq<LogicalLine>

  datatype Mode = Text | Escape | Command

  datatype ParserResult = PushedGlyph(glyph: Glyph) | NewLogicalLine | NoNewGlyph

  /** The parser's variables as a value. */
  datatype Parsing = Parsing(mode: Mode, color: Rgb, cmd: seq<byte>)

  predicate IsPrintable(b: byte) {
    0x20 <= b <= 0x7E
  }

  // ---------------------------------------------------------------- colour codes

  function HexValue(b: byte): Option<nat> {
    if 0x30 <= b <= 0x39 then Some(b - 0x30)
    else if 0x41 <= b <= 0x46 then Some(b - 0x41 + 10)
    else if 0x61 <= b <= 0x66 then Some(b - 0x61 + 10)
    else None
  }

  /** Accumulate hexadecimal digits into a 32-bit number; overflow and other characters fail. */
  function HexFold(acc: nat, digits: seq<byte>): Option<nat>
    decreases |digits|
  {
    if digits == [] then Some(acc)
    else if HexValue(digits[0]).None? || acc * 16 + HexValue(digits[0]).value >= 0x1_0000_0000 then None
    else HexFold(acc * 16 + HexValue(digits[0]).value, digits[1..])
  }

  /** `u32::from_str_radix(_, 16)`: an optional plus sign, then at least one digit. */
  function FromHex(s: seq<byte>): Option<nat> {
    var digits := if s != [] && s[0] == PLUS then s[1..] else s;
    if digits == [] then None else HexFold(0, digits)
  }

  function ParseHex(s: seq<byte>): Option<Rgb> {
    if s == [] || s[0] != HASH then None
    else
      var num := FromHex(s[1..]);
      if num.None? then None
      else Some(Rgb(num.value / 65536 % 256, num.value / 256 % 256, num.value % 256))
  }

  function HexDigit(n: nat): byte
    requires n < 16
  {
    if n < 10 then 0x30 + n else 0x41 + n - 10
  }

  function HexPair(b: byte): seq<byte> {
    [HexDigit(b / 16), HexDigit(b % 16)]
  }

  /** The colour code of `c`: a hash sign and six digits. */
  function HexCode(c: Rgb): seq<byte> {
    [HASH] + HexPair(c.red) + HexPair(c.green) + HexPair(c.blue)
  }

  /** `Fg(c)`: the escape that sets the text colour. */
  function Fg(c: Rgb): seq<byte> {
    [ESC, LEADER, LETTER_F, LETTER_G] + HexCode(c) + [BEL]
  }

  // ---------------------------------------------------------------- the state machine

  /** The colour after a finished command; anything but a valid FG command leaves it alone. */
  function ExecCmd(cmd: seq<byte>, color: Rgb): Rgb {
    if |cmd| < 2 then color
    else if cmd[..2] == [LETTER_F, LETTER_G] && ParseHex(cmd[2..]).Some? then ParseHex(cmd[2..]).value
    else color
  }

  function PushText(p: Parsing, b: byte, buffer: TextBuffer): (TextBuffer, ParserResult) {
    if !IsPrintable(b) then (buffer, NoNewGlyph)
    else
      var lines := if buffer == [] then [[]] else buffer;
      var glyph := Glyph(b, p.color);
      (lines[|lines| - 1 := lines[|lines| - 1] + [glyph]], PushedGlyph(glyph))
  }

  /** A byte that arrives in the Text state. */
  function PushPlain(p: Parsing, b: byte, buffer: TextBuffer): (Parsing, TextBuffer, ParserResult) {
    if b == ESC then (p.(mode := Escape), buffer, NoNewGlyph)
    else if b == NEWLINE then (p.(mode := Text), buffer + [[]], NewLogicalLine)
    else
      var (lines, result) := PushText(p, b, buffer);
      (p.(mode := Text), lines, result)
  }

  function Push(p: Parsing, b: byte, buffer: TextBuffer): (Parsing, TextBuffer, ParserResult) {
    match p.mode
    case Text => PushPlain(p, b, buffer)
    case Escape => if b == LEADER then (p.(mode := Command), buffer, NoNewGlyph) else PushPlain(p, b, buffer)
    case Command =>
      if b == BEL then (Parsing(Text, ExecCmd(p.cmd, p.color), []), buffer, NoNewGlyph)
      else (p.(cmd := p.cmd + [b]), buffer, NoNewGlyph)
  }

  /** Feeding a whole stream. */
  function Feed(p: Parsing, bytes: seq<byte>, buffer: TextBuffer): (Parsing, TextBuffer)
    decreases |bytes|
  {
    if bytes == [] then (p, buffer)
    else
      var (q, lines, _) := Push(p, bytes[0], buffer);
      Feed(q, bytes[1..], lines)
  }

  class Parser {
    var mode: Mode
    var color: Rgb
    var cmdBuffer: seq<byte>

    constructor (initial: Rgb)
      ensures State() == Parsing(Text, initial, [])
    {
      mode, color, cmdBuffer := Text, initial, [];
    }

    function State(): Parsing
      reads this
    {
      Parsing(mode, color, cmdBuffer)
    }

    method PushByte(b: byte, buffer: TextBuffer) returns (lines: TextBuffer, result: ParserResult)
      modifies this
      ensures (State(), lines, result) == Push(old(State()), b, buffer)
      decreases if mode == Escape then 1 else 0
    {
      match mode {
        case Text =>
          if b == ESC {
            mode := Escape;
            lines, result := buffer, NoNewGlyph;
          } else if b == NEWLINE {
            lines, result := buffer + [[]], NewLogicalLine;
          } else {
            var pushed := PushText(State(), b, buffer);
            lines, result := pushed.0, pushed.1;
          }
        case Escape =>
          if b == LEADER {
            mode := Command;
            lines, result := buffer, NoNewGlyph;
          } else {
            mode := Text;
            lines, result := PushByte(b, buffer);
          }
        case Command =>
          if b == BEL {
            mode := Text;
            color := ExecCmd(cmdBuffer, color);
            cmdBuffer := [];
          } else {
            cmdBuffer := cmdBuffer + [b];
          }
          lines, result := buffer, NoNewGlyph;
      }
    }
  }

  // ---------------------------------------------------------------- invariants of every run

  ghost predicate AllPrintable(buffer: TextBuffer) {
    forall i, j :: 0 <= i < |buffer| && 0 <= j < |buffer[i]| ==> IsPrintable(buffer[i][j].b)
  }

  /** The command buffer is empty outside the Command state, and every stored glyph is printable. */
  ghost predicate ParserInv(p: Parsing, buffer: TextBuffer) {
    (p.mode != Command ==> p.cmd == []) && buffer != [] && AllPrintable(buffer)
  }

  lemma PushInv(p: Parsing, b: byte, buffer: TextBuffer)
    requires ParserInv(p, buffer)
    ensures var (q, lines, _) := Push(p, b, buffer); ParserInv(q, lines)
  {
  }

  /** The invariant holds after any stream of bytes. */
  lemma {:induction false} FeedInv(p: Parsing, bytes: seq<byte>, buffer: TextBuffer)
    requires ParserInv(p, buffer)
    ensures var (q, lines) := Feed(p, bytes, buffer); ParserInv(q, lines)
    decreases |bytes|
  {
    if bytes != [] {
      PushInv(p, bytes[0], buffer);
      var (q, lines, _) := Push(p, bytes[0], buffer);
      FeedInv(q, bytes[1..], lines);
    }
  }

  lemma {:induction false} FeedConcat(p: Parsing, a: seq<byte>, b: seq<byte>, buffer: TextBuffer)
    ensures var (q, lines) := Feed(p, a, buffer); Feed(p, a + b, buffer) == Feed(q, b, lines)
    decreases |a|
  {
    if a == [] {
      assert a + b == b;
    } else {
      assert (a + b)[1..] == a[1..] + b;
      var (q, lines, _) := Push(p, a[0], buffer);
      FeedConcat(q, a[1..], b, lines);
    }
  }

  // ---------------------------------------------------------------- the colour escape round-trips

  lemma HexPairRoundTrip(acc: nat, b: byte, rest: seq<byte>)
    requires acc * 256 + b < 0x1_0000_0000
    ensures HexFold(acc, HexPair(b) + rest) == HexFold(acc * 256 + b, rest)
  {
    var s := HexPair(b) + rest;
    assert HexValue(s[0]) == Some(b / 16) && HexValue(s[1]) == Some(b % 16);
    assert s[1..][1..] == rest;
    assert HexFold(acc, s) == HexFold(acc * 16 + b / 16, s[1..]);
    assert (acc * 16 + b / 16) * 16 + b % 16 == acc * 256 + b;
    assert HexFold(acc * 16 + b / 16, s[1..]) == HexFold(acc * 256 + b, s[1..][1..]);
  }

  /** Parsing the code of a colour gives the colour back. */
  lemma HexCodeRoundTrip(c: Rgb)
    ensures ParseHex(HexCode(c)) == Some(c)
  {
    var (r, g, b) := (HexPair(c.red), HexPair(c.green), HexPair(c.blue));
    var digits := r + (g + (b + []));
    assert HexCode(c)[1..] == digits;
    assert digits[0] != PLUS;
    HexPairRoundTrip(0, c.red, g + (b + []));
    HexPairRoundTrip(c.red, c.green, b + []);
    HexPairRoundTrip(c.red * 256 + c.green, c.blue, []);
    assert HexFold(0, digits) == Some((c.red * 256 + c.green) * 256 + c.blue);
    SplitRgb(c.red, c.green, c.blue);
  }

  lemma SplitRgb(r: byte, g: byte, b: byte)
    ensures var n := (r * 256 + g) * 256 + b; n / 65536 % 256 == r && n / 256 % 256 == g && n % 256 == b
  {
  }

  /** In the Command state, bytes other than BEL are collected. */
  lemma {:induction false} FeedCollects(p: Parsing, bytes: seq<byte>, buffer: TextBuffer)
    requires p.mode == Command && BEL !in bytes
    ensures Feed(p, bytes, buffer) == (p.(cmd := p.cmd + bytes), buffer)
    decreases |bytes|
  {
    if bytes == [] {
      assert p.cmd + [] == p.cmd;
    } else {
      FeedCollects(p.(cmd := p.cmd + [bytes[0]]), bytes[1..], buffer);
      assert (p.cmd + [bytes[0]]) + bytes[1..] == p.cmd + bytes;
    }
  }

  lemma FeedTwo(p: Parsing, a: byte, b: byte, rest: seq<byte>, buffer: TextBuffer)
    ensures var (q, l1, _) := Push(p, a, buffer); var (r, l2, _) := Push(q, b, l1);
            Feed(p, [a, b] + rest, buffer) == Feed(r, rest, l2)
  {
    assert ([a, b] + rest)[1..] == [b] + rest;
    assert ([b] + rest)[1..] == rest;
  }

  lemma FeedOne(p: Parsing, a: byte, buffer: TextBuffer)
    ensures var (q, lines, _) := Push(p, a, buffer); Feed(p, [a], buffer) == (q, lines)
  {
    assert [a][1..] == [];
  }

  /** A stream is fed byte by byte. */
  lemma FeedNext(p: Parsing, bytes: seq<byte>, i: nat, buffer: TextBuffer)
    requires i < |bytes|
    ensures var (q, lines) := Feed(p, bytes[..i], buffer); var (r, after, _) := Push(q, bytes[i], lines);
            Feed(p, bytes[..i + 1], buffer) == (r, after)
  {
    assert bytes[..i + 1] == bytes[..i] + [bytes[i]];
    FeedConcat(p, bytes[..i], [bytes[i]], buffer);
    var (q, lines) := Feed(p, bytes[..i], buffer);
    FeedOne(q, bytes[i], lines);
  }

  /** The escape body after the leader: collected, then executed. */
  lemma FeedFgBody(p: Parsing, c: Rgb, buffer: TextBuffer)
    requires p.mode == Command
    ensures var body := [LETTER_F, LETTER_G] + HexCode(c);
            Feed(p, body + [BEL], buffer) == (Parsing(Text, ExecCmd(p.cmd + body, p.color), []), buffer)
  {
    var body := [LETTER_F, LETTER_G] + HexCode(c);
    FeedCollects(p, body, buffer);
    FeedConcat(p, body, [BEL], buffer);
    FeedOne(p.(cmd := p.cmd + body), BEL, buffer);
  }

  lemma ExecFg(c: Rgb, before: Rgb)
    ensures ExecCmd([LETTER_F, LETTER_G] + HexCode(c), before) == c
  {
    var body := [LETTER_F, LETTER_G] + HexCode(c);
    assert body[2..] == HexCode(c) && body[..2] == [LETTER_F, LETTER_G];
    HexCodeRoundTrip(c);
  }

  /** Outside a command, feeding `Fg(c)` sets the colour to `c` and changes nothing else. */
  lemma FgRoundTrip(p: Parsing, c: Rgb, buffer: TextBuffer)
    requires p.mode != Command && p.cmd == []
    ensures Feed(p, Fg(c), buffer) == (Parsing(Text, c, []), buffer)
  {
    var body := [LETTER_F, LETTER_G] + HexCode(c);
    assert Fg(c) == [ESC, LEADER] + (body + [BEL]);
    FeedTwo(p, ESC, LEADER, body + [BEL], buffer);
    FeedFgBody(p.(mode := Command), c, buffer);
    ExecFg(c, p.color);
    assert [] + body == body;
  }

  /** Inside a command, the same bytes are swallowed and the command they end is invalid. */
  lemma FgSwallowed(p: Parsing, c: Rgb, buffer: TextBuffer)
    requires p.mode == Command
    ensures Feed(p, Fg(c), buffer) == (Parsing(Text, p.color, []), buffer)
  {
    var body := [LETTER_F, LETTER_G] + HexCode(c);
    assert Fg(c) == [ESC, LEADER] + (body + [BEL]);
    FeedTwo(p, ESC, LEADER, body + [BEL], buffer);
    var q := p.(cmd := p.cmd + [ESC] + [LEADER]);
    FeedFgBody(q, c, buffer);
    BrokenCommand(p.cmd, [LEADER] + body, p.color);
    assert q.cmd + body == p.cmd + [ESC] + ([LEADER] + body);
  }

  /** A command that contains an ESC never changes the colour. */
  lemma BrokenCommand(cmd: seq<byte>, tail: seq<byte>, color: Rgb)
    ensures ExecCmd(cmd + [ESC] + tail, color) == color
  {
    var all := cmd + [ESC] + tail;
    assert all[|cmd|] == ESC;
    if |all| >= 2 && all[..2] == [LETTER_F, LETTER_G] {
      assert all[0] == all[..2][0] && all[1] == all[..2][1];
      assert |cmd| >= 2;
      EscIsNoColour(all[2..], |cmd| - 2);
    }
  }

  lemma EscIsNoColour(s: seq<byte>, at: nat)
    requires at < |s| && s[at] == ESC
    ensures ParseHex(s).None?
  {
    if s[0] == HASH {
      assert s[1..][at - 1] == ESC;
      var digits := if s[1..] != [] && s[1..][0] == PLUS then s[1..][1..] else s[1..];
      var k := if s[1..][0] == PLUS then at - 2 else at - 1;
      assert digits[k] == ESC;
      EscIsNoDigit(0, digits, k);
    }
  }

  lemma {:induction false} EscIsNoDigit(acc: nat, digits: seq<byte>, at: nat)
    requires at < |digits| && digits[at] == ESC
    ensures HexFold(acc, digits).None?
    decreases at
  {
    if at > 0 && HexValue(digits[0]).Some? { EscIsNoDigit(acc * 16 + HexValue(digits[0]).value, digits[1..], at - 1); }
  }

  // ---------------------------------------------------------------- log lines

  /** A log line: its colour, the message, the previous colour, a line break. */
  function LogLine(color: Rgb, message: seq<byte>, previous: Rgb): seq<byte> {
    Fg(color) + message + Fg(previous) + [NEWLINE]
  }

  /**
   A log line leaves the parser in the Text state with the previous colour if and only if its
   message does not end inside an unfinished command, or has set that colour itself.
   */
  lemma LogLineRestores(p: Parsing, color: Rgb, message: seq<byte>, buffer: TextBuffer)
    requires p.mode != Command && p.cmd == []
    ensures var (m, _) := Feed(Parsing(Text, color, []), message, buffer);
            var (q, _) := Feed(p, LogLine(color, message, p.color), buffer);
            q.mode == Text && q.cmd == [] && (q.color == p.color <==> m.mode != Command || m.color == p.color)
  {
    var start := Parsing(Text, color, []);
    var (m, lines) := Feed(start, message, buffer);
    LogHead(p, color, message, p.color, buffer);
    MessageKeepsCmd(start, message, buffer);
    LogTail(m, p.color, lines);
  }

  /** The start of a log line: after colour and message, its end is still to come. */
  lemma LogHead(p: Parsing, color: Rgb, message: seq<byte>, previous: Rgb, buffer: TextBuffer)
    requires p.mode != Command && p.cmd == []
    ensures var (m, lines) := Feed(Parsing(Text, color, []), message, buffer);
            Feed(p, LogLine(color, message, previous), buffer) == Feed(m, Fg(previous) + [NEWLINE], lines)
  {
    var tail := Fg(previous) + [NEWLINE];
    assert LogLine(color, message, previous) == Fg(color) + (message + tail);
    FgRoundTrip(p, color, buffer);
    FeedConcat(p, Fg(color), message + tail, buffer);
    FeedConcat(Parsing(Text, color, []), message, tail, buffer);
  }

  /** The end of a log line: the previous colour comes back unless a command swallows it. */
  lemma LogTail(m: Parsing, previous: Rgb, lines: TextBuffer)
    requires m.mode != Command ==> m.cmd == []
    ensures Feed(m, Fg(previous) + [NEWLINE], lines).0
         == Parsing(Text, if m.mode == Command then m.color else previous, [])
  {
    FeedConcat(m, Fg(previous), [NEWLINE], lines);
    if m.mode != Command { FgRoundTrip(m, previous, lines); } else { FgSwallowed(m, previous, lines); }
    var (r, l) := Feed(m, Fg(previous), lines);
    FeedOne(r, NEWLINE, l);
  }

  lemma {:induction false} MessageKeepsCmd(p: Parsing, bytes: seq<byte>, buffer: TextBuffer)
    requires p.mode != Command ==> p.cmd == []
    ensures var (q, _) := Feed(p, bytes, buffer); q.mode != Command ==> q.cmd == []
    decreases |bytes|
  {
    if bytes != [] {
      var (q, lines, _) := Push(p, bytes[0], buffer);
      MessageKeepsCmd(q, bytes[1..], lines);
    }
  }

  /** A message without ESC keeps the parser in the Text state with its colour. */
  lemma {:induction false} PlainMessage(p: Parsing, bytes: seq<byte>, buffer: TextBuffer)
    requires p.mode == Text && p.cmd == [] && ESC !in bytes
    ensures Feed(p, bytes, buffer).0 == p
    decreases |bytes|
  {
    if bytes != [] { PlainMessage(p, bytes[1..], Push(p, bytes[0], buffer).1); }
  }

  /** So a log line without ESC always restores the previous colour. */
  lemma PlainLogLineRestores(p: Parsing, color: Rgb, message: seq<byte>, buffer: TextBuffer)
    requires p.mode != Command && p.cmd == [] && ESC !in message
    ensures Feed(p, LogLine(color, message, p.color), buffer).0 == Parsing(Text, p.color, [])
  {
    PlainMessage(Parsing(Text, color, []), message, buffer);
    LogLineRestores(p, color, message, buffer);
  }

  /** A message that ends in an unfinished command loses the previous colour. */
  lemma UnfinishedCommandLosesColour(p: Parsing, color: Rgb, buffer: TextBuffer)
    requires p.mode != Command && p.cmd == [] && color != p.color
    ensures Feed(p, LogLine(color, [ESC, LEADER], p.color), buffer).0.color != p.color
  {
    LogLineRestores(p, color, [ESC, LEADER], buffer);
    assert [ESC, LEADER] + [] == [ESC, LEADER];
    FeedTwo(Parsing(Text, color, []), ESC, LEADER, [], buffer);
  }
}
