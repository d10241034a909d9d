/** Rectangles and the two-dimensional renderer over a byte framebuffer. */
module Raster {
  import opened Wrappers
  import opened Bytes
  import opened DivMod
  import opened Color

  datatype Rectangle = Rectangle(left: int, top: int, width: nat, height: nat) {
    function Right(): int {
      left + width
    }

    function Bottom(): int {
      top + height
    }

    predicate Has(x: int, y: int) {
      left <= x < Right() && top <= y < Bottom()
    }

    function Intersection(other: Rectangle): (r: Option<Rectangle>)
      ensures r.None? ==> forall x, y :: !(Has(x, y) && other.Has(x, y))
      ensures r.Some? ==> r.value.width > 0 && r.value.height > 0
      ensures r.Some? ==> forall x, y :: r.value.Has(x, y) <==> Has(x, y) && other.Has(x, y)
    {
      var l, t := MaxInt(left, other.left), MaxInt(top, other.top);
      var r, b := MinInt(Right(), other.Right()), MinInt(Bottom(), other.Bottom());
      if l < r && t < b then Some(Rectangle(l, t, r - l, b - t)) else None
    }
  }

  function MaxInt(a: int, b: int): int {
    if a < b then b else a
  }

  function MinInt(a: int, b: int): int {
    if b < a then b else a
  }

  /** `FrameBufferInfo`. */
  datatype Info = Info(width: nat, height: nat, stride: nat, bpp: nat, format: PixelFormat) {
    /** The layout describes a buffer of `len` bytes: pixels hold their channels, rows fit. */
    predicate Fits(len: nat) {
      && ChannelCount(format) <= bpp
      && width <= stride
      && height * stride * bpp <= len
    }

    function Bounds(): Rectangle {
      Rectangle(0, 0, width, height)
    }

    /** Offset of the first byte of pixel `(x, y)`. */
    function Offset(x: int, y: int): int {
      (y * stride + x) * bpp
    }

    /** Column and row of the pixel that byte `i` belongs to. */
    function Column(i: nat): nat
      requires bpp > 0 && stride > 0
    {
      i / bpp % stride
    }

    function Row(i: nat): nat
      requires bpp > 0 && stride > 0
    {
      i / bpp / stride
    }
  }

  /** Byte `i` belongs to a pixel of `area`. */
  predicate Hit(info: Info, area: Rectangle, i: nat) {
    info.bpp > 0 && info.stride > 0 && area.Has(info.Column(i), info.Row(i))
  }

  /** Byte `i` belongs to a pixel of `area` that is on the screen. */
  predicate Filled(info: Info, area: Rectangle, i: nat) {
    Hit(info, area, i) && Hit(info, info.Bounds(), i)
  }

  /** What the pattern fill puts there: the pattern counted from the start of the row of `area`. */
  function FillByte(info: Info, area: Rectangle, color: Rgb, i: nat): byte
    requires info.bpp > 0 && info.stride > 0 && ChannelCount(info.format) <= info.bpp
  {
    PatternByte(color, info.format, info.bpp, (i - info.Offset(MaxInt(area.left, 0), info.Row(i))) % 48)
  }

  /** When the pixel size divides 48 the pattern fill writes whole pixels: colour bytes and zero padding. */
  lemma FillByteIsPixel(info: Info, area: Rectangle, color: Rgb)
    requires ChannelCount(info.format) <= info.bpp && 48 % info.bpp == 0
    ensures forall i: nat :: Filled(info, area, i) ==>
              FillByte(info, area, color, i) == PixelBytes(color, info.format, info.bpp)[i % info.bpp]
  {
    forall i: nat | Filled(info, area, i)
      ensures FillByte(info, area, color, i) == PixelBytes(color, info.format, info.bpp)[i % info.bpp]
    {
      var x, y := MaxInt(area.left, 0), info.Row(i);
      RowSpan(info, x, y, info.stride - x, i);
      PatternHasNoSeam(color, info.format, info.bpp, i - info.Offset(x, y));
    }
  }

  lemma OffsetInRow(info: Info, x: int, y: int, len: nat)
    requires info.Fits(len) && info.Bounds().Has(x, y)
    ensures 0 <= info.Offset(x, y) && info.Offset(x, y) + info.bpp <= len
  {
    MulMono(y + 1, info.height, info.stride);
    assert (y + 1) * info.stride == y * info.stride + info.stride;
    assert y * info.stride >= 0;
    MulMono(y * info.stride + x + 1, info.height * info.stride, info.bpp);
    assert (y * info.stride + x + 1) * info.bpp == info.Offset(x, y) + info.bpp;
    MulMono(0, y * info.stride + x, info.bpp);
  }

  /** The bytes of row `y` from column `x` on, `w` pixels long, are those whose pixel lies there. */
  lemma RowSpan(info: Info, x: nat, y: nat, w: nat, i: nat)
    requires info.bpp > 0 && x + w <= info.stride && info.stride > 0
    ensures info.Offset(x, y) <= i < info.Offset(x, y) + w * info.bpp
       <==> info.Row(i) == y && x <= info.Column(i) < x + w
    ensures (i - info.Offset(x, y)) % info.bpp == i % info.bpp
  {
    var p := i / info.bpp;
    var first := y * info.stride + x;
    DivBorder(i, info.bpp, first);
    DivBorder(i, info.bpp, first + w);
    assert (first + w) * info.bpp == info.Offset(x, y) + w * info.bpp;
    assert p == (p / info.stride) * info.stride + p % info.stride;
    BlockOf(p, info.stride, y);
    if first <= p < first + w { DivModUnique(p, info.stride, y, p - y * info.stride); }
    if info.Row(i) == y { assert p == y * info.stride + info.Column(i); }
    ModShift(i, -first, info.bpp);
    assert (-first) * info.bpp == -info.Offset(x, y);
  }

  /** Row `y` of a rectangle extends the rows above it. */
  lemma RowAdded(info: Info, rect: Rectangle, y: nat, i: nat)
    requires info.bpp > 0 && info.stride > 0
    requires rect.top <= y < rect.Bottom() && 0 <= rect.left && rect.Right() <= info.stride
    ensures Hit(info, Rectangle(rect.left, rect.top, rect.width, y + 1 - rect.top), i)
       <==> Hit(info, Rectangle(rect.left, rect.top, rect.width, y - rect.top), i)
            || info.Offset(rect.left, y) <= i < info.Offset(rect.left, y) + rect.width * info.bpp
    ensures info.Offset(rect.left, y) <= i < info.Offset(rect.left, y) + rect.width * info.bpp ==> info.Row(i) == y
  {
    RowSpan(info, rect.left, y, rect.width, i);
  }

  class Renderer {
    const framebuffer: array<byte>
    const info: Info

    constructor (framebuffer: array<byte>, info: Info)
      requires info.Fits(framebuffer.Length)
      ensures this.framebuffer == framebuffer && this.info == info
    {
      this.framebuffer := framebuffer;
      this.info := info;
    }

    /** Write one pixel; coordinates outside the screen are ignored, padding bytes are kept. */
    method RenderPixel(x: int, y: int, color: Rgb)
      requires info.Fits(framebuffer.Length)
      modifies framebuffer
      ensures !info.Bounds().Has(x, y) ==> framebuffer[..] == old(framebuffer[..])
      ensures info.Bounds().Has(x, y) ==>
        forall i :: 0 <= i < framebuffer.Length ==>
          framebuffer[i] == var k := i - info.Offset(x, y);
                            if 0 <= k < ChannelCount(info.format) then Channels(color, info.format)[k]
                            else old(framebuffer[i])
    {
      if !info.Bounds().Has(x, y) { return; }
      OffsetInRow(info, x, y, framebuffer.Length);
      var off := info.Offset(x, y);
      WriteTo(color, framebuffer, off, info.format);
      assert forall i :: 0 <= i < framebuffer.Length ==> framebuffer[i] == framebuffer[..][i];
    }

    /** Copy the 48-byte pattern over `len` bytes, whole chunks first. */
    method FillSlice48(dst: nat, len: nat, pattern: array<byte>)
      requires dst + len <= framebuffer.Length && pattern.Length == 48 && pattern != framebuffer
      modifies framebuffer
      ensures forall i :: 0 <= i < framebuffer.Length ==>
        framebuffer[i] == if dst <= i < dst + len then pattern[(i - dst) % 48] else old(framebuffer[i])
    {
      if len == 0 { return; }
      var numChunks := len / 48;
      var remainder := len % 48;
      for chunk := 0 to numChunks
        invariant chunk * 48 <= len
        invariant forall i :: 0 <= i < framebuffer.Length ==>
          framebuffer[i] == if dst <= i < dst + chunk * 48 then pattern[(i - dst) % 48] else old(framebuffer[i])
      {
        forall k | 0 <= k < 48 { framebuffer[dst + chunk * 48 + k] := pattern[k]; }
      }
      forall k | 0 <= k < remainder { framebuffer[dst + numChunks * 48 + k] := pattern[k]; }
    }

    /** Fill a rectangle: every pixel of it that is on the screen, and nothing else. */
    method FillSolid(area: Rectangle, color: Rgb)
      requires info.Fits(framebuffer.Length)
      modifies framebuffer
      ensures forall i :: 0 <= i < framebuffer.Length ==>
        framebuffer[i] == if Filled(info, area, i) then FillByte(info, area, color, i) else old(framebuffer[i])
      ensures 48 % info.bpp == 0 ==> forall i :: 0 <= i < framebuffer.Length && Filled(info, area, i) ==>
        framebuffer[i] == PixelBytes(color, info.format, info.bpp)[i % info.bpp]
    {
      if 48 % info.bpp == 0 { FillByteIsPixel(info, area, color); }
      var clipped := area.Intersection(info.Bounds());
      if clipped.None? { return; }
      var rect := clipped.value;
      assert rect.Has(rect.left, rect.top) && rect.Has(rect.Right() - 1, rect.Bottom() - 1);
      var pattern := Build48BytePattern(color, info.format, info.bpp);
      FillRows(rect, color, pattern);
      forall i | 0 <= i < framebuffer.Length && Hit(info, rect, i)
        ensures FillByte(info, rect, color, i) == FillByte(info, area, color, i)
      {
        assert rect.left == MaxInt(area.left, 0);
      }
    }

    /** Fill the rows of a rectangle that lies on the screen, each from the start of the pattern. */
    method FillRows(rect: Rectangle, color: Rgb, pattern: array<byte>)
      requires info.Fits(framebuffer.Length) && rect.width > 0
      requires 0 <= rect.left && rect.Right() <= info.width && 0 <= rect.top && rect.Bottom() <= info.height
      requires pattern.Length == 48 && pattern != framebuffer
      requires forall i :: 0 <= i < 48 ==> pattern[i] == PatternByte(color, info.format, info.bpp, i)
      modifies framebuffer
      ensures forall i :: 0 <= i < framebuffer.Length ==>
        framebuffer[i] == if Hit(info, rect, i) then FillByte(info, rect, color, i) else old(framebuffer[i])
    {
      var rowBytes := rect.width * info.bpp;
      for y := rect.top to rect.Bottom()
        invariant forall i :: 0 <= i < framebuffer.Length ==>
          framebuffer[i] == if Hit(info, Rectangle(rect.left, rect.top, rect.width, y - rect.top), i)
                            then FillByte(info, rect, color, i) else old(framebuffer[i])
        invariant forall i :: 0 <= i < 48 ==> pattern[i] == PatternByte(color, info.format, info.bpp, i)
      {
        ghost var before := framebuffer[..];
        var rowStart := (y * info.stride + rect.left) * info.bpp;
        RowFits(rect, y);
        FillSlice48(rowStart, rowBytes, pattern);
        forall i | 0 <= i < framebuffer.Length
          ensures framebuffer[i] == if Hit(info, Rectangle(rect.left, rect.top, rect.width, y + 1 - rect.top), i)
                                    then FillByte(info, rect, color, i) else old(framebuffer[i])
        {
          RowAdded(info, rect, y, i);
          assert before[i] == if Hit(info, Rectangle(rect.left, rect.top, rect.width, y - rect.top), i)
                              then FillByte(info, rect, color, i) else old(framebuffer[i]);
        }
      }
    }

    /** Fill the whole buffer. */
    method Clear(color: Rgb)
      requires info.Fits(framebuffer.Length) && framebuffer.Length % info.bpp == 0
      modifies framebuffer
      ensures forall i :: 0 <= i < framebuffer.Length ==>
        framebuffer[i] == PatternByte(color, info.format, info.bpp, i % 48)
      ensures 48 % info.bpp == 0 ==> forall i :: 0 <= i < framebuffer.Length ==>
        framebuffer[i] == PixelBytes(color, info.format, info.bpp)[i % info.bpp]
    {
      if framebuffer.Length > 0 { FillPattern(color); }
      if 48 % info.bpp == 0 { DividingIsSeamless(color, info.format, info.bpp); }
    }

    method FillPattern(color: Rgb)
      requires info.Fits(framebuffer.Length)
      modifies framebuffer
      ensures forall i :: 0 <= i < framebuffer.Length ==>
        framebuffer[i] == PatternByte(color, info.format, info.bpp, i % 48)
    {
      var pattern := Build48BytePattern(color, info.format, info.bpp);
      FillSlice48(0, framebuffer.Length, pattern);
    }

    lemma RowFits(rect: Rectangle, y: int)
      requires info.Fits(framebuffer.Length)
      requires rect.width > 0 && 0 <= rect.left && rect.Right() <= info.width && 0 <= y < info.height
      ensures 0 <= info.Offset(rect.left, y) && info.Offset(rect.left, y) + rect.width * info.bpp <= framebuffer.Length
    {
      OffsetInRow(info, rect.left, y, framebuffer.Length);
      OffsetInRow(info, rect.Right() - 1, y, framebuffer.Length);
      assert (y * info.stride + rect.Right()) * info.bpp == info.Offset(rect.left, y) + rect.width * info.bpp;
    }
  }
}
