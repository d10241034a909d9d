/** Colours, their byte layouts, and the 48-byte repeating pattern. */
module Color {
  import opened Bytes
  import opened DivMod

  datatype Rgb = Rgb(red: byte, green: byte, blue: byte) {
    /** The grey level of an 8-bit framebuffer. */
    function ToGray(): byte {
      red / 3 + green / 3 + blue / 3
    }
  }

  datatype PixelFormat = FormatRgb | FormatBgr | FormatU8

  /** The channel bytes a colour writes at the start of a pixel. */
  function Channels(c: Rgb, format: PixelFormat): seq<byte> {
    match format
    case FormatRgb => [c.red, c.green, c.blue]
    case FormatBgr => [c.blue, c.green, c.red]
    case FormatU8 => [c.ToGray()]
  }

  function ChannelCount(format: PixelFormat): nat {
    if format.FormatU8? then 1 else 3
  }

  /** A whole pixel: the channel bytes, padded with zeros to `bpp` bytes. */
  function PixelBytes(c: Rgb, format: PixelFormat, bpp: nat): (r: seq<byte>)
    requires ChannelCount(format) <= bpp
    ensures |r| == bpp
  {
    Channels(c, format) + seq(bpp - ChannelCount(format), _ => 0)
  }

  /** Which byte of a pixel holds what: the channels in the order of the format, then zeros. */
  lemma PixelLayout(c: Rgb, format: PixelFormat, bpp: nat, k: nat)
    requires ChannelCount(format) <= bpp && k < bpp
    ensures PixelBytes(c, format, bpp)[k] ==
            if k == 0 && format.FormatRgb? then c.red
            else if k == 0 && format.FormatBgr? then c.blue
            else if k == 0 then c.ToGray()
            else if k == 1 && !format.FormatU8? then c.green
            else if k == 2 && format.FormatRgb? then c.blue
            else if k == 2 && format.FormatBgr? then c.red
            else 0
  {
  }

  /** The grey level is the mean of the channels, at most two levels too dark. */
  lemma GrayIsMean(c: Rgb)
    ensures c.red + c.green + c.blue - 6 <= 3 * c.ToGray() <= c.red + c.green + c.blue
  {
  }

  /** Write the channel bytes into `chunk` from `offset` on. */
  method WriteTo(c: Rgb, chunk: array<byte>, offset: nat, format: PixelFormat)
    requires offset + ChannelCount(format) <= chunk.Length
    modifies chunk
    ensures chunk[..] == old(chunk[..offset]) + Channels(c, format) + old(chunk[offset + ChannelCount(format)..])
    ensures format.FormatRgb? ==> chunk[offset..offset + 3] == [c.red, c.green, c.blue]
    ensures format.FormatBgr? ==> chunk[offset..offset + 3] == [c.blue, c.green, c.red]
  {
    match format {
      case FormatRgb =>
        chunk[offset] := c.red;
        chunk[offset + 1] := c.green;
        chunk[offset + 2] := c.blue;
      case FormatBgr =>
        chunk[offset] := c.blue;
        chunk[offset + 1] := c.green;
        chunk[offset + 2] := c.red;
      case FormatU8 =>
        chunk[offset] := c.ToGray();
    }
  }

  /** Byte `i` of the first `n` whole pixels, and zeros behind them. */
  function PixelRun(c: Rgb, format: PixelFormat, bpp: nat, n: nat, i: nat): byte
    requires ChannelCount(format) <= bpp
  {
    if i < n * bpp then PixelBytes(c, format, bpp)[i % bpp] else 0
  }

  /** Byte `i` of the pattern: whole pixels as far as they fit into 48 bytes. */
  function PatternByte(c: Rgb, format: PixelFormat, bpp: nat, i: nat): byte
    requires ChannelCount(format) <= bpp
  {
    PixelRun(c, format, bpp, 48 / bpp, i)
  }

  lemma PixelRunStep(c: Rgb, format: PixelFormat, bpp: nat, k: nat, i: nat)
    requires ChannelCount(format) <= bpp
    ensures var start := k * bpp;
            PixelRun(c, format, bpp, k + 1, i)
            == if start <= i < start + bpp then PixelBytes(c, format, bpp)[i - start]
               else PixelRun(c, format, bpp, k, i)
  {
    var start := k * bpp;
    assert (k + 1) * bpp == start + bpp;
    if start <= i < start + bpp { DivModUnique(i, bpp, k, i - start); }
  }

  /** Writing the channels of pixel `k` over zeros completes that pixel. */
  lemma PixelWritten(c: Rgb, format: PixelFormat, bpp: nat, k: nat, before: seq<byte>, after: seq<byte>, i: nat)
    requires ChannelCount(format) <= bpp && k * bpp + bpp <= |before| && i < |before|
    requires before[i] == PixelRun(c, format, bpp, k, i)
    requires 0 <= k * bpp
    requires after == before[..k * bpp] + Channels(c, format) + before[k * bpp + ChannelCount(format)..]
    ensures |after| == |before| && after[i] == PixelRun(c, format, bpp, k + 1, i)
  {
    var start: nat := k * bpp;
    PixelRunStep(c, format, bpp, k, i);
    assert i >= start ==> before[i] == 0;
    ChannelsWritten(c, format, bpp, start, before, after, i);
  }

  lemma ChannelsWritten(c: Rgb, format: PixelFormat, bpp: nat, start: nat, before: seq<byte>, after: seq<byte>, i: nat)
    requires ChannelCount(format) <= bpp && start + bpp <= |before| && i < |before| && (i >= start ==> before[i] == 0)
    requires after == before[..start] + Channels(c, format) + before[start + ChannelCount(format)..]
    ensures |after| == |before|
    ensures after[i] == if start <= i < start + bpp then PixelBytes(c, format, bpp)[i - start] else before[i]
  {
  }

  method Build48BytePattern(c: Rgb, format: PixelFormat, bpp: nat) returns (pattern: array<byte>)
    requires ChannelCount(format) <= bpp
    ensures fresh(pattern) && pattern.Length == 48
    ensures forall i :: 0 <= i < 48 ==> pattern[i] == PatternByte(c, format, bpp, i)
  {
    pattern := new byte[48](_ => 0);
    DivBorder(48, bpp, 48 / bpp);
    WritePixels(c, format, bpp, 48 / bpp, pattern);
  }

  /** Write `n` whole pixels to the start of a zeroed chunk. */
  method WritePixels(c: Rgb, format: PixelFormat, bpp: nat, n: nat, chunk: array<byte>)
    requires ChannelCount(format) <= bpp && n * bpp <= chunk.Length
    requires forall i :: 0 <= i < chunk.Length ==> chunk[i] == 0
    modifies chunk
    ensures forall i :: 0 <= i < chunk.Length ==> chunk[i] == PixelRun(c, format, bpp, n, i)
  {
    for k := 0 to n
      invariant forall i :: 0 <= i < chunk.Length ==> chunk[i] == PixelRun(c, format, bpp, k, i)
    {
      PixelFits(bpp, k, n);
      ghost var before := chunk[..];
      WriteTo(c, chunk, k * bpp, format);
      forall i | 0 <= i < chunk.Length
        ensures chunk[i] == PixelRun(c, format, bpp, k + 1, i)
      {
        PixelWritten(c, format, bpp, k, before, chunk[..], i);
      }
    }
  }

  lemma PixelFits(bpp: nat, k: nat, n: nat)
    requires k < n
    ensures 0 <= k * bpp && k * bpp + bpp <= n * bpp
  {
    MulMono(k + 1, n, bpp);
    MulMono(0, k, bpp);
    assert (k + 1) * bpp == k * bpp + bpp;
  }

  /** When the pixel size divides 48 the pattern repeats without a seam. */
  lemma PatternHasNoSeam(c: Rgb, format: PixelFormat, bpp: nat, i: nat)
    requires ChannelCount(format) <= bpp && 48 % bpp == 0
    ensures PatternByte(c, format, bpp, i % 48) == PixelBytes(c, format, bpp)[i % bpp]
  {
    assert 48 / bpp * bpp == 48;
    ModOfMod(i, 48, bpp);
  }

  /** The pattern repeated without end is the pixel repeated without end. */
  ghost predicate Seamless(c: Rgb, format: PixelFormat, bpp: nat)
    requires ChannelCount(format) <= bpp
  {
    forall i: nat :: PatternByte(c, format, bpp, i % 48) == PixelBytes(c, format, bpp)[i % bpp]
  }

  /** Every byte of the pixel is zero. */
  ghost predicate Blank(c: Rgb, format: PixelFormat) {
    forall k :: 0 <= k < ChannelCount(format) ==> Channels(c, format)[k] == 0
  }

  /** The pattern repeats seamlessly exactly when the pixel size divides 48 or the pixel is all zeros. */
  lemma PatternSeamless(c: Rgb, format: PixelFormat, bpp: nat)
    requires ChannelCount(format) <= bpp
    ensures Seamless(c, format, bpp) <==> 48 % bpp == 0 || Blank(c, format)
  {
    if 48 % bpp == 0 {
      DividingIsSeamless(c, format, bpp);
    } else if Blank(c, format) {
      BlankIsSeamless(c, format, bpp);
    } else if Seamless(c, format, bpp) {
      SeamlessIsBlank(c, format, bpp, 48 / bpp, 48 % bpp);
    }
  }

  lemma DividingIsSeamless(c: Rgb, format: PixelFormat, bpp: nat)
    requires ChannelCount(format) <= bpp && 48 % bpp == 0
    ensures Seamless(c, format, bpp)
  {
    forall i: nat
      ensures PatternByte(c, format, bpp, i % 48) == PixelBytes(c, format, bpp)[i % bpp]
    {
      PatternHasNoSeam(c, format, bpp, i);
    }
  }

  lemma BlankIsSeamless(c: Rgb, format: PixelFormat, bpp: nat)
    requires ChannelCount(format) <= bpp && Blank(c, format)
    ensures Seamless(c, format, bpp)
  {
    var pixel := PixelBytes(c, format, bpp);
    assert forall k :: 0 <= k < bpp ==> pixel[k] == 0;
    forall i: nat
      ensures PatternByte(c, format, bpp, i % 48) == PixelBytes(c, format, bpp)[i % bpp]
    {
      assert pixel[i % bpp] == 0;
    }
  }

  lemma SeamlessIsBlank(c: Rgb, format: PixelFormat, bpp: nat, n: nat, rest: nat)
    requires ChannelCount(format) <= bpp && Seamless(c, format, bpp) && n == 48 / bpp
    requires 0 < rest < bpp && n * bpp + rest == 48
    ensures Blank(c, format)
  {
    forall k | 0 <= k < ChannelCount(format)
      ensures Channels(c, format)[k] == 0
    {
      SeamIsZero(c, format, bpp, n, rest, k);
    }
  }

  lemma SeamlessAt(c: Rgb, format: PixelFormat, bpp: nat, n: nat, i: nat, j: nat, k: nat)
    requires ChannelCount(format) <= bpp && Seamless(c, format, bpp) && n == 48 / bpp && i % 48 == j && i % bpp == k
    ensures PixelRun(c, format, bpp, n, j) == PixelBytes(c, format, bpp)[k]
  {
    assert PatternByte(c, format, bpp, i % 48) == PixelBytes(c, format, bpp)[i % bpp];
  }

  /** Across a seam the pixel repeats after the zeros that fill up the pattern, so all of it is zero. */
  lemma {:induction false} SeamIsZero(c: Rgb, format: PixelFormat, bpp: nat, n: nat, rest: nat, k: nat)
    requires ChannelCount(format) <= bpp && Seamless(c, format, bpp) && n == 48 / bpp
    requires k < bpp && 0 < rest < bpp && n * bpp + rest == 48
    ensures PixelBytes(c, format, bpp)[k] == 0
    decreases k
  {
    SeamIndex(bpp, n, rest, k);
    if k < rest {
      SeamlessAt(c, format, bpp, n, n * bpp + k, n * bpp + k, k);
    } else if n == 0 {
      SeamlessAt(c, format, bpp, n, k, k % 48, k);
    } else {
      SeamlessAt(c, format, bpp, n, 48 + k - rest, k - rest, k);
      SeamIsZero(c, format, bpp, n, rest, k - rest);
    }
  }

  /** Byte `k` of a pixel meets a filled-up zero of the pattern, or its own byte `k - rest`. */
  lemma SeamIndex(bpp: nat, n: nat, rest: nat, k: nat)
    requires k < bpp && rest < bpp && n * bpp + rest == 48
    ensures k < rest ==> (n * bpp + k) % 48 == n * bpp + k && (n * bpp + k) % bpp == k
    ensures rest <= k && n == 0 ==> k % bpp == k && k % 48 >= n * bpp
    ensures rest <= k && n > 0 ==>
      && (48 + k - rest) % 48 == k - rest && (48 + k - rest) % bpp == k
      && k - rest < n * bpp && (k - rest) % bpp == k - rest
  {
    DivModUnique(n * bpp + k, bpp, n, k);
    if rest <= k && n > 0 {
      MulMono(1, n, bpp);
      DivModUnique(48 + k - rest, 48, 1, k - rest);
      DivModUnique(k - rest, bpp, 0, k - rest);
    }
  }
}
