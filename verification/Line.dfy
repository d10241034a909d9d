/**
 The ideal pixel line between two points, in closed form, and the arithmetic that makes
 Bresenham's error term follow it.
 */
module Line {
  import opened DivMod

  /** `(x0, y0)` and `(x1, y1)` are the end pixels. */
  datatype Segment = Segment(x0: int, y0: int, x1: int, y1: int) {
    function Dx(): nat { if x1 < x0 then x0 - x1 else x1 - x0 }

    function Dy(): nat { if y1 < y0 then y0 - y1 else y1 - y0 }

    function Sx(): int { if x0 < x1 then 1 else -1 }

    function Sy(): int { if y0 < y1 then 1 else -1 }

    /** Number of steps: the longer side. */
    function Steps(): nat { if Dx() < Dy() then Dy() else Dx() }

    /** Pixel `k` of the line: `k` moves along the longer axis, the rounded share along the other. */
    function Pixel(k: nat): (int, int) {
      if Dx() < Dy() then (x0 + Sx() * Share(k, Dy(), Dx()), y0 + Sy() * k)
      else (x0 + Sx() * k, y0 + Sy() * Share(k, Dx(), Dy()))
    }

    /** The only candidate index of a pixel. */
    function IndexOf(x: int, y: int): nat {
      if Dx() < Dy() then Dist(y, y0) else Dist(x, x0)
    }

    predicate Has(x: int, y: int) {
      IndexOf(x, y) <= Steps() && Pixel(IndexOf(x, y)) == (x, y)
    }

    /** Along the longer axis between the end points, across it at most half a pixel off the straight line. */
    predicate IsNear(x: int, y: int) {
      if Dx() < Dy() then Between(y0, y, y1) && Dist(2 * Dy() * (x - x0), 2 * Dist(y, y0) * (x1 - x0)) <= Dy()
      else Between(x0, x, x1) && Dist(2 * Dx() * (y - y0), 2 * Dist(x, x0) * (y1 - y0)) <= Dx()
    }
  }

  predicate Between(a: int, b: int, c: int) {
    a <= b <= c || c <= b <= a
  }

  function Dist(a: int, b: int): nat {
    if a < b then b - a else a - b
  }

  /** `i * minor / major` rounded to the nearest integer, halves down. */
  function Share(i: nat, major: nat, minor: nat): int {
    if major == 0 then 0 else (2 * (i * minor) + major - 1) / (2 * major)
  }

  /** The defining property: `j` minor moves are within half a pixel, and halves go one way. */
  predicate Nearest(i: nat, j: int, major: nat, minor: nat) {
    0 - major <= 2 * (j * major - i * minor) < major
  }

  lemma ShareIsNearest(i: nat, j: int, major: nat, minor: nat)
    requires major > 0
    ensures Nearest(i, j, major, minor) <==> j == Share(i, major, minor)
  {
    var n, d := 2 * (i * minor) + major - 1, 2 * major;
    assert j * d == 2 * (j * major);
    BlockOf(n, d, j);
  }

  lemma ShareEnds(major: nat, minor: nat)
    requires minor <= major
    ensures Share(0, major, minor) == 0 && Share(major, major, minor) == minor
  {
    if major > 0 {
      assert 0 * minor == 0;
      ShareIsNearest(0, 0, major, minor);
      assert minor * major - major * minor == 0;
      ShareIsNearest(major, minor, major, minor);
    }
  }

  /** The line starts and ends at its end points. */
  lemma LineEnds(s: Segment)
    ensures s.Pixel(0) == (s.x0, s.y0) && s.Pixel(s.Steps()) == (s.x1, s.y1)
  {
    if s.Dx() < s.Dy() { ShareEnds(s.Dy(), s.Dx()); } else { ShareEnds(s.Dx(), s.Dy()); }
  }

  /** Different indices are different pixels, and `IndexOf` recovers the index. */
  lemma PixelIndex(s: Segment, k: nat)
    ensures var (x, y) := s.Pixel(k); s.IndexOf(x, y) == k
  {
    assert s.Sx() * k == k || s.Sx() * k == 0 - k;
    assert s.Sy() * k == k || s.Sy() * k == 0 - k;
  }

  // ---------------------------------------------------------------- the error term

  /** Bresenham's error after `xm` moves in x and `ym` moves in y. */
  function ErrorTerm(s: Segment, xm: nat, ym: nat): int {
    s.Dx() - s.Dy() + ym * s.Dx() - xm * s.Dy()
  }

  /** The two tests of the loop. */
  predicate MovesX(s: Segment, err: int) { 2 * err > 0 - s.Dy() }

  predicate MovesY(s: Segment, err: int) { 2 * err < s.Dx() }

  /** After `k` steps the move counts are those of pixel `k`. */
  predicate OnTrack(s: Segment, k: nat, xm: nat, ym: nat) {
    if s.Dx() < s.Dy() then ym == k && Nearest(k, xm, s.Dy(), s.Dx())
    else xm == k && (s.Dx() > 0 ==> Nearest(k, ym, s.Dx(), s.Dy())) && (s.Dx() == s.Dy() ==> ym == k)
  }

  /** One step keeps the counts on track: the major axis always moves, the minor one when it is due. */
  lemma StepOnTrack(s: Segment, k: nat, xm: nat, ym: nat)
    requires OnTrack(s, k, xm, ym) && k < s.Steps()
    ensures var e := ErrorTerm(s, xm, ym);
            var xm' := if MovesX(s, e) then xm + 1 else xm;
            var ym' := if MovesY(s, e) then ym + 1 else ym;
            OnTrack(s, k + 1, xm', ym')
  {
    var dx, dy := s.Dx(), s.Dy();
    var e := ErrorTerm(s, xm, ym);
    assert (k + 1) * dx == k * dx + dx && (k + 1) * dy == k * dy + dy;
    assert (xm + 1) * dy == xm * dy + dy && (ym + 1) * dx == ym * dx + dx;
  }

  /** One more move on either axis changes the error and the coordinates by one step. */
  lemma MoveCounts(s: Segment, xm: nat, ym: nat)
    ensures (xm + 1) * s.Dy() == xm * s.Dy() + s.Dy() && (ym + 1) * s.Dx() == ym * s.Dx() + s.Dx()
    ensures s.Sx() * (xm + 1) == s.Sx() * xm + s.Sx() && s.Sy() * (ym + 1) == s.Sy() * ym + s.Sy()
  {
  }

  lemma OnTrackPixel(s: Segment, k: nat, xm: nat, ym: nat)
    requires OnTrack(s, k, xm, ym) && k <= s.Steps()
    ensures s.Pixel(k) == (s.x0 + s.Sx() * xm, s.y0 + s.Sy() * ym)
  {
    if s.Dx() < s.Dy() { ShareIsNearest(k, xm, s.Dy(), s.Dx()); }
    else if s.Dx() > 0 { ShareIsNearest(k, ym, s.Dx(), s.Dy()); }
    else { assert s.Dy() == 0; }
  }

  /** One turn of the loop: from the error of pixel `k` it computes pixel `k + 1` and its error. */
  lemma NextPixel(s: Segment, k: nat, xm: nat, ym: nat)
    requires OnTrack(s, k, xm, ym) && k < s.Steps()
    ensures var e, (x, y) := ErrorTerm(s, xm, ym), s.Pixel(k);
            var xm' := if MovesX(s, e) then xm + 1 else xm;
            var ym' := if MovesY(s, e) then ym + 1 else ym;
            && OnTrack(s, k + 1, xm', ym')
            && s.Pixel(k + 1) == (if MovesX(s, e) then x + s.Sx() else x, if MovesY(s, e) then y + s.Sy() else y)
            && ErrorTerm(s, xm', ym') == e - (if MovesX(s, e) then s.Dy() else 0) + (if MovesY(s, e) then s.Dx() else 0)
  {
    var e := ErrorTerm(s, xm, ym);
    StepOnTrack(s, k, xm, ym);
    OnTrackPixel(s, k, xm, ym);
    OnTrackPixel(s, k + 1, if MovesX(s, e) then xm + 1 else xm, if MovesY(s, e) then ym + 1 else ym);
    MoveCounts(s, xm, ym);
  }

  /** The loop's position and error term. */
  datatype Pen = Pen(x: int, y: int, err: int)

  /** The pen is at pixel `k` of the line, with the error term of that pixel. */
  predicate AtPixel(s: Segment, k: nat, pen: Pen) {
    var xm, ym := Dist(pen.x, s.x0), Dist(pen.y, s.y0);
    k <= s.Steps() && OnTrack(s, k, xm, ym) && pen.err == ErrorTerm(s, xm, ym) && (pen.x, pen.y) == s.Pixel(k)
  }

  /** One turn of the loop. */
  function Turn(s: Segment, pen: Pen): Pen {
    var mx, my := MovesX(s, pen.err), MovesY(s, pen.err);
    Pen(if mx then pen.x + s.Sx() else pen.x, if my then pen.y + s.Sy() else pen.y,
        pen.err - (if mx then s.Dy() else 0) + (if my then s.Dx() else 0))
  }

  lemma StartsAtPixel(s: Segment)
    ensures AtPixel(s, 0, Pen(s.x0, s.y0, s.Dx() - s.Dy()))
  {
    assert 0 * s.Dx() == 0 && 0 * s.Dy() == 0;
    LineEnds(s);
  }

  /** Each turn takes the pen from one pixel of the ideal line to the next. */
  lemma TurnsToNext(s: Segment, k: nat, pen: Pen)
    requires AtPixel(s, k, pen) && k < s.Steps()
    ensures AtPixel(s, k + 1, Turn(s, pen))
  {
    var xm, ym := Dist(pen.x, s.x0), Dist(pen.y, s.y0);
    NextPixel(s, k, xm, ym);
    OnTrackPixel(s, k, xm, ym);
    MoveCounts(s, xm, ym);
    SignedDistance(s.Sx(), xm);
    SignedDistance(s.Sy(), ym);
  }

  lemma SignedDistance(sign: int, n: nat)
    requires sign == 1 || sign == -1
    ensures sign == 1 ==> sign * n == n
    ensures sign == -1 ==> sign * n == 0 - n
  {
  }

  /** The loop cannot stop early: only the last pixel is the end point. */
  lemma OnlyTheEnd(s: Segment, k: nat)
    requires k <= s.Steps()
    ensures s.Pixel(k) == (s.x1, s.y1) <==> k == s.Steps()
  {
    LineEnds(s);
    PixelIndex(s, k);
    PixelIndex(s, s.Steps());
  }

  /** With sides up to (2^31 - 1) / 3 the error term and its double fit into 32 bits. */
  lemma ErrorFits(s: Segment, k: nat, xm: nat, ym: nat)
    requires OnTrack(s, k, xm, ym) && s.Dx() <= 715827882 && s.Dy() <= 715827882
    ensures -0x8000_0000 <= 2 * ErrorTerm(s, xm, ym) <= 0x7fff_ffff
    ensures -0x8000_0000 <= ErrorTerm(s, xm, ym) - s.Dy() && ErrorTerm(s, xm, ym) + s.Dx() <= 0x7fff_ffff
  {
    if s.Dx() == 0 && s.Dy() == 0 { assert xm * s.Dy() == 0 && ym * s.Dx() == 0; }
  }

  /** Every pixel is within half a pixel of the ideal line, measured along the shorter axis. */
  lemma WithinHalfAPixel(s: Segment, k: nat)
    requires s.Steps() > 0 && k <= s.Steps()
    ensures var (x, y) := s.Pixel(k); var n := s.Steps();
            if s.Dx() < s.Dy()
            then y == s.y0 + s.Sy() * k && Dist(2 * n * (x - s.x0), 2 * k * (s.x1 - s.x0)) <= n
            else x == s.x0 + s.Sx() * k && Dist(2 * n * (y - s.y0), 2 * k * (s.y1 - s.y0)) <= n
  {
    var n := s.Steps();
    if s.Dx() < s.Dy() {
      var j := Share(k, s.Dy(), s.Dx());
      ShareIsNearest(k, j, s.Dy(), s.Dx());
      SignedGap(n, k, j, s.Dx(), s.Sx());
      assert s.Sx() * s.Dx() == s.x1 - s.x0;
    } else {
      var j := Share(k, s.Dx(), s.Dy());
      ShareIsNearest(k, j, s.Dx(), s.Dy());
      SignedGap(n, k, j, s.Dy(), s.Sy());
      assert s.Sy() * s.Dy() == s.y1 - s.y0;
    }
  }

  /** The pixels of the ideal line are near the straight line. */
  lemma HasIsNear(s: Segment, x: int, y: int)
    requires s.Has(x, y)
    ensures s.IsNear(x, y)
  {
    var k := s.IndexOf(x, y);
    if s.Steps() > 0 {
      WithinHalfAPixel(s, k);
      if s.Dx() < s.Dy() { StepsReach(s.y0, s.y1, s.Sy(), k, y); } else { StepsReach(s.x0, s.x1, s.Sx(), k, x); }
    }
  }

  lemma StepsReach(from: int, to: int, sign: int, k: nat, at: int)
    requires sign == (if from < to then 1 else -1) && k <= Dist(from, to) && at == from + sign * k
    ensures Between(from, at, to)
  {
  }

  lemma SignedGap(n: nat, k: nat, j: int, d: nat, sign: int)
    requires sign == 1 || sign == -1
    requires 0 - n <= 2 * (j * n - k * d) < n
    ensures Dist(2 * n * (sign * j), 2 * k * (sign * d)) <= n
  {
    assert 2 * n * j == 2 * (j * n) && 2 * k * d == 2 * (k * d);
    if sign == -1 { assert 2 * n * (-j) == -(2 * n * j) && 2 * k * (sign * d) == 0 - 2 * k * d; }
  }
}
