/**
 Line wrapping.  The incremental rule that looks at one glyph at a time, a batch rule that wraps a
 whole logical line greedily, and a declarative reading of greedy wrapping; all three agree.
 */
module TextLayout {

  /** Where lines start and where they must end. */
  datatype Margins = Margins(left: int, end: int)

  /** Start (inclusive) and end (exclusive) of a visual line within its logical line. */
  type Span = (nat, nat)

  /** Total advance of the glyphs `from .. to`. */
  function Advance(advs: seq<int>, from: nat, to: nat): int
    requires from <= to <= |advs|
  {
    if from == to then 0 else Advance(advs, from, to - 1) + advs[to - 1]
  }

  lemma {:induction false} AdvanceHead(advs: seq<int>, from: nat, to: nat)
    requires from < to <= |advs|
    ensures Advance(advs, from, to) == advs[from] + Advance(advs, from + 1, to)
  {
    if from + 1 < to { AdvanceHead(advs, from, to - 1); }
  }

  lemma {:induction false} AdvanceSnoc(advs: seq<int>, a: int, from: nat, to: nat)
    requires from <= to <= |advs|
    ensures Advance(advs + [a], from, to) == Advance(advs, from, to)
  {
    if from < to { AdvanceSnoc(advs, a, from, to - 1); }
  }

  // ---------------------------------------------------------------- batch

  /** The first glyph from `k` on that does not fit when the pen is at `x`. */
  function FitEnd(m: Margins, advs: seq<int>, k: nat, x: int): (e: nat)
    requires k <= |advs|
    ensures k <= e <= |advs|
    decreases |advs| - k
  {
    if k == |advs| || x + advs[k] > m.end then k else FitEnd(m, advs, k + 1, x + advs[k])
  }

  /** Visual lines from `start` on; each takes its first glyph unconditionally. */
  function WrapFrom(m: Margins, advs: seq<int>, start: nat): (r: seq<Span>)
    requires start <= |advs|
    ensures forall i :: 0 <= i < |r| ==> r[i].0 <= r[i].1 <= |advs|
    decreases |advs| - start
  {
    if start == |advs| then []
    else
      var e := FitEnd(m, advs, start + 1, m.left + advs[start]);
      [(start, e)] + WrapFrom(m, advs, e)
  }

  /** The visual lines of a logical line; the first may be empty. */
  function Wrap(m: Margins, advs: seq<int>): (r: seq<Span>)
    ensures r != [] && forall i :: 0 <= i < |r| ==> r[i].0 <= r[i].1 <= |advs|
  {
    var e := FitEnd(m, advs, 0, m.left);
    [(0, e)] + WrapFrom(m, advs, e)
  }

  function LastOf<T>(s: seq<T>): T
    requires s != []
  {
    s[|s| - 1]
  }

  /** The pen after the last visual line. */
  function Pen(m: Margins, advs: seq<int>): int {
    m.left + Advance(advs, LastOf(Wrap(m, advs)).0, LastOf(Wrap(m, advs)).1)
  }

  lemma WrapEmpty(m: Margins)
    ensures Wrap(m, []) == [(0, 0)] && Pen(m, []) == m.left
  {
  }

  // ---------------------------------------------------------------- incremental

  /** Glyph number `n` with advance `a` arrives when the pen is at `pen`. */
  function WrapStep(m: Margins, spans: seq<Span>, pen: int, n: nat, a: int): (seq<Span>, int)
    requires spans != []
  {
    var last := LastOf(spans);
    if pen + a > m.end then (spans[|spans| - 1 := (last.0, n)] + [(n, n + 1)], m.left + a)
    else (spans[|spans| - 1 := (last.0, last.1 + 1)], pen + a)
  }

  lemma {:induction false} FitEndSnoc(m: Margins, advs: seq<int>, a: int, k: nat, x: int)
    requires k <= |advs|
    ensures var e, e' := FitEnd(m, advs, k, x), FitEnd(m, advs + [a], k, x);
            if e < |advs| then e' == e
            else e' == if x + Advance(advs, k, |advs|) + a > m.end then |advs| else |advs| + 1
    decreases |advs| - k
  {
    if k < |advs| && x + advs[k] <= m.end {
      FitEndSnoc(m, advs, a, k + 1, x + advs[k]);
      AdvanceHead(advs, k, |advs|);
    }
  }

  /** What one more glyph does to the lines from `start` on. */
  lemma {:induction false} WrapFromSnoc(m: Margins, advs: seq<int>, a: int, start: nat)
    requires start < |advs|
    ensures var s := WrapFrom(m, advs, start);
            && s != [] && LastOf(s).1 == |advs|
            && WrapFrom(m, advs + [a], start)
               == WrapStep(m, s, m.left + Advance(advs, LastOf(s).0, |advs|), |advs|, a).0
    decreases |advs| - start
  {
    var n := |advs|;
    var e := FitEnd(m, advs, start + 1, m.left + advs[start]);
    FitEndSnoc(m, advs, a, start + 1, m.left + advs[start]);
    var s := WrapFrom(m, advs, start);
    if e < n {
      WrapFromSnoc(m, advs, a, e);
      var t := WrapFrom(m, advs, e);
      EarlierLineSnoc(m, advs, advs + [a], start, e, m.left + Advance(advs, LastOf(t).0, n), a);
      assert LastOf(s) == LastOf(t);
    } else {
      LastLineSnoc(m, advs, a, start);
    }
  }

  lemma WrapFromUnfolds(m: Margins, advs: seq<int>, start: nat)
    requires start < |advs|
    ensures var e := FitEnd(m, advs, start + 1, m.left + advs[start]);
            WrapFrom(m, advs, start) == [(start, e)] + WrapFrom(m, advs, e)
    ensures WrapFrom(m, advs, |advs|) == []
  {
  }

  /** A line before the last one stays as it is. */
  lemma EarlierLineSnoc(m: Margins, advs: seq<int>, longer: seq<int>, start: nat, e: nat, pen: int, a: int)
    requires start < e < |advs| < |longer| && advs[start] == longer[start]
    requires FitEnd(m, advs, start + 1, m.left + advs[start]) == e
          == FitEnd(m, longer, start + 1, m.left + longer[start])
    requires WrapFrom(m, advs, e) != [] && WrapFrom(m, longer, e) == WrapStep(m, WrapFrom(m, advs, e), pen, |advs|, a).0
    ensures WrapFrom(m, advs, start) == [(start, e)] + WrapFrom(m, advs, e)
    ensures WrapFrom(m, longer, start) == WrapStep(m, WrapFrom(m, advs, start), pen, |advs|, a).0
  {
    WrapFromUnfolds(m, advs, start);
    WrapFromUnfolds(m, longer, start);
    StepTail(m, (start, e), WrapFrom(m, advs, e), pen, |advs|, a);
  }

  /** One more glyph on the last line of a wrapping. */
  lemma LastLineSnoc(m: Margins, advs: seq<int>, a: int, start: nat)
    requires start < |advs| && FitEnd(m, advs, start + 1, m.left + advs[start]) == |advs|
    ensures var n, pen := |advs|, m.left + Advance(advs, start, |advs|);
            WrapFrom(m, advs, start) == [(start, n)] &&
            WrapFrom(m, advs + [a], start) == WrapStep(m, [(start, n)], pen, n, a).0
  {
    FitEndSnoc(m, advs, a, start + 1, m.left + advs[start]);
    AdvanceHead(advs, start, |advs|);
    WrapFromUnfolds(m, advs, start);
    LastLineSplits(m, advs + [a], start, |advs|, m.left + Advance(advs, start, |advs|), a);
  }

  lemma LastLineSplits(m: Margins, longer: seq<int>, start: nat, n: nat, pen: int, a: int)
    requires start < n < |longer| == n + 1 && longer[n] == a
    requires FitEnd(m, longer, start + 1, m.left + longer[start]) == if pen + a > m.end then n else n + 1
    ensures WrapFrom(m, longer, start) == WrapStep(m, [(start, n)], pen, n, a).0
  {
    WrapFromUnfolds(m, longer, start);
    WrapFromUnfolds(m, longer, n);
  }

  /** The step only touches the last line. */
  lemma StepTail(m: Margins, first: Span, t: seq<Span>, pen: int, n: nat, a: int)
    requires t != []
    ensures WrapStep(m, [first] + t, pen, n, a) == ([first] + WrapStep(m, t, pen, n, a).0, WrapStep(m, t, pen, n, a).1)
  {
    var last := LastOf(t);
    assert LastOf([first] + t) == last;
    assert ([first] + t)[|t| := (last.0, n)] + [(n, n + 1)] == [first] + (t[|t| - 1 := (last.0, n)] + [(n, n + 1)]);
    assert ([first] + t)[|t| := (last.0, last.1 + 1)] == [first] + t[|t| - 1 := (last.0, last.1 + 1)];
  }

  lemma WrapOneMore(m: Margins, advs: seq<int>, a: int)
    ensures WrapFrom(m, advs + [a], |advs| + 1) == []
    ensures WrapFrom(m, advs + [a], |advs|) == [(|advs|, |advs| + 1)]
  {
  }

  /** Incremental equals batch: one more glyph changes the batch result exactly as the rule says. */
  lemma WrapSnoc(m: Margins, advs: seq<int>, a: int)
    ensures (Wrap(m, advs + [a]), Pen(m, advs + [a])) == WrapStep(m, Wrap(m, advs), Pen(m, advs), |advs|, a)
    ensures LastOf(Wrap(m, advs)).1 == |advs|
  {
    var n, e := |advs|, FitEnd(m, advs, 0, m.left);
    FitEndSnoc(m, advs, a, 0, m.left);
    WrapOneMore(m, advs, a);
    var s := Wrap(m, advs);
    if e < n {
      WrapFromSnoc(m, advs, a, e);
      assert LastOf(s) == LastOf(WrapFrom(m, advs, e));
    } else {
      assert s == [(0, n)];
    }
    PenSnoc(m, advs, a);
  }

  lemma PenSnoc(m: Margins, advs: seq<int>, a: int)
    requires LastOf(Wrap(m, advs)).1 == |advs|
    requires Wrap(m, advs + [a]) == WrapStep(m, Wrap(m, advs), Pen(m, advs), |advs|, a).0
    ensures Pen(m, advs + [a]) == WrapStep(m, Wrap(m, advs), Pen(m, advs), |advs|, a).1
  {
    var n, last := |advs|, LastOf(Wrap(m, advs));
    if Pen(m, advs) + a > m.end {
      assert LastOf(Wrap(m, advs + [a])) == (n, n + 1);
      assert Advance(advs + [a], n, n + 1) == Advance(advs + [a], n, n) + a;
    } else {
      assert LastOf(Wrap(m, advs + [a])) == (last.0, n + 1);
      AdvanceSnoc(advs, a, last.0, n);
    }
  }

  // ---------------------------------------------------------------- what greedy means

  /** Glyphs `from .. to` fit on a line. */
  predicate Fits(m: Margins, advs: seq<int>, from: nat, to: nat)
    requires from <= to <= |advs|
  {
    m.left + Advance(advs, from, to) <= m.end
  }

  /**
   Line `i` of a greedy wrapping: it starts where the previous one ended; on all but the first line
   the first glyph is taken unconditionally; every further glyph fits; and the glyph that begins
   the next line would not have.
   */
  ghost predicate GreedyLine(m: Margins, advs: seq<int>, spans: seq<Span>, i: nat)
    requires i < |spans|
  {
    var (s, e) := spans[i];
    && s == (if i == 0 then 0 else spans[i - 1].1)
    && s <= e <= |advs| && (i > 0 ==> s < e)
    && (forall k :: (if i == 0 then s else s + 1) < k <= e ==> Fits(m, advs, s, k))
    && (if i + 1 < |spans| then e < |advs| && !Fits(m, advs, s, e + 1) else e == |advs|)
  }

  ghost predicate Greedy(m: Margins, advs: seq<int>, spans: seq<Span>) {
    spans != [] && forall i :: 0 <= i < |spans| ==> GreedyLine(m, advs, spans, i)
  }

  lemma {:induction false} FitEndIsGreedy(m: Margins, advs: seq<int>, s: nat, k: nat)
    requires s <= k <= |advs|
    ensures var e := FitEnd(m, advs, k, m.left + Advance(advs, s, k));
            && (forall j :: k < j <= e ==> Fits(m, advs, s, j))
            && (e < |advs| ==> !Fits(m, advs, s, e + 1))
    decreases |advs| - k
  {
    if k < |advs| && m.left + Advance(advs, s, k) + advs[k] <= m.end { FitEndIsGreedy(m, advs, s, k + 1); }
  }

  /** The only greedy end of a line is the one `FitEnd` finds. */
  lemma {:induction false} FitEndIsOnly(m: Margins, advs: seq<int>, s: nat, k: nat, e: nat)
    requires s <= k <= e <= |advs|
    requires forall j :: k < j <= e ==> Fits(m, advs, s, j)
    requires e < |advs| ==> !Fits(m, advs, s, e + 1)
    ensures FitEnd(m, advs, k, m.left + Advance(advs, s, k)) == e
    decreases e - k
  {
    if k < e {
      assert Fits(m, advs, s, k + 1);
      FitEndIsOnly(m, advs, s, k + 1, e);
    }
  }

  lemma {:induction false} GreedyTail(m: Margins, advs: seq<int>, spans: seq<Span>, i: nat)
    requires Greedy(m, advs, spans) && i < |spans|
    ensures spans[i].0 <= spans[i].1 <= |advs|
    ensures i > 0 ==> spans[i..] == WrapFrom(m, advs, spans[i].0)
    ensures i + 1 < |spans| ==> spans[i + 1..] == WrapFrom(m, advs, spans[i].1)
    ensures i + 1 == |spans| ==> spans[i].1 == |advs|
    decreases |spans| - i
  {
    assert GreedyLine(m, advs, spans, i);
    var (s, e) := spans[i];
    if i + 1 < |spans| {
      assert GreedyLine(m, advs, spans, i + 1);
      GreedyTail(m, advs, spans, i + 1);
    }
    if i > 0 {
      assert Advance(advs, s, s + 1) == Advance(advs, s, s) + advs[s];
      FitEndIsOnly(m, advs, s, s + 1, e);
      assert spans[i..] == [(s, e)] + spans[i + 1..];
      if i + 1 == |spans| { assert spans[i + 1..] == []; }
    }
  }

  /** Greedy wrapping is unique: whatever meets the declarative reading is the batch result. */
  lemma GreedyIsWrap(m: Margins, advs: seq<int>, spans: seq<Span>)
    requires Greedy(m, advs, spans)
    ensures spans == Wrap(m, advs)
  {
    assert GreedyLine(m, advs, spans, 0);
    var (s, e) := spans[0];
    assert Advance(advs, 0, 0) == 0;
    FitEndIsOnly(m, advs, 0, 0, e);
    GreedyTail(m, advs, spans, 0);
    assert spans == [spans[0]] + spans[1..];
    if |spans| == 1 { assert spans[1..] == []; }
  }

  /** Only its own line, the one before it and whether it is the last matter to a greedy line. */
  lemma GreedyLater(m: Margins, advs: seq<int>, first: Span, tail: seq<Span>, i: nat)
    requires 0 < i < |tail| && GreedyLine(m, advs, tail, i)
    ensures GreedyLine(m, advs, [first] + tail, i + 1)
  {
    var all := [first] + tail;
    assert all[i + 1] == tail[i] && all[i] == tail[i - 1];
  }

  lemma {:induction false} WrapFromIsGreedy(m: Margins, advs: seq<int>, first: Span, start: nat, i: nat)
    requires start <= |advs| && first.1 == start
    requires i < |WrapFrom(m, advs, start)|
    ensures GreedyLine(m, advs, [first] + WrapFrom(m, advs, start), i + 1)
    decreases |advs| - start
  {
    var e := FitEnd(m, advs, start + 1, m.left + advs[start]);
    var rest := WrapFrom(m, advs, e);
    var all := [first] + WrapFrom(m, advs, start);
    if i == 0 {
      assert Advance(advs, start, start + 1) == Advance(advs, start, start) + advs[start];
      FitEndIsGreedy(m, advs, start, start + 1);
      assert all[1] == (start, e);
    } else {
      WrapFromIsGreedy(m, advs, (start, e), e, i - 1);
      GreedyLater(m, advs, first, [(start, e)] + rest, i);
    }
  }

  /** The batch result meets the declarative reading. */
  lemma WrapIsGreedy(m: Margins, advs: seq<int>)
    ensures Greedy(m, advs, Wrap(m, advs))
  {
    var e := FitEnd(m, advs, 0, m.left);
    assert Advance(advs, 0, 0) == 0;
    FitEndIsGreedy(m, advs, 0, 0);
    var spans := Wrap(m, advs);
    forall i | 0 <= i < |spans|
      ensures GreedyLine(m, advs, spans, i)
    {
      if i > 0 { WrapFromIsGreedy(m, advs, (0, e), e, i - 1); }
    }
  }

  /** A visual line with two or more glyphs fits between the margins, whatever the advances. */
  lemma LongLinesFit(m: Margins, advs: seq<int>, i: nat)
    requires i < |Wrap(m, advs)|
    ensures var (s, e) := Wrap(m, advs)[i]; s + 2 <= e ==> Fits(m, advs, s, e)
  {
    WrapIsGreedy(m, advs);
    assert GreedyLine(m, advs, Wrap(m, advs), i);
  }

  // ---------------------------------------------------------------- how wide is wide enough

  /** Glyphs of advance `a` fit one after the other, up to the `n`-th. */
  predicate UniformFits(m: Margins, a: int, n: nat) {
    forall j {:trigger j * a} :: 0 < j <= n ==> m.left + j * a <= m.end
  }

  lemma {:induction false} NarrowerFits(m: Margins, advs: seq<int>, a: int, k: nat, x: int)
    requires k <= |advs| && x <= m.left + k * a && UniformFits(m, a, |advs|)
    requires forall i :: 0 <= i < |advs| ==> advs[i] <= a
    ensures FitEnd(m, advs, k, x) == |advs|
    decreases |advs| - k
  {
    if k < |advs| {
      assert (k + 1) * a == k * a + a;
      NarrowerFits(m, advs, a, k + 1, x + advs[k]);
    }
  }

  lemma {:induction false} UniformEnd(m: Margins, advs: seq<int>, a: int, k: nat)
    requires k <= |advs| && FitEnd(m, advs, k, m.left + k * a) == |advs|
    requires forall i :: 0 <= i < |advs| ==> advs[i] == a
    ensures forall j {:trigger j * a} :: k < j <= |advs| ==> m.left + j * a <= m.end
    decreases |advs| - k
  {
    if k < |advs| {
      assert (k + 1) * a == k * a + a;
      UniformEnd(m, advs, a, k + 1);
    }
  }

  /** A line stays whole when no glyph is wider than `a` and `UniformFits`; a uniform line only then. */
  lemma StaysWhole(m: Margins, advs: seq<int>, a: int)
    requires forall i :: 0 <= i < |advs| ==> advs[i] <= a
    ensures UniformFits(m, a, |advs|) ==> Wrap(m, advs) == [(0, |advs|)]
    ensures Wrap(m, advs) == [(0, |advs|)] && (forall i :: 0 <= i < |advs| ==> advs[i] == a) ==>
              UniformFits(m, a, |advs|)
  {
    assert 0 * a == 0;
    if UniformFits(m, a, |advs|) { NarrowerFits(m, advs, a, 0, m.left); }
    if Wrap(m, advs) == [(0, |advs|)] && forall i :: 0 <= i < |advs| ==> advs[i] == a {
      assert Wrap(m, advs)[0] == (0, FitEnd(m, advs, 0, m.left));
      UniformEnd(m, advs, a, 0);
    }
  }
}
