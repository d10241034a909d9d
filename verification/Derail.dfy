/**
 Rays on which the walk loses its way: a -0.0 direction component on y or z meets an integer
 coordinate, the parameter of its next plane is not a number, and the comparison cascade takes the
 z axis at every step.  Exactly what such a walk covers and visits.
 */
module Derail {
  import opened Wrappers
  import opened ExtReal
  import opened Game
  import opened Voxel

  /** The next plane on y or z is not a number. */
  predicate Stuck(p: Vec3, f: Heading) {
    Stalls(p.y, f.y) || Stalls(p.z, f.z)
  }

  // ---------------------------------------------------------------- steps

  /** The invariant of a stuck walk: only the z axis is tracked. */
  predicate StuckState(st: State, q: Vec3, f: Heading, tau: real) {
    && Ready(st) && st.Active? && (st.t.y.NaN? || st.t.z.NaN?) && !st.remaining.NaN?
    && AxisTracks(q.z, f.z, st.current.z, st.t.z, st.delta.z, st.step.z, tau)
  }

  /** Every step goes along z. */
  lemma StuckStep(st: State)
    requires Ready(st) && st.Active? && (st.t.y.NaN? || st.t.z.NaN?)
    ensures ChooseAxis(st.t) == AxisZ
    ensures Cross(st).1.Some? ==>
      var st' := Cross(st).0;
      && Ready(st') && st'.Active? && (st'.t.y.NaN? || st'.t.z.NaN?)
      && st'.dims == st.dims && st'.remaining == st.remaining
      && st'.current == st.current.(z := st.current.z + st.step.z) && st'.step == st.step && st'.delta == st.delta
      && st'.t.z == Add(st.t.z, st.delta.z)
  {
    CrossRank(st);
  }

  /** The walk never leaves the column of its first cell. */
  lemma {:induction false} StuckColumn(st: State, k: nat)
    requires Ready(st) && st.Active? && (st.t.y.NaN? || st.t.z.NaN?) && k < |Run(st)|
    ensures Run(st)[k].0 == st.current.(z := st.current.z + (k + 1) * st.step.z)
    decreases k
  {
    CrossRank(st);
    StuckStep(st);
    if k > 0 { StuckColumn(Cross(st).0, k - 1); }
  }

  lemma SameColumn(st: State, k: nat)
    requires Ready(st) && st.Active? && (st.t.y.NaN? || st.t.z.NaN?) && k < |Run(st)|
    ensures Run(st)[k].0.x == st.current.x && Run(st)[k].0.y == st.current.y
  {
    StuckColumn(st, k);
  }

  /** As long as the ray stays in the column, the walk covers it. */
  lemma {:induction false} StuckCovers(st: State, q: Vec3, f: Heading, tau: real, s: real)
    requires StuckState(st, q, f, tau) && tau <= s && AtMost(s, st.remaining) && InBox(st.dims, q, f, s)
    requires Within(q.x, f.x.v, s, st.current.x as real, st.current.x as real + 1.0)
    requires Within(q.y, f.y.v, s, st.current.y as real, st.current.y as real + 1.0)
    ensures InCube(st.current, q, f, s) || Covers(Run(st), q, f, s)
    decreases Rank(st)
  {
    CrossRank(st);
    StuckStep(st);
    if f.z.v == 0.0 || s <= st.t.z.v {
      AxisStay(q.z, f.z, st.current.z, st.t.z, st.delta.z, st.step.z, tau, s);
    } else if Cross(st).1.None? {
      AxisBeyond(q.z, f.z, st.current.z, st.t.z, st.delta.z, st.step.z, tau, st.dims.z, s);
    } else {
      AxisCross(q.z, f.z, st.current.z, st.t.z, st.delta.z, st.step.z, tau);
      var st' := Cross(st).0;
      StuckCovers(st', q, f, st.t.z.v, s);
      CoversCons(Cross(st).1.value, Run(st'), q, f, s);
    }
  }

  lemma CoversCons(first: Item, rest: seq<Item>, q: Vec3, f: Heading, s: real)
    ensures Covers([first] + rest, q, f, s) <==> InCube(first.0, q, f, s) || Covers(rest, q, f, s)
  {
    var all := [first] + rest;
    if InCube(first.0, q, f, s) { assert all[0] == first; }
    if j :| 0 <= j < |rest| && InCube(rest[j].0, q, f, s) { assert all[j + 1] == rest[j]; }
    if j :| 0 <= j < |all| && InCube(all[j].0, q, f, s) { assert j > 0 ==> rest[j - 1] == all[j]; }
  }

  // ---------------------------------------------------------------- what a stuck walk covers

  /** The walk has entered the world at parameter `d` and is stuck in state `st`. */
  predicate StuckAt(st: State, dims: Dims, p: Vec3, f: Heading, m: Ext, d: real) {
    && StuckState(st, Move(p, f, d), f, 0.0) && st.dims == dims && st.remaining == SubReal(m, d)
    && f.x.Valid() && f.y.Valid() && 0.0 <= d && AtMost(d, m)
    && InCube(st.current, p, f, d)
  }

  lemma EntryCube(c: Cell, dims: Dims, p: Vec3, f: Heading, d: real)
    ensures InCube(c, Move(p, f, d), f, 0.0) <==> InCube(c, p, f, d)
  {
    Rebase(c, dims, p, f, d, 0.0);
    var e := d + 0.0;
    assert e == d;
  }

  /** Entering the world: the first item, the state after it, and the entry parameter. */
  lemma StuckEntry(dims: Dims, p: Vec3, f: Heading, m: Ext) returns (first: Item, st: State, d: real)
    requires Usable(dims, p, f, m) && Stuck(p, f) && Walk(dims, p, f, m) != []
    ensures StuckAt(st, dims, p, f, m, d) && TClose(dims, p, f) == Fin(d) && !Lt(TFar(dims, p, f), Fin(d))
    ensures Walk(dims, p, f, m) == [first] + Run(st) && first.0 == st.current && |Run(st)| == |Times(st)|
    ensures WalkTimes(dims, p, f, m) == [d] + seq(|Times(st)|, i requires 0 <= i < |Times(st)| => d + Times(st)[i])
    ensures st.current.z == ClampFloor(p.z + f.z.v * d, dims.z) && st.step.z == f.z.Sign()
    ensures st == Advance(Uninit(dims, p, f, m)).0
  {
    WalkUnfolds(dims, p, f, m);
    EntryState(dims, p, f, m);
    d := EntryPoint(dims, p, f, m);
    st, first := Advance(Uninit(dims, p, f, m)).0, Advance(Uninit(dims, p, f, m)).1.value;
    StuckOnEntry(st, dims, p, f, m, d);
  }

  lemma EntryPoint(dims: Dims, p: Vec3, f: Heading, m: Ext) returns (d: real)
    requires Usable(dims, p, f, m) && Walk(dims, p, f, m) != []
    ensures TClose(dims, p, f) == Fin(d) && !Lt(TFar(dims, p, f), Fin(d))
    ensures InBox(dims, p, f, d) && 0.0 <= d && AtMost(d, m)
  {
    WalkUnfolds(dims, p, f, m);
    EntryState(dims, p, f, m);
    EntryIsFinite(dims, p, f, m);
    d := TClose(dims, p, f).v;
    SlabTest(dims, p, f, m, d);
  }

  lemma StuckOnEntry(st: State, dims: Dims, p: Vec3, f: Heading, m: Ext, d: real)
    requires Usable(dims, p, f, m) && Stuck(p, f) && InBox(dims, p, f, d) && 0.0 <= d && AtMost(d, m)
    requires var q := Move(p, f, d); var c := EntryCell(dims, q);
             c.In(dims) && st == Active(c, dims, Cell(f.x.Sign(), f.y.Sign(), f.z.Sign()),
                                        ExtVec(AbsRecip(f.x), AbsRecip(f.y), AbsRecip(f.z)), EntryT(c, q, f),
                                        SubReal(m, d))
    ensures StuckAt(st, dims, p, f, m, d)
    ensures st.current.z == ClampFloor(p.z + f.z.v * d, dims.z) && st.step.z == f.z.Sign()
  {
    EntryTracksAxes(dims, p, f, m, d);
    EntryCube(st.current, dims, p, f, d);
  }

  /** The ray point lies in the column of cells with the x and y of `c`. */
  predicate InColumn(c: Cell, p: Vec3, f: Heading, s: real) {
    && Within(p.x, f.x.v, s, c.x as real, c.x as real + 1.0)
    && Within(p.y, f.y.v, s, c.y as real, c.y as real + 1.0)
  }

  lemma RebaseColumn(c: Cell, dims: Dims, p: Vec3, f: Heading, d: real, s: real)
    ensures InColumn(c, Move(p, f, d), f, s) <==> InColumn(c, p, f, d + s)
    ensures InCube(c, Move(p, f, d), f, s) <==> InCube(c, p, f, d + s)
    ensures InBox(dims, Move(p, f, d), f, s) <==> InBox(dims, p, f, d + s)
  {
    Rebase(c, dims, p, f, d, s);
    WithinMoves(p.x, f.x.v, d, s, c.x as real, c.x as real + 1.0);
    WithinMoves(p.y, f.y.v, d, s, c.y as real, c.y as real + 1.0);
  }

  lemma CoversFromEntry(first: Item, st: State, dims: Dims, p: Vec3, f: Heading, m: Ext, d: real, s: real)
    requires StuckAt(st, dims, p, f, m, d) && first.0 == st.current
    requires d <= s && AtMost(s, m) && InBox(dims, p, f, s)
    ensures Covers([first] + Run(st), p, f, s) <==> InColumn(st.current, p, f, s)
  {
    CoversCons(first, Run(st), p, f, s);
    if InColumn(st.current, p, f, s) { ColumnIsCovered(st, dims, p, f, m, d, s); }
    if Covers(Run(st), p, f, s) { OnlyColumn(st, p, f, s); }
  }

  lemma ColumnIsCovered(st: State, dims: Dims, p: Vec3, f: Heading, m: Ext, d: real, s: real)
    requires StuckState(st, Move(p, f, d), f, 0.0) && st.dims == dims && st.remaining == SubReal(m, d)
    requires d <= s && AtMost(s, m) && InBox(dims, p, f, s) && InColumn(st.current, p, f, s)
    ensures InCube(st.current, p, f, s) || Covers(Run(st), p, f, s)
  {
    var t, q := s - d, Move(p, f, d);
    assert d + t == s;
    RebaseColumn(st.current, dims, p, f, d, t);
    StuckCovers(st, q, f, 0.0, t);
    CoversRebased(Run(st), dims, p, f, d, t);
  }

  lemma CoversRebased(cells: seq<Item>, dims: Dims, p: Vec3, f: Heading, d: real, t: real)
    ensures Covers(cells, Move(p, f, d), f, t) ==> Covers(cells, p, f, d + t)
  {
    if j :| 0 <= j < |cells| && InCube(cells[j].0, Move(p, f, d), f, t) { RebaseColumn(cells[j].0, dims, p, f, d, t); }
  }

  lemma OnlyColumn(st: State, p: Vec3, f: Heading, s: real)
    requires Ready(st) && st.Active? && (st.t.y.NaN? || st.t.z.NaN?) && Covers(Run(st), p, f, s)
    ensures InColumn(st.current, p, f, s)
  {
    var j :| 0 <= j < |Run(st)| && InCube(Run(st)[j].0, p, f, s);
    SameColumn(st, j);
  }

  /**
   A stuck walk covers exactly the part of the ray in the column of its first cell: a point in the
   box and within the limit lies in a yielded cell if and only if it lies in that column.
   */
  lemma StuckWalkCovers(dims: Dims, p: Vec3, f: Heading, m: Ext, s: real)
    requires Usable(dims, p, f, m) && Stuck(p, f) && !Grazes(p, f)
    requires s >= 0.0 && AtMost(s, m) && InBox(dims, p, f, s)
    ensures Walk(dims, p, f, m) != []
    ensures Covers(Walk(dims, p, f, m), p, f, s) <==> InColumn(Walk(dims, p, f, m)[0].0, p, f, s)
  {
    EntryIsComplete(dims, p, f, m, s);
    WalkUnfolds(dims, p, f, m);
    var first, st, d := StuckEntry(dims, p, f, m);
    CoversFromEntry(first, st, dims, p, f, m, d, s);
  }

  // ---------------------------------------------------------------- exactly when the walk is complete

  /** The parameter at which the ray leaves cell `c` on an axis, if it moves on it. */
  function AxisEnd(p: real, f: Component, c: int): Ext {
    if f.v == 0.0 then PosInf else Fin((NextPlane(c, f) - p) * (1.0 / f.v))
  }

  /** From a point inside the cell on, the ray stays inside up to `AxisEnd`. */
  lemma AxisEndIsEnd(p: real, f: Component, c: int, d: real, s: real)
    requires f.Valid() && Within(p, f.v, d, c as real, c as real + 1.0) && d <= s
    ensures Within(p, f.v, s, c as real, c as real + 1.0) <==> AtMost(s, AxisEnd(p, f, c))
  {
    if f.v == 0.0 {
      ZeroTimes(f.v, d);
      ZeroTimes(f.v, s);
    } else {
      ForwardEnd(p, f.v, c as real, d, s);
      BackwardEnd(p, f.v, c as real, d, s);
    }
  }

  lemma ForwardEnd(p: real, v: real, c: real, d: real, s: real)
    requires d <= s
    ensures v > 0.0 && Within(p, v, d, c, c + 1.0) ==> (Within(p, v, s, c, c + 1.0) <==> s <= (c + 1.0 - p) * (1.0 / v))
  {
    if v > 0.0 {
      QuotientOrder(c + 1.0 - p, v, s);
      MulOrder(v, d, s);
    }
  }

  lemma BackwardEnd(p: real, v: real, c: real, d: real, s: real)
    requires d <= s
    ensures v < 0.0 && Within(p, v, d, c, c + 1.0) ==> (Within(p, v, s, c, c + 1.0) <==> s <= (c - p) * (1.0 / v))
  {
    if v < 0.0 {
      QuotientOrder(c - p, v, s);
      MulOrder(v, d, s);
    }
  }

  /** Where the part of the ray ends that lies in the box and within the limit. */
  function Reach(dims: Dims, p: Vec3, f: Heading, m: Ext): Ext {
    Min(m, TFar(dims, p, f))
  }

  /** The ray enters the world within the limit, as the slab test sees it. */
  predicate Enters(dims: Dims, p: Vec3, f: Heading, m: Ext) {
    TClose(dims, p, f).Fin? && !Lt(TFar(dims, p, f), TClose(dims, p, f)) && AtMost(TClose(dims, p, f).v, m)
  }

  lemma EntersIff(dims: Dims, p: Vec3, f: Heading, m: Ext)
    requires Usable(dims, p, f, m)
    ensures Enters(dims, p, f, m) <==> Walk(dims, p, f, m) != []
    ensures Walk(dims, p, f, m) != [] ==> Walk(dims, p, f, m)[0].0 == EntryCell(dims, Move(p, f, TClose(dims, p, f).v))
  {
    WalkUnfolds(dims, p, f, m);
    EntryIsFinite(dims, p, f, m);
    if Walk(dims, p, f, m) != [] { EntryState(dims, p, f, m); }
    if Enters(dims, p, f, m) { EntryCellExists(dims, Move(p, f, TClose(dims, p, f).v)); }
  }

  /** The ray does not leave the column of its entry cell before it leaves the box or reaches the limit. */
  predicate StaysInColumn(dims: Dims, p: Vec3, f: Heading, m: Ext)
    requires Usable(dims, p, f, m) && Enters(dims, p, f, m)
  {
    var c := EntryCell(dims, Move(p, f, TClose(dims, p, f).v));
    !Lt(AxisEnd(p.x, f.x, c.x), Reach(dims, p, f, m)) && !Lt(AxisEnd(p.y, f.y, c.y), Reach(dims, p, f, m))
  }

  // A ray that slides along a border is in the box while its other axes are.

  function SlideNear(p: real, f: Component, dim: nat): Ext {
    if GrazesAxis(p, f) then NegInf else Near(p, f, dim)
  }

  function SlideFar(p: real, f: Component, dim: nat): Ext {
    if GrazesAxis(p, f) then PosInf else Far(p, f, dim)
  }

  /** Where the slide begins: the latest entry into a slab, from the eye on. */
  function SlideStart(dims: Dims, p: Vec3, f: Heading): Ext {
    Max(Fin(0.0), Max(SlideNear(p.x, f.x, dims.x), Max(SlideNear(p.y, f.y, dims.y), SlideNear(p.z, f.z, dims.z))))
  }

  /** Where it ends: the earliest exit from a slab, within the limit. */
  function SlideEnd(dims: Dims, p: Vec3, f: Heading, m: Ext): Ext {
    Min(m, Min(SlideFar(p.x, f.x, dims.x), Min(SlideFar(p.y, f.y, dims.y), SlideFar(p.z, f.z, dims.z))))
  }

  lemma SlideAxis(p: real, f: Component, dim: nat, s: real)
    requires f.Valid() && (f.v == 0.0 ==> p != dim as real)
    ensures Within(p, f.v, s, 0.0, dim as real) <==> AtLeast(s, SlideNear(p, f, dim)) && AtMost(s, SlideFar(p, f, dim))
    ensures !SlideNear(p, f, dim).NaN? && !SlideFar(p, f, dim).NaN?
    ensures f.v != 0.0 ==> SlideNear(p, f, dim).Fin? && SlideFar(p, f, dim).Fin?
  {
    SlabAxis(p, f, dim, s);
    ZeroTimes(f.v, s);
  }

  /** A point of the ray within the limit is in the box exactly between the two ends of the slide. */
  lemma SlideIsInBox(dims: Dims, p: Vec3, f: Heading, m: Ext, s: real)
    requires Usable(dims, p, f, m)
    ensures s >= 0.0 && AtMost(s, m) && InBox(dims, p, f, s) <==>
            AtLeast(s, SlideStart(dims, p, f)) && AtMost(s, SlideEnd(dims, p, f, m))
    ensures SlideStart(dims, p, f).Fin? || SlideStart(dims, p, f).PosInf?
    ensures SlideEnd(dims, p, f, m).Fin? || SlideEnd(dims, p, f, m).NegInf?
  {
    SlideAxis(p.x, f.x, dims.x, s);
    SlideAxis(p.y, f.y, dims.y, s);
    SlideAxis(p.z, f.z, dims.z, s);
    var (nx, fx) := (SlideNear(p.x, f.x, dims.x), SlideFar(p.x, f.x, dims.x));
    var (ny, fy) := (SlideNear(p.y, f.y, dims.y), SlideFar(p.y, f.y, dims.y));
    var (nz, fz) := (SlideNear(p.z, f.z, dims.z), SlideFar(p.z, f.z, dims.z));
    SlideEnds(s, m, nx, ny, nz, fx, fy, fz);
  }

  lemma SlideEnds(s: real, m: Ext, nx: Ext, ny: Ext, nz: Ext, fx: Ext, fy: Ext, fz: Ext)
    requires !m.NaN? && !nx.NaN? && !ny.NaN? && !nz.NaN? && !fx.NaN? && !fy.NaN? && !fz.NaN?
    requires fx.Fin? || fy.Fin? || fz.Fin?
    ensures var start, end := Max(Fin(0.0), Max(nx, Max(ny, nz))), Min(m, Min(fx, Min(fy, fz)));
            && (AtLeast(s, start) <==> s >= 0.0 && AtLeast(s, nx) && AtLeast(s, ny) && AtLeast(s, nz))
            && (AtMost(s, end) <==> AtMost(s, m) && AtMost(s, fx) && AtMost(s, fy) && AtMost(s, fz))
            && (start.Fin? || start.PosInf?) && (end.Fin? || end.NegInf?)
  {
    AtLeastMax(s, ny, nz);
    AtLeastMax(s, nx, Max(ny, nz));
    AtMostMin(s, fy, fz);
    AtMostMin(s, fx, Min(fy, fz));
    AtMostMin(s, m, Min(fx, Min(fy, fz)));
  }

  /** Every ray point in the box and within the limit lies in a yielded cell. */
  ghost predicate Complete(dims: Dims, p: Vec3, f: Heading, m: Ext)
    requires Usable(dims, p, f, m)
  {
    forall s {:trigger InBox(dims, p, f, s)} ::
      s >= 0.0 && AtMost(s, m) && InBox(dims, p, f, s) ==> Covers(Walk(dims, p, f, m), p, f, s)
  }

  /**
   Exactly when the traversal is complete.  A ray that slides along a border yields nothing, so the
   slide must be empty; any other ray must miss the world, or not be stuck, or stay in its column.
   */
  lemma CompleteIff(dims: Dims, p: Vec3, f: Heading, m: Ext)
    requires Usable(dims, p, f, m)
    ensures Complete(dims, p, f, m) <==>
            if Grazes(p, f) then Lt(SlideEnd(dims, p, f, m), SlideStart(dims, p, f))
            else !Enters(dims, p, f, m) || Steers(p, f) || StaysInColumn(dims, p, f, m)
  {
    EntersIff(dims, p, f, m);
    if Grazes(p, f) {
      SlidingCompleteIff(dims, p, f, m);
    } else if !Enters(dims, p, f, m) {
      forall s
        ensures !(s >= 0.0 && AtMost(s, m) && InBox(dims, p, f, s))
      {
        if s >= 0.0 && AtMost(s, m) && InBox(dims, p, f, s) {
          WalkUnfolds(dims, p, f, m);
          EntryIsComplete(dims, p, f, m, s);
        }
      }
    } else if Steers(p, f) {
      SteeredIsComplete(dims, p, f, m);
    } else {
      StuckCompleteIff(dims, p, f, m);
    }
  }

  lemma SlidingCompleteIff(dims: Dims, p: Vec3, f: Heading, m: Ext)
    requires Usable(dims, p, f, m) && Grazes(p, f)
    ensures Complete(dims, p, f, m) <==> Lt(SlideEnd(dims, p, f, m), SlideStart(dims, p, f))
  {
    GrazingWalkIsEmpty(dims, p, f, m);
    var start, end := SlideStart(dims, p, f), SlideEnd(dims, p, f, m);
    SlideIsInBox(dims, p, f, m, 0.0);
    if Lt(end, start) {
      forall s
        ensures !(s >= 0.0 && AtMost(s, m) && InBox(dims, p, f, s))
      {
        SlideIsInBox(dims, p, f, m, s);
      }
    } else {
      SlideIsInBox(dims, p, f, m, start.v);
      assert InBox(dims, p, f, start.v) && !Covers([], p, f, start.v);
    }
  }

  lemma SteeredIsComplete(dims: Dims, p: Vec3, f: Heading, m: Ext)
    requires Usable(dims, p, f, m) && !Grazes(p, f) && Steers(p, f)
    ensures Complete(dims, p, f, m)
  {
    var w := Walk(dims, p, f, m);
    WalkUnfolds(dims, p, f, m);
    forall s | s >= 0.0 && AtMost(s, m) && InBox(dims, p, f, s)
      ensures Covers(w, p, f, s)
    {
      WalkIsComplete(dims, p, f, m, |w|, s);
      assert w[..|w|] == w;
    }
  }

  lemma StuckCompleteIff(dims: Dims, p: Vec3, f: Heading, m: Ext)
    requires Usable(dims, p, f, m) && !Grazes(p, f) && Stuck(p, f) && Enters(dims, p, f, m)
    ensures Complete(dims, p, f, m) <==> StaysInColumn(dims, p, f, m)
  {
    EntersIff(dims, p, f, m);
    var s := ReachIsMet(dims, p, f, m);
    if Complete(dims, p, f, m) { ColumnUpTo(dims, p, f, m, s); }
    if StaysInColumn(dims, p, f, m) {
      forall s' | s' >= 0.0 && AtMost(s', m) && InBox(dims, p, f, s')
        ensures Covers(Walk(dims, p, f, m), p, f, s')
      {
        SlabTest(dims, p, f, m, s');
        ColumnUpTo(dims, p, f, m, s');
      }
    }
  }

  /** The last point of the ray in the box and within the limit. */
  lemma ReachIsMet(dims: Dims, p: Vec3, f: Heading, m: Ext) returns (s: real)
    requires Usable(dims, p, f, m) && !Grazes(p, f) && Stuck(p, f) && Walk(dims, p, f, m) != []
    ensures Reach(dims, p, f, m) == Fin(s) && s >= 0.0 && AtMost(s, m) && InBox(dims, p, f, s)
  {
    var first, st, d := StuckEntry(dims, p, f, m);
    EntryIsFinite(dims, p, f, m);
    s := Reach(dims, p, f, m).v;
    SlabTest(dims, p, f, m, s);
  }

  /** A point of the ray in the box and within the limit is covered exactly up to the end of the column. */
  lemma ColumnUpTo(dims: Dims, p: Vec3, f: Heading, m: Ext, s: real)
    requires Usable(dims, p, f, m) && !Grazes(p, f) && Stuck(p, f) && Walk(dims, p, f, m) != []
    requires s >= 0.0 && AtMost(s, m) && InBox(dims, p, f, s)
    ensures var c := Walk(dims, p, f, m)[0].0;
            Covers(Walk(dims, p, f, m), p, f, s) <==>
            AtMost(s, AxisEnd(p.x, f.x, c.x)) && AtMost(s, AxisEnd(p.y, f.y, c.y))
  {
    var first, st, d := StuckEntry(dims, p, f, m);
    SlabTest(dims, p, f, m, s);
    CoversFromEntry(first, st, dims, p, f, m, d, s);
    AxisEndIsEnd(p.x, f.x, st.current.x, d, s);
    AxisEndIsEnd(p.y, f.y, st.current.y, d, s);
  }

  // ---------------------------------------------------------------- exactly which cells are met

  /** The ray meets the closed cube of the cell within the limit. */
  ghost predicate Met(c: Cell, p: Vec3, f: Heading, m: Ext) {
    exists s :: s >= 0.0 && AtMost(s, m) && InCube(c, p, f, s)
  }

  /** Along a moving z axis the z range of a later cell is met at its crossing parameter, within the limit. */
  lemma {:induction false} StuckTimes(st: State, q: Vec3, f: Heading, tau: real, k: nat)
    requires StuckState(st, q, f, tau) && f.z.v != 0.0 && k < |Run(st)|
    ensures |Times(st)| == |Run(st)| && tau <= Times(st)[k] && AtMost(Times(st)[k], st.remaining)
    ensures MetOnZ(Run(st)[k].0, q.z, f, Times(st)[k])
    decreases k
  {
    RunIsShort(st);
    CrossRank(st);
    StuckStep(st);
    AxisCross(q.z, f.z, st.current.z, st.t.z, st.delta.z, st.step.z, tau);
    if k > 0 { StuckTimes(Cross(st).0, q, f, st.t.z.v, k - 1); }
  }

  /** Before that parameter it is not met. */
  lemma {:induction false} StuckNotBefore(st: State, q: Vec3, f: Heading, tau: real, k: nat, s: real)
    requires StuckState(st, q, f, tau) && f.z.v != 0.0 && k < |Run(st)| == |Times(st)|
    requires MetOnZ(Run(st)[k].0, q.z, f, s)
    ensures Times(st)[k] <= s
    decreases k
  {
    CrossRank(st);
    StuckStep(st);
    var st' := Cross(st).0;
    if k > 0 {
      AxisCross(q.z, f.z, st.current.z, st.t.z, st.delta.z, st.step.z, tau);
      RunIsShort(st');
      StuckNotBefore(st', q, f, st.t.z.v, k - 1, s);
    } else {
      AxisReached(q.z, f.z, st.current.z, st.t.z, st.delta.z, st.step.z, tau, s);
    }
  }

  /** The next cell of an axis is not met before the crossing. */
  lemma AxisReached(q: real, f: Component, c: int, t: Ext, delta: Ext, step: int, tau: real, s: real)
    requires AxisTracks(q, f, c, t, delta, step, tau) && f.v != 0.0
    requires Within(q, f.v, s, (c + step) as real, (c + step) as real + 1.0)
    ensures t.v <= s
  {
    if s < t.v { MulStrict(f.v, s, t.v); }
    assert f.v * t.v == NextPlane(c, f) - q;
  }

  lemma CubeInBox(c: Cell, dims: Dims, p: Vec3, f: Heading, s: real)
    requires c.In(dims) && InCube(c, p, f, s)
    ensures InBox(dims, p, f, s)
  {
    assert c.x as real + 1.0 <= dims.x as real && c.y as real + 1.0 <= dims.y as real &&
           c.z as real + 1.0 <= dims.z as real;
  }

  /** The ray is only in the world from the entry parameter on. */
  lemma MetAfterEntry(dims: Dims, p: Vec3, f: Heading, m: Ext, c: Cell, s: real)
    requires Usable(dims, p, f, m) && Walk(dims, p, f, m) != [] && c.In(dims)
    requires s >= 0.0 && InCube(c, p, f, s) && TClose(dims, p, f).Fin?
    ensures TClose(dims, p, f).v <= s
  {
    if Grazes(p, f) { GrazingWalkIsEmpty(dims, p, f, m); }
    CubeInBox(c, dims, p, f, s);
    SlabTest(dims, p, f, m, s);
  }

  /** A later cell: its column, and when its z range is met. */
  lemma LaterCell(st: State, q: Vec3, f: Heading, k: nat) returns (c: Cell, at: real)
    requires StuckState(st, q, f, 0.0) && f.z.v != 0.0 && k < |Run(st)| == |Times(st)|
    ensures c == Run(st)[k].0 && at == Times(st)[k] && c.x == st.current.x && c.y == st.current.y
    ensures 0.0 <= at && AtMost(at, st.remaining) && MetOnZ(c, q.z, f, at)
    ensures forall t :: MetOnZ(c, q.z, f, t) ==> at <= t
  {
    c, at := Run(st)[k].0, Times(st)[k];
    SameColumn(st, k);
    StuckTimes(st, q, f, 0.0, k);
    forall t | MetOnZ(c, q.z, f, t)
      ensures at <= t
    {
      StuckNotBefore(st, q, f, 0.0, k, t);
    }
  }

  /** The ray point lies in the z range of the cell. */
  predicate MetOnZ(c: Cell, z: real, f: Heading, t: real) {
    Within(z, f.z.v, t, c.z as real, c.z as real + 1.0)
  }

  /** A met cell is met after its z crossing and before the column ends. */
  lemma MetIsEarly(p: Vec3, f: Heading, m: Ext, first: Cell, c: Cell, d: real, at: real)
    requires f.x.Valid() && c.x == first.x && InCube(first, p, f, d)
    requires forall t :: MetOnZ(c, Move(p, f, d).z, f, t) ==> at <= t
    requires Met(c, p, f, m) && forall s :: s >= 0.0 && InCube(c, p, f, s) ==> d <= s
    ensures AtMost(d + at, AxisEnd(p.x, f.x, first.x))
  {
    var s :| s >= 0.0 && AtMost(s, m) && InCube(c, p, f, s);
    ZMoves(p, f, d, s - d, c);
    assert d + (s - d) == s;
    AxisEndIsEnd(p.x, f.x, first.x, d, s);
  }

  lemma ZMoves(p: Vec3, f: Heading, d: real, t: real, c: Cell)
    ensures MetOnZ(c, Move(p, f, d).z, f, t) <==> MetOnZ(c, p.z, f, d + t)
  {
    WithinMoves(p.z, f.z.v, d, t, c.z as real, c.z as real + 1.0);
  }

  lemma EarlyIsMet(p: Vec3, f: Heading, m: Ext, first: Cell, c: Cell, d: real, at: real)
    requires f.x.Valid() && f.y.Valid() && f.y.v == 0.0 && c.x == first.x && c.y == first.y
    requires InCube(first, p, f, d) && 0.0 <= d && 0.0 <= at && AtMost(at, SubReal(m, d))
    requires AtMost(d + at, AxisEnd(p.x, f.x, first.x)) && MetOnZ(c, Move(p, f, d).z, f, at)
    ensures Met(c, p, f, m)
  {
    ZMoves(p, f, d, at, c);
    AxisEndIsEnd(p.x, f.x, c.x, d, d + at);
    AxisEndIsEnd(p.y, f.y, c.y, d, d + at);
    assert InCube(c, p, f, d + at);
  }

  /** On a z axis that does not move, the neighbour is met only when the ray lies in the plane between. */
  lemma StandingAxis(p: real, f: Component, dim: nat, k: nat, s: real)
    requires f.v == 0.0 && dim > 0 && 0.0 <= p < dim as real && k > 0
    ensures var z := ClampFloor(p, dim) + k * f.Sign();
            Within(p, f.v, s, z as real, z as real + 1.0) <==> k == 1 && Stalls(p, f)
  {
    ZeroTimes(f.v, s);
    assert k * f.Sign() == if f.neg then 0 - k else k;
    assert ClampFloor(p, dim) == p.Floor;
  }

  lemma StandingMeets(st: State, dims: Dims, p: Vec3, f: Heading, m: Ext, d: real, k: nat)
    requires StuckAt(st, dims, p, f, m, d) && f.z.v == 0.0 && k < |Run(st)|
    requires dims.z > 0 && 0.0 <= p.z < dims.z as real
    requires st.current.z == ClampFloor(p.z, dims.z) && st.step.z == f.z.Sign()
    ensures Met(Run(st)[k].0, p, f, m) <==> k == 0 && Stalls(p.z, f.z)
  {
    var c := Run(st)[k].0;
    StuckColumn(st, k);
    if s :| s >= 0.0 && AtMost(s, m) && InCube(c, p, f, s) { StandingAxis(p.z, f.z, dims.z, k + 1, s); }
    if k == 0 && Stalls(p.z, f.z) {
      StandingAxis(p.z, f.z, dims.z, 1, d);
      assert InCube(c, p, f, d);
    }
  }

  /** The condition of `StuckMeets`. */
  predicate StuckItemIsMet(dims: Dims, p: Vec3, f: Heading, m: Ext, k: nat)
    requires Usable(dims, p, f, m) && k < |WalkTimes(dims, p, f, m)|
  {
    if f.z.v == 0.0 then k == 1 && Stalls(p.z, f.z)
    else
      EntryIsFinite(dims, p, f, m);
      WalkUnfolds(dims, p, f, m);
      var c := EntryCell(dims, Move(p, f, TClose(dims, p, f).v));
      AtMost(WalkTimes(dims, p, f, m)[k], AxisEnd(p.x, f.x, c.x))
  }

  /** The first item of every walk is met, at the entry parameter. */
  lemma FirstIsMet(dims: Dims, p: Vec3, f: Heading, m: Ext)
    requires Usable(dims, p, f, m) && Walk(dims, p, f, m) != []
    ensures Met(Walk(dims, p, f, m)[0].0, p, f, m)
  {
    WalkUnfolds(dims, p, f, m);
    EntryState(dims, p, f, m);
    var d, c := TClose(dims, p, f).v, Walk(dims, p, f, m)[0].0;
    SlabTest(dims, p, f, m, d);
    EntryTracksAxes(dims, p, f, m, d);
    EntryCube(c, dims, p, f, d);
    assert InCube(c, p, f, d);
  }

  /**
   Exactly which later cells of a stuck walk the ray meets.  With a moving z axis: those entered
   before the ray leaves the column in x.  With a z axis that does not move: the first, if z stalls.
   */
  lemma StuckMeets(dims: Dims, p: Vec3, f: Heading, m: Ext, k: nat)
    requires Usable(dims, p, f, m) && Stuck(p, f) && 0 < k < |Walk(dims, p, f, m)|
    ensures |WalkTimes(dims, p, f, m)| == |Walk(dims, p, f, m)|
    ensures Met(Walk(dims, p, f, m)[k].0, p, f, m) <==> StuckItemIsMet(dims, p, f, m, k)
  {
    EntersIff(dims, p, f, m);
    var first, st, d := StuckEntry(dims, p, f, m);
    var c := Walk(dims, p, f, m)[k].0;
    assert c == Run(st)[k - 1].0;
    if f.z.v != 0.0 {
      WalkInBounds(dims, p, f, m, k);
      forall s | s >= 0.0 && InCube(c, p, f, s)
        ensures d <= s
      {
        MetAfterEntry(dims, p, f, m, c, s);
      }
      var cell, at := LaterCell(st, Move(p, f, d), f, k - 1);
      if Met(c, p, f, m) { MetIsEarly(p, f, m, st.current, c, d, at); }
      if AtMost(d + at, AxisEnd(p.x, f.x, st.current.x)) { EarlyIsMet(p, f, m, st.current, c, d, at); }
    } else {
      ZeroTimes(f.z.v, d);
      SlabTest(dims, p, f, m, d);
      StandingMeets(st, dims, p, f, m, d, k - 1);
    }
  }

  // ---------------------------------------------------------------- an example

  /**
   Looking along (-3/5, -0.0, 4/5), as with a loaded pitch of -0.0, from (5/2, 4, 1/2): the walk
   misses the ray point at parameter 1 and yields a cell the ray never touches, limit or not.
   */
  lemma NegativeZeroDerails(m: Ext)
    requires m == Fin(5.0) || m == PosInf
    ensures var (dims, p, f) := DerailInput();
            && Usable(dims, p, f, m) && !Grazes(p, f) && !Steers(p, f)
            && InBox(dims, p, f, 1.0) && !Covers(Walk(dims, p, f, m), p, f, 1.0)
            && |Walk(dims, p, f, m)| > 2 && Walk(dims, p, f, m)[2].0 == Cell(2, 4, 2)
            && forall s :: !InCube(Cell(2, 4, 2), p, f, s)
  {
    var (dims, p, f) := DerailInput();
    DerailMisses(m);
    DerailWalk(m);
    StuckWalkCovers(dims, p, f, m, 1.0);
  }

  lemma DerailWalk(m: Ext)
    requires m == Fin(5.0) || m == PosInf
    ensures var (dims, p, f) := DerailInput();
            && Usable(dims, p, f, m) && |Walk(dims, p, f, m)| > 2
            && Walk(dims, p, f, m)[0].0 == Cell(2, 4, 0) && Walk(dims, p, f, m)[2].0 == Cell(2, 4, 2)
  {
    var (dims, p, f) := DerailInput();
    var first, st, d := DerailEntry(m);
    DerailSteps(st);
  }

  lemma DerailMisses(m: Ext)
    requires !m.NaN?
    ensures var (dims, p, f) := DerailInput();
            && Usable(dims, p, f, m) && Stuck(p, f) && !Steers(p, f) && !Grazes(p, f)
            && InBox(dims, p, f, 1.0) && !InColumn(Cell(2, 4, 0), p, f, 1.0)
            && forall s :: !InCube(Cell(2, 4, 2), p, f, s)
  {
    assert 4.0.Floor == 4;
  }

  function DerailInput(): (Dims, Vec3, Heading) {
    (Dims(8, 8, 8), Vec3(2.5, 4.0, 0.5),
     Heading(Component(-0.6, true), Component(0.0, true), Component(0.8, false)))
  }

  lemma DerailSlabs()
    ensures var (dims, p, f) := DerailInput();
            TFar(dims, p, f).Fin? && TFar(dims, p, f).v > 0.0 && TClose(dims, p, f) == Fin(0.0)
  {
    var (dims, p, f) := DerailInput();
    assert 1.0 / -0.6 == -5.0 / 3.0 && 1.0 / 0.8 == 1.25;
    assert Near(p.x, f.x, 8) == Fin(5.5 * (-5.0 / 3.0)) && Far(p.x, f.x, 8) == Fin(-2.5 * (-5.0 / 3.0));
    assert Near(p.y, f.y, 8) == NegInf && Far(p.y, f.y, 8) == PosInf;
    assert Near(p.z, f.z, 8) == Fin(-0.625) && Far(p.z, f.z, 8) == Fin(9.375);
  }

  /** The state after the entry. */
  predicate DerailState(st: State, m: Ext) {
    && st.Active? && st.current == Cell(2, 4, 0) && st.dims == Dims(8, 8, 8) && st.step == Cell(-1, -1, 1)
    && st.t.y.NaN? && st.t.z == Fin(0.625) && st.delta.z == Fin(1.25) && st.remaining == m
  }

  lemma DerailStart()
    ensures var (dims, p, f) := DerailInput();
            && Move(p, f, 0.0) == p && EntryCell(dims, p) == Cell(2, 4, 0)
            && EntryT(Cell(2, 4, 0), p, f).y.NaN? && EntryT(Cell(2, 4, 0), p, f).z == Fin(0.625)
            && AbsRecip(f.z) == Fin(1.25)
  {
    assert ClampFloor(2.5, 8) == 2 && ClampFloor(4.0, 8) == 4 && ClampFloor(0.5, 8) == 0;
    assert 1.0 / 0.8 == 1.25;
  }

  lemma DerailEntry(m: Ext) returns (first: Item, st: State, d: real)
    requires m == Fin(5.0) || m == PosInf
    ensures var (dims, p, f) := DerailInput();
            && Usable(dims, p, f, m) && DerailState(st, m) && first.0 == Cell(2, 4, 0)
            && Ready(st) && Walk(dims, p, f, m) == [first] + Run(st)
  {
    var (dims, p, f) := DerailInput();
    DerailMisses(m);
    DerailSlabs();
    DerailStart();
    EntryIsComplete(dims, p, f, m, 1.0);
    WalkUnfolds(dims, p, f, m);
    EntryState(dims, p, f, m);
    first, st, d := StuckEntry(dims, p, f, m);
  }

  lemma DerailSteps(st: State)
    requires DerailState(st, Fin(5.0)) || DerailState(st, PosInf)
    ensures Ready(st) && |Run(st)| > 1 && Run(st)[1].0 == Cell(2, 4, 2)
  {
    CrossRank(st);
    StuckStep(st);
    var st' := Cross(st).0;
    CrossRank(st');
    StuckStep(st');
    StuckColumn(st, 1);
  }
}
