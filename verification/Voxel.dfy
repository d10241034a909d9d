/**
 The voxel walk of the camera ray: slab entry test, then one cell per crossed grid plane
 (Amanatides and Woo).  `f32` is modelled by exact reals; a direction component keeps its
 sign bit, so that the reciprocal of a zero component is the infinity the hardware gives.
 */
module Voxel {
  import opened Wrappers
  import opened ExtReal
  import opened Game

  datatype Vec3 = Vec3(x: real, y: real, z: real)

  datatype ExtVec = ExtVec(x: Ext, y: Ext, z: Ext)

  /** One direction component: its value and its sign bit (set for -0.0). */
  datatype Component = Component(v: real, neg: bool) {
    predicate Valid() {
      (v > 0.0 ==> !neg) && (v < 0.0 ==> neg)
    }

    function Recip(): Ext {
      if v != 0.0 then Fin(1.0 / v) else if neg then NegInf else PosInf
    }

    /** `signum` of the reciprocal. */
    function Sign(): int {
      if neg then -1 else 1
    }
  }

  datatype Heading = Heading(x: Component, y: Component, z: Component)

  datatype Axis = AxisX | AxisY | AxisZ

  function Get(t: ExtVec, a: Axis): Ext {
    match a case AxisX => t.x case AxisY => t.y case AxisZ => t.z
  }

  function Set(t: ExtVec, a: Axis, e: Ext): ExtVec {
    match a
    case AxisX => t.(x := e)
    case AxisY => t.(y := e)
    case AxisZ => t.(z := e)
  }

  function StepOn(step: Cell, a: Axis): Cell {
    match a
    case AxisX => Cell(step.x, 0, 0)
    case AxisY => Cell(0, step.y, 0)
    case AxisZ => Cell(0, 0, step.z)
  }

  type Item = (Cell, Face)

  datatype State =
    | Empty
    | Uninit(dims: Dims, position: Vec3, forward: Heading, maxDistance: Ext)
    | Active(current: Cell, dims: Dims, step: Cell, delta: ExtVec, t: ExtVec, remaining: Ext)

  // ---------------------------------------------------------------- the walk itself

  function SlabA(p: real, f: Component): Ext {
    Mul(-p, f.Recip())
  }

  function SlabB(p: real, f: Component, dim: nat): Ext {
    Mul(dim as real - p, f.Recip())
  }

  function Near(p: real, f: Component, dim: nat): Ext {
    Min(SlabA(p, f), SlabB(p, f, dim))
  }

  function Far(p: real, f: Component, dim: nat): Ext {
    Max(SlabA(p, f), SlabB(p, f, dim))
  }

  function NearVec(dims: Dims, p: Vec3, f: Heading): ExtVec {
    ExtVec(Near(p.x, f.x, dims.x), Near(p.y, f.y, dims.y), Near(p.z, f.z, dims.z))
  }

  function FarVec(dims: Dims, p: Vec3, f: Heading): ExtVec {
    ExtVec(Far(p.x, f.x, dims.x), Far(p.y, f.y, dims.y), Far(p.z, f.z, dims.z))
  }

  /** Index of the first largest element. */
  function MaxPosition(v: ExtVec): Axis {
    if Lt(v.x, v.y) then (if Lt(v.y, v.z) then AxisZ else AxisY)
    else if Lt(v.x, v.z) then AxisZ else AxisX
  }

  function TClose(dims: Dims, p: Vec3, f: Heading): Ext {
    Max(Fin(0.0), Get(NearVec(dims, p, f), MaxPosition(NearVec(dims, p, f))))
  }

  function TFar(dims: Dims, p: Vec3, f: Heading): Ext {
    var v := FarVec(dims, p, f);
    Min(v.x, Min(v.y, v.z))
  }

  function ClampFloor(q: real, dim: nat): int
    requires dim > 0
  {
    if q.Floor < 0 then 0 else if q.Floor > dim - 1 then dim - 1 else q.Floor
  }

  /** The coordinate of the next grid plane the ray crosses when it leaves cell `c`. */
  function NextPlane(c: int, f: Component): real {
    if f.neg then c as real else c as real + 1.0
  }

  function Move(p: Vec3, f: Heading, s: real): Vec3 {
    Vec3(p.x + f.x.v * s, p.y + f.y.v * s, p.z + f.z.v * s)
  }

  function AbsRecip(f: Component): Ext {
    if f.v > 0.0 then Fin(1.0 / f.v) else if f.v < 0.0 then Fin(-1.0 / f.v) else PosInf
  }

  function EntryCell(dims: Dims, q: Vec3): Cell
    requires dims.x > 0 && dims.y > 0 && dims.z > 0
  {
    Cell(ClampFloor(q.x, dims.x), ClampFloor(q.y, dims.y), ClampFloor(q.z, dims.z))
  }

  function EntryT(c: Cell, q: Vec3, f: Heading): ExtVec {
    ExtVec(
      Mul(NextPlane(c.x, f.x) - q.x, f.x.Recip()),
      Mul(NextPlane(c.y, f.y) - q.y, f.y.Recip()),
      Mul(NextPlane(c.z, f.z) - q.z, f.z.Recip()))
  }

  function EntryFace(a: Axis, f: Heading): Face {
    match a
    case AxisX => if f.x.neg then RIGHT else LEFT
    case AxisY => if f.y.neg then TOP else BOTTOM
    case AxisZ => if f.z.neg then FRONT else BACK
  }

  function CrossFace(a: Axis, step: Cell): Face {
    match a
    case AxisX => if step.x < 0 then RIGHT else LEFT
    case AxisY => if step.y < 0 then TOP else BOTTOM
    case AxisZ => if step.z < 0 then FRONT else BACK
  }

  /**
   What a caller supplies: a non-empty world, and a direction that is not the zero vector.  A zero
   direction component must not meet the far border plane of the world exactly: there the slab test
   multiplies zero by infinity and depends on how the vector library orders the result.
   */
  predicate Usable(dims: Dims, p: Vec3, f: Heading, maxDistance: Ext) {
    && dims.x > 0 && dims.y > 0 && dims.z > 0
    && f.x.Valid() && f.y.Valid() && f.z.Valid()
    && !(f.x.v == 0.0 && f.y.v == 0.0 && f.z.v == 0.0)
    && !maxDistance.NaN?
    && (f.x.v == 0.0 ==> p.x != dims.x as real)
    && (f.y.v == 0.0 ==> p.y != dims.y as real)
    && (f.z.v == 0.0 ==> p.z != dims.z as real)
  }

  /** The ray slides along the near border plane of an axis. */
  predicate GrazesAxis(p: real, f: Component) {
    f.v == 0.0 && p == 0.0
  }

  predicate Grazes(p: Vec3, f: Heading) {
    GrazesAxis(p.x, f.x) || GrazesAxis(p.y, f.y) || GrazesAxis(p.z, f.z)
  }

  /** A -0.0 component on an integer coordinate: the next plane is at zero times infinity. */
  predicate Stalls(p: real, f: Component) {
    f.v == 0.0 && f.neg && p == p.Floor as real
  }

  /**
   The comparison cascade finds the next plane.  A stalled y or z axis makes it always take z: that
   is right if only y stalls and x never moves.  See module `Derail` for all other rays.
   */
  predicate Steers(p: Vec3, f: Heading) {
    (Stalls(p.y, f.y) ==> f.x.v == 0.0) && !Stalls(p.z, f.z)
  }

  /** The first call: find where the ray enters the world and yield that cell. */
  function Enter(dims: Dims, position: Vec3, forward: Heading, maxDistance: Ext): (State, Option<Item>)
    requires dims.x > 0 && dims.y > 0 && dims.z > 0
    requires TClose(dims, position, forward).Fin? || Lt(TFar(dims, position, forward), TClose(dims, position, forward))
  {
    var axis := MaxPosition(NearVec(dims, position, forward));
    var tclose := TClose(dims, position, forward);
    if Lt(TFar(dims, position, forward), tclose) then (Empty, None)
    else
      var remaining := SubReal(maxDistance, tclose.v);
      if Lt(remaining, Fin(0.0)) then (Empty, None)
      else
        var q := Move(position, forward, tclose.v);
        var c := EntryCell(dims, q);
        if !c.In(dims) then (Empty, None)
        else
          var step := Cell(forward.x.Sign(), forward.y.Sign(), forward.z.Sign());
          var delta := ExtVec(AbsRecip(forward.x), AbsRecip(forward.y), AbsRecip(forward.z));
          var t := EntryT(c, q, forward);
          (Active(c, dims, step, delta, t, remaining), Some((c, EntryFace(axis, forward))))
  }

  function ChooseAxis(t: ExtVec): Axis {
    if Lt(t.x, t.y) then (if Lt(t.x, t.z) then AxisX else AxisZ)
    else if Lt(t.y, t.z) then AxisY else AxisZ
  }

  /** A later call: cross the nearest grid plane. */
  function Cross(st: State): (State, Option<Item>)
    requires st.Active?
  {
    var a := ChooseAxis(st.t);
    var c := st.current.Plus(StepOn(st.step, a));
    if Lt(st.remaining, Get(st.t, a)) || !c.In(st.dims) then (Empty, None)
    else (st.(current := c, t := Set(st.t, a, Add(Get(st.t, a), Get(st.delta, a)))), Some((c, CrossFace(a, st.step))))
  }

  predicate Ready(st: State) {
    match st
    case Empty => true
    case Uninit(dims, p, f, m) => Usable(dims, p, f, m)
    case Active(c, dims, step, _, _, _) =>
      c.In(dims) && step.x in {-1, 1} && step.y in {-1, 1} && step.z in {-1, 1}
  }

  function Advance(st: State): (State, Option<Item>)
    requires Ready(st)
  {
    match st
    case Empty => (Empty, None)
    case Uninit(dims, p, f, m) => EntryIsFinite(dims, p, f, m); Enter(dims, p, f, m)
    case Active(_, _, _, _, _, _) => Cross(st)
  }

  // ---------------------------------------------------------------- geometry

  /** Coordinate `p + f*s` lies in the closed interval `[lo, hi]`. */
  predicate Within(p: real, f: real, s: real, lo: real, hi: real) {
    lo <= p + f * s <= hi
  }

  /** The ray point at parameter `s` lies in the closed world box. */
  predicate InBox(dims: Dims, p: Vec3, f: Heading, s: real) {
    && Within(p.x, f.x.v, s, 0.0, dims.x as real)
    && Within(p.y, f.y.v, s, 0.0, dims.y as real)
    && Within(p.z, f.z.v, s, 0.0, dims.z as real)
  }

  /** The ray point at parameter `s` lies in the closed unit cube of cell `c`. */
  predicate InCube(c: Cell, p: Vec3, f: Heading, s: real) {
    && Within(p.x, f.x.v, s, c.x as real, c.x as real + 1.0)
    && Within(p.y, f.y.v, s, c.y as real, c.y as real + 1.0)
    && Within(p.z, f.z.v, s, c.z as real, c.z as real + 1.0)
  }

  /** The ray point at parameter `s` lies in the open unit cube of cell `c`. */
  predicate InInterior(c: Cell, p: Vec3, f: Heading, s: real) {
    && c.x as real < p.x + f.x.v * s < c.x as real + 1.0
    && c.y as real < p.y + f.y.v * s < c.y as real + 1.0
    && c.z as real < p.z + f.z.v * s < c.z as real + 1.0
  }

  /** Cubes of different cells have disjoint interiors. */
  lemma InteriorIsPrivate(c: Cell, d: Cell, p: Vec3, f: Heading, s: real)
    requires InInterior(c, p, f, s) && InCube(d, p, f, s)
    ensures c == d
  {
  }

  lemma MulOrder(f: real, a: real, b: real)
    requires a <= b
    ensures f >= 0.0 ==> f * a <= f * b
    ensures f <= 0.0 ==> f * b <= f * a
  {
    if f >= 0.0 { assert f * (b - a) >= 0.0; } else { assert f * (b - a) <= 0.0; }
  }

  lemma MulStrict(f: real, a: real, b: real)
    requires a < b
    ensures f > 0.0 ==> f * a < f * b
    ensures f < 0.0 ==> f * b < f * a
  {
    if f > 0.0 { assert f * (b - a) > 0.0; } else if f < 0.0 { assert f * (b - a) < 0.0; }
  }

  lemma MulRecip(x: real, f: real)
    requires f != 0.0
    ensures (x * (1.0 / f)) * f == x
  {
    assert (1.0 / f) * f == 1.0;
    assert (x * (1.0 / f)) * f == x * ((1.0 / f) * f);
  }

  /** Comparing with a quotient is comparing with a product, turned round for a negative divisor. */
  lemma QuotientOrder(x: real, f: real, s: real)
    requires f != 0.0
    ensures f > 0.0 ==> (x * (1.0 / f) <= s <==> x <= f * s) && (s <= x * (1.0 / f) <==> f * s <= x)
    ensures f < 0.0 ==> (x * (1.0 / f) <= s <==> f * s <= x) && (s <= x * (1.0 / f) <==> x <= f * s)
  {
    var a := x * (1.0 / f);
    MulRecip(x, f);
    assert f * a == x;
    if s < a { MulStrict(f, s, a); } else { MulOrder(f, a, s); }
    if a < s { MulStrict(f, a, s); } else { MulOrder(f, s, a); }
  }

  // ---------------------------------------------------------------- the slab test

  /** On one axis the two slab parameters delimit exactly the part of the ray inside the slab. */
  lemma SlabAxis(p: real, f: Component, dim: nat, s: real)
    requires f.Valid() && (f.v == 0.0 ==> p != dim as real)
    ensures Within(p, f.v, s, 0.0, dim as real) && !GrazesAxis(p, f) <==>
            AtLeast(s, Near(p, f, dim)) && AtMost(s, Far(p, f, dim))
    ensures !Near(p, f, dim).NaN? && !Far(p, f, dim).NaN?
    ensures f.v != 0.0 ==> Near(p, f, dim).Fin? && Far(p, f, dim).Fin? && Near(p, f, dim).v <= Far(p, f, dim).v
    ensures f.v == 0.0 ==> !Near(p, f, dim).Fin? && !Far(p, f, dim).Fin?
  {
    if f.v != 0.0 { SlabMoving(p, f.v, dim as real, s); } else { ZeroTimes(f.v, s); }
  }

  lemma SlabMoving(p: real, v: real, dim: real, s: real)
    requires v != 0.0 && dim >= 0.0
    ensures var a, b := -p * (1.0 / v), (dim - p) * (1.0 / v);
            && (v > 0.0 ==> a <= b && (Within(p, v, s, 0.0, dim) <==> a <= s <= b))
            && (v < 0.0 ==> b <= a && (Within(p, v, s, 0.0, dim) <==> b <= s <= a))
  {
    QuotientOrder(-p, v, s);
    QuotientOrder(dim - p, v, s);
    SlabOrder(p, v, dim);
  }

  lemma SlabOrder(p: real, f: real, dim: real)
    requires f != 0.0 && dim >= 0.0
    ensures f > 0.0 ==> -p * (1.0 / f) <= (dim - p) * (1.0 / f)
    ensures f < 0.0 ==> (dim - p) * (1.0 / f) <= -p * (1.0 / f)
  {
    assert (1.0 / f) * f == 1.0;
    MulOrder(1.0 / f, -p, dim - p);
  }

  lemma MaxPositionIsMax(v: ExtVec)
    requires !v.x.NaN? && !v.y.NaN? && !v.z.NaN?
    ensures !Lt(Get(v, MaxPosition(v)), v.x) && !Lt(Get(v, MaxPosition(v)), v.y) && !Lt(Get(v, MaxPosition(v)), v.z)
  {
  }

  /**
   The slab test is exact, but for rays that slide along a border: the box is met at `s >= 0` iff `s` is in `[tclose,
   tfar]`.
   */
  lemma SlabTest(dims: Dims, p: Vec3, f: Heading, m: Ext, s: real)
    requires Usable(dims, p, f, m)
    ensures s >= 0.0 && InBox(dims, p, f, s) && !Grazes(p, f) <==>
            AtLeast(s, TClose(dims, p, f)) && AtMost(s, TFar(dims, p, f))
  {
    SlabAxis(p.x, f.x, dims.x, s);
    SlabAxis(p.y, f.y, dims.y, s);
    SlabAxis(p.z, f.z, dims.z, s);
    MaxPositionIsMax(NearVec(dims, p, f));
  }

  lemma EntryIsFinite(dims: Dims, p: Vec3, f: Heading, m: Ext)
    requires Usable(dims, p, f, m)
    ensures TFar(dims, p, f).Fin? || TFar(dims, p, f).NegInf?
    ensures TClose(dims, p, f).Fin? || TClose(dims, p, f).PosInf?
    ensures TClose(dims, p, f).Fin? || Lt(TFar(dims, p, f), TClose(dims, p, f))
    ensures TClose(dims, p, f).Fin? ==> TClose(dims, p, f).v >= 0.0
  {
    SlabAxis(p.x, f.x, dims.x, 0.0);
    SlabAxis(p.y, f.y, dims.y, 0.0);
    SlabAxis(p.z, f.z, dims.z, 0.0);
    MaxPositionIsMax(NearVec(dims, p, f));
  }

  // ---------------------------------------------------------------- the loop invariant

  /**
   The invariant of one axis at ray parameter `tau`: the ray is inside the cell on this axis, and
   `t` is the parameter of its next plane, `(plane - entry) / forward`.
   */
  predicate AxisTracks(q: real, f: Component, c: int, t: Ext, delta: Ext, step: int, tau: real) {
    && f.Valid()
    && step == f.Sign()
    && Within(q, f.v, tau, c as real, c as real + 1.0)
    && (f.v != 0.0 ==> t.Fin? && tau <= t.v && t.v * f.v == NextPlane(c, f) - q)
    && (f.v != 0.0 ==> delta.Fin? && delta.v * f.v == step as real && delta.v > 0.0)
    && (f.v == 0.0 ==> t.PosInf? || t.NaN?)
  }

  /** The invariant of the walk: `q` is the entry point and `tau` the last crossing parameter. */
  predicate Tracks(st: State, q: Vec3, f: Heading, tau: real) {
    && st.Active? && st.current.In(st.dims)
    && AxisTracks(q.x, f.x, st.current.x, st.t.x, st.delta.x, st.step.x, tau)
    && AxisTracks(q.y, f.y, st.current.y, st.t.y, st.delta.y, st.step.y, tau)
    && AxisTracks(q.z, f.z, st.current.z, st.t.z, st.delta.z, st.step.z, tau)
    && (st.t.y.NaN? ==> f.x.v == 0.0) && !st.t.z.NaN? && !st.remaining.NaN?
    && !(f.x.v == 0.0 && f.y.v == 0.0 && f.z.v == 0.0)
  }

  lemma AxisStay(q: real, f: Component, c: int, t: Ext, delta: Ext, step: int, tau: real, tau': real)
    requires AxisTracks(q, f, c, t, delta, step, tau)
    requires tau <= tau' && (f.v != 0.0 ==> tau' <= t.v)
    ensures AxisTracks(q, f, c, t, delta, step, tau')
  {
    if f.v != 0.0 {
      MulOrder(f.v, tau, tau');
      MulOrder(f.v, tau', t.v);
    }
  }

  lemma AxisCross(q: real, f: Component, c: int, t: Ext, delta: Ext, step: int, tau: real)
    requires AxisTracks(q, f, c, t, delta, step, tau) && f.v != 0.0
    ensures AxisTracks(q, f, c + step, Add(t, delta), delta, step, t.v)
  {
    assert (t.v + delta.v) * f.v == t.v * f.v + delta.v * f.v;
    assert f.v * t.v == t.v * f.v;
  }

  /** Once the ray has crossed the last plane of an axis it never comes back into the box. */
  lemma AxisBeyond(q: real, f: Component, c: int, t: Ext, delta: Ext, step: int, tau: real, dim: nat, s: real)
    requires AxisTracks(q, f, c, t, delta, step, tau) && f.v != 0.0
    requires 0 <= c < dim && !(0 <= c + step < dim)
    requires s > t.v
    ensures !Within(q, f.v, s, 0.0, dim as real)
  {
    MulStrict(f.v, t.v, s);
    assert f.v * t.v == NextPlane(c, f) - q;
    if f.neg {
      assert f.v < 0.0 && q + f.v * s < c as real;
    } else {
      assert f.v > 0.0 && q + f.v * s > c as real + 1.0;
      assert c + 1 == dim;
    }
  }

  /**
   The comparison cascade picks an axis whose next plane is nearest, even when `t.x` is not a number;
   with `t.y` not a number it needs z to be the only axis that moves.
   */
  lemma ChooseAxisIsLeast(t: ExtVec)
    requires !t.z.NaN? && (t.y.NaN? ==> !t.x.Fin?)
    requires !t.x.NegInf? && !t.y.NegInf? && !t.z.NegInf?
    requires t.x.Fin? || t.y.Fin? || t.z.Fin?
    ensures Get(t, ChooseAxis(t)).Fin?
    ensures forall b :: Get(t, b).Fin? ==> Get(t, ChooseAxis(t)).v <= Get(t, b).v
  {
  }

  function AxisNumber(a: Axis): nat {
    match a case AxisX => 0 case AxisY => 1 case AxisZ => 2
  }

  /** When several planes are nearest, the last axis among them is crossed. */
  lemma ChooseAxisTakesLast(t: ExtVec, b: Axis)
    requires t.x.Fin? && t.y.Fin? && t.z.Fin?
    ensures var a := ChooseAxis(t);
            if AxisNumber(a) < AxisNumber(b) then Get(t, a).v < Get(t, b).v else Get(t, a).v <= Get(t, b).v
  {
  }

  /** The parameter at which a walk in state `st` crosses its next plane. */
  function NextTime(st: State): real
    requires st.Active?
  {
    var e := Get(st.t, ChooseAxis(st.t));
    if e.Fin? then e.v else 0.0
  }

  /** Up to the next crossing the ray stays in the current cell. */
  lemma StayTracks(st: State, q: Vec3, f: Heading, tau: real, s: real)
    requires Tracks(st, q, f, tau) && tau <= s <= NextTime(st)
    ensures Tracks(st, q, f, s) && InCube(st.current, q, f, s)
  {
    ChooseAxisIsLeast(st.t);
    assert Get(st.t, AxisX) == st.t.x && Get(st.t, AxisY) == st.t.y && Get(st.t, AxisZ) == st.t.z;
    AxisStay(q.x, f.x, st.current.x, st.t.x, st.delta.x, st.step.x, tau, s);
    AxisStay(q.y, f.y, st.current.y, st.t.y, st.delta.y, st.step.y, tau, s);
    AxisStay(q.z, f.z, st.current.z, st.t.z, st.delta.z, st.step.z, tau, s);
  }

  lemma NextTimeIsLater(st: State, q: Vec3, f: Heading, tau: real)
    requires Tracks(st, q, f, tau)
    ensures tau <= NextTime(st) && Get(st.t, ChooseAxis(st.t)) == Fin(NextTime(st))
  {
    ChooseAxisIsLeast(st.t);
  }

  /** One step keeps the invariant, at the crossing parameter, which lies within the limit. */
  lemma CrossTracks(st: State, q: Vec3, f: Heading, tau: real)
    requires Tracks(st, q, f, tau) && Cross(st).1.Some?
    ensures Tracks(Cross(st).0, q, f, NextTime(st)) && AtMost(NextTime(st), st.remaining)
    ensures InCube(Cross(st).0.current, q, f, NextTime(st))
  {
    NextTimeIsLater(st, q, f, tau);
    var s := NextTime(st);
    StayTracks(st, q, f, tau, s);
    match ChooseAxis(st.t) {
      case AxisX => AxisCross(q.x, f.x, st.current.x, st.t.x, st.delta.x, st.step.x, s);
      case AxisY => AxisCross(q.y, f.y, st.current.y, st.t.y, st.delta.y, st.step.y, s);
      case AxisZ => AxisCross(q.z, f.z, st.current.z, st.t.z, st.delta.z, st.step.z, s);
    }
  }

  /** When the walk stops, the rest of the ray is outside the box or beyond the limit. */
  lemma CrossEndsOutside(st: State, q: Vec3, f: Heading, tau: real, s: real)
    requires Tracks(st, q, f, tau) && Cross(st).1.None?
    requires NextTime(st) < s && AtMost(s, st.remaining)
    ensures !InBox(st.dims, q, f, s)
  {
    ChooseAxisIsLeast(st.t);
    match ChooseAxis(st.t) {
      case AxisX => AxisBeyond(q.x, f.x, st.current.x, st.t.x, st.delta.x, st.step.x, tau, st.dims.x, s);
      case AxisY => AxisBeyond(q.y, f.y, st.current.y, st.t.y, st.delta.y, st.step.y, tau, st.dims.y, s);
      case AxisZ => AxisBeyond(q.z, f.z, st.current.z, st.t.z, st.delta.z, st.step.z, tau, st.dims.z, s);
    }
  }

  // ---------------------------------------------------------------- whole walks

  function StepsLeft(c: int, dim: nat, step: int): int {
    if step < 0 then c else dim - 1 - c
  }

  /** An upper bound on the number of cells still to come. */
  function Rank(st: State): nat
    requires Ready(st)
  {
    match st
    case Empty => 0
    case Uninit(dims, _, _, _) => dims.x + dims.y + dims.z - 2
    case Active(c, dims, step, _, _, _) =>
      StepsLeft(c.x, dims.x, step.x) + StepsLeft(c.y, dims.y, step.y) + StepsLeft(c.z, dims.z, step.z)
  }

  lemma CrossRank(st: State)
    requires Ready(st) && st.Active?
    ensures Cross(st).1.None? ==> Cross(st).0 == Empty
    ensures Cross(st).1.Some? ==>
      var (st', r) := Cross(st);
      Ready(st') && st'.Active? && st'.dims == st.dims && r.value.0 == st'.current && Rank(st') < Rank(st)
  {
  }

  lemma AdvanceRank(st: State)
    requires Ready(st)
    ensures Ready(Advance(st).0)
    ensures Advance(st).1.Some? ==> Rank(Advance(st).0) < Rank(st)
    ensures Advance(st).1.Some? ==>
      var (st', r) := Advance(st); st'.Active? && st'.dims == st.dims && r.value.0 == st'.current
    ensures Advance(st).1.None? ==> Advance(st).0 == Empty
  {
    if st.Uninit? { EntryIsFinite(st.dims, st.position, st.forward, st.maxDistance); }
  }

  /** Everything a walk under way yields from state `st` on. */
  function Run(st: State): seq<Item>
    requires Ready(st) && !st.Uninit?
    decreases Rank(st)
  {
    if st.Empty? then []
    else
      CrossRank(st);
      var (st', r) := Cross(st);
      if r.None? then [] else [r.value] + Run(st')
  }

  /** The crossing parameters of a walk under way, one per cell it still yields. */
  function Times(st: State): seq<real>
    requires Ready(st) && !st.Uninit?
    decreases Rank(st)
  {
    if st.Empty? then []
    else
      CrossRank(st);
      var (st', r) := Cross(st);
      if r.None? then [] else [NextTime(st)] + Times(st')
  }

  /** Everything the iterator yields from state `st` on. */
  function Rest(st: State): seq<Item>
    requires Ready(st)
  {
    if !st.Uninit? then Run(st)
    else
      AdvanceRank(st);
      var (st', r) := Advance(st);
      if r.None? then [] else [r.value] + Run(st')
  }

  /** A walk yields no more cells than the world has planes left to cross. */
  lemma {:induction false} RunIsShort(st: State)
    requires Ready(st) && !st.Uninit?
    ensures |Run(st)| <= Rank(st) && |Times(st)| == |Run(st)|
    decreases Rank(st)
  {
    if st.Active? && Cross(st).1.Some? {
      CrossRank(st);
      RunIsShort(Cross(st).0);
    }
  }

  /** Where the `k`-th crossing happens, and what is known there. */
  lemma {:induction false} RunIsSound(st: State, q: Vec3, f: Heading, tau: real, k: nat)
    requires Ready(st) && Tracks(st, q, f, tau) && k < |Run(st)|
    ensures |Times(st)| == |Run(st)|
    ensures tau <= Times(st)[k] && AtMost(Times(st)[k], st.remaining)
    ensures k > 0 ==> Times(st)[k - 1] <= Times(st)[k]
    ensures Run(st)[k].0.In(st.dims) && InCube(Run(st)[k].0, q, f, Times(st)[k])
    decreases k
  {
    RunIsShort(st);
    CrossRank(st);
    NextTimeIsLater(st, q, f, tau);
    CrossTracks(st, q, f, tau);
    if k > 0 { RunIsSound(Cross(st).0, q, f, NextTime(st), k - 1); }
  }

  /** Every cell is entered through the reported face: its neighbour there is the cell before it. */
  lemma {:induction false} RunFaces(st: State, k: nat)
    requires Ready(st) && st.Active? && k < |Run(st)|
    ensures Run(st)[k].0.Plus(Run(st)[k].1.Offset()) == if k == 0 then st.current else Run(st)[k - 1].0
    decreases k
  {
    CrossRank(st);
    if k > 0 { RunFaces(Cross(st).0, k - 1); }
  }

  /** A cell of `cells` whose closed cube holds the ray point at `s`. */
  ghost predicate Covers(cells: seq<Item>, q: Vec3, f: Heading, s: real) {
    exists j :: 0 <= j < |cells| && InCube(cells[j].0, q, f, s)
  }

  /**
   Completeness of a running walk: up to the crossing into cell `n` (or, when the walk has only
   `n` cells left, up to the limit or the border of the box) the ray stays in the current cell
   and the first `n` cells.
   */
  lemma {:induction false} RunIsComplete(st: State, q: Vec3, f: Heading, tau: real, n: nat, s: real)
    requires Ready(st) && Tracks(st, q, f, tau)
    requires n <= |Run(st)| == |Times(st)| && tau <= s
    requires n < |Run(st)| ==> s <= Times(st)[n]
    requires n == |Run(st)| ==> AtMost(s, st.remaining) && InBox(st.dims, q, f, s)
    ensures InCube(st.current, q, f, s) || Covers(Run(st)[..n], q, f, s)
    decreases n
  {
    RunIsShort(st);
    CrossRank(st);
    NextTimeIsLater(st, q, f, tau);
    if s <= NextTime(st) {
      StayTracks(st, q, f, tau, s);
    } else if n == 0 {
      CrossEndsOutside(st, q, f, tau, s);
    } else {
      CrossTracks(st, q, f, tau);
      var st' := Cross(st).0;
      RunIsShort(st');
      RunIsComplete(st', q, f, NextTime(st), n - 1, s);
      assert Run(st) == [Cross(st).1.value] + Run(st');
      if InCube(st'.current, q, f, s) {
        assert Run(st)[..n][0].0 == st'.current;
      } else {
        var j :| 0 <= j < |Run(st')[..n - 1]| && InCube(Run(st')[..n - 1][j].0, q, f, s);
        assert Run(st)[..n][j + 1] == Run(st')[..n - 1][j];
      }
    }
  }

  // ---------------------------------------------------------------- entering the world

  lemma ClampedCellHoldsEntry(q: real, dim: nat)
    requires dim > 0 && 0.0 <= q <= dim as real
    ensures 0 <= ClampFloor(q, dim) < dim
    ensures ClampFloor(q, dim) as real <= q <= ClampFloor(q, dim) as real + 1.0
  {
  }

  lemma EntryAxis(p: real, f: Component, q: real, dim: nat)
    requires f.Valid() && dim > 0 && 0.0 <= q <= dim as real
    requires f.v == 0.0 ==> q == p && p != dim as real
    ensures var c := ClampFloor(q, dim); var t := Mul(NextPlane(c, f) - q, f.Recip());
            && AxisTracks(q, f, c, t, AbsRecip(f), f.Sign(), 0.0)
            && (t.NaN? <==> Stalls(p, f))
  {
    var c := ClampFloor(q, dim);
    ClampedCellHoldsEntry(q, dim);
    if f.v != 0.0 {
      var x := NextPlane(c, f) - q;
      MulRecip(x, f.v);
      QuotientOrder(x, f.v, 0.0);
      assert (1.0 / f.v) * f.v == 1.0;
      QuotientOrder(1.0, f.v, 0.0);
    }
  }

  lemma EntryAxisAt(p: real, f: Component, d: real, q: real, dim: nat)
    requires f.Valid() && dim > 0 && Within(p, f.v, d, 0.0, dim as real) && q == p + f.v * d
    requires f.v == 0.0 ==> p != dim as real
    ensures var c := ClampFloor(q, dim); var t := Mul(NextPlane(c, f) - q, f.Recip());
            && AxisTracks(q, f, c, t, AbsRecip(f), f.Sign(), 0.0)
            && (t.NaN? <==> Stalls(p, f))
  {
    if f.v == 0.0 { assert f.v * d == 0.0; }
    EntryAxis(p, f, q, dim);
  }

  lemma EntryTracksAxes(dims: Dims, p: Vec3, f: Heading, m: Ext, d: real)
    requires Usable(dims, p, f, m) && InBox(dims, p, f, d)
    ensures var q := Move(p, f, d); var c := EntryCell(dims, q); var t := EntryT(c, q, f);
            && AxisTracks(q.x, f.x, c.x, t.x, AbsRecip(f.x), f.x.Sign(), 0.0)
            && AxisTracks(q.y, f.y, c.y, t.y, AbsRecip(f.y), f.y.Sign(), 0.0)
            && AxisTracks(q.z, f.z, c.z, t.z, AbsRecip(f.z), f.z.Sign(), 0.0)
            && (t.y.NaN? <==> Stalls(p.y, f.y)) && (t.z.NaN? <==> Stalls(p.z, f.z))
  {
    var q := Move(p, f, d);
    EntryAxisAt(p.x, f.x, d, q.x, dims.x);
    EntryAxisAt(p.y, f.y, d, q.y, dims.y);
    EntryAxisAt(p.z, f.z, d, q.z, dims.z);
  }

  /** The state after a first call that yields, written out. */
  lemma EntryState(dims: Dims, p: Vec3, f: Heading, m: Ext)
    requires Usable(dims, p, f, m) && Advance(Uninit(dims, p, f, m)).1.Some?
    ensures TClose(dims, p, f).Fin? && TClose(dims, p, f).v >= 0.0 && AtMost(TClose(dims, p, f).v, m)
    ensures !Lt(TFar(dims, p, f), TClose(dims, p, f))
    ensures var d := TClose(dims, p, f).v; var q := Move(p, f, d); var c := EntryCell(dims, q);
            var (st, r) := Advance(Uninit(dims, p, f, m));
            && c.In(dims) && r.value.0 == c
            && st == Active(c, dims, Cell(f.x.Sign(), f.y.Sign(), f.z.Sign()),
                            ExtVec(AbsRecip(f.x), AbsRecip(f.y), AbsRecip(f.z)), EntryT(c, q, f), SubReal(m, d))
  {
    EntryIsFinite(dims, p, f, m);
  }

  /** The first yielded cell holds the entry point, and the invariant holds there. */
  lemma EntryTracks(dims: Dims, p: Vec3, f: Heading, m: Ext)
    requires Usable(dims, p, f, m) && Steers(p, f) && Advance(Uninit(dims, p, f, m)).1.Some?
    ensures TClose(dims, p, f).Fin? && TClose(dims, p, f).v >= 0.0 && AtMost(TClose(dims, p, f).v, m)
    ensures var st := Advance(Uninit(dims, p, f, m)).0;
            && Tracks(st, Move(p, f, TClose(dims, p, f).v), f, 0.0)
            && st.dims == dims && st.remaining == SubReal(m, TClose(dims, p, f).v)
            && Advance(Uninit(dims, p, f, m)).1.value.0 == st.current
  {
    EntryState(dims, p, f, m);
    EntryIsFinite(dims, p, f, m);
    var d := TClose(dims, p, f).v;
    SlabTest(dims, p, f, m, d);
    EntryTracksAxes(dims, p, f, m, d);
  }

  /**
   The walk always starts when some point of the ray within the limit lies in the box, unless the ray slides along a
   border.
   */
  lemma EntryIsComplete(dims: Dims, p: Vec3, f: Heading, m: Ext, s: real)
    requires Usable(dims, p, f, m) && !Grazes(p, f)
    requires s >= 0.0 && AtMost(s, m) && InBox(dims, p, f, s)
    ensures Advance(Uninit(dims, p, f, m)).1.Some? && TClose(dims, p, f).Fin? && TClose(dims, p, f).v <= s
  {
    EntryIsFinite(dims, p, f, m);
    SlabTest(dims, p, f, m, s);
    var d := TClose(dims, p, f).v;
    SlabTest(dims, p, f, m, d);
    EntryCellExists(dims, Move(p, f, d));
  }

  lemma EntryCellExists(dims: Dims, q: Vec3)
    requires dims.x > 0 && dims.y > 0 && dims.z > 0
    ensures EntryCell(dims, q).In(dims)
  {
  }

  /** Parameters measured from the entry point and from the eye differ by the entry parameter. */
  lemma Rebase(c: Cell, dims: Dims, p: Vec3, f: Heading, d: real, s: real)
    ensures InCube(c, Move(p, f, d), f, s) <==> InCube(c, p, f, d + s)
    ensures InBox(dims, Move(p, f, d), f, s) <==> InBox(dims, p, f, d + s)
  {
    WithinMoves(p.x, f.x.v, d, s, c.x as real, c.x as real + 1.0);
    WithinMoves(p.y, f.y.v, d, s, c.y as real, c.y as real + 1.0);
    WithinMoves(p.z, f.z.v, d, s, c.z as real, c.z as real + 1.0);
    WithinMoves(p.x, f.x.v, d, s, 0.0, dims.x as real);
    WithinMoves(p.y, f.y.v, d, s, 0.0, dims.y as real);
    WithinMoves(p.z, f.z.v, d, s, 0.0, dims.z as real);
  }

  lemma WithinMoves(p: real, f: real, d: real, s: real, lo: real, hi: real)
    ensures Within(p + f * d, f, s, lo, hi) <==> Within(p, f, d + s, lo, hi)
  {
    assert f * (d + s) == f * d + f * s;
  }

  /** All cells the iterator yields for a fresh traverser. */
  function Walk(dims: Dims, p: Vec3, f: Heading, m: Ext): seq<Item>
    requires Usable(dims, p, f, m)
  {
    Rest(Uninit(dims, p, f, m))
  }

  /** The ray parameters, measured from the eye, at which the cells of `Walk` are entered. */
  function WalkTimes(dims: Dims, p: Vec3, f: Heading, m: Ext): seq<real>
    requires Usable(dims, p, f, m)
  {
    var st := Uninit(dims, p, f, m);
    AdvanceRank(st);
    if Advance(st).1.None? then []
    else
      EntryIsFinite(dims, p, f, m);
      var d := TClose(dims, p, f).v;
      var ts := Times(Advance(st).0);
      [d] + seq(|ts|, i requires 0 <= i < |ts| => d + ts[i])
  }

  lemma WalkUnfolds(dims: Dims, p: Vec3, f: Heading, m: Ext)
    requires Usable(dims, p, f, m)
    ensures |WalkTimes(dims, p, f, m)| == |Walk(dims, p, f, m)|
    ensures Advance(Uninit(dims, p, f, m)).1.None? ==> Walk(dims, p, f, m) == []
    ensures Advance(Uninit(dims, p, f, m)).1.Some? ==>
      var (st, r) := Advance(Uninit(dims, p, f, m));
      Ready(st) && st.Active? && Walk(dims, p, f, m) == [r.value] + Run(st) && |Run(st)| == |Times(st)|
  {
    var st := Uninit(dims, p, f, m);
    AdvanceRank(st);
    RunIsShort(Advance(st).0);
    EntryIsFinite(dims, p, f, m);
  }

  /** Termination: a world of X by Y by Z blocks yields at most X+Y+Z-2 cells. */
  lemma WalkIsShort(dims: Dims, p: Vec3, f: Heading, m: Ext)
    requires Usable(dims, p, f, m)
    ensures |Walk(dims, p, f, m)| <= dims.x + dims.y + dims.z - 2
  {
    WalkUnfolds(dims, p, f, m);
    AdvanceRank(Uninit(dims, p, f, m));
    RunIsShort(Advance(Uninit(dims, p, f, m)).0);
  }

  /** Soundness: every cell is in the world and its closed cube meets the ray within the limit, in order. */
  lemma WalkIsSound(dims: Dims, p: Vec3, f: Heading, m: Ext, k: nat)
    requires Usable(dims, p, f, m) && Steers(p, f) && k < |Walk(dims, p, f, m)|
    ensures |WalkTimes(dims, p, f, m)| == |Walk(dims, p, f, m)|
    ensures var s := WalkTimes(dims, p, f, m)[k];
            && 0.0 <= s && AtMost(s, m) && InCube(Walk(dims, p, f, m)[k].0, p, f, s)
            && (k > 0 ==> WalkTimes(dims, p, f, m)[k - 1] <= s)
    ensures Walk(dims, p, f, m)[k].0.In(dims)
  {
    WalkUnfolds(dims, p, f, m);
    EntryTracks(dims, p, f, m);
    var st := Advance(Uninit(dims, p, f, m)).0;
    var d := TClose(dims, p, f).v;
    var q := Move(p, f, d);
    if k == 0 {
      Rebase(st.current, dims, p, f, d, 0.0);
    } else {
      RunIsSound(st, q, f, 0.0, k - 1);
      Rebase(Run(st)[k - 1].0, dims, p, f, d, Times(st)[k - 1]);
    }
  }

  /**
   Completeness: a ray point in the box and within the limit lies in the closed cube of a yielded
   cell; a point before the entry into cell `n` lies in one of the first `n`.
   */
  lemma WalkIsComplete(dims: Dims, p: Vec3, f: Heading, m: Ext, n: nat, s: real)
    requires Usable(dims, p, f, m) && Steers(p, f) && !Grazes(p, f)
    requires s >= 0.0 && AtMost(s, m) && InBox(dims, p, f, s)
    requires n <= |Walk(dims, p, f, m)| == |WalkTimes(dims, p, f, m)|
    requires n < |Walk(dims, p, f, m)| ==> s < WalkTimes(dims, p, f, m)[n]
    ensures Covers(Walk(dims, p, f, m)[..n], p, f, s)
  {
    EntryIsComplete(dims, p, f, m, s);
    WalkUnfolds(dims, p, f, m);
    EntryTracks(dims, p, f, m);
    var st := Advance(Uninit(dims, p, f, m)).0;
    var d := TClose(dims, p, f).v;
    var q := Move(p, f, d);
    var w := Walk(dims, p, f, m);
    if n > 0 {
      Rebase(st.current, dims, p, f, d, s - d);
      assert d + (s - d) == s;
      RunIsComplete(st, q, f, 0.0, n - 1, s - d);
      assert w[..n][0].0 == st.current;
      if !InCube(st.current, q, f, s - d) {
        var j :| 0 <= j < |Run(st)[..n - 1]| && InCube(Run(st)[..n - 1][j].0, q, f, s - d);
        Rebase(Run(st)[..n - 1][j].0, dims, p, f, d, s - d);
        assert w[..n][j + 1] == Run(st)[..n - 1][j];
      }
    }
  }

  /** A ray that slides along a border plane yields nothing; no interior of a cell is on it either. */
  lemma GrazingWalkIsEmpty(dims: Dims, p: Vec3, f: Heading, m: Ext)
    requires Usable(dims, p, f, m) && Grazes(p, f)
    ensures Walk(dims, p, f, m) == []
    ensures forall d: Cell, s :: d.In(dims) ==> !InInterior(d, p, f, s)
  {
    WalkUnfolds(dims, p, f, m);
    EntryIsFinite(dims, p, f, m);
    if TClose(dims, p, f).Fin? { SlabTest(dims, p, f, m, TClose(dims, p, f).v); }
    forall d: Cell, s | d.In(dims)
      ensures !InInterior(d, p, f, s)
    {
      ZeroTimes(f.x.v, s);
      ZeroTimes(f.y.v, s);
      ZeroTimes(f.z.v, s);
    }
  }

  lemma ZeroTimes(f: real, s: real)
    ensures f == 0.0 ==> f * s == 0.0
  {
  }

  lemma {:induction false} RunInBounds(st: State, k: nat)
    requires Ready(st) && st.Active? && k < |Run(st)|
    ensures Run(st)[k].0.In(st.dims)
    decreases k
  {
    CrossRank(st);
    if k > 0 { RunInBounds(Cross(st).0, k - 1); }
  }

  /** The cells of a walk are in the world, whatever the ray. */
  lemma WalkInBounds(dims: Dims, p: Vec3, f: Heading, m: Ext, k: nat)
    requires Usable(dims, p, f, m) && k < |Walk(dims, p, f, m)|
    ensures Walk(dims, p, f, m)[k].0.In(dims)
  {
    RestInBounds(Uninit(dims, p, f, m), k);
  }

  lemma RestInBounds(st: State, k: nat)
    requires Ready(st) && k < |Rest(st)| && !st.Empty?
    ensures Rest(st)[k].0.In(st.dims)
  {
    AdvanceRank(st);
    if !st.Uninit? { RunInBounds(st, k); } else if k > 0 { RunInBounds(Advance(st).0, k - 1); }
  }

  /** The face of every later cell looks back at the cell before it. */
  lemma WalkFaces(dims: Dims, p: Vec3, f: Heading, m: Ext, k: nat)
    requires Usable(dims, p, f, m) && 0 < k < |Walk(dims, p, f, m)|
    ensures var w := Walk(dims, p, f, m); w[k].0.Plus(w[k].1.Offset()) == w[k - 1].0
  {
    WalkUnfolds(dims, p, f, m);
    RunFaces(Advance(Uninit(dims, p, f, m)).0, k - 1);
  }

  lemma EntryPlane(p: real, f: Component, dim: nat, d: real)
    requires f.Valid() && dim > 0 && (f.v == 0.0 ==> p != dim as real)
    requires Near(p, f, dim) == Fin(d)
    ensures ClampFloor(p + f.v * d, dim) == if f.neg then dim - 1 else 0
  {
    SlabAxis(p, f, dim, 0.0);
    MulRecip(-p, f.v);
    MulRecip(dim as real - p, f.v);
    SlabOrder(p, f.v, dim as real);
    assert p + f.v * d == if f.neg then dim as real else 0.0;
  }

  /** Seen from outside the box, the entry parameter is the near slab parameter of the entry axis. */
  lemma EntryFromOutside(dims: Dims, p: Vec3, f: Heading, m: Ext)
    requires Usable(dims, p, f, m) && !InBox(dims, p, f, 0.0)
    requires !Lt(TFar(dims, p, f), TClose(dims, p, f))
    ensures var v := NearVec(dims, p, f); TClose(dims, p, f) == Get(v, MaxPosition(v)) && TClose(dims, p, f).Fin?
  {
    EntryIsFinite(dims, p, f, m);
    SlabTest(dims, p, f, m, 0.0);
    SlabTest(dims, p, f, m, TClose(dims, p, f).v);
  }

  /** The first item, written out. */
  lemma FirstItem(dims: Dims, p: Vec3, f: Heading, m: Ext)
    requires Usable(dims, p, f, m) && Walk(dims, p, f, m) != []
    ensures TClose(dims, p, f).Fin? && !Lt(TFar(dims, p, f), TClose(dims, p, f))
    ensures var q := Move(p, f, TClose(dims, p, f).v);
            && Walk(dims, p, f, m)[0].0 == EntryCell(dims, q)
            && Walk(dims, p, f, m)[0].1 == EntryFace(MaxPosition(NearVec(dims, p, f)), f)
  {
    WalkUnfolds(dims, p, f, m);
    EntryIsFinite(dims, p, f, m);
  }

  /**
   The face of the first item looks back along the axis whose slab is entered last, the first such
   axis if there are several, also when the eye is inside the box.
   */
  lemma FirstFace(dims: Dims, p: Vec3, f: Heading, m: Ext) returns (a: Axis)
    requires Usable(dims, p, f, m) && Walk(dims, p, f, m) != []
    ensures var v := NearVec(dims, p, f);
            forall b :: if AxisNumber(b) < AxisNumber(a) then Lt(Get(v, b), Get(v, a)) else !Lt(Get(v, a), Get(v, b))
    ensures Walk(dims, p, f, m)[0].1.Offset() ==
            match a
            case AxisX => Cell(if f.x.neg then 1 else -1, 0, 0)
            case AxisY => Cell(0, if f.y.neg then 1 else -1, 0)
            case AxisZ => Cell(0, 0, if f.z.neg then 1 else -1)
  {
    a := MaxPosition(NearVec(dims, p, f));
    FirstItem(dims, p, f, m);
    NearIsNumber(dims, p, f, m);
  }

  lemma NearIsNumber(dims: Dims, p: Vec3, f: Heading, m: Ext)
    requires Usable(dims, p, f, m)
    ensures var v := NearVec(dims, p, f); !v.x.NaN? && !v.y.NaN? && !v.z.NaN?
  {
    SlabAxis(p.x, f.x, dims.x, 0.0);
    SlabAxis(p.y, f.y, dims.y, 0.0);
    SlabAxis(p.z, f.z, dims.z, 0.0);
  }

  lemma BorderNeighbour(c: Cell, a: Axis, f: Heading, dims: Dims)
    requires a == AxisX ==> c.x == if f.x.neg then dims.x - 1 else 0
    requires a == AxisY ==> c.y == if f.y.neg then dims.y - 1 else 0
    requires a == AxisZ ==> c.z == if f.z.neg then dims.z - 1 else 0
    ensures !c.Plus(EntryFace(a, f).Offset()).In(dims)
  {
  }

  lemma BorderX(dims: Dims, p: Vec3, f: Heading, d: real)
    requires dims.x > 0 && dims.y > 0 && dims.z > 0
    requires f.x.Valid() && (f.x.v == 0.0 ==> p.x != dims.x as real)
    requires Near(p.x, f.x, dims.x) == Fin(d)
    ensures EntryCell(dims, Move(p, f, d)).x == if f.x.neg then dims.x - 1 else 0
  {
    EntryPlane(p.x, f.x, dims.x, d);
  }

  lemma BorderY(dims: Dims, p: Vec3, f: Heading, d: real)
    requires dims.x > 0 && dims.y > 0 && dims.z > 0
    requires f.y.Valid() && (f.y.v == 0.0 ==> p.y != dims.y as real)
    requires Near(p.y, f.y, dims.y) == Fin(d)
    ensures EntryCell(dims, Move(p, f, d)).y == if f.y.neg then dims.y - 1 else 0
  {
    EntryPlane(p.y, f.y, dims.y, d);
  }

  lemma BorderZ(dims: Dims, p: Vec3, f: Heading, d: real)
    requires dims.x > 0 && dims.y > 0 && dims.z > 0
    requires f.z.Valid() && (f.z.v == 0.0 ==> p.z != dims.z as real)
    requires Near(p.z, f.z, dims.z) == Fin(d)
    ensures EntryCell(dims, Move(p, f, d)).z == if f.z.neg then dims.z - 1 else 0
  {
    EntryPlane(p.z, f.z, dims.z, d);
  }

  lemma BorderEntry(dims: Dims, p: Vec3, f: Heading, m: Ext, c: Cell, a: Axis, d: real)
    requires Usable(dims, p, f, m) && Get(NearVec(dims, p, f), a) == Fin(d)
    requires c == EntryCell(dims, Move(p, f, d))
    ensures !c.Plus(EntryFace(a, f).Offset()).In(dims)
  {
    match a {
      case AxisX => BorderX(dims, p, f, d);
      case AxisY => BorderY(dims, p, f, d);
      case AxisZ => BorderZ(dims, p, f, d);
    }
    BorderNeighbour(c, a, f, dims);
  }

  /** A ray that starts outside the box enters it through a border face. */
  lemma WalkEntersThroughBorder(dims: Dims, p: Vec3, f: Heading, m: Ext)
    requires Usable(dims, p, f, m) && Walk(dims, p, f, m) != [] && !InBox(dims, p, f, 0.0)
    ensures var (c, face) := Walk(dims, p, f, m)[0]; !c.Plus(face.Offset()).In(dims)
  {
    FirstItem(dims, p, f, m);
    EntryFromOutside(dims, p, f, m);
    BorderEntry(dims, p, f, m, Walk(dims, p, f, m)[0].0, MaxPosition(NearVec(dims, p, f)), TClose(dims, p, f).v);
  }

  // ---------------------------------------------------------------- no cell twice

  /** The steps of a walk under way only go one way on each axis, so its cells get ever closer to the far corner. */
  function CellRank(c: Cell, dims: Dims, step: Cell): int {
    StepsLeft(c.x, dims.x, step.x) + StepsLeft(c.y, dims.y, step.y) + StepsLeft(c.z, dims.z, step.z)
  }

  lemma {:induction false} RunDescends(st: State, k: nat)
    requires Ready(st) && st.Active? && k < |Run(st)|
    ensures CellRank(Run(st)[k].0, st.dims, st.step) < CellRank(st.current, st.dims, st.step)
    decreases k
  {
    CrossRank(st);
    if k > 0 { RunDescends(Cross(st).0, k - 1); }
  }

  lemma {:induction false} RunNeverReturns(st: State, j: nat, k: nat)
    requires Ready(st) && st.Active? && j < k < |Run(st)|
    ensures Run(st)[j].0 != Run(st)[k].0
    decreases j
  {
    CrossRank(st);
    if j > 0 { RunNeverReturns(Cross(st).0, j - 1, k - 1); } else { RunDescends(Cross(st).0, k - 1); }
  }

  /** No cell occurs twice in a walk. */
  lemma NoCellTwice(dims: Dims, p: Vec3, f: Heading, m: Ext, j: nat, k: nat)
    requires Usable(dims, p, f, m) && j < k < |Walk(dims, p, f, m)|
    ensures Walk(dims, p, f, m)[j].0 != Walk(dims, p, f, m)[k].0
  {
    RestNeverReturns(Uninit(dims, p, f, m), j, k);
  }

  lemma RestNeverReturns(st: State, j: nat, k: nat)
    requires Ready(st) && st.Uninit? && j < k < |Rest(st)|
    ensures Rest(st)[j].0 != Rest(st)[k].0
  {
    AdvanceRank(st);
    var st' := Advance(st).0;
    if j > 0 { RunNeverReturns(st', j - 1, k - 1); } else { RunDescends(st', k - 1); }
  }

  // ---------------------------------------------------------------- the iterator and its client

  /** The iterator: `next` replaces the state in place. */
  class VoxelTraverser {
    var state: State

    constructor (dims: Dims, position: Vec3, forward: Heading, maxDistance: Ext)
      requires Usable(dims, position, forward, maxDistance)
      ensures state == Uninit(dims, position, forward, maxDistance)
    {
      state := Uninit(dims, position, forward, maxDistance);
    }

    method Next() returns (r: Option<Item>)
      requires Ready(state)
      modifies this
      ensures (state, r) == Advance(old(state))
      ensures Ready(state) && Rest(old(state)) == if r.None? then [] else [r.value] + Rest(state)
      ensures r.Some? ==> Rank(state) < Rank(old(state))
      ensures r.Some? ==> state.Active? && state.dims == old(state).dims && r.value.0 == state.current
    {
      AdvanceRank(state);
      match state {
        case Empty =>
          r := None;
        case Uninit(dims, p, f, m) =>
          EntryIsFinite(dims, p, f, m);
          var (entered, first) := Enter(dims, p, f, m);
          state, r := entered, first;
        case Active(current, dims, step, delta, t, remaining) =>
          var a: Axis;
          if Lt(t.x, t.y) {
            if Lt(t.x, t.z) { a := AxisX; } else { a := AxisZ; }
          } else if Lt(t.y, t.z) {
            a := AxisY;
          } else {
            a := AxisZ;
          }
          var travelled := Get(t, a);
          var c := current.Plus(StepOn(step, a));
          if Lt(remaining, travelled) || !c.In(dims) {
            state := Empty;
            r := None;
          } else {
            state := state.(current := c, t := Set(t, a, Add(travelled, Get(delta, a))));
            r := Some((c, CrossFace(a, step)));
          }
      }
    }
  }
}
