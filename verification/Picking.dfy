/** Picking the block the player looks at, and placing a block against it. */
module Picking {
  import opened Wrappers
  import opened ExtReal
  import opened Game
  import opened Voxel
  import opened Derail

  /** The first solid cell of a walk. */
  function FirstSolid(world: Blocks, dims: Dims, items: seq<Item>): Option<Item>
    requires HasDims(world, dims)
  {
    if items == [] then None
    else if SolidAt(world, dims, items[0].0) then Some(items[0])
    else FirstSolid(world, dims, items[1..])
  }

  /** `FirstSolid` finds a solid cell with only air before it, or there is none. */
  lemma {:induction false} FirstSolidAt(world: Blocks, dims: Dims, items: seq<Item>) returns (k: nat)
    requires HasDims(world, dims)
    ensures k <= |items|
    ensures forall j :: 0 <= j < k ==> !SolidAt(world, dims, items[j].0)
    ensures k < |items| ==> SolidAt(world, dims, items[k].0)
    ensures FirstSolid(world, dims, items) == if k < |items| then Some(items[k]) else None
  {
    if items == [] || SolidAt(world, dims, items[0].0) {
      k := 0;
    } else {
      k := FirstSolidAt(world, dims, items[1..]);
      k := k + 1;
      assert forall j :: 0 < j < |items| ==> items[j] == items[1..][j - 1];
    }
  }

  /** Solid cell `d` has no interior point on the ray at a parameter satisfying `0 <= s <= m` and `s < end`. */
  ghost predicate NotMetBefore(d: Cell, p: Vec3, f: Heading, m: Ext, end: Ext) {
    forall s {:trigger InInterior(d, p, f, s)} ::
      0.0 <= s && AtMost(s, m) && Lt(Fin(s), end) ==> !InInterior(d, p, f, s)
  }

  lemma InteriorInBox(d: Cell, dims: Dims, p: Vec3, f: Heading, s: real)
    requires d.In(dims) && InInterior(d, p, f, s)
    ensures InBox(dims, p, f, s)
  {
    assert d.x as real + 1.0 <= dims.x as real && d.y as real + 1.0 <= dims.y as real &&
           d.z as real + 1.0 <= dims.z as real;
  }

  /** A stuck ray lies in a plane between cells, so it meets the interior of none. */
  lemma StuckMeetsNoInterior(p: Vec3, f: Heading, d: Cell, s: real)
    requires Stuck(p, f)
    ensures !InInterior(d, p, f, s)
  {
    ZeroTimes(f.y.v, s);
    ZeroTimes(f.z.v, s);
    if Stalls(p.y, f.y) { NotBetween(d.y, p.y.Floor); } else { NotBetween(d.z, p.z.Floor); }
  }

  lemma NotBetween(c: int, n: int)
    ensures c < n ==> n as real >= c as real + 1.0
    ensures c >= n ==> n as real <= c as real
  {
    if c < n { assert (c + 1) as real == c as real + 1.0; }
  }

  /** Every cell whose interior the ray meets within the limit occurs in the walk. */
  lemma InteriorIsVisited(dims: Dims, p: Vec3, f: Heading, m: Ext, n: nat, d: Cell, s: real) returns (j: nat)
    requires Usable(dims, p, f, m) && d.In(dims) && InInterior(d, p, f, s) && 0.0 <= s && AtMost(s, m)
    requires n <= |Walk(dims, p, f, m)| == |WalkTimes(dims, p, f, m)|
    requires n < |Walk(dims, p, f, m)| ==> s < WalkTimes(dims, p, f, m)[n]
    ensures j < n && Walk(dims, p, f, m)[j].0 == d
  {
    var w := Walk(dims, p, f, m);
    InteriorInBox(d, dims, p, f, s);
    if Grazes(p, f) { GrazingWalkIsEmpty(dims, p, f, m); }
    if Stuck(p, f) { StuckMeetsNoInterior(p, f, d, s); }
    WalkIsComplete(dims, p, f, m, n, s);
    j :| 0 <= j < |w[..n]| && InCube(w[..n][j].0, p, f, s);
    InteriorIsPrivate(d, w[j].0, p, f, s);
  }

  /** Cells before item `n` are air, so no solid interior is met before item `n` is entered. */
  lemma AirPrefix(world: Blocks, dims: Dims, p: Vec3, f: Heading, m: Ext, n: nat, d: Cell)
    requires HasDims(world, dims) && Usable(dims, p, f, m)
    requires n <= |Walk(dims, p, f, m)| == |WalkTimes(dims, p, f, m)|
    requires forall j :: 0 <= j < n ==> !SolidAt(world, dims, Walk(dims, p, f, m)[j].0)
    requires SolidAt(world, dims, d)
    ensures var ts := WalkTimes(dims, p, f, m); NotMetBefore(d, p, f, m, if n < |ts| then Fin(ts[n]) else PosInf)
  {
    var w, ts := Walk(dims, p, f, m), WalkTimes(dims, p, f, m);
    var end := if n < |w| then Fin(ts[n]) else PosInf;
    forall s | 0.0 <= s && AtMost(s, m) && Lt(Fin(s), end)
      ensures !InInterior(d, p, f, s)
    {
      if InInterior(d, p, f, s) { var j := InteriorIsVisited(dims, p, f, m, n, d, s); }
    }
  }

  /** Whether the ray meets item `k` of its walk: always, unless the walk is stuck. */
  predicate ItemIsMet(dims: Dims, p: Vec3, f: Heading, m: Ext, k: nat)
    requires Usable(dims, p, f, m) && k < |WalkTimes(dims, p, f, m)|
  {
    k == 0 || Steers(p, f) || StuckItemIsMet(dims, p, f, m, k)
  }

  lemma MetIffItemIsMet(dims: Dims, p: Vec3, f: Heading, m: Ext, k: nat)
    requires Usable(dims, p, f, m) && k < |Walk(dims, p, f, m)| == |WalkTimes(dims, p, f, m)|
    ensures Met(Walk(dims, p, f, m)[k].0, p, f, m) <==> ItemIsMet(dims, p, f, m, k)
  {
    if k == 0 {
      FirstIsMet(dims, p, f, m);
    } else if Steers(p, f) {
      WalkIsSound(dims, p, f, m, k);
    } else {
      StuckMeets(dims, p, f, m, k);
    }
  }

  /**
   Picking, for every ray.  A hit is the first solid cell of the walk and no solid interior is met
   before it; the ray itself meets it exactly when `ItemIsMet`, and on a ray that is not stuck at
   the parameter the walk says.  No hit means that no solid interior is met within the limit.
   */
  lemma PickedBlockIsFirst(world: Blocks, dims: Dims, p: Vec3, f: Heading, m: Ext)
    returns (k: nat)
    requires HasDims(world, dims) && Usable(dims, p, f, m)
    ensures |WalkTimes(dims, p, f, m)| == |Walk(dims, p, f, m)|
    ensures var w, ts, r := Walk(dims, p, f, m), WalkTimes(dims, p, f, m), FirstSolid(world, dims, Walk(dims, p, f, m));
            r.Some? ==>
              && k < |w| && r.value == w[k] && SolidAt(world, dims, r.value.0)
              && (Met(r.value.0, p, f, m) <==> ItemIsMet(dims, p, f, m, k))
              && (Steers(p, f) ==> 0.0 <= ts[k] && AtMost(ts[k], m) && InCube(r.value.0, p, f, ts[k]))
              && forall d :: SolidAt(world, dims, d) ==> NotMetBefore(d, p, f, m, Fin(ts[k]))
    ensures FirstSolid(world, dims, Walk(dims, p, f, m)).None? ==>
              forall d :: SolidAt(world, dims, d) ==> NotMetBefore(d, p, f, m, PosInf)
  {
    WalkUnfolds(dims, p, f, m);
    var w, ts := Walk(dims, p, f, m), WalkTimes(dims, p, f, m);
    k := FirstSolidAt(world, dims, w);
    if k < |w| {
      MetIffItemIsMet(dims, p, f, m, k);
      if Steers(p, f) { WalkIsSound(dims, p, f, m, k); }
    }
    forall d | SolidAt(world, dims, d)
      ensures NotMetBefore(d, p, f, m, if k < |ts| then Fin(ts[k]) else PosInf)
    {
      AirPrefix(world, dims, p, f, m, k, d);
    }
  }

  /**
   Placing a block against the picked face never lands on a solid block: the target is the air
   cell the ray came from, or lies outside the world.  Only an eye inside the box that picks the
   cell it stands in is exempt.
   */
  lemma PlacementTargetIsFree(world: Blocks, dims: Dims, p: Vec3, f: Heading, m: Ext)
    requires HasDims(world, dims) && Usable(dims, p, f, m)
    requires FirstSolid(world, dims, Walk(dims, p, f, m)).Some?
    ensures var w, hit := Walk(dims, p, f, m), FirstSolid(world, dims, Walk(dims, p, f, m)).value;
            && (!SolidAt(world, dims, Target(hit)) || (InBox(dims, p, f, 0.0) && hit.0 == w[0].0))
            && (hit.0 != w[0].0 ==> exists j :: 0 <= j < |w| && Target(hit) == w[j].0 && Target(hit).In(dims))
  {
    var w := Walk(dims, p, f, m);
    var k := FirstSolidAt(world, dims, w);
    if k > 0 {
      TargetOfLater(dims, p, f, m, k);
      assert !SolidAt(world, dims, w[k - 1].0);
    } else if !InBox(dims, p, f, 0.0) {
      WalkEntersThroughBorder(dims, p, f, m);
    }
  }

  /** Where a block is placed: the neighbour of the picked cell across the picked face. */
  function Target(hit: Item): Cell {
    hit.0.Plus(hit.1.Offset())
  }

  lemma TargetOfLater(dims: Dims, p: Vec3, f: Heading, m: Ext, k: nat)
    requires Usable(dims, p, f, m) && 0 < k < |Walk(dims, p, f, m)|
    ensures Target(Walk(dims, p, f, m)[k]) == Walk(dims, p, f, m)[k - 1].0 && Walk(dims, p, f, m)[k - 1].0.In(dims)
  {
    WalkFaces(dims, p, f, m, k);
    WalkInBounds(dims, p, f, m, k - 1);
  }

  /** Find the first solid block along the view direction. */
  method LookingAtSolidBlock(world: Blocks, dims: Dims, position: Vec3, forward: Heading, maxDistance: Ext)
    returns (r: Option<Item>)
    requires HasDims(world, dims) && Usable(dims, position, forward, maxDistance)
    ensures r == FirstSolid(world, dims, Walk(dims, position, forward, maxDistance))
    ensures r.Some? ==> SolidAt(world, dims, r.value.0)
    ensures r.None? ==>
      forall d :: SolidAt(world, dims, d) ==> NotMetBefore(d, position, forward, maxDistance, PosInf)
  {
    ghost var _ := PickedBlockIsFirst(world, dims, position, forward, maxDistance);
    var traverser := new VoxelTraverser(dims, position, forward, maxDistance);
    while true
      invariant Ready(traverser.state) && !traverser.state.Empty? && traverser.state.dims == dims
      invariant FirstSolid(world, dims, Rest(traverser.state))
             == FirstSolid(world, dims, Walk(dims, position, forward, maxDistance))
      decreases Rank(traverser.state)
    {
      ghost var before := Rest(traverser.state);
      var item := traverser.Next();
      if item.None? { return None; }
      assert before[1..] == Rest(traverser.state);
      var (c, face) := item.value;
      if world[c.x][c.y][c.z] { return Some((c, face)); }
    }
  }
}
