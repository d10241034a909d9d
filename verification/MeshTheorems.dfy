/** What the mesh says about the world: counting, balance, a discrete divergence theorem. */
module MeshTheorems {
  import opened Game
  import opened Mesh

  /** A quantity summed over the triangles of a mesh. */
  function Total(g: MeshTri -> int, mesh: seq<MeshTri>): int {
    if mesh == [] then 0 else g(mesh[0]) + Total(g, mesh[1..])
  }

  lemma {:induction false} TotalConcat(g: MeshTri -> int, a: seq<MeshTri>, b: seq<MeshTri>)
    ensures Total(g, a + b) == Total(g, a) + Total(g, b)
  {
    if a == [] {
      assert a + b == b;
    } else {
      assert (a + b)[1..] == a[1..] + b;
      TotalConcat(g, a[1..], b);
    }
  }

  /** What face `f` of each block contributes. */
  function FaceValue(world: Blocks, d: Dims, g: MeshTri -> int, f: Face): Cell -> int
    requires HasDims(world, d)
  {
    (c: Cell) => if Exposed(world, d, c, f) then g(FaceTri(c, f, false)) + g(FaceTri(c, f, true)) else 0
  }

  lemma FaceTotal(world: Blocks, d: Dims, g: MeshTri -> int, c: Cell, f: Face)
    requires HasDims(world, d)
    ensures Total(g, FaceMesh(world, d, c, f)) == FaceValue(world, d, g, f)(c)
  {
    if Exposed(world, d, c, f) {
      var m := FaceMesh(world, d, c, f);
      assert m[1..] == [FaceTri(c, f, true)] && m[1..][1..] == [];
      assert Total(g, m) == g(m[0]) + Total(g, m[1..]);
      assert Total(g, m[1..]) == g(m[1]) + Total(g, m[1..][1..]);
    }
  }

  lemma {:induction false} BlockTotal(world: Blocks, d: Dims, g: MeshTri -> int, c: Cell, k: nat)
    requires HasDims(world, d) && k <= 6
    ensures Total(g, BlockMesh(world, d, c, k))
         == Sum(k, (i: int) => if 0 <= i < 6 then FaceValue(world, d, g, ALL_FACES[i])(c) else 0)
  {
    if k > 0 {
      BlockTotal(world, d, g, c, k - 1);
      TotalConcat(g, BlockMesh(world, d, c, k - 1), FaceMesh(world, d, c, ALL_FACES[k - 1]));
      FaceTotal(world, d, g, c, ALL_FACES[k - 1]);
    }
  }

  /** A quantity of the triangles that each cell contributes. */
  function Contribution(b: Cell -> seq<MeshTri>, g: MeshTri -> int): Cell -> int {
    (c: Cell) => Total(g, b(c))
  }

  lemma {:induction false} ConcatTotal(n: nat, f: int -> seq<MeshTri>, g: MeshTri -> int, t: int -> int)
    requires forall i :: 0 <= i < n ==> Total(g, f(i)) == t(i)
    ensures Total(g, ConcatTo(n, f)) == Sum(n, t)
  {
    if n > 0 {
      ConcatTotal(n - 1, f, g, t);
      TotalConcat(g, ConcatTo(n - 1, f), f(n - 1));
    }
  }

  lemma RowTotal(b: Cell -> seq<MeshTri>, d: Dims, g: MeshTri -> int, y: int, z: int)
    ensures Total(g, Layer(b, d, z)(y)) == RowSums(Contribution(b, g), d, z)(y)
  {
    forall x | 0 <= x < d.x ensures Total(g, Row(b, y, z)(x)) == Terms(Contribution(b, g), y, z)(x) { }
    ConcatTotal(d.x, Row(b, y, z), g, Terms(Contribution(b, g), y, z));
  }

  lemma LayerTotal(b: Cell -> seq<MeshTri>, d: Dims, g: MeshTri -> int, z: int)
    ensures Total(g, Layers(b, d)(z)) == LayerSums(Contribution(b, g), d)(z)
  {
    forall y | 0 <= y < d.y
      ensures Total(g, Layer(b, d, z)(y)) == RowSums(Contribution(b, g), d, z)(y)
    {
      RowTotal(b, d, g, y, z);
    }
    ConcatTotal(d.y, Layer(b, d, z), g, RowSums(Contribution(b, g), d, z));
  }

  lemma LayersTotal(b: Cell -> seq<MeshTri>, d: Dims, g: MeshTri -> int)
    ensures Total(g, ConcatTo(d.z, Layers(b, d))) == OverCells(Contribution(b, g), d)
  {
    forall z | 0 <= z < d.z
      ensures Total(g, Layers(b, d)(z)) == LayerSums(Contribution(b, g), d)(z)
    {
      LayerTotal(b, d, g, z);
    }
    ConcatTotal(d.z, Layers(b, d), g, LayerSums(Contribution(b, g), d));
  }

  /** The value of face `f` summed over the world. */
  function FaceSum(world: Blocks, d: Dims, g: MeshTri -> int, f: Face): int
    requires HasDims(world, d)
  {
    OverCells(FaceValue(world, d, g, f), d)
  }

  /** The sum of two values. */
  function Both(g: Cell -> int, h: Cell -> int): Cell -> int {
    (c: Cell) => g(c) + h(c)
  }

  lemma OverBoth(g: Cell -> int, h: Cell -> int, d: Dims)
    ensures OverCells(Both(g, h), d) == OverCells(g, d) + OverCells(h, d)
  {
    CellsLinear(Both(g, h), 1, g, 1, h, d);
  }

  lemma SixFaces(g: int -> int)
    ensures Sum(6, g) == g(0) + g(1) + g(2) + g(3) + g(4) + g(5)
  {
    assert Sum(1, g) == g(0);
    assert Sum(2, g) == g(0) + g(1);
    assert Sum(3, g) == g(0) + g(1) + g(2);
    assert Sum(4, g) == Sum(3, g) + g(3);
    assert Sum(5, g) == Sum(4, g) + g(4);
  }

  /** Summing over the mesh is summing over the exposed faces of the world. */
  lemma MeshTotal(world: Blocks, d: Dims, g: MeshTri -> int)
    requires HasDims(world, d)
    ensures Total(g, WorldMesh(world, d)) ==
      FaceSum(world, d, g, FRONT) + FaceSum(world, d, g, BACK) + FaceSum(world, d, g, TOP)
      + FaceSum(world, d, g, BOTTOM) + FaceSum(world, d, g, LEFT) + FaceSum(world, d, g, RIGHT)
  {
    LayersTotal(BlockMeshes(world, d), d, g);
    var (v0, v1, v2) := (FaceValue(world, d, g, FRONT), FaceValue(world, d, g, BACK), FaceValue(world, d, g, TOP));
    var (v3, v4, v5) := (FaceValue(world, d, g, BOTTOM), FaceValue(world, d, g, LEFT), FaceValue(world, d, g, RIGHT));
    var all := Both(Both(Both(v0, v1), Both(v2, v3)), Both(v4, v5));
    forall c: Cell
      ensures Contribution(BlockMeshes(world, d), g)(c) == all(c)
    {
      BlockTotal(world, d, g, c, FaceCount());
      SixFaces((i: int) => if 0 <= i < 6 then FaceValue(world, d, g, ALL_FACES[i])(c) else 0);
    }
    CellsEqual(Contribution(BlockMeshes(world, d), g), all, d);
    OverBoth(Both(Both(v0, v1), Both(v2, v3)), Both(v4, v5), d);
    OverBoth(Both(v0, v1), Both(v2, v3), d);
    OverBoth(v0, v1, d); OverBoth(v2, v3, d); OverBoth(v4, v5, d);
  }

  // ---------------------------------------------------------------- solids and adjacent pairs

  function Solid(world: Blocks, d: Dims): Cell -> int
    requires HasDims(world, d)
  {
    (c: Cell) => if SolidAt(world, d, c) then 1 else 0
  }

  /** Number of solid blocks. */
  function Solids(world: Blocks, d: Dims): int
    requires HasDims(world, d)
  {
    OverCells(Solid(world, d), d)
  }

  /** `weight` of each solid block whose neighbour across face `f` is solid too. */
  function Paired(world: Blocks, d: Dims, f: Face, weight: Cell -> int): Cell -> int
    requires HasDims(world, d)
  {
    (c: Cell) => if SolidAt(world, d, c) && SolidAt(world, d, c.Plus(f.Offset())) then weight(c) else 0
  }

  lemma PairedAt(world: Blocks, d: Dims, f: Face, w: Cell -> int, c: Cell)
    requires HasDims(world, d)
    ensures Paired(world, d, f, w)(c)
         == if SolidAt(world, d, c) && SolidAt(world, d, c.Plus(f.Offset())) then w(c) else 0
  {
  }

  lemma FaceValueAt(world: Blocks, d: Dims, g: MeshTri -> int, f: Face, c: Cell)
    requires HasDims(world, d)
    ensures FaceValue(world, d, g, f)(c)
         == if Exposed(world, d, c, f) then g(FaceTri(c, f, false)) + g(FaceTri(c, f, true)) else 0
  {
  }

  lemma SolidValueAt(world: Blocks, d: Dims, c: Cell)
    requires HasDims(world, d)
    ensures Solid(world, d)(c) == if SolidAt(world, d, c) then 1 else 0
  {
  }

  function One(): Cell -> int {
    (c: Cell) => 1
  }

  /** Number of adjacent solid pairs along the axis of `f`. */
  function Pairs(world: Blocks, d: Dims, f: Face): int
    requires HasDims(world, d)
  {
    OverCells(Paired(world, d, f, One()), d)
  }

  function Moved(w: Cell -> int, f: Face): Cell -> int {
    (c: Cell) => w(c.Plus(f.Offset()))
  }

  /** A pair can be counted at either of its blocks. */
  lemma PairFromBothSides(world: Blocks, d: Dims, f: Face, w: Cell -> int)
    requires HasDims(world, d) && (f == RIGHT || f == TOP || f == FRONT)
    ensures OverCells(Paired(world, d, f.Opposite(), w), d) == OverCells(Paired(world, d, f, Moved(w, f)), d)
  {
    var g, h := Paired(world, d, f, Moved(w, f)), Paired(world, d, f.Opposite(), w);
    forall c: Cell | c.In(d)
      ensures h(c) == g(c.Plus(f.Opposite().Offset()))
    {
      var c' := c.Plus(f.Opposite().Offset());
      assert c'.Plus(f.Offset()) == c;
      PairedAt(world, d, f, Moved(w, f), c');
      PairedAt(world, d, f.Opposite(), w, c);
    }
    forall c: Cell | !c.In(d) || !c.Plus(f.Offset()).In(d) ensures g(c) == 0 { PairedAt(world, d, f, Moved(w, f), c); }
    CellsShift(g, h, d, f);
  }

  // ---------------------------------------------------------------- counting

  function Each(): MeshTri -> int {
    (t: MeshTri) => 1
  }

  lemma {:induction false} TotalEach(mesh: seq<MeshTri>)
    ensures Total(Each(), mesh) == |mesh|
  {
    if mesh != [] { TotalEach(mesh[1..]); }
  }

  /** Exposed faces in direction `f` are the solids without the pairs; opposite directions agree. */
  lemma ExposedFaces(world: Blocks, d: Dims, f: Face)
    requires HasDims(world, d) && (f == RIGHT || f == TOP || f == FRONT)
    ensures FaceSum(world, d, Each(), f) == 2 * Solids(world, d) - 2 * Pairs(world, d, f)
    ensures FaceSum(world, d, Each(), f.Opposite()) == 2 * Solids(world, d) - 2 * Pairs(world, d, f)
  {
    FaceIsSolidMinusPair(world, d, f);
    FaceIsSolidMinusPair(world, d, f.Opposite());
    PairFromBothSides(world, d, f, One());
    CellsEqual(Paired(world, d, f, Moved(One(), f)), Paired(world, d, f, One()), d);
  }

  lemma FaceIsSolidMinusPair(world: Blocks, d: Dims, f: Face)
    requires HasDims(world, d)
    ensures FaceSum(world, d, Each(), f) == 2 * Solids(world, d) - 2 * Pairs(world, d, f)
  {
    var (v, s, p) := (FaceValue(world, d, Each(), f), Solid(world, d), Paired(world, d, f, One()));
    forall c: Cell | c.In(d) ensures v(c) == 2 * s(c) + (-2) * p(c) {
      FaceValueAt(world, d, Each(), f, c);
      SolidValueAt(world, d, c);
      PairedAt(world, d, f, One(), c);
    }
    CellsLinear(v, 2, s, -2, p, d);
  }

  /** The mesh has twelve triangles a solid block, minus four for every pair of adjacent solids. */
  lemma MeshSize(world: Blocks, d: Dims)
    requires HasDims(world, d)
    ensures |WorldMesh(world, d)| ==
            12 * Solids(world, d) - 4 * (Pairs(world, d, RIGHT) + Pairs(world, d, TOP) + Pairs(world, d, FRONT))
  {
    assert RIGHT.Opposite() == LEFT && TOP.Opposite() == BOTTOM && FRONT.Opposite() == BACK;
    TotalEach(WorldMesh(world, d));
    MeshTotal(world, d, Each());
    ExposedFaces(world, d, RIGHT);
    ExposedFaces(world, d, TOP);
    ExposedFaces(world, d, FRONT);
  }

  /** `g` counted only on the triangles that face direction `f`. */
  function Facing(f: Face, g: MeshTri -> int): MeshTri -> int {
    (t: MeshTri) => if t.normal == f.Offset() then g(t) else 0
  }

  lemma NothingElsewhere(world: Blocks, d: Dims, f: Face, g: MeshTri -> int, f': Face)
    requires HasDims(world, d)
    ensures FaceSum(world, d, Facing(f, g), f') == if f' == f then FaceSum(world, d, g, f) else 0
  {
    var v := FaceValue(world, d, Facing(f, g), f');
    if f' == f {
      forall c: Cell | c.In(d) ensures v(c) == FaceValue(world, d, g, f)(c) {
        FaceValueAt(world, d, Facing(f, g), f', c);
        FaceValueAt(world, d, g, f, c);
      }
      CellsEqual(v, FaceValue(world, d, g, f), d);
    } else {
      assert f'.Offset() != f.Offset();
      forall c: Cell | c.In(d) ensures v(c) == 0 { FaceValueAt(world, d, Facing(f, g), f', c); }
      CellsSingle(v, d, Cell(-1, 0, 0));
    }
  }

  /** Summing over the triangles of one direction is summing over that face of the blocks. */
  lemma FacingTotal(world: Blocks, d: Dims, f: Face, g: MeshTri -> int)
    requires HasDims(world, d)
    ensures Total(Facing(f, g), WorldMesh(world, d)) == FaceSum(world, d, g, f)
  {
    MeshTotal(world, d, Facing(f, g));
    NothingElsewhere(world, d, f, g, FRONT);
    NothingElsewhere(world, d, f, g, BACK);
    NothingElsewhere(world, d, f, g, TOP);
    NothingElsewhere(world, d, f, g, BOTTOM);
    NothingElsewhere(world, d, f, g, LEFT);
    NothingElsewhere(world, d, f, g, RIGHT);
  }

  /** Opposite normals occur equally often. */
  lemma NormalsBalance(world: Blocks, d: Dims, f: Face)
    requires HasDims(world, d)
    ensures Total(Facing(f, Each()), WorldMesh(world, d)) == Total(Facing(f.Opposite(), Each()), WorldMesh(world, d))
  {
    FacingTotal(world, d, f, Each());
    FacingTotal(world, d, f.Opposite(), Each());
    ExposedFaces(world, d, if f == LEFT || f == BOTTOM || f == BACK then f.Opposite() else f);
  }

  /** The coordinate of the first vertex along the axis of `f`. */
  function Height(f: Face): MeshTri -> int {
    (t: MeshTri) => AlongFace(t.v0, f)
  }

  function AlongFace(c: Cell, f: Face): int {
    match f
    case RIGHT => c.x case LEFT => c.x case TOP => c.y case BOTTOM => c.y case FRONT => c.z case BACK => c.z
  }

  function CellHeight(f: Face): Cell -> int {
    (c: Cell) => AlongFace(c, f)
  }

  /**
   A discrete divergence theorem: on every axis, the vertex coordinates of the faces that look
   forward minus those of the faces that look back add up to twice the number of solid blocks.
   */
  lemma Divergence(world: Blocks, d: Dims, f: Face)
    requires HasDims(world, d) && (f == RIGHT || f == TOP || f == FRONT)
    ensures Total(Facing(f, Height(f)), WorldMesh(world, d))
          - Total(Facing(f.Opposite(), Height(f)), WorldMesh(world, d)) == 2 * Solids(world, d)
  {
    FacingTotal(world, d, f, Height(f));
    FacingTotal(world, d, f.Opposite(), Height(f));
    FaceDivergence(world, d, f);
  }

  lemma FaceDivergence(world: Blocks, d: Dims, f: Face)
    requires HasDims(world, d) && (f == RIGHT || f == TOP || f == FRONT)
    ensures FaceSum(world, d, Height(f), f) - FaceSum(world, d, Height(f), f.Opposite()) == 2 * Solids(world, d)
  {
    BackwardFaces(world, d, f);
    ForwardFaces(world, d, f);
    PairFromBothSides(world, d, f, CellHeight(f));
  }

  /** The coordinate of each solid block, plus `extra`. */
  function SolidHeight(world: Blocks, d: Dims, f: Face, extra: int): Cell -> int
    requires HasDims(world, d)
  {
    (c: Cell) => if SolidAt(world, d, c) then AlongFace(c, f) + extra else 0
  }

  lemma SolidHeightAt(world: Blocks, d: Dims, f: Face, extra: int, c: Cell)
    requires HasDims(world, d)
    ensures SolidHeight(world, d, f, extra)(c) == if SolidAt(world, d, c) then AlongFace(c, f) + extra else 0
  {
  }

  lemma BackwardFaces(world: Blocks, d: Dims, f: Face)
    requires HasDims(world, d) && (f == RIGHT || f == TOP || f == FRONT)
    ensures FaceSum(world, d, Height(f), f.Opposite()) ==
            2 * OverCells(SolidHeight(world, d, f, 0), d)
            - 2 * OverCells(Paired(world, d, f.Opposite(), CellHeight(f)), d)
  {
    var v, s := FaceValue(world, d, Height(f), f.Opposite()), SolidHeight(world, d, f, 0);
    var p := Paired(world, d, f.Opposite(), CellHeight(f));
    forall c: Cell | c.In(d) ensures v(c) == 2 * s(c) + (-2) * p(c) {
      FaceValueAt(world, d, Height(f), f.Opposite(), c);
      SolidHeightAt(world, d, f, 0, c);
      PairedAt(world, d, f.Opposite(), CellHeight(f), c);
      assert AlongFace(FaceTri(c, f.Opposite(), false).v0, f) == AlongFace(c, f)
          == AlongFace(FaceTri(c, f.Opposite(), true).v0, f);
    }
    CellsLinear(v, 2, s, -2, p, d);
  }

  lemma ForwardFaces(world: Blocks, d: Dims, f: Face)
    requires HasDims(world, d) && (f == RIGHT || f == TOP || f == FRONT)
    ensures FaceSum(world, d, Height(f), f) ==
            2 * OverCells(SolidHeight(world, d, f, 0), d) + 2 * Solids(world, d)
            - 2 * OverCells(Paired(world, d, f, Moved(CellHeight(f), f)), d)
  {
    var v, r := FaceValue(world, d, Height(f), f), SolidHeight(world, d, f, 1);
    var p := Paired(world, d, f, Moved(CellHeight(f), f));
    forall c: Cell | c.In(d) ensures v(c) == 2 * r(c) + (-2) * p(c) {
      FaceValueAt(world, d, Height(f), f, c);
      SolidHeightAt(world, d, f, 1, c);
      PairedAt(world, d, f, Moved(CellHeight(f), f), c);
      assert AlongFace(c.Plus(f.Offset()), f) == AlongFace(c, f) + 1;
      assert AlongFace(FaceTri(c, f, false).v0, f) == AlongFace(c, f) + 1 == AlongFace(FaceTri(c, f, true).v0, f);
    }
    CellsLinear(v, 2, r, -2, p, d);
    var (s, n) := (SolidHeight(world, d, f, 0), Solid(world, d));
    forall c: Cell | c.In(d) ensures r(c) == 1 * s(c) + 1 * n(c) {
      SolidHeightAt(world, d, f, 0, c);
      SolidHeightAt(world, d, f, 1, c);
      SolidValueAt(world, d, c);
    }
    CellsLinear(r, 1, s, 1, n, d);
  }

  // ---------------------------------------------------------------- exactly once

  function Copies(t: MeshTri): MeshTri -> int {
    (u: MeshTri) => if u == t then 1 else 0
  }

  /** Position, face and half are determined by the triangle. */
  lemma FaceTriIsInjective(c: Cell, f: Face, second: bool, c': Cell, f': Face, second': bool)
    requires FaceTri(c, f, second) == FaceTri(c', f', second')
    ensures c == c' && f == f' && second == second'
  {
  }

  lemma CopiesOnFace(world: Blocks, d: Dims, c: Cell, f: Face, second: bool, f': Face)
    requires HasDims(world, d) && Exposed(world, d, c, f)
    ensures FaceSum(world, d, Copies(FaceTri(c, f, second)), f') == if f' == f then 1 else 0
  {
    var t := FaceTri(c, f, second);
    var h := FaceValue(world, d, Copies(t), f');
    forall c': Cell, second': bool | FaceTri(c', f', second') == t
      ensures c' == c && f' == f && second' == second
    {
      FaceTriIsInjective(c', f', second', c, f, second);
    }
    CellsSingle(h, d, c);
  }

  /** Every exposed face is in the mesh exactly once, as two triangles. */
  lemma FacesOnce(world: Blocks, d: Dims, c: Cell, f: Face, second: bool)
    requires HasDims(world, d) && Exposed(world, d, c, f)
    ensures Total(Copies(FaceTri(c, f, second)), WorldMesh(world, d)) == 1
  {
    MeshTotal(world, d, Copies(FaceTri(c, f, second)));
    CopiesOnFace(world, d, c, f, second, FRONT);
    CopiesOnFace(world, d, c, f, second, BACK);
    CopiesOnFace(world, d, c, f, second, TOP);
    CopiesOnFace(world, d, c, f, second, BOTTOM);
    CopiesOnFace(world, d, c, f, second, LEFT);
    CopiesOnFace(world, d, c, f, second, RIGHT);
  }

  lemma CopiesNowhere(world: Blocks, d: Dims, t: MeshTri, f: Face)
    requires HasDims(world, d)
    requires forall c: Cell, second: bool :: Exposed(world, d, c, f) ==> FaceTri(c, f, second) != t
    ensures FaceSum(world, d, Copies(t), f) == 0
  {
    CellsSingle(FaceValue(world, d, Copies(t), f), d, Cell(-1, 0, 0));
  }

  /** A triangle that is no exposed face is not in the mesh. */
  lemma NothingElse(world: Blocks, d: Dims, t: MeshTri)
    requires HasDims(world, d)
    requires forall c: Cell, f: Face, second: bool :: Exposed(world, d, c, f) ==> FaceTri(c, f, second) != t
    ensures Total(Copies(t), WorldMesh(world, d)) == 0
  {
    MeshTotal(world, d, Copies(t));
    CopiesNowhere(world, d, t, FRONT);
    CopiesNowhere(world, d, t, BACK);
    CopiesNowhere(world, d, t, TOP);
    CopiesNowhere(world, d, t, BOTTOM);
    CopiesNowhere(world, d, t, LEFT);
    CopiesNowhere(world, d, t, RIGHT);
  }

  // ---------------------------------------------------------------- corners and winding

  /** `p` is one of the eight corners of the block at `c`. */
  predicate IsCorner(c: Cell, p: Cell) {
    c.x <= p.x <= c.x + 1 && c.y <= p.y <= c.y + 1 && c.z <= p.z <= c.z + 1
  }

  predicate HasVertex(t: MeshTri, p: Cell) {
    p == t.v0 || p == t.v1 || p == t.v2
  }

  /** The corners of a face are exactly those the block shares with its neighbour across the face. */
  lemma FaceCorners(c: Cell, f: Face, p: Cell)
    ensures HasVertex(FaceTri(c, f, false), p) || HasVertex(FaceTri(c, f, true), p)
       <==> IsCorner(c, p) && IsCorner(c.Plus(f.Offset()), p)
  {
  }

  /** The corner that both triangles of a face start or end at, and so the diagonal they share. */
  lemma FirstCorner(c: Cell, f: Face)
    ensures FaceTri(c, f, false).v0 == FaceTri(c, f, true).v2 == c.Plus(
              match f
              case FRONT => Cell(0, 0, 1) case BACK => Cell(1, 0, 0) case TOP => Cell(0, 1, 1)
              case BOTTOM => Cell(0, 0, 0) case LEFT => Cell(0, 0, 0) case RIGHT => Cell(1, 0, 1))
    ensures FaceTri(c, f, false).v2 == FaceTri(c, f, true).v0
  {
  }

  function Minus(a: Cell, b: Cell): Cell {
    Cell(a.x - b.x, a.y - b.y, a.z - b.z)
  }

  function CrossProduct(a: Cell, b: Cell): Cell {
    Cell(a.y * b.z - a.z * b.y, a.z * b.x - a.x * b.z, a.x * b.y - a.y * b.x)
  }

  function Dot(a: Cell, b: Cell): int {
    a.x * b.x + a.y * b.y + a.z * b.z
  }

  /** Clockwise for a viewer whom the normal points at: the last side crossed with the first gives the normal. */
  predicate Clockwise(t: MeshTri) {
    CrossProduct(Minus(t.v2, t.v0), Minus(t.v1, t.v0)) == t.normal
  }

  /** `a` times the sign of `b`. */
  function Signed(a: int, b: int): int {
    if b == 0 then 0 else if b > 0 then a else 0 - a
  }

  predicate IsUnit(v: Cell) {
    -1 <= v.x <= 1 && -1 <= v.y <= 1 && -1 <= v.z <= 1
  }

  lemma UnitProduct(a: int, b: int)
    requires -1 <= b <= 1
    ensures a * b == Signed(a, b)
  {
  }

  /** The determinant of rows `a, b` and `c, d` for `c` and `d` among -1, 0 and 1. */
  function SignedMinor(a: int, b: int, c: int, d: int): int {
    Signed(a, d) - Signed(b, c)
  }

  /** `n` is the cross product of `a` with a vector of such coordinates. */
  predicate IsCross(a: Cell, b: Cell, n: Cell) {
    && SignedMinor(a.y, a.z, b.y, b.z) == n.x
    && SignedMinor(a.z, a.x, b.z, b.x) == n.y
    && SignedMinor(a.x, a.y, b.x, b.y) == n.z
  }

  lemma UnitCross(a: Cell, b: Cell, n: Cell)
    requires IsUnit(b) && IsCross(a, b, n)
    ensures CrossProduct(a, b) == n
  {
    UnitProduct(a.y, b.z); UnitProduct(a.z, b.y);
    UnitProduct(a.z, b.x); UnitProduct(a.x, b.z);
    UnitProduct(a.x, b.y); UnitProduct(a.y, b.x);
  }

  lemma UnitDot(a: Cell, b: Cell)
    requires IsUnit(b)
    ensures Dot(a, b) == Signed(a.x, b.x) + Signed(a.y, b.y) + Signed(a.z, b.z)
  {
    UnitProduct(a.x, b.x); UnitProduct(a.y, b.y); UnitProduct(a.z, b.z);
  }

  /** The corners of a triangle of a face, relative to the block. */
  function CornersOf(f: Face, second: bool): (Cell, Cell, Cell) {
    var (q0, q1, q2, q3) := Quad(f);
    if second then (q2, q3, q0) else (q0, q1, q2)
  }

  /** `u` and `v` are the last and the first side. */
  predicate AreSides(f: Face, second: bool, u: Cell, v: Cell) {
    var (a, b, e) := CornersOf(f, second);
    u == Minus(e, a) && v == Minus(b, a)
  }

  lemma TurnsX(f: Face, second: bool, u: Cell, v: Cell)
    requires AreSides(f, second, u, v)
    ensures SignedMinor(u.y, u.z, v.y, v.z) == f.Offset().x
  {
  }

  lemma TurnsY(f: Face, second: bool, u: Cell, v: Cell)
    requires AreSides(f, second, u, v)
    ensures SignedMinor(u.z, u.x, v.z, v.x) == f.Offset().y
  {
  }

  lemma TurnsZ(f: Face, second: bool, u: Cell, v: Cell)
    requires AreSides(f, second, u, v)
    ensures SignedMinor(u.x, u.y, v.x, v.y) == f.Offset().z
  {
  }

  lemma SidesTurn(f: Face, second: bool, u: Cell, v: Cell)
    requires AreSides(f, second, u, v)
    ensures IsCross(u, v, f.Offset())
  {
    TurnsX(f, second, u, v);
    TurnsY(f, second, u, v);
    TurnsZ(f, second, u, v);
  }

  lemma SidesAreUnits(f: Face, second: bool, u: Cell, v: Cell)
    requires AreSides(f, second, u, v)
    ensures IsUnit(v)
  {
  }

  lemma SidesCross(f: Face, second: bool, u: Cell, v: Cell)
    requires AreSides(f, second, u, v)
    ensures CrossProduct(u, v) == f.Offset()
  {
    SidesAreUnits(f, second, u, v);
    SidesTurn(f, second, u, v);
    UnitCross(u, v, f.Offset());
  }

  lemma FaceTriIs(c: Cell, f: Face, second: bool)
    ensures var (a, b, e) := CornersOf(f, second);
            FaceTri(c, f, second) == MeshTri(c.Plus(a), c.Plus(b), c.Plus(e), f.Offset())
  {
  }

  /** A side does not depend on where the block is. */
  lemma SideOf(c: Cell, a: Cell, b: Cell)
    ensures Minus(c.Plus(b), c.Plus(a)) == Minus(b, a)
  {
  }

  lemma SidesOfFace(c: Cell, f: Face, second: bool, t: MeshTri)
    requires t == FaceTri(c, f, second)
    ensures AreSides(f, second, Minus(t.v2, t.v0), Minus(t.v1, t.v0))
  {
    var (a, b, e) := CornersOf(f, second);
    FaceTriIs(c, f, second);
    SideOf(c, a, e);
    SideOf(c, a, b);
  }

  lemma FaceTriIsClockwise(c: Cell, f: Face, second: bool)
    ensures Clockwise(FaceTri(c, f, second)) && FaceTri(c, f, second).normal == f.Offset()
  {
    var t := FaceTri(c, f, second);
    FaceTriIs(c, f, second);
    SidesOfFace(c, f, second, t);
    SidesCross(f, second, Minus(t.v2, t.v0), Minus(t.v1, t.v0));
  }

  lemma {:induction false} InMeshIsCounted(t: MeshTri, mesh: seq<MeshTri>)
    requires t in mesh
    ensures Total(Copies(t), mesh) > 0
  {
    CopiesNotNegative(t, mesh[1..]);
    if mesh[0] != t { InMeshIsCounted(t, mesh[1..]); }
  }

  lemma {:induction false} CopiesNotNegative(t: MeshTri, mesh: seq<MeshTri>)
    ensures Total(Copies(t), mesh) >= 0
  {
    if mesh != [] { CopiesNotNegative(t, mesh[1..]); }
  }

  /** Every triangle of the mesh turns clockwise and lies on an exposed face. */
  lemma MeshIsClockwise(world: Blocks, d: Dims, t: MeshTri) returns (c: Cell, f: Face, second: bool)
    requires HasDims(world, d) && t in WorldMesh(world, d)
    ensures Exposed(world, d, c, f) && t == FaceTri(c, f, second) && Clockwise(t) && t.normal == f.Offset()
  {
    InMeshIsCounted(t, WorldMesh(world, d));
    if forall c: Cell, f: Face, second: bool :: Exposed(world, d, c, f) ==> FaceTri(c, f, second) != t {
      NothingElse(world, d, t);
    }
    c, f, second :| Exposed(world, d, c, f) && FaceTri(c, f, second) == t;
    FaceTriIsClockwise(c, f, second);
  }

  // ---------------------------------------------------------------- volume

  /** Six times the signed volume between a triangle and the origin, positive when the origin is behind it. */
  function TripleProduct(): MeshTri -> int {
    (t: MeshTri) => Dot(t.v0, CrossProduct(t.v2, t.v1))
  }

  /** A triple product does not change when the first vector is taken off the others. */
  lemma TripleShift(a: Cell, b: Cell, c: Cell)
    ensures Dot(a, CrossProduct(b, c)) == Dot(a, CrossProduct(Minus(b, a), Minus(c, a)))
  {
    var (u, v) := (Minus(b, a), Minus(c, a));
    CrossShift(a, b, c, u, v);
    DotSum(a, CrossProduct(u, v), CrossProduct(a, v), CrossProduct(u, a), CrossProduct(b, c));
    DotCross(a, v);
    DotCross(a, u);
  }

  lemma DotSum(a: Cell, x: Cell, p: Cell, q: Cell, w: Cell)
    requires w.x == x.x + p.x + q.x && w.y == x.y + p.y + q.y && w.z == x.z + p.z + q.z
    ensures Dot(a, w) == Dot(a, x) + Dot(a, p) + Dot(a, q)
  {
    assert a.x * w.x == a.x * x.x + a.x * p.x + a.x * q.x;
    assert a.y * w.y == a.y * x.y + a.y * p.y + a.y * q.y;
    assert a.z * w.z == a.z * x.z + a.z * p.z + a.z * q.z;
  }

  /** A vector is orthogonal to its cross products. */
  lemma DotCross(a: Cell, u: Cell)
    ensures Dot(a, CrossProduct(a, u)) == 0 && Dot(a, CrossProduct(u, a)) == 0
  {
  }

  /** Crossing `a + u` with `a + v`, coordinate by coordinate. */
  lemma CrossShift(a: Cell, b: Cell, c: Cell, u: Cell, v: Cell)
    requires u == Minus(b, a) && v == Minus(c, a)
    ensures var w, x, p, q := CrossProduct(b, c), CrossProduct(u, v), CrossProduct(a, v), CrossProduct(u, a);
            w.x == x.x + p.x + q.x && w.y == x.y + p.y + q.y && w.z == x.z + p.z + q.z
  {
    MinorShift(a.y, a.z, u.y, u.z, v.y, v.z);
    MinorShift(a.z, a.x, u.z, u.x, v.z, v.x);
    MinorShift(a.x, a.y, u.x, u.y, v.x, v.y);
  }

  lemma MinorShift(a: int, b: int, p: int, q: int, r: int, s: int)
    ensures (a + p) * (b + s) - (b + q) * (a + r) == (p * s - q * r) + (a * s - b * r) + (p * b - q * a)
  {
  }

  /** The coordinate along the direction a face looks in. */
  function Outward(a: Cell, f: Face): int {
    match f
    case FRONT => a.z case BACK => 0 - a.z case TOP => a.y case BOTTOM => 0 - a.y case LEFT => 0 - a.x case RIGHT => a.x
  }

  lemma DotNormal(a: Cell, f: Face)
    ensures Dot(a, f.Offset()) == Outward(a, f)
  {
    UnitDot(a, f.Offset());
  }

  lemma TripleOfClockwise(t: MeshTri)
    requires Clockwise(t)
    ensures TripleProduct()(t) == Dot(t.v0, t.normal)
  {
    TripleShift(t.v0, t.v2, t.v1);
  }

  /** For a face it is the height of the triangle along its normal. */
  lemma TripleIsHeight(c: Cell, f: Face, second: bool)
    requires f == RIGHT || f == TOP || f == FRONT
    ensures TripleProduct()(FaceTri(c, f, second)) == 1 * Height(f)(FaceTri(c, f, second))
    ensures TripleProduct()(FaceTri(c, f.Opposite(), second)) == -1 * Height(f)(FaceTri(c, f.Opposite(), second))
  {
    TripleIsOutward(FaceTri(c, f, second), c, f, second);
    TripleIsOutward(FaceTri(c, f.Opposite(), second), c, f.Opposite(), second);
  }

  lemma TripleIsOutward(t: MeshTri, c: Cell, f: Face, second: bool)
    requires t == FaceTri(c, f, second)
    ensures TripleProduct()(t) == Outward(t.v0, f)
  {
    FaceTriIsClockwise(c, f, second);
    TripleOfClockwise(t);
    DotNormal(t.v0, f);
  }

  /** A multiple on every triangle of a face is a multiple on the sum. */
  lemma FaceSumScaled(world: Blocks, d: Dims, g: MeshTri -> int, k: int, h: MeshTri -> int, f: Face)
    requires HasDims(world, d)
    requires forall c: Cell, second: bool :: g(FaceTri(c, f, second)) == k * h(FaceTri(c, f, second))
    ensures FaceSum(world, d, g, f) == k * FaceSum(world, d, h, f)
  {
    var v, w := FaceValue(world, d, g, f), FaceValue(world, d, h, f);
    forall c: Cell | c.In(d)
      ensures v(c) == k * w(c) + 0 * w(c)
    {
      FaceValueAt(world, d, g, f, c);
      FaceValueAt(world, d, h, f, c);
      var a, b := h(FaceTri(c, f, false)), h(FaceTri(c, f, true));
      assert k * (a + b) == k * a + k * b;
    }
    CellsLinear(v, k, w, 0, w, d);
  }

  lemma AxisVolume(world: Blocks, d: Dims, f: Face)
    requires HasDims(world, d) && (f == RIGHT || f == TOP || f == FRONT)
    ensures FaceSum(world, d, TripleProduct(), f) + FaceSum(world, d, TripleProduct(), f.Opposite())
         == 2 * Solids(world, d)
  {
    forall c: Cell, second: bool
      ensures TripleProduct()(FaceTri(c, f, second)) == 1 * Height(f)(FaceTri(c, f, second))
      ensures TripleProduct()(FaceTri(c, f.Opposite(), second)) == -1 * Height(f)(FaceTri(c, f.Opposite(), second))
    {
      TripleIsHeight(c, f, second);
    }
    FaceSumScaled(world, d, TripleProduct(), 1, Height(f), f);
    FaceSumScaled(world, d, TripleProduct(), -1, Height(f), f.Opposite());
    FaceDivergence(world, d, f);
  }

  /** The mesh encloses the volume of the solid blocks, seen clockwise from outside. */
  lemma SignedVolume(world: Blocks, d: Dims)
    requires HasDims(world, d)
    ensures Total(TripleProduct(), WorldMesh(world, d)) == 6 * Solids(world, d)
  {
    assert RIGHT.Opposite() == LEFT && TOP.Opposite() == BOTTOM && FRONT.Opposite() == BACK;
    MeshTotal(world, d, TripleProduct());
    AxisVolume(world, d, RIGHT);
    AxisVolume(world, d, TOP);
    AxisVolume(world, d, FRONT);
  }
}
