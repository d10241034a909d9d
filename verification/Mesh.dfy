/**
 The face-culled mesh of a block world, of any dimensions.  Corner coordinates are small integers,
 which the original's floats hold exactly.
 */
module Mesh {
  import opened Game

  /** A mesh triangle; the normal is the offset of its face. */
  datatype MeshTri = MeshTri(v0: Cell, v1: Cell, v2: Cell, normal: Cell)

  /** The faces in the order the mesh visits them. */
  const ALL_FACES := [FRONT, BACK, TOP, BOTTOM, LEFT, RIGHT]

  function FaceIndex(f: Face): nat {
    match f
    case FRONT => 0 case BACK => 1 case TOP => 2 case BOTTOM => 3 case LEFT => 4 case RIGHT => 5
  }

  /** The four corners of a face, relative to the block. */
  function Quad(f: Face): (Cell, Cell, Cell, Cell) {
    match f
    case FRONT => (Cell(0, 0, 1), Cell(0, 1, 1), Cell(1, 1, 1), Cell(1, 0, 1))
    case BACK => (Cell(1, 0, 0), Cell(1, 1, 0), Cell(0, 1, 0), Cell(0, 0, 0))
    case TOP => (Cell(0, 1, 1), Cell(0, 1, 0), Cell(1, 1, 0), Cell(1, 1, 1))
    case BOTTOM => (Cell(0, 0, 0), Cell(0, 0, 1), Cell(1, 0, 1), Cell(1, 0, 0))
    case LEFT => (Cell(0, 0, 0), Cell(0, 1, 0), Cell(0, 1, 1), Cell(0, 0, 1))
    case RIGHT => (Cell(1, 0, 1), Cell(1, 1, 1), Cell(1, 1, 0), Cell(1, 0, 0))
  }

  /** The two triangles of a face of block `c`. */
  function FaceTri(c: Cell, f: Face, second: bool): MeshTri {
    var (q0, q1, q2, q3) := Quad(f);
    if second then MeshTri(c.Plus(q2), c.Plus(q3), c.Plus(q0), f.Offset())
    else MeshTri(c.Plus(q0), c.Plus(q1), c.Plus(q2), f.Offset())
  }

  /** Block `c` is solid and what lies beyond face `f` is air or outside the world. */
  predicate Exposed(world: Blocks, d: Dims, c: Cell, f: Face)
    requires HasDims(world, d)
  {
    SolidAt(world, d, c) && !SolidAt(world, d, c.Plus(f.Offset()))
  }

  function FaceMesh(world: Blocks, d: Dims, c: Cell, f: Face): seq<MeshTri>
    requires HasDims(world, d)
  {
    if Exposed(world, d, c, f) then [FaceTri(c, f, false), FaceTri(c, f, true)] else []
  }

  /** The first `k` faces of block `c`. */
  function BlockMesh(world: Blocks, d: Dims, c: Cell, k: nat): seq<MeshTri>
    requires HasDims(world, d) && k <= 6
  {
    if k == 0 then [] else BlockMesh(world, d, c, k - 1) + FaceMesh(world, d, c, ALL_FACES[k - 1])
  }

  /** The number of faces of a block. */
  function FaceCount(): nat {
    |ALL_FACES|
  }

  /** All faces of each block. */
  function BlockMeshes(world: Blocks, d: Dims): Cell -> seq<MeshTri>
    requires HasDims(world, d)
  {
    (c: Cell) => BlockMesh(world, d, c, FaceCount())
  }

  /** The first `n` pieces, one after the other. */
  function ConcatTo(n: nat, f: int -> seq<MeshTri>): seq<MeshTri> {
    if n == 0 then [] else ConcatTo(n - 1, f) + f(n - 1)
  }

  function Row(b: Cell -> seq<MeshTri>, y: int, z: int): int -> seq<MeshTri> {
    (x: int) => b(Cell(x, y, z))
  }

  function Layer(b: Cell -> seq<MeshTri>, d: Dims, z: int): int -> seq<MeshTri> {
    (y: int) => ConcatTo(d.x, Row(b, y, z))
  }

  function Layers(b: Cell -> seq<MeshTri>, d: Dims): int -> seq<MeshTri> {
    (z: int) => ConcatTo(d.y, Layer(b, d, z))
  }

  /** The mesh: layer by layer, row by row, block by block, face by face. */
  function WorldMesh(world: Blocks, d: Dims): seq<MeshTri>
    requires HasDims(world, d)
  {
    ConcatTo(d.z, Layers(BlockMeshes(world, d), d))
  }

  // ---------------------------------------------------------------- the loops

  /** The neighbour across the face with each number. */
  lemma FaceNumbers(c: Cell, f: Face)
    ensures c.Plus(f.Offset()) == [
              Cell(c.x, c.y, c.z + 1), Cell(c.x, c.y, c.z - 1), Cell(c.x, c.y + 1, c.z), Cell(c.x, c.y - 1, c.z),
              Cell(c.x - 1, c.y, c.z), Cell(c.x + 1, c.y, c.z)][FaceIndex(f)]
    ensures FaceIndex(f) < 6 && ALL_FACES[FaceIndex(f)] == f
  {
  }

  /** Which of the six neighbours of a block are solid. */
  method NeighboringSolids(world: Blocks, d: Dims, block: Cell) returns (neighbors: array<bool>)
    requires HasDims(world, d)
    ensures fresh(neighbors) && neighbors.Length == 6
    ensures forall f: Face :: neighbors[FaceIndex(f)] == SolidAt(world, d, block.Plus(f.Offset()))
  {
    neighbors := new bool[6](_ => false);
    for i := 0 to 6
      invariant forall f: Face :: FaceIndex(f) < i ==>
                  neighbors[FaceIndex(f)] == SolidAt(world, d, block.Plus(f.Offset()))
    {
      var face := ALL_FACES[i];
      assert FaceIndex(face) == i;
      var neighbor := block.Plus(face.Offset());
      neighbors[FaceIndex(face)] := neighbor.In(d) && world[neighbor.x][neighbor.y][neighbor.z];
    }
  }

  method GetWorldMesh(world: Blocks, d: Dims) returns (mesh: seq<MeshTri>)
    requires HasDims(world, d)
    ensures mesh == WorldMesh(world, d)
  {
    mesh := [];
    for z := 0 to d.z
      invariant mesh == ConcatTo(z, Layers(BlockMeshes(world, d), d))
    {
      var layer := MeshLayer(world, d, z);
      mesh := mesh + layer;
    }
  }

  /** The exposed faces of one layer of blocks. */
  method MeshLayer(world: Blocks, d: Dims, z: nat) returns (tris: seq<MeshTri>)
    requires HasDims(world, d) && z < d.z
    ensures tris == ConcatTo(d.y, Layer(BlockMeshes(world, d), d, z))
  {
    tris := [];
    for y := 0 to d.y
      invariant tris == ConcatTo(y, Layer(BlockMeshes(world, d), d, z))
    {
      var row := MeshRow(world, d, y, z);
      tris := tris + row;
    }
  }

  /** The exposed faces of one row of blocks. */
  method MeshRow(world: Blocks, d: Dims, y: nat, z: nat) returns (tris: seq<MeshTri>)
    requires HasDims(world, d) && y < d.y && z < d.z
    ensures tris == ConcatTo(d.x, Row(BlockMeshes(world, d), y, z))
  {
    tris := [];
    for x := 0 to d.x
      invariant tris == ConcatTo(x, Row(BlockMeshes(world, d), y, z))
    {
      if world[x][y][z] {
        var faces := MeshBlock(world, d, Cell(x, y, z), FaceCount());
        tris := tris + faces;
      } else {
        AirHasNoMesh(world, d, Cell(x, y, z), FaceCount());
      }
    }
  }

  /** The exposed ones among the first `n` faces of a solid block. */
  method MeshBlock(world: Blocks, d: Dims, c: Cell, n: nat) returns (tris: seq<MeshTri>)
    requires HasDims(world, d) && SolidAt(world, d, c) && n <= 6
    ensures tris == BlockMesh(world, d, c, n)
  {
    tris := [];
    var neighborSolids := NeighboringSolids(world, d, c);
    ghost var solidBeyond := neighborSolids[..];
    for k := 0 to n
      invariant tris == BlockMesh(world, d, c, k) && neighborSolids[..] == solidBeyond
    {
      var face := ALL_FACES[k];
      assert FaceIndex(face) == k;
      var covered := neighborSolids[FaceIndex(face)];
      BlockMeshStep(world, d, c, k, face, covered);
      if !covered {
        var q := Quad(face);
        var v0, v1, v2, v3 := c.Plus(q.0), c.Plus(q.1), c.Plus(q.2), c.Plus(q.3);
        tris := tris + [MeshTri(v0, v1, v2, face.Offset()), MeshTri(v2, v3, v0, face.Offset())];
      }
    }
  }

  lemma BlockMeshStep(world: Blocks, d: Dims, c: Cell, k: nat, face: Face, covered: bool)
    requires HasDims(world, d) && SolidAt(world, d, c) && k < 6 && face == ALL_FACES[k]
    requires covered == SolidAt(world, d, c.Plus(face.Offset()))
    ensures BlockMesh(world, d, c, k + 1)
         == BlockMesh(world, d, c, k) + if covered then [] else [FaceTri(c, face, false), FaceTri(c, face, true)]
  {
  }

  lemma {:induction false} AirHasNoMesh(world: Blocks, d: Dims, c: Cell, k: nat)
    requires HasDims(world, d) && k <= 6 && !SolidAt(world, d, c)
    ensures BlockMesh(world, d, c, k) == []
  {
    if k > 0 { AirHasNoMesh(world, d, c, k - 1); }
  }

  // ---------------------------------------------------------------- sums

  function Sum(n: nat, g: int -> int): int {
    if n == 0 then 0 else Sum(n - 1, g) + g(n - 1)
  }

  lemma {:induction false} SumEqual(n: nat, g: int -> int, h: int -> int)
    requires forall i :: 0 <= i < n ==> g(i) == h(i)
    ensures Sum(n, g) == Sum(n, h)
  {
    if n > 0 { SumEqual(n - 1, g, h); }
  }

  lemma {:induction false} SumLinear(n: nat, g: int -> int, a: int, h: int -> int, b: int, k: int -> int)
    requires forall i :: 0 <= i < n ==> g(i) == a * h(i) + b * k(i)
    ensures Sum(n, g) == a * Sum(n, h) + b * Sum(n, k)
  {
    if n > 0 {
      SumLinear(n - 1, g, a, h, b, k);
      assert a * (Sum(n - 1, h) + h(n - 1)) == a * Sum(n - 1, h) + a * h(n - 1);
      assert b * (Sum(n - 1, k) + k(n - 1)) == b * Sum(n - 1, k) + b * k(n - 1);
    }
  }

  /** Shifting the summand by one trades the last term for the one before the first. */
  lemma {:induction false} SumShift(n: nat, g: int -> int, h: int -> int)
    requires n > 0 && forall i :: 0 <= i < n ==> h(i) == g(i - 1)
    ensures Sum(n, h) == Sum(n, g) + g(-1) - g(n - 1)
  {
    if n == 1 {
      assert Sum(1, h) == Sum(0, h) + h(0) && Sum(1, g) == Sum(0, g) + g(0);
    } else {
      SumShift(n - 1, g, h);
    }
  }

  /** Nothing is lost when the terms at both ends are zero. */
  lemma SumMoves(n: nat, g: int -> int, h: int -> int)
    requires forall i :: 0 <= i < n ==> h(i) == g(i - 1)
    requires g(-1) == 0 && g(n - 1) == 0
    ensures Sum(n, h) == Sum(n, g)
  {
    if n > 0 { SumShift(n, g, h); }
  }

  lemma {:induction false} SumSingle(n: nat, g: int -> int, at: int)
    requires forall i :: 0 <= i < n && i != at ==> g(i) == 0
    ensures Sum(n, g) == if 0 <= at < n then g(at) else 0
  {
    if n > 0 { SumSingle(n - 1, g, at); }
  }

  function Terms(h: Cell -> int, y: int, z: int): int -> int {
    (x: int) => h(Cell(x, y, z))
  }

  function OverX(h: Cell -> int, n: nat, y: int, z: int): int {
    Sum(n, Terms(h, y, z))
  }

  function RowSums(h: Cell -> int, d: Dims, z: int): int -> int {
    (y: int) => OverX(h, d.x, y, z)
  }

  function OverXY(h: Cell -> int, d: Dims, z: int): int {
    Sum(d.y, RowSums(h, d, z))
  }

  function LayerSums(h: Cell -> int, d: Dims): int -> int {
    (z: int) => OverXY(h, d, z)
  }

  /** A quantity summed over all cells of the world. */
  function OverCells(h: Cell -> int, d: Dims): int {
    Sum(d.z, LayerSums(h, d))
  }

  lemma CellsEqual(g: Cell -> int, h: Cell -> int, d: Dims)
    requires forall c: Cell :: c.In(d) ==> g(c) == h(c)
    ensures OverCells(g, d) == OverCells(h, d)
  {
    forall z | 0 <= z < d.z ensures OverXY(g, d, z) == OverXY(h, d, z) {
      forall y | 0 <= y < d.y ensures OverX(g, d.x, y, z) == OverX(h, d.x, y, z) {
        SumEqual(d.x, Terms(g, y, z), Terms(h, y, z));
      }
      SumEqual(d.y, RowSums(g, d, z), RowSums(h, d, z));
    }
    SumEqual(d.z, LayerSums(g, d), LayerSums(h, d));
  }

  lemma CellsLinear(f: Cell -> int, a: int, g: Cell -> int, b: int, h: Cell -> int, d: Dims)
    requires forall c: Cell :: c.In(d) ==> f(c) == a * g(c) + b * h(c)
    ensures OverCells(f, d) == a * OverCells(g, d) + b * OverCells(h, d)
  {
    forall z | 0 <= z < d.z ensures OverXY(f, d, z) == a * OverXY(g, d, z) + b * OverXY(h, d, z) {
      forall y | 0 <= y < d.y ensures OverX(f, d.x, y, z) == a * OverX(g, d.x, y, z) + b * OverX(h, d.x, y, z) {
        SumLinear(d.x, Terms(f, y, z), a, Terms(g, y, z), b, Terms(h, y, z));
      }
      SumLinear(d.y, RowSums(f, d, z), a, RowSums(g, d, z), b, RowSums(h, d, z));
    }
    SumLinear(d.z, LayerSums(f, d), a, LayerSums(g, d), b, LayerSums(h, d));
  }

  lemma CellsSingle(h: Cell -> int, d: Dims, at: Cell)
    requires forall c: Cell :: c.In(d) && c != at ==> h(c) == 0
    ensures OverCells(h, d) == if at.In(d) then h(at) else 0
  {
    forall z | 0 <= z < d.z
      ensures OverXY(h, d, z) == if z == at.z && 0 <= at.y < d.y && 0 <= at.x < d.x then h(at) else 0
    {
      forall y | 0 <= y < d.y
        ensures OverX(h, d.x, y, z) == if z == at.z && y == at.y && 0 <= at.x < d.x then h(at) else 0
      {
        SumSingle(d.x, Terms(h, y, z), at.x);
      }
      SumSingle(d.y, RowSums(h, d, z), at.y);
    }
    SumSingle(d.z, LayerSums(h, d), at.z);
  }

  /** `h` is `g` moved one cell along `f`, and nothing is pushed out of or pulled into the world. */
  ghost predicate ShiftOf(h: Cell -> int, g: Cell -> int, d: Dims, f: Face) {
    && (forall c: Cell :: c.In(d) ==> h(c) == g(c.Plus(f.Opposite().Offset())))
    && (forall c: Cell :: !c.In(d) || !c.Plus(f.Offset()).In(d) ==> g(c) == 0)
  }

  lemma ShiftX(g: Cell -> int, h: Cell -> int, d: Dims)
    requires ShiftOf(h, g, d, RIGHT)
    ensures OverCells(h, d) == OverCells(g, d)
  {
    forall z | 0 <= z < d.z ensures OverXY(h, d, z) == OverXY(g, d, z) {
      forall y | 0 <= y < d.y ensures OverX(h, d.x, y, z) == OverX(g, d.x, y, z) {
        if d.x > 0 { SumShift(d.x, Terms(g, y, z), Terms(h, y, z)); }
      }
      SumEqual(d.y, RowSums(h, d, z), RowSums(g, d, z));
    }
    SumEqual(d.z, LayerSums(h, d), LayerSums(g, d));
  }

  lemma ShiftY(g: Cell -> int, h: Cell -> int, d: Dims)
    requires ShiftOf(h, g, d, TOP)
    ensures OverCells(h, d) == OverCells(g, d)
  {
    forall z | 0 <= z < d.z
      ensures OverXY(h, d, z) == OverXY(g, d, z)
    {
      RowsShift(g, h, d, z);
      SumMoves(d.y, RowSums(g, d, z), RowSums(h, d, z));
    }
    SumEqual(d.z, LayerSums(h, d), LayerSums(g, d));
  }

  lemma RowsShift(g: Cell -> int, h: Cell -> int, d: Dims, z: int)
    requires ShiftOf(h, g, d, TOP) && 0 <= z < d.z
    ensures forall y :: 0 <= y < d.y ==> RowSums(h, d, z)(y) == RowSums(g, d, z)(y - 1)
    ensures RowSums(g, d, z)(-1) == 0 && RowSums(g, d, z)(d.y - 1) == 0
  {
    forall y | 0 <= y < d.y
      ensures RowSums(h, d, z)(y) == RowSums(g, d, z)(y - 1)
    {
      RowShift(g, h, d, y, z);
    }
    RowVanishes(g, d.x, -1, z);
    RowVanishes(g, d.x, d.y - 1, z);
  }

  lemma RowShift(g: Cell -> int, h: Cell -> int, d: Dims, y: int, z: int)
    requires ShiftOf(h, g, d, TOP) && 0 <= y < d.y && 0 <= z < d.z
    ensures RowSums(h, d, z)(y) == RowSums(g, d, z)(y - 1)
  {
    SumEqual(d.x, Terms(h, y, z), Terms(g, y - 1, z));
  }

  lemma ShiftZ(g: Cell -> int, h: Cell -> int, d: Dims)
    requires ShiftOf(h, g, d, FRONT)
    ensures OverCells(h, d) == OverCells(g, d)
  {
    var hs, gs := LayerSums(h, d), LayerSums(g, d);
    forall z | 0 <= z < d.z
      ensures hs(z) == gs(z - 1)
    {
      LayerShift(g, h, d, z);
    }
    EndLayersVanish(g, h, d);
    SumMoves(d.z, gs, hs);
  }

  lemma EndLayersVanish(g: Cell -> int, h: Cell -> int, d: Dims)
    requires ShiftOf(h, g, d, FRONT)
    ensures LayerSums(g, d)(-1) == 0 && LayerSums(g, d)(d.z - 1) == 0
  {
    LayerVanishes(g, d, -1);
    LayerVanishes(g, d, d.z - 1);
  }

  lemma LayerShift(g: Cell -> int, h: Cell -> int, d: Dims, z: int)
    requires ShiftOf(h, g, d, FRONT) && 0 <= z < d.z
    ensures OverXY(h, d, z) == OverXY(g, d, z - 1)
  {
    forall y | 0 <= y < d.y ensures OverX(h, d.x, y, z) == OverX(g, d.x, y, z - 1) {
      SumEqual(d.x, Terms(h, y, z), Terms(g, y, z - 1));
    }
    SumEqual(d.y, RowSums(h, d, z), RowSums(g, d, z - 1));
  }

  /** A quantity that vanishes at both ends of an axis has the same sum after a shift along it. */
  lemma CellsShift(g: Cell -> int, h: Cell -> int, d: Dims, f: Face)
    requires (f == RIGHT || f == TOP || f == FRONT) && ShiftOf(h, g, d, f)
    ensures OverCells(h, d) == OverCells(g, d)
  {
    if f == RIGHT { ShiftX(g, h, d); } else if f == TOP { ShiftY(g, h, d); } else { ShiftZ(g, h, d); }
  }

  lemma RowVanishes(g: Cell -> int, n: nat, y: int, z: int)
    requires forall x :: 0 <= x < n ==> g(Cell(x, y, z)) == 0
    ensures OverX(g, n, y, z) == 0
  {
    SumSingle(n, Terms(g, y, z), -1);
  }

  lemma LayerVanishes(g: Cell -> int, d: Dims, z: int)
    requires forall x, y :: 0 <= x < d.x && 0 <= y < d.y ==> g(Cell(x, y, z)) == 0
    ensures OverXY(g, d, z) == 0
  {
    forall y | 0 <= y < d.y ensures OverX(g, d.x, y, z) == 0 { RowVanishes(g, d.x, y, z); }
    SumSingle(d.y, RowSums(g, d, z), -1);
  }
}
