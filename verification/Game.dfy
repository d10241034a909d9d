/** Block coordinates and cube faces shared by the ray traversal and the mesh. */
module Game {

  /** Integer block coordinates. */
  datatype Cell = Cell(x: int, y: int, z: int) {
    function Plus(d: Cell): Cell {
      Cell(x + d.x, y + d.y, z + d.z)
    }

    predicate In(dims: Dims) {
      0 <= x < dims.x && 0 <= y < dims.y && 0 <= z < dims.z
    }
  }

  datatype Dims = Dims(x: nat, y: nat, z: nat)

  datatype Face = FRONT | BACK | TOP | BOTTOM | LEFT | RIGHT {

    function Offset(): Cell {
      match this
      case FRONT => Cell(0, 0, 1)
      case BACK => Cell(0, 0, -1)
      case TOP => Cell(0, 1, 0)
      case BOTTOM => Cell(0, -1, 0)
      case LEFT => Cell(-1, 0, 0)
      case RIGHT => Cell(1, 0, 0)
    }

    function Opposite(): Face {
      match this
      case FRONT => BACK
      case BACK => FRONT
      case TOP => BOTTOM
      case BOTTOM => TOP
      case LEFT => RIGHT
      case RIGHT => LEFT
    }
  }

  /** The block array, indexed `[x][y][z]`; true is a solid block. */
  type Blocks = seq<seq<seq<bool>>>

  predicate HasDims(world: Blocks, dims: Dims) {
    && |world| == dims.x
    && (forall x :: 0 <= x < dims.x ==> |world[x]| == dims.y)
    && (forall x, y :: 0 <= x < dims.x && 0 <= y < dims.y ==> |world[x][y]| == dims.z)
  }

  predicate SolidAt(world: Blocks, dims: Dims, c: Cell)
    requires HasDims(world, dims)
  {
    c.In(dims) && world[c.x][c.y][c.z]
  }
}
