/**
 * The shared vocabulary of the voxel store: integer coordinates, block ids,
 * voxels and the six axis directions.
 *
 * The crate's `Voxel` API (`from_block`, `is_simple`, `get_block_id`,
 * `get_nbt_data`) and the `AxisDirection` enum live in files that are not
 * part of this model; they are replaced here by plain datatypes.
 */
module Voxels {

  /** A block id (`BlockWithState`), an unsigned 32-bit value. */
  type BlockId = b: int | 0 <= b < 0x1_0000_0000

  /** An opaque block-entity payload (an NBT tag in the source). */
  datatype NbtTag = NbtTag(payload: seq<int>)

  /** A world cell: a bare block id, or a block id with block-entity data. */
  datatype Voxel = Simple(blockId: BlockId) | Complex(blockId: BlockId, data: NbtTag)
  {
    predicate IsSimple() { Simple? }
  }

  /** What a read of the store yields: a block id inferred from the palette, or a stored voxel. */
  datatype VoxelRef = Inferred(id: BlockId) | Real(voxel: Voxel)
  {
    function GetBlockId(): BlockId
    {
      match this
      case Inferred(b) => b
      case Real(v) => v.blockId
    }
  }

  /** A signed integer coordinate (`Vector3<i32>`); the 32-bit width is not modelled. */
  datatype Coordinate = Coordinate(x: int, y: int, z: int)
  {
    function Add(o: Coordinate): Coordinate { Coordinate(x + o.x, y + o.y, z + o.z) }
    function Sub(o: Coordinate): Coordinate { Coordinate(x - o.x, y - o.y, z - o.z) }
    function Scale(k: int): Coordinate { Coordinate(x * k, y * k, z * k) }
    function Neg(): Coordinate { Coordinate(-x, -y, -z) }
  }

  /** An unsigned index coordinate (`ICoordinate`, a `Vector3<usize>`). */
  datatype ICoordinate = ICoordinate(x: nat, y: nat, z: nat)

  /** The six axis directions (`AxisDirection`). */
  datatype AxisDirection = PosX | PosY | PosZ | NegX | NegY | NegZ
}
