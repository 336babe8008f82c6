/**
 * `voxel_lib/src/block_types.rs`: the older `Block` word.  Its bit layout,
 * `get_bits`/`set_bits` and orientation coding are the same as `BaseVoxel`'s,
 * so the word functions of `BlockBits` are shared; what differs is that the
 * type field decodes to the `BlockType` enumeration.
 */
module BlockTypes {
  import opened BlockBits
  import opened Wrappers

  /** `BlockType`: `Null = 0`, `Air = 1`, `Slate = 2`. */
  datatype BlockType = Null | Air | Slate

  /** `new_type as u32`. */
  function BlockTypeId(t: BlockType): (r: bv32)
    ensures r <= 2
    ensures BlockTypeFromId(r) == Some(t)
  {
    match t
    case Null => 0
    case Air => 1
    case Slate => 2
  }

  /** `FromPrimitive::from_u32`: `None` (on which `get_type` panics) for any id above 2. */
  function BlockTypeFromId(id: bv32): (r: Option<BlockType>)
    ensures r.Some? <==> id <= 2
  {
    if id == 0 then Some(Null)
    else if id == 1 then Some(Air)
    else if id == 2 then Some(Slate)
    else None
  }

  /** `get_type` does not panic: the type field names one of the three block types. */
  predicate TypeReadable(word: bv32)
  {
    GetBits(word, BITS_BLOCK_TYPE_START, NUM_BITS_BLOCK_TYPE) <= 2
  }

  /** Writing a block type makes the word's type readable as that type, and keeps the other fields. */
  lemma SetTypeThenGetType(word: bv32, t: BlockType)
    ensures TypeReadable(WithBits(word, BITS_BLOCK_TYPE_START, NUM_BITS_BLOCK_TYPE, BlockTypeId(t)))
    ensures BlockTypeFromId(GetBits(WithBits(word, BITS_BLOCK_TYPE_START, NUM_BITS_BLOCK_TYPE, BlockTypeId(t)),
                                    BITS_BLOCK_TYPE_START, NUM_BITS_BLOCK_TYPE)) == Some(t)
    ensures GetBits(WithBits(word, BITS_BLOCK_TYPE_START, NUM_BITS_BLOCK_TYPE, BlockTypeId(t)), BITS_VARIANT_START, NUM_BITS_VARIANT)
            == GetBits(word, BITS_VARIANT_START, NUM_BITS_VARIANT)
  {
    TypeWriteKeepsOtherFields(word, BlockTypeId(t));
  }

  /** `Block`: one packed 32-bit word. */
  class Block {
    var byte: bv32

    constructor (word: bv32)
      ensures byte == word
    {
      byte := word;
    }

    /** `get_type`; panics when the stored id is not a `BlockType`. */
    function GetType(): BlockType
      reads this
      requires TypeReadable(byte)
    {
      BlockTypeFromId(GetBits(byte, BITS_BLOCK_TYPE_START, NUM_BITS_BLOCK_TYPE)).value
    }

    /** `get_variant`. */
    function GetVariant(): bv32
      reads this
    {
      GetBits(byte, BITS_VARIANT_START, NUM_BITS_VARIANT)
    }

    /**
     * `get_orientation`, reading the x field without the debug range check
     * that rejects it; panics unless the x field holds an axis id below 6.
     */
    function GetOrientation(): (o: VoxelOrientation)
      reads this
      requires OrientationReadable(byte)
      ensures Perpendicular(o)
      ensures EncodeOrientation(byte, o) == byte
    {
      OrientationReadRoundTrip(byte);
      DecodeOrientation(byte)
    }

    /** `set_type`. */
    method SetType(newType: BlockType)
      modifies this
      ensures byte == WithBits(old(byte), BITS_BLOCK_TYPE_START, NUM_BITS_BLOCK_TYPE, BlockTypeId(newType))
      ensures TypeReadable(byte) && GetType() == newType
      ensures GetVariant() == old(GetVariant())
    {
      SetTypeThenGetType(byte, newType);
      byte := WithBits(byte, BITS_BLOCK_TYPE_START, NUM_BITS_BLOCK_TYPE, BlockTypeId(newType));
    }

    /** `set_variant`; a value of 256 or more fails the debug assertion. */
    method SetVariant(newValue: bv32)
      requires newValue <= Mask(NUM_BITS_VARIANT)
      modifies this
      ensures byte == WithBits(old(byte), BITS_VARIANT_START, NUM_BITS_VARIANT, newValue)
      ensures GetVariant() == newValue
    {
      byte := WithBits(byte, BITS_VARIANT_START, NUM_BITS_VARIANT, newValue);
    }

    /**
     * `set_orientation`, with the z offset computed without the u32 underflow
     * and the x field written under the corrected range check.
     */
    method SetOrientation(newValue: VoxelOrientation)
      requires Perpendicular(newValue)
      modifies this
      ensures byte == EncodeOrientation(old(byte), newValue)
      ensures OrientationReadable(byte) && GetOrientation() == newValue
    {
      OrientationRoundTrip(byte, newValue);
      byte := EncodeOrientation(byte, newValue);
    }
  }
}
