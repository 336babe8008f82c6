/**
 * The 32-bit block word of `voxel_lib/src/block.rs` (`BaseVoxel`): an 18-bit
 * block type, an 8-bit variant and a 6-bit orientation.  The orientation
 * stores the x axis in 4 bits and the z axis in 2 bits as an offset from the
 * x axis.  Field positions and widths are `u32` values, modelled as `bv32`.
 */
module BlockBits {
  import opened Voxels
  import opened Wrappers

  const BITS_BLOCK_TYPE_START: bv32 := 0
  const NUM_BITS_BLOCK_TYPE: bv32 := 18
  const BITS_VARIANT_START: bv32 := BITS_BLOCK_TYPE_START + NUM_BITS_BLOCK_TYPE
  const NUM_BITS_VARIANT: bv32 := 8
  const BITS_ORIENTATION_START: bv32 := BITS_VARIANT_START + NUM_BITS_VARIANT
  const BITS_Z_START: bv32 := BITS_ORIENTATION_START
  const NUM_BITS_Z: bv32 := 2
  const BITS_X_START: bv32 := BITS_Z_START + NUM_BITS_Z
  const NUM_BITS_X: bv32 := 4
  const NUM_BITS_ORIENTATION: bv32 := NUM_BITS_X + NUM_BITS_Z
  const TOTAL_NUM_BITS: bv32 := NUM_BITS_BLOCK_TYPE + NUM_BITS_VARIANT + NUM_BITS_ORIENTATION

  /** The x and z axis of a block; the y axis follows from them. */
  datatype VoxelOrientation = VoxelOrientation(xDir: AxisDirection, zDir: AxisDirection)

  // ---------------------------------------------------------------------
  // Bit ranges

  /**
   * The range check that `get_bits` and `set_bits` debug-assert:
   * `first + num < 32`.  It rejects the x field (bits 28..32), see
   * `XFieldFailsDebugRangeCheck`.
   */
  predicate DebugRangeCheck(first: bv32, num: bv32)
    requires first <= 32 && num <= 32
  {
    first + num < 32
  }

  /** The range `[first, first + num)` lies inside the word and `1 << num` does not overflow. */
  predicate FieldFits(first: bv32, num: bv32)
  {
    num < 32 && first <= 32 - num
  }

  /** `(1 << num) - 1`: the low `num` bits. */
  function Mask(num: bv32): bv32
    requires num < 32
  {
    ((1 as bv32) << num) - 1
  }

  /** The bits `[first, first + num)`. */
  function FieldMask(first: bv32, num: bv32): bv32
    requires FieldFits(first, num)
  {
    Mask(num) << first
  }

  /** `get_bits`: the field `[first, first + num)` of `word`, shifted down. */
  function GetBits(word: bv32, first: bv32, num: bv32): (r: bv32)
    requires FieldFits(first, num)
    ensures r <= Mask(num)
  {
    (word >> first) & Mask(num)
  }

  /**
   * The word that `set_bits` leaves: the field cleared, then `value` ORed in
   * at `first`.  The field reads back `value` and every bit outside it is
   * kept.
   */
  function WithBits(word: bv32, first: bv32, num: bv32, value: bv32): (r: bv32)
    requires FieldFits(first, num) && value <= Mask(num)
    ensures GetBits(r, first, num) == value
    ensures r & !FieldMask(first, num) == word & !FieldMask(first, num)
  {
    (word & !FieldMask(first, num)) | (value << first)
  }

  /** The field ranges pass `FieldFits`, are pairwise disjoint and together cover all 32 bits. */
  lemma FieldsAreDisjointAndCoverTheWord()
    ensures TOTAL_NUM_BITS == 32
    ensures FieldFits(BITS_BLOCK_TYPE_START, NUM_BITS_BLOCK_TYPE)
    ensures FieldFits(BITS_VARIANT_START, NUM_BITS_VARIANT)
    ensures FieldFits(BITS_Z_START, NUM_BITS_Z) && FieldFits(BITS_X_START, NUM_BITS_X)
    ensures FieldMask(BITS_BLOCK_TYPE_START, NUM_BITS_BLOCK_TYPE) & FieldMask(BITS_VARIANT_START, NUM_BITS_VARIANT) == 0
    ensures (FieldMask(BITS_BLOCK_TYPE_START, NUM_BITS_BLOCK_TYPE) | FieldMask(BITS_VARIANT_START, NUM_BITS_VARIANT))
            & (FieldMask(BITS_Z_START, NUM_BITS_Z) | FieldMask(BITS_X_START, NUM_BITS_X)) == 0
    ensures FieldMask(BITS_Z_START, NUM_BITS_Z) & FieldMask(BITS_X_START, NUM_BITS_X) == 0
    ensures FieldMask(BITS_BLOCK_TYPE_START, NUM_BITS_BLOCK_TYPE) | FieldMask(BITS_VARIANT_START, NUM_BITS_VARIANT)
            | FieldMask(BITS_Z_START, NUM_BITS_Z) | FieldMask(BITS_X_START, NUM_BITS_X) == 0xFFFF_FFFF
  {
  }

  /** The debug assertion `first + num < 32` fails for the x field, which ends exactly at bit 32. */
  lemma XFieldFailsDebugRangeCheck()
    ensures FieldFits(BITS_X_START, NUM_BITS_X)
    ensures !DebugRangeCheck(BITS_X_START, NUM_BITS_X)
  {
  }

  // ---------------------------------------------------------------------
  // Axes

  /** `axis_from_u32`: ids 0..5 name PosX, PosY, PosZ, NegX, NegY, NegZ; larger ids panic. */
  function AxisFromU32(axisId: bv32): (a: AxisDirection)
    requires axisId < 6
    ensures AxisToU32(a) == axisId
  {
    match axisId
    case 0 => PosX
    case 1 => PosY
    case 2 => PosZ
    case 3 => NegX
    case 4 => NegY
    case _ => NegZ
  }

  /** `axis_to_u32`: the inverse of `axis_from_u32`. */
  function AxisToU32(axis: AxisDirection): (r: bv32)
    ensures r < 6
  {
    match axis
    case PosX => 0
    case PosY => 1
    case PosZ => 2
    case NegX => 3
    case NegY => 4
    case NegZ => 5
  }

  /** The two axis maps are mutually inverse bijections between 0..5 and the six axes. */
  lemma AxisMapsAreInverse(a: AxisDirection, id: bv32)
    requires id < 6
    ensures AxisFromU32(AxisToU32(a)) == a
    ensures AxisFromU32(id) == a <==> AxisToU32(a) == id
  {
  }

  /** The axis pointing the other way. */
  function Opposite(a: AxisDirection): AxisDirection
  {
    match a
    case PosX => NegX
    case PosY => NegY
    case PosZ => NegZ
    case NegX => PosX
    case NegY => PosY
    case NegZ => PosZ
  }

  // ---------------------------------------------------------------------
  // Orientation

  /** `s % 6` for a sum of two axis ids (`s < 12`), without a bit-vector division. */
  function Mod6(s: bv32): (r: bv32)
    requires s < 12
    ensures r < 6
  {
    if s < 6 then s else s - 6
  }

  /**
   * The z axis relative to the x axis, as `set_orientation` is meant to
   * compute it: `(z - x + 6) % 6`, written without the u32 underflow.
   */
  function ZOffset(xValue: bv32, zValue: bv32): (r: bv32)
    requires xValue < 6 && zValue < 6
    ensures r < 6
    ensures Mod6(xValue + r) == zValue
  {
    Mod6(zValue + 6 - xValue)
  }

  /**
   * `z_axis_value - x_axis_value + 6` exactly as written: u32 arithmetic,
   * whose subtraction overflows (a panic in a debug build) when z < x.
   */
  function ZOffsetAsWritten(xValue: bv32, zValue: bv32): (r: Option<bv32>)
    requires xValue < 6 && zValue < 6
    ensures r.Some? <==> xValue <= zValue
  {
    if zValue < xValue then None else Some(Mod6(zValue - xValue + 6))
  }

  /** A z axis that is neither the x axis nor its opposite. */
  predicate Perpendicular(o: VoxelOrientation)
  {
    ZOffset(AxisToU32(o.xDir), AxisToU32(o.zDir)) in {1, 2, 4, 5}
  }

  /** The valid orientations are exactly those whose z axis is neither x nor -x. */
  lemma PerpendicularIffNotParallel(o: VoxelOrientation)
    ensures Perpendicular(o) <==> o.zDir != o.xDir && o.zDir != Opposite(o.xDir)
  {
  }

  /** The 2-bit code of a z offset: 1, 2, 4, 5 become 0, 1, 2, 3; 0 and 3 panic. */
  function ZRawFromOffset(offset: bv32): (r: bv32)
    requires offset in {1, 2, 4, 5}
    ensures r <= Mask(NUM_BITS_Z)
    ensures ZOffsetFromRaw(r) == offset
  {
    match offset
    case 1 => 0
    case 2 => 1
    case 4 => 2
    case _ => 3
  }

  /** The z offset decoded from its 2-bit code. */
  function ZOffsetFromRaw(raw: bv32): (r: bv32)
    requires raw <= 3
    ensures r in {1, 2, 4, 5}
  {
    match raw
    case 0 => 1
    case 1 => 2
    case 2 => 4
    case _ => 5
  }

  /** The word `set_orientation` leaves: x written to bits 28..32, then the z code to bits 26..28. */
  function EncodeOrientation(word: bv32, o: VoxelOrientation): bv32
    requires Perpendicular(o)
  {
    var x := AxisToU32(o.xDir);
    var zRaw := ZRawFromOffset(ZOffset(x, AxisToU32(o.zDir)));
    WithBits(WithBits(word, BITS_X_START, NUM_BITS_X, x), BITS_Z_START, NUM_BITS_Z, zRaw)
  }

  /** `get_orientation` does not panic: the stored x axis id is below 6. */
  predicate OrientationReadable(word: bv32)
  {
    GetBits(word, BITS_X_START, NUM_BITS_X) < 6
  }

  /** What `get_orientation` reads from a word. */
  function DecodeOrientation(word: bv32): VoxelOrientation
    requires OrientationReadable(word)
  {
    var x := GetBits(word, BITS_X_START, NUM_BITS_X);
    var zOffset := ZOffsetFromRaw(GetBits(word, BITS_Z_START, NUM_BITS_Z));
    VoxelOrientation(AxisFromU32(x), AxisFromU32(Mod6(x + zOffset)))
  }

  /** Writing the z code after the x axis leaves the x axis readable. */
  lemma ZWriteKeepsX(word: bv32, zRaw: bv32)
    requires zRaw <= Mask(NUM_BITS_Z)
    ensures GetBits(WithBits(word, BITS_Z_START, NUM_BITS_Z, zRaw), BITS_X_START, NUM_BITS_X)
            == GetBits(word, BITS_X_START, NUM_BITS_X)
  {
  }

  /** `get_orientation(set_orientation(o)) == o` for every orientation `set_orientation` accepts. */
  lemma OrientationRoundTrip(word: bv32, o: VoxelOrientation)
    requires Perpendicular(o)
    ensures OrientationReadable(EncodeOrientation(word, o))
    ensures DecodeOrientation(EncodeOrientation(word, o)) == o
  {
    var x := AxisToU32(o.xDir);
    var z := AxisToU32(o.zDir);
    var offset := ZOffset(x, z);
    var zRaw := ZRawFromOffset(offset);
    var w1 := WithBits(word, BITS_X_START, NUM_BITS_X, x);
    var w2 := WithBits(w1, BITS_Z_START, NUM_BITS_Z, zRaw);
    ZWriteKeepsX(w1, zRaw);
    assert GetBits(w2, BITS_X_START, NUM_BITS_X) == x;
    assert ZOffsetFromRaw(GetBits(w2, BITS_Z_START, NUM_BITS_Z)) == offset;
    assert AxisFromU32(x) == o.xDir;
    assert AxisFromU32(Mod6(x + offset)) == o.zDir;
  }

  /** Writing the x field's own value back leaves the word unchanged. */
  lemma XFieldRewriteIsIdentity(word: bv32)
    ensures WithBits(word, BITS_X_START, NUM_BITS_X, GetBits(word, BITS_X_START, NUM_BITS_X)) == word
  {
  }

  /** Writing the z field's own code back leaves the word unchanged. */
  lemma ZFieldRewriteIsIdentity(word: bv32)
    ensures WithBits(word, BITS_Z_START, NUM_BITS_Z, GetBits(word, BITS_Z_START, NUM_BITS_Z)) == word
  {
  }

  /** The axis ids and the z code that `get_orientation` decodes are the ones `set_orientation` encodes. */
  lemma DecodedOrientationEncodesBack(x: bv32, raw: bv32)
    requires x < 6 && raw <= 3
    ensures var o := VoxelOrientation(AxisFromU32(x), AxisFromU32(Mod6(x + ZOffsetFromRaw(raw))));
            && AxisToU32(o.xDir) == x
            && Perpendicular(o)
            && ZRawFromOffset(ZOffset(x, AxisToU32(o.zDir))) == raw
  {
    var offset := ZOffsetFromRaw(raw);
    var z := Mod6(x + offset);
    AxisMapsAreInverse(AxisFromU32(x), x);
    AxisMapsAreInverse(AxisFromU32(z), z);
    assert ZOffset(x, z) == offset;
  }

  /**
   * Every word `get_orientation` can read holds a perpendicular orientation,
   * and `set_orientation` of what it reads writes the same bits back.
   */
  lemma OrientationReadRoundTrip(word: bv32)
    requires OrientationReadable(word)
    ensures Perpendicular(DecodeOrientation(word))
    ensures EncodeOrientation(word, DecodeOrientation(word)) == word
  {
    var x := GetBits(word, BITS_X_START, NUM_BITS_X);
    var raw := GetBits(word, BITS_Z_START, NUM_BITS_Z);
    DecodedOrientationEncodesBack(x, raw);
    XFieldRewriteIsIdentity(word);
    ZFieldRewriteIsIdentity(word);
  }

  /** Writing the orientation keeps the block type and the variant. */
  lemma OrientationKeepsTypeAndVariant(word: bv32, o: VoxelOrientation)
    requires Perpendicular(o)
    ensures GetBits(EncodeOrientation(word, o), BITS_BLOCK_TYPE_START, NUM_BITS_BLOCK_TYPE)
            == GetBits(word, BITS_BLOCK_TYPE_START, NUM_BITS_BLOCK_TYPE)
    ensures GetBits(EncodeOrientation(word, o), BITS_VARIANT_START, NUM_BITS_VARIANT)
            == GetBits(word, BITS_VARIANT_START, NUM_BITS_VARIANT)
  {
  }

  /** Writing the type keeps the variant and the orientation bits. */
  lemma TypeWriteKeepsOtherFields(word: bv32, t: bv32)
    requires t <= Mask(NUM_BITS_BLOCK_TYPE)
    ensures GetBits(WithBits(word, BITS_BLOCK_TYPE_START, NUM_BITS_BLOCK_TYPE, t), BITS_VARIANT_START, NUM_BITS_VARIANT)
            == GetBits(word, BITS_VARIANT_START, NUM_BITS_VARIANT)
    ensures GetBits(WithBits(word, BITS_BLOCK_TYPE_START, NUM_BITS_BLOCK_TYPE, t), BITS_ORIENTATION_START, NUM_BITS_ORIENTATION)
            == GetBits(word, BITS_ORIENTATION_START, NUM_BITS_ORIENTATION)
  {
  }

  /** Writing the variant keeps the type and the orientation bits. */
  lemma VariantWriteKeepsOtherFields(word: bv32, v: bv32)
    requires v <= Mask(NUM_BITS_VARIANT)
    ensures GetBits(WithBits(word, BITS_VARIANT_START, NUM_BITS_VARIANT, v), BITS_BLOCK_TYPE_START, NUM_BITS_BLOCK_TYPE)
            == GetBits(word, BITS_BLOCK_TYPE_START, NUM_BITS_BLOCK_TYPE)
    ensures GetBits(WithBits(word, BITS_VARIANT_START, NUM_BITS_VARIANT, v), BITS_ORIENTATION_START, NUM_BITS_ORIENTATION)
            == GetBits(word, BITS_ORIENTATION_START, NUM_BITS_ORIENTATION)
  {
  }

  /**
   * `set_orientation` as written computes `z - x + 6` in u32, which
   * underflows for the valid orientation x = NegX, z = PosY.
   */
  lemma SetOrientationUnderflows()
    ensures Perpendicular(VoxelOrientation(NegX, PosY))
    ensures ZOffsetAsWritten(AxisToU32(NegX), AxisToU32(PosY)).None?
  {
  }

  // ---------------------------------------------------------------------
  // The block word

  /** `BaseVoxel`: one packed 32-bit word. */
  class BaseVoxel {
    var byte: bv32

    /** `BaseVoxel::new`: a zero word, then type, variant and orientation written in turn. */
    constructor (blockType: bv32, variant: bv32, orientation: VoxelOrientation)
      requires blockType <= Mask(NUM_BITS_BLOCK_TYPE) && variant <= Mask(NUM_BITS_VARIANT)
      requires Perpendicular(orientation)
      ensures GetType() == blockType && GetVariant() == variant
      ensures OrientationReadable(byte) && GetOrientation() == orientation
    {
      byte := 0;
      new;
      SetType(blockType);
      SetVariant(variant);
      TypeWriteKeepsOtherFields(0, blockType);
      VariantWriteKeepsOtherFields(WithBits(0, BITS_BLOCK_TYPE_START, NUM_BITS_BLOCK_TYPE, blockType), variant);
      ghost var beforeOrientation := byte;
      SetOrientation(orientation);
      OrientationKeepsTypeAndVariant(beforeOrientation, orientation);
      OrientationRoundTrip(beforeOrientation, orientation);
    }

    /** `get_type`: the 18-bit block type id (its decoding by `Block::from_id` is not part of this model). */
    function GetType(): bv32
      reads this
    {
      GetBits(byte, BITS_BLOCK_TYPE_START, NUM_BITS_BLOCK_TYPE)
    }

    /** `get_variant`: the 8-bit variant. */
    function GetVariant(): bv32
      reads this
    {
      GetBits(byte, BITS_VARIANT_START, NUM_BITS_VARIANT)
    }

    /**
     * `get_orientation`, reading the x field without the debug range check
     * that rejects it; panics unless the x field holds an axis id below 6.
     */
    function GetOrientation(): (o: VoxelOrientation)
      reads this
      requires OrientationReadable(byte)
      ensures Perpendicular(o)
      ensures EncodeOrientation(byte, o) == byte
    {
      OrientationReadRoundTrip(byte);
      DecodeOrientation(byte)
    }

    /**
     * `set_bits` under the corrected range check `first + num <= 32`: overwrite
     * one field; a value wider than the field fails the debug assertion.
     */
    method SetBits(firstBit: bv32, numBits: bv32, value: bv32)
      requires FieldFits(firstBit, numBits) && value <= Mask(numBits)
      modifies this
      ensures byte == WithBits(old(byte), firstBit, numBits, value)
    {
      byte := WithBits(byte, firstBit, numBits, value);
    }

    /** `set_type`. */
    method SetType(newType: bv32)
      requires newType <= Mask(NUM_BITS_BLOCK_TYPE)
      modifies this
      ensures byte == WithBits(old(byte), BITS_BLOCK_TYPE_START, NUM_BITS_BLOCK_TYPE, newType)
      ensures GetType() == newType
    {
      SetBits(BITS_BLOCK_TYPE_START, NUM_BITS_BLOCK_TYPE, newType);
    }

    /** `set_variant`. */
    method SetVariant(newValue: bv32)
      requires newValue <= Mask(NUM_BITS_VARIANT)
      modifies this
      ensures byte == WithBits(old(byte), BITS_VARIANT_START, NUM_BITS_VARIANT, newValue)
      ensures GetVariant() == newValue
    {
      SetBits(BITS_VARIANT_START, NUM_BITS_VARIANT, newValue);
    }

    /**
     * `set_orientation`, with the z offset computed without the u32 underflow
     * and the x field written under the corrected range check; non-perpendicular
     * axes panic.
     */
    method SetOrientation(newValue: VoxelOrientation)
      requires Perpendicular(newValue)
      modifies this
      ensures byte == EncodeOrientation(old(byte), newValue)
      ensures OrientationReadable(byte) && GetOrientation() == newValue
    {
      var xAxisValue := AxisToU32(newValue.xDir);
      var zAxisValue := AxisToU32(newValue.zDir);
      var zValueCorrected := ZOffset(xAxisValue, zAxisValue);
      var zValueRaw := ZRawFromOffset(zValueCorrected);
      SetBits(BITS_X_START, NUM_BITS_X, xAxisValue);
      SetBits(BITS_Z_START, NUM_BITS_Z, zValueRaw);
      OrientationRoundTrip(old(byte), newValue);
    }
  }
}
