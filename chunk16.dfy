/**
 * `Chunk16`: a 16x16x16 section of voxels stored as palette indices at one
 * of five widths, with a running count of non-air blocks.
 *
 * The narrow layouts (8, 4, 2 and 0 bits per cell) hold palette indices;
 * the widest (32 bits) holds tagged cells, each either a direct block id or
 * a mapped palette index.  Whether a block id is air comes from the block
 * registry, which is not part of this model: each chunk carries it as the
 * predicate `isAir`.  `Coordinate16` and its conversion to a block
 * coordinate are not part of this model either; constructors take the
 * section's zero coordinate itself.
 *
 * A chunk that follows the palette discipline (every cell's index names a
 * live entry, each `Simple` entry counts exactly the cells that use it, the
 * table fits the layout, and the non-air counter is exact) is
 * `Consistent()`.  Writing a voxel keeps a consistent paletted chunk
 * consistent and changes exactly one cell; the 32-bit layout does not keep
 * that discipline (its direct cells are not counted in the table, and the
 * shrink path re-numbers the table before the old cell's index is
 * released), so it is modelled as written with only its shape invariant.
 * Every panic of the source on these paths is the outcome `Panic`.
 */
module Chunk16Store {
  import opened Wrappers
  import Voxels
  import opened VoxelPalette
  import opened ChunkCells
  import BitArith

  type Coordinate = Voxels.Coordinate

  /** `VoxelIndexError`: the requested coordinate lies outside the section. */
  datatype VoxelIndexError = VoxelIndexError(coordinate: Coordinate)

  /** The grid at its current width; arrays are flattened in [y][z][x] order. */
  datatype Chunk16Grid =
    | B32(entries: array<ChunkB32Entry>)
    | B8(bytes: array<bv8>)
    | B4(bytes: array<bv8>)
    | B2(bytes: array<bv8>)
    | B0

  function WidthOf(g: Chunk16Grid): Width
  {
    match g
    case B32(_) => W32
    case B8(_) => W8
    case B4(_) => W4
    case B2(_) => W2
    case B0 => W0
  }

  // ---------------------------------------------------------------------
  // Reference counts

  /** An entry's count agrees with the `n` cells that use it: a hole is unused, a block entity is used once. */
  predicate RefsOk(m: BlockMapping, n: nat)
  {
    match m.data
    case Simple(count) => count == n
    case Nbt(_) => n == 1
    case Empty => n == 0
  }

  /** Every cell names an entry of the table. */
  predicate IdsInRange(ids: seq<nat>, base: seq<BlockMapping>)
  {
    forall i :: 0 <= i < |ids| ==> ids[i] < |base|
  }

  /** Every entry's count is the number of cells naming it. */
  predicate Counted(ids: seq<nat>, base: seq<BlockMapping>)
  {
    forall k :: 0 <= k < |base| ==> RefsOk(base[k], multiset(ids)[k])
  }

  /** The block held by each cell. */
  function BlocksOf(base: seq<BlockMapping>, ids: seq<nat>): (r: seq<BlockId>)
    requires IdsInRange(ids, base)
    ensures |r| == |ids|
  {
    seq(|ids|, i requires 0 <= i < |ids| => base[ids[i]].blockId)
  }

  /** The cell ids of a grid, as palette indices. */
  function AsIndices(ids: seq<bv8>): (r: seq<nat>)
    ensures |r| == |ids| && forall i :: 0 <= i < |ids| ==> r[i] == ids[i] as nat
  {
    seq(|ids|, i requires 0 <= i < |ids| => ids[i] as nat)
  }

  /** The id of cell `c` of each layout, as the index a read goes through. */
  lemma ReadB8(bytes: seq<bv8>, c: nat)
    requires |bytes| == CELLS && c < CELLS
    ensures AsIndices(UnpackB8(bytes))[c] == bytes[c] as nat
  {
  }

  lemma ReadB4(bytes: seq<bv8>, c: nat)
    requires |bytes| == CELLS / 2 && c < CELLS
    ensures AsIndices(UnpackB4(bytes))[c] == Nibble(bytes[c / 2], c % 2 == 1) as nat
  {
  }

  lemma ReadB2(bytes: seq<bv8>, c: nat)
    requires |bytes| == CELLS / 4 && c < CELLS
    ensures AsIndices(UnpackB2(bytes))[c] == Crumb(bytes[c / 4], c % 4) as nat
  {
  }

  /** A cell that is in use names a live entry, and a `Simple` one has a positive count. */
  lemma ReferencedIsLive(ids: seq<nat>, base: seq<BlockMapping>, i: nat)
    requires IdsInRange(ids, base) && Counted(ids, base) && i < |ids|
    ensures IsLive(base[ids[i]])
    ensures base[ids[i]].data.Simple? ==> base[ids[i]].data.numElements >= 1
  {
    assert ids[i] in multiset(ids);
  }

  /**
   * `add_voxel(v)` followed by re-pointing cell `c` at the returned index and
   * `remove` of the cell's old index: the counts stay exact and every cell
   * still names an entry.  The old index names a live entry when `remove`
   * runs, so `remove` does not panic.
   */
  lemma {:induction false} SetKeepsCounts(base0: seq<BlockMapping>, nbts0: seq<NbtVoxel>, v: Voxels.Voxel, ids0: seq<nat>, c: nat)
    requires IdsInRange(ids0, base0) && Counted(ids0, base0) && c < |ids0|
    ensures var base1 := VoxelAdded(base0, nbts0, v);
            var newId := VoxelAddedId(base0, v);
            var o := ids0[c];
            && o < |base1| && IsLive(base1[o]) && base1[o].blockId == base0[o].blockId
            && (base1[o].data.Simple? ==> base1[o].data.numElements >= 1)
            && var base3 := base1[o := Decremented(base1[o])];
               IdsInRange(ids0[c := newId], base3) && Counted(ids0[c := newId], base3)
  {
    var base1 := VoxelAdded(base0, nbts0, v);
    var newId := VoxelAddedId(base0, v);
    var o := ids0[c];
    var ids2: seq<nat> := ids0[c := newId];
    VoxelAddedFacts(base0, nbts0, v);
    ReferencedIsLive(ids0, base0, c);
    var base3 := base1[o := Decremented(base1[o])];
    forall k | 0 <= k < |base3|
      ensures RefsOk(base3[k], multiset(ids2)[k])
    {
      EntryRefsAfterSet(base0, nbts0, v, ids0, c, k);
    }
  }

  /** A slot that `add_voxel` newly fills was named by no cell. */
  lemma FreshSlotUnreferenced(base0: seq<BlockMapping>, nbts0: seq<NbtVoxel>, v: Voxels.Voxel, ids0: seq<nat>)
    requires IdsInRange(ids0, base0) && Counted(ids0, base0) && AddsEntry(base0, v)
    ensures multiset(ids0)[VoxelAddedId(base0, v)] == 0
  {
    var newId := VoxelAddedId(base0, v);
    VoxelAddedFacts(base0, nbts0, v);
    if newId < |base0| {
      assert base0[newId].data.Empty?;
    } else {
      assert forall i :: 0 <= i < |ids0| ==> ids0[i] != newId;
      assert newId !in multiset(ids0);
    }
  }

  /** Overwriting one element of a sequence moves one occurrence from the old value to the new one. */
  lemma MultisetOfUpdate(ids: seq<nat>, c: nat, x: nat, k: nat)
    requires c < |ids|
    ensures multiset(ids[c := x])[k] == multiset(ids)[k] + (if k == x then 1 else 0) - (if k == ids[c] then 1 else 0)
  {
    assert multiset(ids[c := x]) == multiset(ids) - multiset{ids[c]} + multiset{x};
  }

  /** `SetKeepsCounts` for one entry `k` of the final table. */
  lemma EntryRefsAfterSet(base0: seq<BlockMapping>, nbts0: seq<NbtVoxel>, v: Voxels.Voxel, ids0: seq<nat>, c: nat, k: nat)
    requires IdsInRange(ids0, base0) && Counted(ids0, base0) && c < |ids0|
    requires k < |VoxelAdded(base0, nbts0, v)|
    ensures var base1 := VoxelAdded(base0, nbts0, v);
            var o := ids0[c];
            && o < |base1| && IsLive(base1[o]) && (base1[o].data.Simple? ==> base1[o].data.numElements >= 1)
            && RefsOk(base1[o := Decremented(base1[o])][k], multiset(ids0[c := VoxelAddedId(base0, v)])[k])
  {
    var base1 := VoxelAdded(base0, nbts0, v);
    var newId := VoxelAddedId(base0, v);
    var o := ids0[c];
    VoxelAddedFacts(base0, nbts0, v);
    ReferencedIsLive(ids0, base0, c);
    MultisetOfUpdate(ids0, c, newId, k);
    if AddsEntry(base0, v) {
      FreshSlotUnreferenced(base0, nbts0, v, ids0);
    }
    var n0 := multiset(ids0)[k];
    if k != o && k != newId {
      assert k < |base0| && base1[k] == base0[k];
    } else if k == o && k != newId {
      assert base1[k] == base0[k];
      DecrementedRefs(base0[k], n0);
    } else if k != o {
      IncrementedRefs(base0, nbts0, v, n0);
    } else {
      assert !AddsEntry(base0, v);
    }
  }

  /** Releasing one reference of an entry that had `n` keeps the count exact at `n - 1`. */
  lemma DecrementedRefs(m: BlockMapping, n: nat)
    requires RefsOk(m, n) && IsLive(m) && (m.data.Simple? ==> m.data.numElements >= 1) && n >= 1
    ensures RefsOk(Decremented(m), n - 1)
  {
  }

  /** The entry `add_voxel` hands out has one more reference than before. */
  lemma IncrementedRefs(base0: seq<BlockMapping>, nbts0: seq<NbtVoxel>, v: Voxels.Voxel, n: nat)
    requires var id := VoxelAddedId(base0, v);
             (id < |base0| ==> RefsOk(base0[id], n)) && (id >= |base0| ==> n == 0)
    ensures var id := VoxelAddedId(base0, v);
            var r := VoxelAdded(base0, nbts0, v);
            id < |r| && RefsOk(r[id], n + 1)
  {
    VoxelAddedFacts(base0, nbts0, v);
  }

  /** The same sequence of steps changes exactly cell `c`'s block, to `v`'s. */
  lemma {:induction false} SetUpdatesBlocks(base0: seq<BlockMapping>, nbts0: seq<NbtVoxel>, v: Voxels.Voxel, ids0: seq<nat>, c: nat)
    requires IdsInRange(ids0, base0) && Counted(ids0, base0) && c < |ids0|
    ensures var base1 := VoxelAdded(base0, nbts0, v);
            var o := ids0[c];
            o < |base1| && IsLive(base1[o]) && (base1[o].data.Simple? ==> base1[o].data.numElements >= 1)
            && var base3 := base1[o := Decremented(base1[o])];
               IdsInRange(ids0[c := VoxelAddedId(base0, v)], base3)
               && BlocksOf(base3, ids0[c := VoxelAddedId(base0, v)]) == BlocksOf(base0, ids0)[c := v.blockId]
  {
    SetKeepsCounts(base0, nbts0, v, ids0, c);
    var base1 := VoxelAdded(base0, nbts0, v);
    var newId := VoxelAddedId(base0, v);
    var o := ids0[c];
    var ids2: seq<nat> := ids0[c := newId];
    var base3 := base1[o := Decremented(base1[o])];
    VoxelAddedFacts(base0, nbts0, v);
    forall i | 0 <= i < |ids2|
      ensures BlocksOf(base3, ids2)[i] == BlocksOf(base0, ids0)[c := v.blockId][i]
    {
      if i != c {
        var k := ids0[i];
        ReferencedIsLive(ids0, base0, i);
        if k == newId {
          assert !AddsEntry(base0, v);
        }
        assert base3[k].blockId == base1[k].blockId == base0[k].blockId;
      }
    }
  }

  // ---------------------------------------------------------------------
  // The non-air counter

  /** The number of cells whose block is not air. */
  function NonAirCount(blocks: seq<BlockId>, isAir: BlockId -> bool): (n: nat)
    ensures n <= |blocks|
  {
    if |blocks| == 0 then 0
    else NonAirCount(blocks[..|blocks| - 1], isAir) + (if isAir(blocks[|blocks| - 1]) then 0 else 1)
  }

  /** Replacing one cell's block moves the count by the difference of the two air tests. */
  lemma {:induction false} NonAirCountUpdate(blocks: seq<BlockId>, isAir: BlockId -> bool, i: nat, b: BlockId)
    requires i < |blocks|
    ensures NonAirCount(blocks[i := b], isAir)
            == NonAirCount(blocks, isAir) - (if isAir(blocks[i]) then 0 else 1) + (if isAir(b) then 0 else 1)
  {
    var t := blocks[i := b];
    var n := |blocks|;
    assert t[..n - 1] == if i == n - 1 then blocks[..n - 1] else blocks[..n - 1][i := b];
    if i != n - 1 {
      NonAirCountUpdate(blocks[..n - 1], isAir, i, b);
      var p := blocks[..n - 1];
      assert NonAirCount(p, isAir) >= (if isAir(p[i]) then 0 else 1) by {
        NonAirCountAtLeastOne(p, isAir, i);
      }
    }
  }

  /** A non-air cell is counted. */
  lemma {:induction false} NonAirCountAtLeastOne(blocks: seq<BlockId>, isAir: BlockId -> bool, i: nat)
    requires i < |blocks|
    ensures NonAirCount(blocks, isAir) >= (if isAir(blocks[i]) then 0 else 1)
  {
    var n := |blocks|;
    if i != n - 1 {
      NonAirCountAtLeastOne(blocks[..n - 1], isAir, i);
    }
  }

  /** A uniform section of `n` cells of block `b` counts `n` or 0 non-air cells. */
  lemma {:induction false} NonAirCountUniform(n: nat, b: BlockId, isAir: BlockId -> bool)
    ensures NonAirCount(seq(n, _ => b), isAir) == if isAir(b) then 0 else n
  {
    if n > 0 {
      assert seq(n, _ => b)[..n - 1] == seq(n - 1, _ => b);
      NonAirCountUniform(n - 1, b, isAir);
    }
  }

  /** A sequence of `n` zeros holds the index 0 exactly `n` times. */
  lemma {:induction false} ZerosMultiset(n: nat)
    ensures multiset(seq(n, _ => 0 as nat))[0] == n
  {
    if n > 0 {
      assert seq(n, _ => 0 as nat) == seq(n - 1, _ => 0 as nat) + [0];
      ZerosMultiset(n - 1);
    }
  }

  /**
   * The same steps move the non-air counter by the two air tests: the new
   * block counts if it is not air, the replaced one stops counting if it was
   * not air, and the counter cannot go below zero in between.
   */
  lemma {:induction false} SetKeepsNonAirCount(base0: seq<BlockMapping>, nbts0: seq<NbtVoxel>, v: Voxels.Voxel, ids0: seq<nat>, c: nat, isAir: BlockId -> bool)
    requires IdsInRange(ids0, base0) && Counted(ids0, base0) && c < |ids0|
    ensures var blocks0 := BlocksOf(base0, ids0);
            var base1 := VoxelAdded(base0, nbts0, v);
            var o := ids0[c];
            var count1 := NonAirCount(blocks0, isAir) + (if isAir(v.blockId) then 0 else 1);
            && o < |base1| && base1[o].blockId == blocks0[c]
            && count1 >= (if isAir(base1[o].blockId) then 0 else 1)
            && var base3 := base1[o := Decremented(base1[o])];
               NonAirCount(BlocksOf(base3, ids0[c := VoxelAddedId(base0, v)]), isAir)
               == count1 - (if isAir(base1[o].blockId) then 0 else 1)
  {
    SetKeepsCounts(base0, nbts0, v, ids0, c);
    SetUpdatesBlocks(base0, nbts0, v, ids0, c);
    var blocks0 := BlocksOf(base0, ids0);
    NonAirCountAtLeastOne(blocks0, isAir, c);
    NonAirCountUpdate(blocks0, isAir, c, v.blockId);
  }

  /**
   * One whole write, on values: from a disciplined state, `add_voxel`, the
   * re-pointed cell and `remove` of its old index give a disciplined state
   * (at any width the grown table fits) in which exactly cell `c` changed
   * block.
   */
  lemma {:induction false} SetKeepsDiscipline(base0: seq<BlockMapping>, nbts0: seq<NbtVoxel>, v: Voxels.Voxel, ids0: seq<nat>, c: nat,
                                              size0: nat, w0: Width, count0: nat, isAir: BlockId -> bool, size3: nat, w1: Width)
    requires Disciplined(ids0, base0, size0, w0, count0, isAir) && c < |ids0|
    requires |VoxelAdded(base0, nbts0, v)| <= MaxPaletteLen(w1) && size3 <= MaxPaletteLen(w1)
    ensures var base1 := VoxelAdded(base0, nbts0, v);
            var o := ids0[c];
            var count1 := count0 + (if isAir(v.blockId) then 0 else 1);
            && o < |base1| && IsLive(base1[o]) && base1[o].blockId == BlocksOf(base0, ids0)[c]
            && count1 >= (if isAir(base1[o].blockId) then 0 else 1)
            && var base3 := base1[o := Decremented(base1[o])];
               var ids2 := ids0[c := VoxelAddedId(base0, v)];
               && Disciplined(ids2, base3, size3, w1, count1 - (if isAir(base1[o].blockId) then 0 else 1), isAir)
               && BlocksOf(base3, ids2) == BlocksOf(base0, ids0)[c := v.blockId]
  {
    SetKeepsCounts(base0, nbts0, v, ids0, c);
    SetUpdatesBlocks(base0, nbts0, v, ids0, c);
    SetKeepsNonAirCount(base0, nbts0, v, ids0, c, isAir);
  }

  /**
   * The palette discipline of a paletted layout, on values: every cell
   * names a live entry, the counts are exact, the table fits the layout,
   * and the counter counts the non-air cells.
   */
  ghost predicate Disciplined(ids: seq<nat>, base: seq<BlockMapping>, size: nat, w: Width, count: nat, isAir: BlockId -> bool)
  {
    && IdsInRange(ids, base)
    && Counted(ids, base)
    && |base| <= MaxPaletteLen(w)
    && size <= MaxPaletteLen(w)
    && count == NonAirCount(BlocksOf(base, ids), isAir)
  }

  // ---------------------------------------------------------------------
  // Bit-level facts the packing loops use

  /** Or-ing an id into a byte whose target half is still zero is the same as writing that half. */
  lemma OrIntoEmptyNibble(b: bv8, odd: bool, id4: bv8)
    requires id4 <= 15 && Nibble(b, odd) == 0
    ensures (if odd then b | (id4 << 4) else b | id4) == WithNibble(b, odd, id4)
  {
  }

  /** A byte with `id4` or-ed into one half (`b | (id4 << 4 * half)`). */
  function OrNibble(b: bv8, odd: bool, id4: bv8): bv8
  {
    if odd then b | (id4 << 4) else b | id4
  }

  /** Or-ing into a half that reads 0 writes that one cell of the 4-bit view. */
  lemma OrIntoEmptyHalf(bytes: seq<bv8>, c: nat, id4: bv8)
    requires |bytes| == CELLS / 2 && c < CELLS && id4 <= 15 && UnpackB4(bytes)[c] == 0
    ensures UnpackB4(bytes[c / 2 := OrNibble(bytes[c / 2], c % 2 == 1, id4)]) == UnpackB4(bytes)[c := id4]
  {
    OrIntoEmptyNibble(bytes[c / 2], c % 2 == 1, id4);
    UnpackB4Write(bytes, c, id4);
  }

  /** A byte with `id2` or-ed in at bit `2 * k` (`b | (id2 << 2k)`). */
  function OrCrumb(b: bv8, k: nat, id2: bv8): bv8
    requires k < 4
  {
    if k == 0 then b | id2
    else if k == 1 then b | (id2 << 2)
    else if k == 2 then b | (id2 << 4)
    else b | (id2 << 6)
  }

  /** Or-ing an id into a byte whose target 2-bit field is still zero is the same as writing that field. */
  lemma OrIntoEmptyCrumb(b: bv8, k: nat, id2: bv8)
    requires k < 4 && id2 <= 3 && Crumb(b, k) == 0
    ensures OrCrumb(b, k, id2) == WithCrumb(b, k, id2)
  {
  }

  /** Or-ing into a field that reads 0 writes that one cell of the 2-bit view. */
  lemma OrIntoEmptyCell(bytes: seq<bv8>, c: nat, id2: bv8)
    requires |bytes| == CELLS / 4 && c < CELLS && id2 <= 3 && UnpackB2(bytes)[c] == 0
    ensures UnpackB2(bytes[c / 4 := OrCrumb(bytes[c / 4], c % 4, id2)]) == UnpackB2(bytes)[c := id2]
  {
    OrIntoEmptyCrumb(bytes[c / 4], c % 4, id2);
    UnpackB2Write(bytes, c, id2);
  }

  /** The zero byte holds id 0 in every field. */
  lemma ZeroByteHoldsZeros()
    ensures Nibble(0, false) == 0 && Nibble(0, true) == 0
    ensures forall k :: 0 <= k < 4 ==> Crumb(0, k) == 0
  {
  }

  // ---------------------------------------------------------------------
  // The widest layout's cells

  /** A `VoxelRef` of a simple voxel (`is_simple`). */
  predicate IsSimpleRef(r: Voxels.VoxelRef)
  {
    r.Inferred? || r.voxel.Simple?
  }

  /**
   * The cell the 8-to-32-bit upgrade writes for index `id`, given what the
   * palette holds there: a simple voxel's index becomes a direct cell, any
   * other a mapped one.  The direct cell holds the palette index, not the
   * block id that the rest of the section reads from direct cells.
   */
  function UpgradedEntry(id: bv8, held: Voxels.VoxelRef): (e: ChunkB32Entry)
    ensures IsSimpleRef(held) ==> IsDirect(e) && AsDirect(e) == id as bv32
    ensures !IsSimpleRef(held) ==> IsMapped(e) && AsMapped(e) == id as bv16
  {
    if IsSimpleRef(held) then MakeDirect(id as bv32) else MakeMapped(id as bv16)
  }

  /**
   * The 8-to-32-bit arm of `upgrade`: each cell becomes `UpgradedEntry` of
   * its index; `get` panics on a cell whose index names no live entry.
   */
  method WidenB8ToB32(a: array<bv8>, palette: Palette) returns (outcome: Outcome, newGrid: array<ChunkB32Entry>)
    requires a.Length == CELLS && palette.Valid()
    ensures fresh(newGrid) && newGrid.Length == CELLS
    ensures outcome == Done <==> forall c :: 0 <= c < CELLS ==>
              a[c] as int < |palette.base| && IsLive(palette.base[a[c] as int])
    ensures outcome == Done ==> forall c :: 0 <= c < CELLS ==>
              newGrid[c] == UpgradedEntry(a[c], palette.Get(a[c] as int))
  {
    newGrid := new ChunkB32Entry[CELLS](_ => NewEmpty());
    ghost var src := a[..];
    var c := 0;
    while c < CELLS
      invariant 0 <= c <= CELLS && a[..] == src
      invariant forall d :: 0 <= d < c ==>
                  src[d] as int < |palette.base| && IsLive(palette.base[src[d] as int])
                  && newGrid[d] == UpgradedEntry(src[d], palette.Get(src[d] as int))
    {
      var id := a[c];
      if !(id as int < |palette.base| && IsLive(palette.base[id as int])) {
        return Panic, newGrid;
      }
      var blockMapping := palette.Get(id as int);
      // the palette itself is not changed
      newGrid[c] := UpgradedEntry(id, blockMapping);
      c := c + 1;
    }
    return Done, newGrid;
  }

  /** The 4-to-8-bit arm of `upgrade`: each cell's nibble becomes its byte. */
  method WidenB4ToB8(a: array<bv8>) returns (newGrid: array<bv8>)
    requires a.Length == CELLS / 2
    ensures fresh(newGrid) && newGrid.Length == CELLS
    ensures UnpackB8(newGrid[..]) == UnpackB4(a[..])
  {
    newGrid := new bv8[CELLS](_ => 0);
    for c := 0 to CELLS
      invariant forall d :: 0 <= d < c ==> newGrid[d] == UnpackB4(a[..])[d]
    {
      var byteRef := a[c / 2];
      if c % 2 == 0 {
        newGrid[c] := byteRef & 0x0F;
      } else {
        newGrid[c] := (byteRef & 0xF0) >> 4;
      }
    }
  }

  /** The 2-to-4-bit arm of `upgrade`: each cell's 2-bit id is or-ed into its nibble of a zeroed grid. */
  method WidenB2ToB4(a: array<bv8>) returns (newGrid: array<bv8>)
    requires a.Length == CELLS / 4
    ensures fresh(newGrid) && newGrid.Length == CELLS / 2
    ensures UnpackB4(newGrid[..]) == UnpackB2(a[..])
  {
    newGrid := new bv8[CELLS / 2](_ => 0);
    ZeroByteHoldsZeros();
    ghost var src := UnpackB2(a[..]);
    ghost var view := UnpackB4(newGrid[..]);
    for c := 0 to CELLS
      invariant |view| == CELLS && UnpackB4(newGrid[..]) == view
      invariant forall d :: 0 <= d < c ==> view[d] == src[d]
      invariant forall d :: c <= d < CELLS ==> view[d] == 0
    {
      var oldByte := a[c / 4];
      var id := Crumb(oldByte, c % 4);
      assert id == src[c];
      ghost var before := newGrid[..];
      OrIntoEmptyHalf(before, c, id);
      newGrid[c / 2] := OrNibble(newGrid[c / 2], c % 2 == 1, id);
      assert newGrid[..] == before[c / 2 := OrNibble(before[c / 2], c % 2 == 1, id)];
      view := view[c := id];
    }
    assert view == src;
  }

  // ---------------------------------------------------------------------
  // Writing one cell of a paletted layout (the arms of `set_voxel_internal`)

  /** `n as u8`: the low 8 bits. */
  function AsU8(n: nat): (b: bv8)
  {
    (n % 256) as bv8
  }

  /** `n as u16`: the low 16 bits. */
  function AsU16(n: nat): (b: bv16)
  {
    (n % 0x1_0000) as bv16
  }

  /**
   * The cell the 32-bit arm of `set_voxel_internal` writes: direct with the
   * block id for a simple voxel, mapped to `newId` cut to 16 bits otherwise.
   */
  function WrittenEntry(newId: nat, voxelBlockId: BlockId, voxelIsSimple: bool): (e: ChunkB32Entry)
    requires voxelIsSimple ==> (voxelBlockId as bv32) & CHUNK_B32_ENTRY_FLAG_BIT == 0
    ensures IsDirect(e) <==> voxelIsSimple
    ensures voxelIsSimple ==> AsDirect(e) == voxelBlockId as bv32
    ensures !voxelIsSimple ==> AsMapped(e) == AsU16(newId)
  {
    if voxelIsSimple then MakeDirect(voxelBlockId as bv32) else MakeMapped(AsU16(newId))
  }

  /** An id that fits the layout's bits survives the truncation and the mask. */
  lemma SmallIdsSurviveTruncation(n: nat)
    ensures n < 256 ==> AsU8(n) as nat == n
    ensures n < 16 ==> (AsU8(n) & 0x0F) as nat == n
    ensures n < 4 ==> (AsU8(n) & 0x03) as nat == n
  {
    if n < 256 {
      BitArith.ByteRoundTrip(n);
      assert n % 256 == n;
    }
    if n < 16 {
      LowBitsOfSmallByte(AsU8(n));
    }
  }

  /** Masking a byte below 16 with 0x0F, or one below 4 with 0x03, keeps it. */
  lemma LowBitsOfSmallByte(b: bv8)
    ensures b < 16 ==> b & 0x0F == b
    ensures b < 4 ==> b & 0x03 == b
  {
  }

  /** The indices of a grid after one cell's id changes. */
  lemma AsIndicesUpdate(ids: seq<bv8>, c: nat, b: bv8)
    requires c < |ids|
    ensures AsIndices(ids[c := b]) == AsIndices(ids)[c := b as nat]
  {
  }

  /** The 8-bit arm: the cell's byte becomes `new_id as u8`; the old byte is the old id. */
  method WriteCellB8(a: array<bv8>, c: nat, newId: nat) returns (oldId: nat)
    requires a.Length == CELLS && c < CELLS
    modifies a
    ensures UnpackB8(a[..]) == old(UnpackB8(a[..]))[c := AsU8(newId)]
    ensures oldId == old(UnpackB8(a[..]))[c] as nat
  {
    var oldByte := a[c];
    a[c] := AsU8(newId);
    oldId := oldByte as nat;
  }

  /**
   * The 4-bit arm: the id is cut to 4 bits, and only nibble `c % 2` of byte
   * `c / 2` is cleared and rewritten.
   */
  method WriteCellB4(a: array<bv8>, c: nat, newId: nat) returns (oldId: nat)
    requires a.Length == CELLS / 2 && c < CELLS
    modifies a
    ensures UnpackB4(a[..]) == old(UnpackB4(a[..]))[c := AsU8(newId) & 0x0F]
    ensures oldId == old(UnpackB4(a[..]))[c] as nat
  {
    var byteRef := a[c / 2];
    var id4 := AsU8(newId) & 0x0F;
    var oldId4 := Nibble(byteRef, c % 2 == 1);
    byteRef := WithNibble(byteRef, c % 2 == 1, id4);
    UnpackB4Write(a[..], c, id4);
    a[c / 2] := byteRef;
    oldId := oldId4 as nat;
  }

  /**
   * The 2-bit arm: the id is cut to 2 bits, and only the field at bit
   * `2 * (c % 4)` of byte `c / 4` is cleared and rewritten.
   */
  method WriteCellB2(a: array<bv8>, c: nat, newId: nat) returns (oldId: nat)
    requires a.Length == CELLS / 4 && c < CELLS
    modifies a
    ensures UnpackB2(a[..]) == old(UnpackB2(a[..]))[c := AsU8(newId) & 0x03]
    ensures oldId == old(UnpackB2(a[..]))[c] as nat
  {
    var byteRef := a[c / 4];
    var indexInByte := c % 4;
    var id2 := AsU8(newId) & 0x03;
    var oldId2 := Crumb(byteRef, indexInByte);
    byteRef := WithCrumb(byteRef, indexInByte, id2);
    UnpackB2Write(a[..], c, id2);
    a[c / 4] := byteRef;
    oldId := oldId2 as nat;
  }

  /**
   * The table grows by at most one entry per write, so when `len()` passes
   * the layout's capacity one step wider is enough, except from 8 bits.
   */
  lemma {:induction false} AddKeepsCapacity(base0: seq<BlockMapping>, nbts0: seq<NbtVoxel>, v: Voxels.Voxel, size0: nat, w0: Width)
    requires w0 != W32 && |base0| <= MaxPaletteLen(w0) && size0 <= MaxPaletteLen(w0)
    requires LiveCount(VoxelAdded(base0, nbts0, v)) <= size0 + (if AddsEntry(base0, v) then 1 else 0)
    requires w0 == W8 ==> size0 + (if AddsEntry(base0, v) then 1 else 0) <= MaxPaletteLen(W8)
    ensures var size1 := size0 + (if AddsEntry(base0, v) then 1 else 0);
            var w1 := if size1 > MaxPaletteLen(w0) then Wider(w0) else w0;
            w1 != W32 && |VoxelAdded(base0, nbts0, v)| <= MaxPaletteLen(w1) && size1 <= MaxPaletteLen(w1)
  {
    VoxelAddedFacts(base0, nbts0, v);
    CapacityThresholds(w0);
    var base1 := VoxelAdded(base0, nbts0, v);
    if |base1| != |base0| {
      LiveCountAllLive(base0);
      assert LiveCount(base1) == |base1|;
    }
  }

  // ---------------------------------------------------------------------
  // The arms of `downgrade`: every cell's index goes through the map that
  // `remove_holes` returns, and the result is cut to the narrower layout

  /** The index a 32-bit cell goes through in `downgrade`: its direct value or its mapped index. */
  function EntryKey(e: ChunkB32Entry): nat
  {
    if IsDirect(e) then AsDirect(e) as nat else AsMapped(e) as nat
  }

  /** The keys of a whole 32-bit grid. */
  function EntryKeys(es: seq<ChunkB32Entry>): (keys: seq<nat>)
    ensures |keys| == |es| && forall c :: 0 <= c < |es| ==> keys[c] == EntryKey(es[c])
  {
    seq(|es|, c requires 0 <= c < |es| => EntryKey(es[c]))
  }

  /** Every key is below `bound` (indexes a map of that length). */
  predicate KeysInRange(keys: seq<nat>, bound: nat)
  {
    forall c :: 0 <= c < |keys| ==> keys[c] < bound
  }

  /** Each key sent through the map and cut to a byte (`mapping[key] as u8`). */
  function Remapped(keys: seq<nat>, mapping: seq<nat>): (ids: seq<bv8>)
    requires KeysInRange(keys, |mapping|)
    ensures |ids| == |keys| && forall c :: 0 <= c < |keys| ==> ids[c] == AsU8(mapping[keys[c]])
  {
    seq(|keys|, c requires 0 <= c < |keys| => AsU8(mapping[keys[c]]))
  }

  /**
   * The 32-to-8-bit arm: each cell becomes `mapping[key] as u8`; a key past
   * the map panics.
   */
  method NarrowB32ToB8(a: array<ChunkB32Entry>, mapping: seq<nat>) returns (outcome: Outcome, newGrid: array<bv8>)
    requires a.Length == CELLS
    ensures fresh(newGrid) && newGrid.Length == CELLS
    ensures outcome == Done <==> KeysInRange(EntryKeys(a[..]), |mapping|)
    ensures outcome == Done ==> UnpackB8(newGrid[..]) == Remapped(EntryKeys(a[..]), mapping)
  {
    ghost var keys := EntryKeys(a[..]);
    newGrid := new bv8[CELLS](_ => 0);
    for c := 0 to CELLS
      invariant forall d :: 0 <= d < c ==> keys[d] < |mapping| && newGrid[d] == AsU8(mapping[keys[d]])
    {
      var entry := a[c];
      var key := if IsDirect(entry) then AsDirect(entry) as nat else AsMapped(entry) as nat;
      assert key == keys[c];
      if key >= |mapping| {
        // the map index is out of bounds
        return Panic, newGrid;
      }
      newGrid[c] := AsU8(mapping[key]);
    }
    assert newGrid[..] == Remapped(keys, mapping);
    return Done, newGrid;
  }

  /** A grid whose every byte is its odd cell's id shifted up is the as-written shrink. */
  lemma NarrowedFromHighBytes(g: seq<bv8>, newIds: seq<bv8>)
    requires |newIds| == CELLS && |g| == CELLS / 2
    requires forall j :: 0 <= j < CELLS / 2 ==> g[j] == HighNibbleByte(newIds[2 * j + 1])
    ensures g == NarrowedB4AsWritten(newIds)
  {
  }

  /**
   * The 8-to-4-bit arm, as written: each cell assigns its whole byte, the
   * new id for an even cell and the id shifted into the high nibble for an
   * odd one, so the odd cell overwrites its even neighbour
   * (`NarrowedB4AsWritten`).
   */
  method NarrowB8ToB4(a: array<bv8>, mapping: seq<nat>) returns (outcome: Outcome, newGrid: array<bv8>)
    requires a.Length == CELLS
    ensures fresh(newGrid) && newGrid.Length == CELLS / 2
    ensures outcome == Done <==> KeysInRange(AsIndices(a[..]), |mapping|)
    ensures outcome == Done ==> newGrid[..] == NarrowedB4AsWritten(Remapped(AsIndices(a[..]), mapping))
  {
    ghost var keys := AsIndices(a[..]);
    newGrid := new bv8[CELLS / 2](_ => 0);
    for c := 0 to CELLS
      invariant forall d :: 0 <= d < c ==> keys[d] < |mapping|
      invariant forall j :: 0 <= j < c / 2 ==> newGrid[j] == HighNibbleByte(AsU8(mapping[keys[2 * j + 1]]))
    {
      var id := a[c];
      assert id as nat == keys[c];
      if id as nat >= |mapping| {
        // the map index is out of bounds
        return Panic, newGrid;
      }
      var newId := AsU8(mapping[id as nat]);
      if c % 2 == 0 {
        newGrid[c / 2] := newId;
      } else {
        newGrid[c / 2] := HighNibbleByte(newId);
      }
    }
    ghost var newIds := Remapped(keys, mapping);
    assert forall j :: 0 <= j < CELLS / 2 ==> newGrid[..][j] == HighNibbleByte(newIds[2 * j + 1]);
    NarrowedFromHighBytes(newGrid[..], newIds);
    return Done, newGrid;
  }

  /**
   * The 4-to-2-bit arm: each cell's 4-bit index goes through the map and
   * its low two bits are or-ed into a zeroed grid.
   */
  method NarrowB4ToB2(a: array<bv8>, mapping: seq<nat>) returns (outcome: Outcome, newGrid: array<bv8>)
    requires a.Length == CELLS / 2
    ensures fresh(newGrid) && newGrid.Length == CELLS / 4
    ensures outcome == Done <==> KeysInRange(AsIndices(UnpackB4(a[..])), |mapping|)
    ensures outcome == Done ==> forall c :: 0 <= c < CELLS ==>
              UnpackB2(newGrid[..])[c] == Remapped(AsIndices(UnpackB4(a[..])), mapping)[c] & 0x03
  {
    ghost var keys := AsIndices(UnpackB4(a[..]));
    newGrid := new bv8[CELLS / 4](_ => 0);
    ZeroByteHoldsZeros();
    ghost var view := UnpackB2(newGrid[..]);
    for c := 0 to CELLS
      invariant UnpackB2(newGrid[..]) == view
      invariant Narrowed2Upto(view, keys, mapping, c)
    {
      var id := Nibble(a[c / 2], c % 2 == 1);
      assert id as nat == keys[c];
      if id as nat >= |mapping| {
        // the map index is out of bounds
        return Panic, newGrid;
      }
      var newId := AsU8(mapping[id as nat]);
      var indexInByte := c % 4;
      var id2 := newId & 0x03;
      ghost var before := newGrid[..];
      OrIntoEmptyCell(before, c, id2);
      newGrid[c / 4] := OrCrumb(newGrid[c / 4], indexInByte, id2);
      assert newGrid[..] == before[c / 4 := OrCrumb(before[c / 4], c % 4, id2)];
      Narrowed2Step(view, keys, mapping, c, id2);
      view := view[c := id2];
    }
    return Done, newGrid;
  }

  /** The 2-bit grid after `c` cells: those hold their mapped ids' low bits, the rest are still zero. */
  ghost predicate Narrowed2Upto(view: seq<bv8>, keys: seq<nat>, mapping: seq<nat>, c: nat)
  {
    |view| == CELLS && |keys| == CELLS && c <= CELLS &&
    (forall d :: 0 <= d < c ==> keys[d] < |mapping| && view[d] == AsU8(mapping[keys[d]]) & 0x03) &&
    (forall d :: c <= d < CELLS ==> view[d] == 0)
  }

  /** Writing cell `c`'s mapped id moves the frontier one cell on. */
  lemma Narrowed2Step(view: seq<bv8>, keys: seq<nat>, mapping: seq<nat>, c: nat, id2: bv8)
    requires Narrowed2Upto(view, keys, mapping, c) && c < CELLS
    requires keys[c] < |mapping| && id2 == AsU8(mapping[keys[c]]) & 0x03
    ensures view[c] == 0
    ensures Narrowed2Upto(view[c := id2], keys, mapping, c + 1)
  {
  }

  // ---------------------------------------------------------------------
  // The protocol's section format (`from_raw_palette`, `from_slice_*`,
  // `to_minecraft`); cells are in [y][z][x] order on both sides

  /** A section's blocks as the protocol carries them. */
  datatype PalettedData =
    | Single(value: BlockId)
    | Paletted(palette: seq<BlockId>, indexed: seq<bv8>)
    | Raw(values: seq<bv32>)

  /** A protocol section: its non-air count and its blocks (biomes are not modelled). */
  datatype McChunk = McChunk(blockCount: int, blocks: PalettedData)

  /** The block a reader of the protocol finds in cell `c`, if the data names one. */
  function DecodeCell(d: PalettedData, c: nat): Option<int>
  {
    match d
    case Single(v) => Some(v)
    case Paletted(p, idx) => if c < |idx| && (idx[c] as nat) < |p| then Some(p[idx[c]]) else None
    case Raw(vs) => if c < |vs| then Some(vs[c] as int) else None
  }

  /** `n as i16` for a 16-bit `n`: the same bits read as two's complement. */
  function AsI16(n: nat): (r: int)
    requires n <= U16_MAX
    ensures -0x8000 <= r < 0x8000
    ensures r % 0x1_0000 == n
    ensures n < 0x8000 ==> r == n
  {
    if n < 0x8000 then n else n - 0x1_0000
  }

  /** The first 4096 ids of a slice cut to the bits of `mask`. */
  function Masked(slice: seq<bv8>, mask: bv8): (ids: seq<bv8>)
    requires |slice| >= CELLS
    ensures |ids| == CELLS
  {
    seq(CELLS, c requires 0 <= c < CELLS => slice[c] & mask)
  }

  /** The layout `from_raw_palette` picks for a protocol palette of `n` ids. */
  function RawPaletteWidth(n: nat): (w: Width)
    ensures n <= MaxPaletteLen(w) || w == W8
    ensures w == W2 || w == W4 || w == W8
  {
    if n < 4 then W2 else if n < 16 then W4 else W8
  }

  /** The ids a grid of width `w` keeps of a protocol slice: each cut to the layout's bits. */
  function CutTo(slice: seq<bv8>, w: Width): (ids: seq<bv8>)
    requires |slice| >= CELLS
    ensures |ids| == CELLS
  {
    match w
    case W2 => Masked(slice, 0x03)
    case W4 => Masked(slice, 0x0F)
    case _ => slice[..CELLS]
  }

  /** A byte below a bound under 4 (under 16) keeps its value through the 2-bit (4-bit) mask. */
  lemma SmallIndexKeepsMask(b: bv8, n: nat)
    requires b as int < n
    ensures n <= 4 ==> b & 0x03 == b
    ensures n <= 16 ==> b & 0x0F == b
  {
    if n <= 16 {
      assert b < 16;
    }
  }

  /**
   * A protocol section read by `from_raw_palette` comes back from
   * `to_minecraft` as it was when its palette lists no block twice and every
   * index names a palette entry: `all_simple()` lists the palette in order,
   * and cutting the indices to the width the palette's length picks keeps
   * them.
   */
  lemma {:induction false} RawPaletteRoundTrip(slice: seq<bv8>, ids: seq<BlockId>)
    requires |slice| >= CELLS && Distinct(ids)
    requires forall c :: 0 <= c < CELLS ==> slice[c] as int < |ids|
    ensures AllSimpleOf(SimpleAddedAll(ids)) == ids
    ensures CutTo(slice, RawPaletteWidth(|ids|)) == slice[..CELLS]
  {
    DistinctIdsGiveSimpleTable(ids);
    SmallIndicesSurviveCut(slice, |ids|);
  }

  /** Indices below `n` survive the cut to the width a palette of `n` ids picks. */
  lemma SmallIndicesSurviveCut(slice: seq<bv8>, n: nat)
    requires |slice| >= CELLS
    requires forall c :: 0 <= c < CELLS ==> slice[c] as int < n
    ensures CutTo(slice, RawPaletteWidth(n)) == slice[..CELLS]
  {
    var w := RawPaletteWidth(n);
    forall c | 0 <= c < CELLS
      ensures CutTo(slice, w)[c] == slice[c]
    {
      SmallIndexKeepsMask(slice[c], n);
    }
  }

  /** `from_slice_b8`: the slice's first 4096 ids, one byte per cell. */
  method FromSliceB8(slice: seq<bv8>) returns (a: array<bv8>)
    requires |slice| >= CELLS
    ensures fresh(a) && a.Length == CELLS
    ensures UnpackB8(a[..]) == slice[..CELLS]
  {
    a := new bv8[CELLS](_ => 0);
    for c := 0 to CELLS
      invariant forall d :: 0 <= d < c ==> a[d] == slice[d]
    {
      a[c] := slice[c];
    }
  }

  /** `from_slice_b4`: each id is cut to 4 bits and written into its nibble, low nibble first. */
  method FromSliceB4(slice: seq<bv8>) returns (a: array<bv8>)
    requires |slice| >= CELLS
    ensures fresh(a) && a.Length == CELLS / 2
    ensures UnpackB4(a[..]) == Masked(slice, 0x0F)
  {
    a := new bv8[CELLS / 2](_ => 0);
    ghost var want := Masked(slice, 0x0F);
    ghost var view := UnpackB4(a[..]);
    for c := 0 to CELLS
      invariant |view| == CELLS && UnpackB4(a[..]) == view
      invariant forall d :: 0 <= d < c ==> view[d] == want[d]
    {
      var id4 := slice[c] & 0x0F;
      ghost var before := a[..];
      UnpackB4Write(before, c, id4);
      a[c / 2] := WithNibble(a[c / 2], c % 2 == 1, id4);
      assert a[..] == before[c / 2 := WithNibble(before[c / 2], c % 2 == 1, id4)];
      view := view[c := id4];
    }
    assert view == want;
  }

  /** `from_slice_b2`: each id is cut to 2 bits and written into field `c % 4` of byte `c / 4`. */
  method FromSliceB2(slice: seq<bv8>) returns (a: array<bv8>)
    requires |slice| >= CELLS
    ensures fresh(a) && a.Length == CELLS / 4
    ensures UnpackB2(a[..]) == Masked(slice, 0x03)
  {
    a := new bv8[CELLS / 4](_ => 0);
    ghost var want := Masked(slice, 0x03);
    ghost var view := UnpackB2(a[..]);
    for c := 0 to CELLS
      invariant |view| == CELLS && UnpackB2(a[..]) == view
      invariant forall d :: 0 <= d < c ==> view[d] == want[d]
    {
      var id2 := slice[c] & 0x03;
      ghost var before := a[..];
      UnpackB2Write(before, c, id2);
      a[c / 4] := WithCrumb(a[c / 4], c % 4, id2);
      assert a[..] == before[c / 4 := WithCrumb(before[c / 4], c % 4, id2)];
      view := view[c := id2];
    }
    assert view == want;
  }

  /** `from_slice_b32`: every id becomes a mapped cell. */
  method FromSliceB32(slice: seq<bv8>) returns (a: array<ChunkB32Entry>)
    requires |slice| >= CELLS
    ensures fresh(a) && a.Length == CELLS
    ensures forall c :: 0 <= c < CELLS ==> IsMapped(a[c]) && AsMapped(a[c]) as nat == slice[c] as nat
  {
    a := new ChunkB32Entry[CELLS](_ => NewEmpty());
    for c := 0 to CELLS
      invariant forall d :: 0 <= d < c ==> IsMapped(a[d]) && AsMapped(a[d]) as nat == slice[d] as nat
    {
      a[c] := MakeMapped(slice[c] as bv16);
    }
  }

  /** `from_direct`'s grid: every block id becomes a direct cell. */
  method FromSliceDirect(slice: seq<bv32>) returns (a: array<ChunkB32Entry>)
    requires |slice| >= CELLS
    requires forall c :: 0 <= c < CELLS ==> slice[c] & CHUNK_B32_ENTRY_FLAG_BIT == 0
    ensures fresh(a) && a.Length == CELLS
    ensures forall c :: 0 <= c < CELLS ==> IsDirect(a[c]) && AsDirect(a[c]) == slice[c]
  {
    a := new ChunkB32Entry[CELLS](_ => NewEmpty());
    for c := 0 to CELLS
      invariant forall d :: 0 <= d < c ==> IsDirect(a[d]) && AsDirect(a[d]) == slice[d]
    {
      a[c] := MakeDirect(slice[c]);
    }
  }

  /** The table `add_simple` builds from the ids of a protocol palette, in order. */
  function SimpleAddedAll(ids: seq<BlockId>): seq<BlockMapping>
  {
    if |ids| == 0 then []
    else SimpleAdded(SimpleAddedAll(ids[..|ids| - 1]), ids[|ids| - 1])
  }

  /** Ids listed at most once. */
  predicate Distinct(ids: seq<BlockId>)
  {
    forall i, j :: 0 <= i < j < |ids| ==> ids[i] != ids[j]
  }

  /** A block with no entry yet is appended to a table without holes as `Simple{1}`. */
  lemma AppendNewSimple(s: seq<BlockMapping>, b: BlockId)
    requires forall k :: 0 <= k < |s| ==> s[k].blockId != b && IsLive(s[k])
    ensures SimpleAdded(s, b) == s + [BlockMapping(b, Simple(1))]
  {
  }

  /** One `Simple{1}` entry per id, at the id's own position. */
  function SimpleTable(ids: seq<BlockId>): (t: seq<BlockMapping>)
    ensures |t| == |ids|
    ensures forall i :: 0 <= i < |ids| ==> t[i] == BlockMapping(ids[i], Simple(1))
  {
    if |ids| == 0 then [] else SimpleTable(ids[..|ids| - 1]) + [BlockMapping(ids[|ids| - 1], Simple(1))]
  }

  /** A protocol palette without repeats becomes one `Simple` entry per id, at the id's own position. */
  lemma {:induction false} DistinctIdsGiveSimpleEntries(ids: seq<BlockId>)
    requires Distinct(ids)
    ensures SimpleAddedAll(ids) == SimpleTable(ids)
    decreases |ids|
  {
    if |ids| > 0 {
      var n := |ids| - 1;
      var p := ids[..n];
      DistinctPrefix(ids, n);
      DistinctIdsGiveSimpleEntries(p);
      var s := SimpleAddedAll(p);
      assert forall k :: 0 <= k < |s| ==> s[k].blockId == ids[k] != ids[n] && IsLive(s[k]);
      AppendNewSimple(s, ids[n]);
    }
  }

  /** A prefix of distinct ids is distinct. */
  lemma DistinctPrefix(ids: seq<BlockId>, n: nat)
    requires Distinct(ids) && n <= |ids|
    ensures Distinct(ids[..n])
  {
    forall i, j | 0 <= i < j < n
      ensures ids[..n][i] != ids[..n][j]
    {
      assert ids[..n][i] == ids[i] && ids[..n][j] == ids[j];
    }
  }

  /**
   * A protocol palette without repeats becomes one `Simple` entry per id,
   * at the id's own position, and `all_simple` lists the ids back.
   */
  lemma DistinctIdsGiveSimpleTable(ids: seq<BlockId>)
    requires Distinct(ids)
    ensures SimpleAddedAll(ids) == SimpleTable(ids)
    ensures AllSimpleOf(SimpleAddedAll(ids)) == ids
  {
    DistinctIdsGiveSimpleEntries(ids);
    AllSimpleOfSimpleTable(SimpleTable(ids));
  }

  /** Every entry of the table is `Simple`: no holes and no block entities. */
  predicate SimpleOnly(base: seq<BlockMapping>)
  {
    forall i :: 0 <= i < |base| ==> base[i].data.Simple?
  }

  /**
   * The palette `to_minecraft` should emit so that the indices it copies
   * from the grid keep their meaning: every entry's block, holes and block
   * entities included, at the entry's own index.
   */
  function EntryBlocks(base: seq<BlockMapping>): (p: seq<BlockId>)
    ensures |p| == |base|
    ensures forall i :: 0 <= i < |base| ==> p[i] == base[i].blockId
  {
    seq(|base|, i requires 0 <= i < |base| => base[i].blockId)
  }

  /** With `EntryBlocks` as the emitted palette, every cell of a paletted grid decodes to its block. */
  lemma EntryBlocksDecode(base: seq<BlockMapping>, packed: seq<bv8>)
    requires IdsInRange(AsIndices(packed), base)
    ensures forall c :: 0 <= c < |packed| ==>
              DecodeCell(Paletted(EntryBlocks(base), packed), c) == Some(BlocksOf(base, AsIndices(packed))[c])
  {
  }

  /** With a table of `Simple` entries only, the palette `all_simple` emits is `EntryBlocks`. */
  lemma SimpleOnlyExportsEntryBlocks(base: seq<BlockMapping>)
    requires SimpleOnly(base)
    ensures AllSimpleOf(base) == EntryBlocks(base)
  {
    AllSimpleOfSimpleTable(base);
  }

  /**
   * As written, `to_minecraft` emits `all_simple()`, which skips holes, yet
   * copies the grid's indices unchanged: after entry 1 becomes a hole, a
   * cell that names entry 2 (block `b`) decodes to entry 3's block `d`.
   */
  lemma ExportAfterHoleMisreads(a: BlockId, b: BlockId, d: BlockId)
    requires b != d
    ensures var base := [BlockMapping(a, Simple(1)), BlockMapping(a, Empty), BlockMapping(b, Simple(1)), BlockMapping(d, Simple(1))];
            var packed: seq<bv8> := [0, 2, 3];
            && IdsInRange(AsIndices(packed), base) && Counted(AsIndices(packed), base)
            && DecodeCell(Paletted(AllSimpleOf(base), packed), 1) == Some(d)
            && BlocksOf(base, AsIndices(packed))[1] == b
  {
    var base := [BlockMapping(a, Simple(1)), BlockMapping(a, Empty), BlockMapping(b, Simple(1)), BlockMapping(d, Simple(1))];
    var packed: seq<bv8> := [0, 2, 3];
    assert AsIndices(packed) == [0, 2, 3];
    assert AllSimpleOf(base[..1]) == [a] by {
      assert base[..1][..0] == [];
    }
    assert AllSimpleOf(base[..2]) == [a] by {
      assert base[..2][..1] == base[..1];
    }
    assert AllSimpleOf(base[..3]) == [a, b] by {
      assert base[..3][..2] == base[..2];
    }
    assert AllSimpleOf(base) == [a, b, d] by {
      assert base[..3] == base[..|base| - 1];
    }
  }

  /** `Chunk16`. */
  class Chunk16 {
    var grid: Chunk16Grid
    const palette: Palette
    var numNonAirBlocks: nat
    const zeroCoordinate: Coordinate
    /** The registry's air test. */
    const isAir: BlockId -> bool

    /**
     * `new`: a uniform section of `fillValue` at width 0, whose single
     * `Simple` entry counts all 4096 cells; the counter is 0 for air and
     * 4096 otherwise.
     */
    constructor New(location: Coordinate, fillValue: BlockId, isAir: BlockId -> bool)
      ensures Consistent() && fresh(palette)
      ensures grid.B0? && zeroCoordinate == location && this.isAir == isAir
      ensures palette.base == [BlockMapping(fillValue, Simple(CELLS))] && palette.Len() == 1
      ensures Blocks() == seq(CELLS, _ => fillValue)
      ensures numNonAirBlocks == if isAir(fillValue) then 0 else CELLS
    {
      grid := B0;
      palette := new Palette.Fill(fillValue);
      zeroCoordinate := location;
      this.isAir := isAir;
      numNonAirBlocks := if isAir(fillValue) then 0 else 16 * 16 * 16;
      new;
      ZerosMultiset(CELLS);
      NonAirCountUniform(CELLS, fillValue, isAir);
      assert BlocksOf(palette.base, CellIds()) == seq(CELLS, _ => fillValue);
    }

    /** The grid's storage. */
    function GridArrays(): set<object>
      reads this`grid
    {
      match grid
      case B32(a) => {a}
      case B8(a) => {a}
      case B4(a) => {a}
      case B2(a) => {a}
      case B0 => {}
    }

    function Width(): Width
      reads this`grid
    {
      WidthOf(grid)
    }

    /** The grid's arrays have the layout's size. */
    ghost predicate Shaped()
      reads this`grid
    {
      match grid
      case B32(a) => a.Length == CELLS
      case B8(a) => a.Length == CELLS
      case B4(a) => a.Length == CELLS / 2
      case B2(a) => a.Length == CELLS / 4
      case B0 => true
    }

    /** The shape invariant: a valid table, arrays of the layout's size, a 16-bit counter. */
    ghost predicate Valid()
      reads this, palette, GridArrays()
    {
      && palette.Valid()
      && Shaped()
      && numNonAirBlocks <= U16_MAX
    }

    /** The palette index of every cell of a paletted layout. */
    ghost function CellIds(): (ids: seq<nat>)
      reads this`grid, GridArrays()
      requires Shaped() && !grid.B32?
      ensures |ids| == CELLS
    {
      match grid
      case B8(a) => AsIndices(UnpackB8(a[..]))
      case B4(a) => AsIndices(UnpackB4(a[..]))
      case B2(a) => AsIndices(UnpackB2(a[..]))
      case B0 => seq(CELLS, _ => 0)
    }

    /** The palette discipline of a paletted layout. */
    ghost predicate Consistent()
      reads this, palette, GridArrays()
    {
      && Valid()
      && !grid.B32?
      && Disciplined(CellIds(), palette.base, palette.size, Width(), numNonAirBlocks, isAir)
    }

    /** The block of every cell of a consistent chunk. */
    ghost function Blocks(): (blocks: seq<BlockId>)
      reads this, palette, GridArrays()
      requires Consistent()
      ensures |blocks| == CELLS
    {
      BlocksOf(palette.base, CellIds())
    }

    /** The palette index a cell's read goes through, if any (a direct 32-bit cell has none). */
    function CellIndexRead(c: nat): (r: Option<nat>)
      reads this`grid, GridArrays()
      requires Shaped() && c < CELLS
    {
      match grid
      case B32(a) => if IsDirect(a[c]) then None else Some(AsMapped(a[c]) as nat)
      case B8(a) => Some(a[c] as nat)
      case B4(a) => Some(Nibble(a[c / 2], c % 2 == 1) as nat)
      case B2(a) => Some(Crumb(a[c / 4], c % 4) as nat)
      case B0 => Some(0)
    }

    /** A read of cell `c` does not panic: it is direct, or its index names a live entry. */
    ghost predicate IndexReadable(c: nat)
      reads this, palette, GridArrays()
      requires Valid() && c < CELLS
    {
      var r := CellIndexRead(c);
      r.Some? ==> r.value < |palette.base| && IsLive(palette.base[r.value])
    }

    /** `IndexReadable` for the cell at `coord`. */
    ghost predicate CellReadable(coord: Voxels.ICoordinate)
      reads this, palette, GridArrays()
      requires Valid() && InSection(coord)
    {
      IndexReadable(CellIndex(coord))
    }

    /**
     * In a consistent chunk every cell can be read, and `get_voxel_internal`
     * gives the palette entry of the cell's id, whose block is the cell's.
     */
    lemma ConsistentCellsAreReadable(coord: Voxels.ICoordinate)
      requires Consistent() && InSection(coord)
      ensures CellReadable(coord)
      ensures CellIndexRead(CellIndex(coord)) == Some(CellIds()[CellIndex(coord)])
      ensures GetVoxelInternal(coord) == palette.Get(CellIds()[CellIndex(coord)])
      ensures GetVoxelInternal(coord).GetBlockId() == Blocks()[CellIndex(coord)]
    {
      ReadsGoThroughCellIds(CellIndex(coord));
    }

    /** `ConsistentCellsAreReadable`, for a chunk that may not be consistent. */
    lemma ConsistentReadsGiveBlocks(coord: Voxels.ICoordinate)
      requires Valid() && InSection(coord)
      ensures Consistent() ==> CellReadable(coord) && GetVoxelInternal(coord).GetBlockId() == Blocks()[CellIndex(coord)]
    {
      if Consistent() {
        ConsistentCellsAreReadable(coord);
      }
    }

    /** In a consistent chunk a cell's read goes through its id, which names a live entry of the cell's block. */
    lemma ReadsGoThroughCellIds(c: nat)
      requires Consistent() && c < CELLS
      ensures CellIndexRead(c) == Some(CellIds()[c])
      ensures CellIds()[c] < |palette.base| && IsLive(palette.base[CellIds()[c]])
      ensures Blocks()[c] == palette.base[CellIds()[c]].blockId
    {
      ReadIsCellId(c);
      ReferencedIsLive(CellIds(), palette.base, c);
    }

    /** `from_internal`: the world coordinate of an index coordinate, `internal_step` apart. */
    function FromInternal(coord: Voxels.ICoordinate, internalStep: int): (r: Coordinate)
      ensures r.Sub(zeroCoordinate) == Voxels.Coordinate(coord.x, coord.y, coord.z).Scale(internalStep)
    {
      zeroCoordinate.Add(Voxels.Coordinate(coord.x, coord.y, coord.z).Scale(internalStep))
    }

    /**
     * `to_internal` as written: the relative coordinate is rejected when a
     * component is negative or greater than 16, so 16 itself is accepted.
     */
    function ToInternalAsWritten(coord: Coordinate): (r: Result<Voxels.ICoordinate, VoxelIndexError>)
      ensures var rel := coord.Sub(zeroCoordinate);
              r.Ok? <==> 0 <= rel.x <= 16 && 0 <= rel.y <= 16 && 0 <= rel.z <= 16
      ensures r.Ok? ==> FromInternal(r.value, 1) == coord
      ensures r.Err? ==> r.error == VoxelIndexError(coord)
    {
      var rel := coord.Sub(zeroCoordinate);
      if rel.x < 0 || rel.x > 16 || rel.y < 0 || rel.y > 16 || rel.z < 0 || rel.z > 16 then
        Err(VoxelIndexError(coord))
      else
        Ok(Voxels.ICoordinate(rel.x, rel.y, rel.z))
    }

    /** The coordinate one past the section's last cell along x passes the as-written check, yet is no cell. */
    lemma ToInternalAcceptsSixteen()
      ensures var r := ToInternalAsWritten(zeroCoordinate.Add(Voxels.Coordinate(16, 0, 0)));
              r.Ok? && !InSection(r.value)
    {
    }

    /** `to_internal` with the section's range [0, 16) on every axis. */
    function ToInternal(coord: Coordinate): (r: Result<Voxels.ICoordinate, VoxelIndexError>)
      ensures var rel := coord.Sub(zeroCoordinate);
              r.Ok? <==> 0 <= rel.x < 16 && 0 <= rel.y < 16 && 0 <= rel.z < 16
      ensures r.Ok? ==> InSection(r.value) && FromInternal(r.value, 1) == coord
      ensures r.Err? ==> r.error == VoxelIndexError(coord)
    {
      var rel := coord.Sub(zeroCoordinate);
      if rel.x < 0 || rel.x >= 16 || rel.y < 0 || rel.y >= 16 || rel.z < 0 || rel.z >= 16 then
        Err(VoxelIndexError(coord))
      else
        Ok(Voxels.ICoordinate(rel.x, rel.y, rel.z))
    }

    /** Every cell's world coordinate maps back to that cell. */
    lemma ToInternalInvertsFromInternal(coord: Voxels.ICoordinate)
      requires InSection(coord)
      ensures ToInternal(FromInternal(coord, 1)) == Ok(coord)
    {
      var w := FromInternal(coord, 1);
      assert w.Sub(zeroCoordinate) == Voxels.Coordinate(coord.x, coord.y, coord.z);
    }

    /** In a paletted layout the index a read goes through is the cell's id. */
    lemma ReadIsCellId(c: nat)
      requires Shaped() && c < CELLS
      ensures !grid.B32? ==> CellIndexRead(c) == Some(CellIds()[c])
    {
      match grid {
        case B32(_) =>
        case B8(a) => ReadB8(a[..], c);
        case B4(a) => ReadB4(a[..], c);
        case B2(a) => ReadB2(a[..], c);
        case B0 =>
      }
    }

    /**
     * `get_voxel_internal`: a direct 32-bit cell is its own block id; every
     * other cell's index is looked up in the palette.  What the read gives
     * in a consistent chunk is `ConsistentCellsAreReadable`.
     */
    function GetVoxelInternal(coord: Voxels.ICoordinate): (r: Voxels.VoxelRef)
      reads this, palette, GridArrays()
      requires Valid() && InSection(coord) && CellReadable(coord)
    {
      var c := CellIndex(coord);
      match CellIndexRead(c)
      case None => Voxels.Inferred(AsDirect(grid.entries[c]) as int)
      case Some(id) => palette.Get(id)
    }

    /** `get_voxel`: a coordinate outside the section is an error. */
    function GetVoxel(coord: Coordinate): (r: Result<Voxels.VoxelRef, VoxelIndexError>)
      reads this, palette, GridArrays()
      requires Valid() && (ToInternal(coord).Ok? ==> CellReadable(ToInternal(coord).value))
      ensures r.Err? <==> ToInternal(coord).Err?
      ensures r.Ok? && Consistent() ==> r.value.GetBlockId() == Blocks()[CellIndex(ToInternal(coord).value)]
    {
      match ToInternal(coord)
      case Err(e) => Err(e)
      case Ok(ic) =>
        ConsistentReadsGiveBlocks(ic);
        Ok(GetVoxelInternal(ic))
    }

    /**
     * `upgrade`: move to the next wider layout, keeping every cell's index;
     * the widest layout stays.  From 8 bits, a cell whose entry is `Simple`
     * becomes a direct cell holding the index (see `UpgradedEntry`), any
     * other a mapped cell; a cell naming a hole panics in `get`.
     */
    method Upgrade() returns (outcome: Outcome)
      requires Valid()
      modifies this
      ensures Valid() && numNonAirBlocks == old(numNonAirBlocks)
      ensures grid == old(grid) || fresh(GridArrays())
      ensures old(grid).B32? ==> grid == old(grid) && outcome == Done
      ensures !old(grid).B32? && !old(grid).B8? ==>
                outcome == Done && Width() == Wider(old(Width())) && CellIds() == old(CellIds())
      ensures old(grid).B8? ==>
                (outcome == Done <==> forall c :: 0 <= c < CELLS ==>
                   old(grid).bytes[c] as int < |palette.base| && IsLive(palette.base[old(grid).bytes[c] as int]))
      ensures old(grid).B8? && outcome == Done ==>
                grid.B32? && forall c :: 0 <= c < CELLS ==>
                  grid.entries[c] == UpgradedEntry(old(grid).bytes[c], palette.Get(old(grid).bytes[c] as int))
      ensures old(grid).B8? && outcome == Panic ==> grid == old(grid)
    {
      match grid {
        case B32(_) =>
          return Done;
        case B8(a) =>
          var newGrid;
          outcome, newGrid := WidenB8ToB32(a, palette);
          if outcome == Done {
            grid := B32(newGrid);
          }
        case B4(a) =>
          var newGrid := WidenB4ToB8(a);
          grid := B8(newGrid);
          return Done;
        case B2(a) =>
          var newGrid := WidenB2ToB4(a);
          grid := B4(newGrid);
          return Done;
        case B0 =>
          // every cell of a uniform section is index 0
          var newGrid := new bv8[CELLS / 4](_ => 0);
          ZeroByteHoldsZeros();
          assert UnpackB2(newGrid[..]) == seq(CELLS, _ => 0);
          grid := B2(newGrid);
          return Done;
      }
    }

    /**
     * `downgrade`: compact the palette with `remove_holes`, then move to the
     * next narrower layout, sending every cell's index through the returned
     * map; from 2 bits the section becomes uniform and `set_to_zero` keeps
     * the one live entry.  A cell whose index is past the map panics.
     */
    method Downgrade() returns (outcome: Outcome)
      requires Valid() && |palette.base| < U16_MAX
      modifies this, palette
      ensures Valid() && numNonAirBlocks == old(numNonAirBlocks)
      ensures grid == old(grid) || fresh(GridArrays())
      ensures palette.nbtVoxels == old(palette.nbtVoxels) && palette.size == old(palette.size)
      ensures !old(grid).B2? ==> palette.base == Compacted(old(palette.base))
      ensures old(grid).B0? ==> outcome == Done && grid == old(grid)
      ensures old(grid).B32? ==>
                (outcome == Done <==> KeysInRange(EntryKeys(old(grid.entries[..])), |old(palette.base)|))
      ensures old(grid).B32? && outcome == Done ==>
                grid.B8? && UnpackB8(grid.bytes[..]) == Remapped(EntryKeys(old(grid.entries[..])), OldToNew(old(palette.base)))
      ensures old(grid).B8? ==>
                (outcome == Done <==> KeysInRange(AsIndices(old(grid.bytes[..])), |old(palette.base)|))
      ensures old(grid).B8? && outcome == Done ==>
                grid.B4? && grid.bytes[..] == NarrowedB4AsWritten(Remapped(AsIndices(old(grid.bytes[..])), OldToNew(old(palette.base))))
      ensures old(grid).B4? ==>
                (outcome == Done <==> KeysInRange(AsIndices(old(UnpackB4(grid.bytes[..]))), |old(palette.base)|))
      ensures old(grid).B4? && outcome == Done ==>
                grid.B2? && forall c :: 0 <= c < CELLS ==>
                  UnpackB2(grid.bytes[..])[c]
                  == Remapped(AsIndices(old(UnpackB4(grid.bytes[..]))), OldToNew(old(palette.base)))[c] & 0x03
      ensures old(grid).B2? ==> grid.B0?
      ensures old(grid).B2? ==>
                (outcome == Done <==> old(palette.size) == 1 && LiveCount(old(palette.base)) >= 1)
      ensures old(grid).B2? && outcome == Done ==> |palette.base| == 1 && IsLive(palette.base[0])
    {
      var mapping := palette.RemoveHoles();
      match grid {
        case B32(a) =>
          var newGrid;
          outcome, newGrid := NarrowB32ToB8(a, mapping);
          if outcome == Done {
            grid := B8(newGrid);
          }
        case B8(a) =>
          var newGrid;
          outcome, newGrid := NarrowB8ToB4(a, mapping);
          if outcome == Done {
            grid := B4(newGrid);
          }
        case B4(a) =>
          var newGrid;
          outcome, newGrid := NarrowB4ToB2(a, mapping);
          if outcome == Done {
            grid := B2(newGrid);
          }
        case B2(_) =>
          grid := B0;
          LiveCountOfCompacted(old(palette.base));
          if |palette.base| == 1 {
            assert palette.base[..0] == [];
          }
          if !(palette.size == 1 && (|palette.base| == 1 || LiveCount(palette.base) >= 1)) {
            // `set_to_zero` asserts a length of 1 and finds a live entry
            return Panic;
          }
          palette.SetToZero();
          outcome := Done;
        case B0 =>
          outcome := Done;
      }
    }

    /** The table fits the paletted layout and the counter counts at most every cell. */
    ghost predicate Fits()
      reads this, palette
    {
      && !grid.B32?
      && |palette.base| <= MaxPaletteLen(Width())
      && palette.size <= MaxPaletteLen(Width())
      && numNonAirBlocks <= CELLS
    }

    /** The write stays in the paletted layouts: not 32 bits, and no growth past 8 bits. */
    ghost predicate StaysPaletted(voxel: Voxels.Voxel)
      reads this, palette
    {
      && !grid.B32?
      && (grid.B8? ==> palette.size + (if AddsEntry(palette.base, voxel) then 1 else 0) <= MaxPaletteLen(W8))
    }

    /**
     * The 8-, 4- and 2-bit arms of `set_voxel_internal`: the cell's index
     * becomes `new_id` cut to the layout's bits, and the old index is
     * returned; width 0 writes nothing and returns index 0.
     */
    method WritePaletted(c: nat, newId: nat) returns (oldId: nat)
      requires Valid() && !grid.B32? && c < CELLS
      modifies GridArrays()
      ensures Valid() && unchanged(this) && unchanged(palette)
      ensures newId < MaxPaletteLen(Width()) ==> CellIds() == old(CellIds())[c := newId]
      ensures oldId == old(CellIds())[c]
    {
      SmallIdsSurviveTruncation(newId);
      match grid {
        case B8(a) =>
          oldId := WriteCellB8(a, c, newId);
          AsIndicesUpdate(old(UnpackB8(a[..])), c, AsU8(newId));
        case B4(a) =>
          oldId := WriteCellB4(a, c, newId);
          AsIndicesUpdate(old(UnpackB4(a[..])), c, AsU8(newId) & 0x0F);
        case B2(a) =>
          oldId := WriteCellB2(a, c, newId);
          AsIndicesUpdate(old(UnpackB2(a[..])), c, AsU8(newId) & 0x03);
        case B0 =>
          oldId := 0;
      }
    }

    /**
     * The cell write of the 32-bit arm of `set_voxel_internal`: the old
     * index of a direct cell is found by block id (`find` panics when no
     * entry has it), then the cell becomes `WrittenEntry`; a simple block
     * id with the tag bit set fails `make_direct`'s assertion.  The palette
     * and the other cells stay as they were.
     */
    method WriteB32(c: nat, entries: array<ChunkB32Entry>, newId: nat, voxelBlockId: BlockId, voxelIsSimple: bool)
      returns (outcome: Outcome, oldId: nat)
      requires Valid() && grid == B32(entries) && c < CELLS
      modifies entries
      ensures Valid() && unchanged(this) && unchanged(palette)
      ensures var e := old(entries[c]);
              outcome == Done <==>
                && (IsDirect(e) ==> FirstIndexOf(palette.base, AsDirect(e) as int).Some?)
                && (voxelIsSimple ==> (voxelBlockId as bv32) & CHUNK_B32_ENTRY_FLAG_BIT == 0)
      ensures outcome == Done ==>
                && entries[..] == old(entries[..])[c := WrittenEntry(newId, voxelBlockId, voxelIsSimple)]
                && var e := old(entries[c]);
                   if IsDirect(e) then FirstIndexOf(palette.base, AsDirect(e) as int) == Some(oldId)
                   else oldId == AsMapped(e) as nat
      ensures outcome == Panic ==> entries[..] == old(entries[..])
    {
      var entry := entries[c];
      if IsDirect(entry) {
        if FirstIndexOf(palette.base, AsDirect(entry) as int).None? {
          // `find` reaches `unreachable!`
          return Panic, 0;
        }
        oldId := palette.Find(AsDirect(entry) as int);
      } else {
        oldId := AsMapped(entry) as nat;
      }
      if voxelIsSimple && (voxelBlockId as bv32) & CHUNK_B32_ENTRY_FLAG_BIT != 0 {
        // `make_direct` asserts that the tag bit is clear
        return Panic, oldId;
      }
      entries[c] := WrittenEntry(newId, voxelBlockId, voxelIsSimple);
      outcome := Done;
    }

    /**
     * The tail of a write into the widest layout: a palette left with one
     * entry collapses the section to width 0 (`set_to_zero`); one under the
     * layout's minimum shrinks it one step (`downgrade`, from 32 bits to 8);
     * otherwise nothing moves.  The contract holds for every layout.
     */
    method Rebalance() returns (outcome: Outcome)
      requires Valid() && |palette.base| < U16_MAX
      modifies this, palette
      ensures Valid() && numNonAirBlocks == old(numNonAirBlocks)
      ensures grid == old(grid) || fresh(GridArrays())
      ensures palette.nbtVoxels == old(palette.nbtVoxels) && palette.size == old(palette.size)
      ensures old(palette.size) == 1 ==>
                && grid.B0?
                && (outcome == Done <==> |old(palette.base)| == 1 || LiveCount(old(palette.base)) >= 1)
                && (outcome == Done ==> |palette.base| == 1)
                && (outcome == Done && |old(palette.base)| == 1 ==> palette.base == old(palette.base))
                && (outcome == Done && |old(palette.base)| != 1 ==>
                      palette.base == Compacted(old(palette.base)) && IsLive(palette.base[0]))
      ensures old(palette.size) != 1 && old(palette.size) < MinPaletteLen(old(Width())) ==>
                palette.base == Compacted(old(palette.base))
      ensures old(palette.size) != 1 && old(palette.size) < MinPaletteLen(old(Width())) && old(grid).B32? ==>
                && (outcome == Done <==> KeysInRange(EntryKeys(old(grid.entries[..])), |old(palette.base)|))
                && (outcome == Done ==>
                      grid.B8? && UnpackB8(grid.bytes[..]) == Remapped(EntryKeys(old(grid.entries[..])), OldToNew(old(palette.base))))
      ensures old(palette.size) != 1 && old(palette.size) >= MinPaletteLen(old(Width())) ==>
                outcome == Done && grid == old(grid) && palette.base == old(palette.base)
    {
      if palette.Len() == 1 {
        grid := B0;
        if !(|palette.base| == 1 || LiveCount(palette.base) >= 1) {
          // `set_to_zero` finds no live entry
          return Panic;
        }
        palette.SetToZero();
      } else if palette.Len() < MinPaletteLen(Width()) {
        outcome := Downgrade();
        return;
      }
      outcome := Done;
    }

    /**
     * The first half of `set_voxel_internal`: count the new voxel if it is
     * not air, add it to the palette, and grow the layout one step if
     * `len()` passed its capacity.  A chunk that stays paletted keeps every
     * cell's index and has room for the new one.
     */
    method AddAndFit(voxel: Voxels.Voxel, coord: Voxels.ICoordinate) returns (outcome: Outcome, newId: nat)
      requires Valid() && |palette.base| + 1 < U16_MAX
      modifies this, palette
      ensures Valid() && |palette.base| < U16_MAX
      ensures grid == old(grid) || fresh(GridArrays())
      ensures outcome == Done ==> numNonAirBlocks == old(numNonAirBlocks) + (if isAir(voxel.blockId) then 0 else 1)
      ensures outcome == Done ==>
                && palette.base == VoxelAdded(old(palette.base), old(palette.nbtVoxels), voxel)
                && newId == VoxelAddedId(old(palette.base), voxel)
                && palette.size == old(palette.size) + (if AddsEntry(old(palette.base), voxel) then 1 else 0)
      ensures old(Fits() && StaysPaletted(voxel)) ==>
                && outcome == Done && !grid.B32? && CellIds() == old(CellIds())
                && (Width() == old(Width()) || Width() == Wider(old(Width())))
                && newId < MaxPaletteLen(Width())
                && |palette.base| <= MaxPaletteLen(Width()) && palette.size <= MaxPaletteLen(Width())
    {
      ghost var fits := Fits() && StaysPaletted(voxel);
      ghost var base0 := palette.base;
      ghost var nbts0 := palette.nbtVoxels;
      ghost var size0 := palette.size;
      ghost var w0 := Width();
      outcome, newId := AddEntry(voxel, coord);
      if outcome == Panic {
        return;
      }
      VoxelAddedFacts(base0, nbts0, voxel);
      if fits {
        AddKeepsCapacity(base0, nbts0, voxel, size0, w0);
      }
      outcome := Fit();
    }

    /** Count the new voxel if it is not air (the 16-bit counter may overflow) and add it to the palette. */
    method AddEntry(voxel: Voxels.Voxel, coord: Voxels.ICoordinate) returns (outcome: Outcome, newId: nat)
      requires Valid() && |palette.base| + 1 < U16_MAX
      modifies this, palette
      ensures Valid() && |palette.base| < U16_MAX && grid == old(grid)
      ensures !grid.B32? ==> CellIds() == old(CellIds())
      ensures outcome == Done ==> numNonAirBlocks == old(numNonAirBlocks) + (if isAir(voxel.blockId) then 0 else 1)
      ensures outcome == Done ==>
                && palette.base == VoxelAdded(old(palette.base), old(palette.nbtVoxels), voxel)
                && newId == VoxelAddedId(old(palette.base), voxel)
                && palette.size == old(palette.size) + (if AddsEntry(old(palette.base), voxel) then 1 else 0)
      ensures old(numNonAirBlocks) < U16_MAX ==> outcome == Done
    {
      if !isAir(voxel.blockId) {
        if numNonAirBlocks == U16_MAX {
          // the 16-bit counter overflows
          return Panic, 0;
        }
        numNonAirBlocks := numNonAirBlocks + 1;
      }
      newId := palette.AddVoxel(voxel, coord);
      outcome := Done;
    }

    /** Grow the layout one step when `len()` passed its capacity. */
    method Fit() returns (outcome: Outcome)
      requires Valid()
      modifies this
      ensures Valid() && numNonAirBlocks == old(numNonAirBlocks)
      ensures grid == old(grid) || fresh(GridArrays())
      ensures palette.size <= MaxPaletteLen(old(Width())) ==> outcome == Done && grid == old(grid)
      ensures palette.size > MaxPaletteLen(old(Width())) && !old(grid).B32? && !old(grid).B8? ==>
                outcome == Done && Width() == Wider(old(Width())) && CellIds() == old(CellIds())
    {
      outcome := Done;
      if palette.Len() > MaxPaletteLen(Width()) {
        outcome := Upgrade();
      }
    }

    /**
     * The last step of `set_voxel_internal`: release the old index (a hole
     * or an index past the table panics in `remove`) and uncount its block
     * if it was not air.
     */
    method Release(oldId: nat) returns (outcome: Outcome)
      requires Valid()
      modifies this, palette
      ensures Valid() && grid == old(grid) && unchanged(GridArrays())
      ensures !grid.B32? ==> CellIds() == old(CellIds())
      ensures outcome == Done <==>
                oldId < |old(palette.base)| && IsLive(old(palette.base)[oldId])
                && (isAir(old(palette.base)[oldId].blockId) || old(numNonAirBlocks) > 0)
      ensures outcome == Done ==>
                && palette.base == old(palette.base)[oldId := Decremented(old(palette.base)[oldId])]
                && palette.size <= old(palette.size)
                && numNonAirBlocks == old(numNonAirBlocks) - (if isAir(old(palette.base)[oldId].blockId) then 0 else 1)
    {
      if !(oldId < |palette.base| && IsLive(palette.base[oldId])) {
        // `remove` of a hole, or of an index past the table, panics
        return Panic;
      }
      var oldBlockId := palette.Remove(oldId);
      if !isAir(oldBlockId) {
        if numNonAirBlocks == 0 {
          // the 16-bit counter underflows
          return Panic;
        }
        numNonAirBlocks := numNonAirBlocks - 1;
      }
      outcome := Done;
    }

    /** `remove(oldId)` succeeds and the counter does not underflow: what `Release` needs to end normally. */
    ghost predicate Releasable(oldId: nat)
      reads this, palette
    {
      oldId < |palette.base| && IsLive(palette.base[oldId])
      && (isAir(palette.base[oldId].blockId) || numNonAirBlocks > 0)
    }

    /**
     * The tail of the 32-bit arm in the order that keeps the old index
     * valid: release it on the table it was read from, then collapse or
     * shrink.  The entry released is the one the cell held, whatever
     * compaction then renumbers.
     */
    method ReleaseThenRebalance(oldId: nat) returns (outcome: Outcome)
      requires Valid() && |palette.base| < U16_MAX
      modifies this, palette
      ensures Valid()
      ensures grid == old(grid) || fresh(GridArrays())
      ensures !old(Releasable(oldId)) ==> outcome == Panic && grid == old(grid)
      ensures old(Releasable(oldId)) ==>
                var freed := old(palette.base)[oldId := Decremented(old(palette.base)[oldId])];
                && numNonAirBlocks == old(numNonAirBlocks) - (if isAir(old(palette.base)[oldId].blockId) then 0 else 1)
                && (palette.size == 1 ==>
                      grid.B0? && (outcome == Done <==> |freed| == 1 || LiveCount(freed) >= 1))
                && (palette.size == 1 && outcome == Done ==>
                      palette.base == (if |freed| == 1 then freed else Compacted(freed)))
                && (palette.size != 1 && palette.size < MinPaletteLen(old(Width())) ==>
                      palette.base == Compacted(freed))
                && (palette.size != 1 && palette.size >= MinPaletteLen(old(Width())) ==>
                      outcome == Done && grid == old(grid) && palette.base == freed)
    {
      outcome := Release(oldId);
      if outcome == Panic {
        return;
      }
      outcome := Rebalance();
    }

    /**
     * The second half of `set_voxel_internal`: point cell `c` at `newId`,
     * then `remove` the index the cell held and uncount its block if it was
     * not air.
     */
    method Repoint(c: nat, newId: nat, voxelBlockId: BlockId, voxelIsSimple: bool) returns (outcome: Outcome)
      requires Valid() && c < CELLS && |palette.base| < U16_MAX
      modifies this, palette, GridArrays()
      ensures Valid()
      ensures grid == old(grid) || fresh(GridArrays())
      ensures old(!grid.B32? && newId < MaxPaletteLen(Width())) ==>
                var o := old(CellIds())[c];
                && grid == old(grid) && CellIds() == old(CellIds())[c := newId]
                && (outcome == Done <==>
                      o < |old(palette.base)| && IsLive(old(palette.base)[o])
                      && (isAir(old(palette.base)[o].blockId) || old(numNonAirBlocks) > 0))
                && (outcome == Done ==>
                      && palette.base == old(palette.base)[o := Decremented(old(palette.base)[o])]
                      && palette.size <= old(palette.size)
                      && numNonAirBlocks == old(numNonAirBlocks) - (if isAir(old(palette.base)[o].blockId) then 0 else 1))
    {
      var oldId: nat;
      if grid.B32? {
        outcome, oldId := WriteB32(c, grid.entries, newId, voxelBlockId, voxelIsSimple);
        if outcome == Panic {
          return;
        }
        outcome := Rebalance();
        if outcome == Panic {
          return;
        }
      } else {
        oldId := WritePaletted(c, newId);
      }
      outcome := Release(oldId);
    }

    /**
     * `set_voxel_internal`: count the new voxel if it is not air, add it to
     * the palette, grow the layout one step if `len()` passed its capacity,
     * point the cell at the new index, release the cell's old index, and
     * uncount the old block if it was not air.
     *
     * On a consistent chunk that stays paletted exactly the one cell changes
     * block, the counts stay exact, and the counter moves by the two air
     * tests.  The counter is 16 bits wide: passing its range panics, as a
     * checked build does.
     */
    method SetVoxelInternal(coord: Voxels.ICoordinate, voxel: Voxels.Voxel) returns (outcome: Outcome)
      requires Valid() && InSection(coord) && |palette.base| + 1 < U16_MAX
      modifies this, palette, GridArrays()
      ensures Valid()
      ensures grid == old(grid) || fresh(GridArrays())
      ensures old(Consistent() && StaysPaletted(voxel)) ==>
                && outcome == Done && Consistent()
                && Blocks() == old(Blocks())[CellIndex(coord) := voxel.blockId]
                && numNonAirBlocks == old(numNonAirBlocks) + (if isAir(voxel.blockId) then 0 else 1)
                                      - (if isAir(old(Blocks())[CellIndex(coord)]) then 0 else 1)
                && CellReadable(coord) && GetVoxelInternal(coord).GetBlockId() == voxel.blockId
                && (Width() == old(Width()) || Width() == Wider(old(Width())))
    {
      var c := CellIndex(coord);
      ghost var paletted := Consistent() && StaysPaletted(voxel);
      ghost var base0 := palette.base;
      ghost var nbts0 := palette.nbtVoxels;
      ghost var size0 := palette.size;
      ghost var w0 := Width();
      ghost var count0 := numNonAirBlocks;
      ghost var ids0: seq<nat> := if paletted then CellIds() else seq(CELLS, _ => 0);
      ghost var blocks0: seq<BlockId> := if paletted then Blocks() else [];
      if paletted {
        assert Disciplined(ids0, base0, size0, w0, count0, isAir);
        assert Fits();
        SetKeepsCounts(base0, nbts0, voxel, ids0, c);
        SetKeepsNonAirCount(base0, nbts0, voxel, ids0, c, isAir);
      }
      var voxelBlockId := voxel.blockId;
      var voxelIsSimple := voxel.Simple?;

      var newId;
      outcome, newId := AddAndFit(voxel, coord);
      if outcome == Panic {
        return;
      }
      ghost var w1 := Width();
      outcome := Repoint(c, newId, voxelBlockId, voxelIsSimple);
      if paletted {
        SetEndsConsistent(base0, nbts0, voxel, ids0, c, size0, w0, count0);
        assert Blocks()[c] == voxel.blockId;
        ConsistentCellsAreReadable(coord);
      }
    }

    /**
     * The state `set_voxel_internal` leaves behind, from a disciplined state
     * given by its parts: with the grown table fitting the width, the cell
     * re-pointed and the old index released, the chunk is consistent and
     * exactly cell `c` changed block.
     */
    lemma SetEndsConsistent(base0: seq<BlockMapping>, nbts0: seq<NbtVoxel>, v: Voxels.Voxel, ids0: seq<nat>, c: nat,
                            size0: nat, w0: Width, count0: nat)
      requires Valid() && !grid.B32? && c < |ids0|
      requires Disciplined(ids0, base0, size0, w0, count0, isAir)
      requires |VoxelAdded(base0, nbts0, v)| <= MaxPaletteLen(Width()) && palette.size <= MaxPaletteLen(Width())
      requires ids0[c] < |VoxelAdded(base0, nbts0, v)|
      requires CellIds() == ids0[c := VoxelAddedId(base0, v)]
      requires var base1 := VoxelAdded(base0, nbts0, v);
               palette.base == base1[ids0[c] := Decremented(base1[ids0[c]])]
      requires numNonAirBlocks == count0 + (if isAir(v.blockId) then 0 else 1)
                                  - (if isAir(BlocksOf(base0, ids0)[c]) then 0 else 1)
      ensures Consistent() && Blocks() == BlocksOf(base0, ids0)[c := v.blockId]
    {
      SetKeepsDiscipline(base0, nbts0, v, ids0, c, size0, w0, count0, isAir, palette.size, Width());
    }

    /**
     * `set_voxel`: a coordinate outside the section is an error that changes
     * nothing; any other cell is written by `set_voxel_internal`, after
     * which `get_voxel` reports the new block there.
     */
    method SetVoxel(coord: Coordinate, voxel: Voxels.Voxel) returns (r: Result<Outcome, VoxelIndexError>)
      requires Valid() && |palette.base| + 1 < U16_MAX
      modifies this, palette, GridArrays()
      ensures Valid()
      ensures r.Err? <==> ToInternal(coord).Err?
      ensures r.Err? ==> r.error == VoxelIndexError(coord) && unchanged(this, palette) && unchanged(GridArrays())
      ensures r.Ok? && old(Consistent() && StaysPaletted(voxel)) ==>
                var c := CellIndex(ToInternal(coord).value);
                && r.value == Done && Consistent()
                && Blocks() == old(Blocks())[c := voxel.blockId]
                && CellReadable(ToInternal(coord).value)
                && GetVoxel(coord).Ok? && GetVoxel(coord).value.GetBlockId() == voxel.blockId
    {
      match ToInternal(coord)
      case Err(e) =>
        r := Err(e);
      case Ok(ic) =>
        var outcome := SetVoxelInternal(ic, voxel);
        r := Ok(outcome);
    }

    /** The ids of a 2-, 4- or 8-bit grid, one per cell. */
    ghost function PackedIds(): (ids: seq<bv8>)
      reads this`grid, GridArrays()
      requires Shaped() && (grid.B8? || grid.B4? || grid.B2?)
      ensures |ids| == CELLS && AsIndices(ids) == CellIds()
    {
      match grid
      case B8(a) => UnpackB8(a[..])
      case B4(a) => UnpackB4(a[..])
      case B2(a) => UnpackB2(a[..])
    }

    /** The word `to_minecraft` sends for cell `c` of the 32-bit layout: a direct cell's value, or a mapped cell's block. */
    ghost function RawWord(c: nat): bv32
      reads this, palette, GridArrays()
      requires Valid() && grid.B32? && c < CELLS && IndexReadable(c)
    {
      match CellIndexRead(c)
      case None => AsDirect(grid.entries[c])
      case Some(id) => palette.base[id].blockId as bv32
    }

    /**
     * `from_raw_palette`: the protocol palette's ids are added in order with
     * `add_simple`, and the grid is read at the width the palette's length
     * asks for (see `RawPaletteWidth`), each id cut to that width.  The
     * non-air counter starts at 0 and each entry counts one cell whatever the
     * grid holds, so the result is in general not `Consistent()`.
     */
    constructor FromRawPalette(slice: seq<bv8>, ids: seq<BlockId>, location: Coordinate, isAir: BlockId -> bool)
      requires |slice| >= CELLS
      ensures Valid() && fresh(palette) && fresh(GridArrays())
      ensures palette.base == SimpleAddedAll(ids) && palette.nbtVoxels == []
      ensures Width() == RawPaletteWidth(|ids|)
      ensures PackedIds() == CutTo(slice, Width())
      ensures numNonAirBlocks == 0 && zeroCoordinate == location && this.isAir == isAir
    {
      var solPalette := new Palette.New();
      for i := 0 to |ids|
        invariant solPalette.Valid() && solPalette.base == SimpleAddedAll(ids[..i]) && solPalette.nbtVoxels == []
      {
        var _ := solPalette.AddSimple(ids[i]);
        assert ids[..i + 1][..i] == ids[..i];
      }
      assert ids[..|ids|] == ids;
      palette := solPalette;
      if |ids| < 4 {
        var a := FromSliceB2(slice);
        grid := B2(a);
      } else if |ids| < 16 {
        var a := FromSliceB4(slice);
        grid := B4(a);
      } else {
        var a := FromSliceB8(slice);
        grid := B8(a);
      }
      zeroCoordinate := location;
      this.isAir := isAir;
      numNonAirBlocks := 0;
    }

    /**
     * `from_direct`: every protocol word becomes a direct cell of the 32-bit
     * layout, with an empty table and the counter at 0.  A word with the tag
     * bit set fails `make_direct`'s assertion.
     */
    constructor FromDirect(slice: seq<bv32>, location: Coordinate, isAir: BlockId -> bool)
      requires |slice| >= CELLS
      requires forall c :: 0 <= c < CELLS ==> slice[c] & CHUNK_B32_ENTRY_FLAG_BIT == 0
      ensures Valid() && fresh(palette) && fresh(GridArrays()) && grid.B32?
      ensures forall c :: 0 <= c < CELLS ==> IndexReadable(c) && RawWord(c) == slice[c]
      ensures palette.base == [] && numNonAirBlocks == 0 && zeroCoordinate == location && this.isAir == isAir
    {
      var a := FromSliceDirect(slice);
      grid := B32(a);
      palette := new Palette.New();
      zeroCoordinate := location;
      this.isAir := isAir;
      numNonAirBlocks := 0;
    }

    /**
     * `to_minecraft` (block data only): a 2-, 4- or 8-bit grid is sent as
     * `all_simple()` with the grid's ids copied cell by cell, the uniform
     * layout as the block of entry 0, and the 32-bit layout as one word per
     * cell, a mapped cell through the table.  The counter is sent as `i16`.
     * A read of a hole or past the table panics.
     *
     * When the table holds only `Simple` entries, every cell of a consistent
     * chunk decodes to its block; with holes or block entities it need not
     * (see `ExportAfterHoleMisreads`).
     */
    method ToMinecraft() returns (outcome: Outcome, mc: McChunk)
      requires Valid()
      ensures outcome == Done ==> mc.blockCount == AsI16(numNonAirBlocks)
      ensures (grid.B8? || grid.B4? || grid.B2?) ==>
                outcome == Done && mc.blocks == Paletted(AllSimpleOf(palette.base), PackedIds())
      ensures grid.B0? ==> (outcome == Done <==> IndexReadable(0))
      ensures grid.B0? && outcome == Done ==> mc.blocks == Single(palette.base[0].blockId)
      ensures grid.B32? ==> (outcome == Done <==> forall c :: 0 <= c < CELLS ==> IndexReadable(c))
      ensures grid.B32? && outcome == Done ==>
                && mc.blocks.Raw? && |mc.blocks.values| == CELLS
                && forall c :: 0 <= c < CELLS ==> IndexReadable(c) && mc.blocks.values[c] == RawWord(c)
      ensures Consistent() && SimpleOnly(palette.base) ==>
                && outcome == Done && mc.blockCount == NonAirCount(Blocks(), isAir)
                && forall c :: 0 <= c < CELLS ==> DecodeCell(mc.blocks, c) == Some(Blocks()[c] as int)
    {
      var blockCount := AsI16(numNonAirBlocks);
      match grid {
        case B32(_) =>
          var values;
          outcome, values := EmitWords();
          mc := McChunk(blockCount, Raw(values));
          return;
        case B0 =>
          if |palette.base| == 0 || palette.base[0].data.Empty? {
            return Panic, McChunk(blockCount, Single(0));
          }
          var voxel := palette.Get(0);
          mc := McChunk(blockCount, Single(voxel.GetBlockId()));
        case _ =>
          var blockIds := palette.AllSimple();
          var indices := EmitIndices();
          mc := McChunk(blockCount, Paletted(blockIds, indices));
      }
      outcome := Done;
      if Consistent() && SimpleOnly(palette.base) {
        ConsistentExportDecodes(mc.blocks);
      }
    }

    /** The index loops of `to_minecraft`: each cell's id, in cell order, low bits of a byte first. */
    method EmitIndices() returns (indices: seq<bv8>)
      requires Shaped() && (grid.B8? || grid.B4? || grid.B2?)
      ensures indices == PackedIds()
    {
      indices := [];
      match grid {
        case B8(a) =>
          for c := 0 to CELLS
            invariant indices == a[..c]
          {
            indices := indices + [a[c]];
          }
          assert a[..CELLS] == a[..];
        case B4(a) =>
          for c := 0 to CELLS
            invariant |indices| == c
            invariant forall d :: 0 <= d < c ==> indices[d] == Nibble(a[d / 2], d % 2 == 1)
          {
            indices := indices + [Nibble(a[c / 2], c % 2 == 1)];
          }
          assert indices == UnpackB4(a[..]);
        case B2(a) =>
          for c := 0 to CELLS
            invariant |indices| == c
            invariant forall d :: 0 <= d < c ==> indices[d] == Crumb(a[d / 4], d % 4)
          {
            indices := indices + [Crumb(a[c / 4], c % 4)];
          }
          assert indices == UnpackB2(a[..]);
      }
    }

    /** The 32-bit loop of `to_minecraft`: one word per cell; a mapped cell naming a hole or no entry panics. */
    method EmitWords() returns (outcome: Outcome, values: seq<bv32>)
      requires Valid() && grid.B32?
      ensures outcome == Done <==> forall c :: 0 <= c < CELLS ==> IndexReadable(c)
      ensures outcome == Done ==>
                |values| == CELLS && forall c :: 0 <= c < CELLS ==> IndexReadable(c) && values[c] == RawWord(c)
    {
      var a := grid.entries;
      values := [];
      for c := 0 to CELLS
        invariant |values| == c
        invariant forall d :: 0 <= d < c ==> IndexReadable(d) && values[d] == RawWord(d)
      {
        var elt := a[c];
        if IsMapped(elt) {
          var id := AsMapped(elt) as nat;
          if id >= |palette.base| || palette.base[id].data.Empty? {
            assert !IndexReadable(c);
            return Panic, values;
          }
          var voxel := palette.Get(id);
          values := values + [voxel.GetBlockId() as bv32];
        } else {
          values := values + [AsDirect(elt)];
        }
      }
      outcome := Done;
    }

    /**
     * In a consistent chunk whose table holds only `Simple` entries, the
     * data `to_minecraft` emits decodes to every cell's block, and the
     * counter fits `i16` unchanged.
     */
    lemma ConsistentExportDecodes(d: PalettedData)
      requires Consistent() && SimpleOnly(palette.base)
      requires grid.B0? ==> IndexReadable(0) && d == Single(palette.base[0].blockId)
      requires !grid.B0? ==> d == Paletted(AllSimpleOf(palette.base), PackedIds())
      ensures AsI16(numNonAirBlocks) == NonAirCount(Blocks(), isAir)
      ensures forall c :: 0 <= c < CELLS ==> DecodeCell(d, c) == Some(Blocks()[c] as int)
    {
      if !grid.B0? {
        SimpleOnlyExportsEntryBlocks(palette.base);
        EntryBlocksDecode(palette.base, PackedIds());
      }
    }
  }

  /** The sections `from_minecraft` reads without panicking: enough indices or words, and no raw word with the tag bit. */
  predicate SectionReadable(d: PalettedData)
  {
    match d
    case Single(_) => true
    case Paletted(_, idx) => |idx| >= CELLS
    case Raw(vs) => |vs| >= CELLS && forall c :: 0 <= c < CELLS ==> vs[c] & CHUNK_B32_ENTRY_FLAG_BIT == 0
  }

  /**
   * `from_minecraft` (block data only): a `Paletted` section is read by
   * `from_raw_palette`, a `Single` one becomes a uniform chunk, and a `Raw`
   * one is read by `from_direct`.  Too few indices or words panic at the
   * index, and a raw word with the tag bit set panics in `make_direct`.
   */
  method FromMinecraft(mc: McChunk, location: Coordinate, isAir: BlockId -> bool) returns (outcome: Outcome, chunk: Chunk16?)
    ensures outcome == Done <==> SectionReadable(mc.blocks)
    ensures outcome == Done ==>
              && chunk != null && fresh(chunk) && fresh(chunk.palette) && fresh(chunk.GridArrays())
              && chunk.Valid() && chunk.zeroCoordinate == location && chunk.isAir == isAir
    ensures outcome == Done && mc.blocks.Single? ==>
              chunk.Consistent() && chunk.Blocks() == seq(CELLS, _ => mc.blocks.value)
    ensures outcome == Done && mc.blocks.Paletted? ==>
              && chunk.palette.base == SimpleAddedAll(mc.blocks.palette)
              && chunk.Width() == RawPaletteWidth(|mc.blocks.palette|)
              && chunk.PackedIds() == CutTo(mc.blocks.indexed, chunk.Width())
    ensures outcome == Done && mc.blocks.Raw? ==>
              && chunk.grid.B32? && chunk.palette.base == []
              && forall c :: 0 <= c < CELLS ==> chunk.IndexReadable(c) && chunk.RawWord(c) == mc.blocks.values[c]
  {
    if !SectionReadable(mc.blocks) {
      return Panic, null;
    }
    var blocks := mc.blocks;
    if blocks.Paletted? {
      chunk := new Chunk16.FromRawPalette(blocks.indexed, blocks.palette, location, isAir);
    } else if blocks.Single? {
      chunk := new Chunk16.New(location, blocks.value, isAir);
    } else {
      chunk := new Chunk16.FromDirect(blocks.values, location, isAir);
    }
    outcome := Done;
  }
}
