# SparksOfLabor voxel store and player state, in Dafny

This project models the palette-compressed voxel store of SparksOfLabor's
`voxel_lib`, together with a few small pieces of player-side state from
`player`, and proves properties of that model.

**Voxel store**

- A `Palette` maps the small local ids of one 16×16×16 section to block
  ids. `Simple` entries carry a reference count. `Nbt` entries point at a
  block-entity record. `Empty` slots are holes that later additions reuse.
- A `Chunk16` section stores one local id per cell at one of five widths:
  - B0: one block fills the whole section;
  - B2 and B4: 2-bit and 4-bit ids packed into bytes;
  - B8: one byte per cell;
  - B32: one 32-bit cell that holds either a direct block id or, with the
    tag bit set, a mapped palette id.

  The section keeps a running count of its non-air blocks. It widens or
  narrows its layout as the palette grows or shrinks, against capacity
  thresholds with a hysteresis of 1. It converts to and from the
  block-game wire format (`Single`, `Paletted` or `Raw`).
- A `Chunk64` column is a 4×4×4 grid of sections. `chunk.rs` holds an
  earlier copy of the section and the column; only the parts where it
  differs are modelled (`LegacyChunk`).
- The column heightmap codec packs 256 heights into 64-bit words with a bit
  cursor, and unpacks them.
- `BaseVoxel` and the older `Block` are 32-bit words. They hold a block type
  (18 bits), a variant (8 bits) and an orientation (6 bits). The z axis of
  the orientation is stored as a 2-bit offset from the x axis.

**Player state**

- Splitting and merging item stacks.
- Hotbar selection.
- Turning a clicked block face into a neighbour offset, and the placement
  branch of the block-place handler.
- The ordering of scheduled game events, and the tick loop that drains them.

**How the code is modelled**

- There is one Dafny module per source file.
- Objects the source updates in place are classes: the palette, the
  section, the player state and the voxel words.
- The grids are arrays of bytes or of 32-bit cells, with the source's masks
  and shifts written out.
- Values that are only computed are datatypes and functions.
- A panic (`assert!`, `unwrap`, `expect`, an out-of-bounds index) is modelled
  in one of two ways:
  - as an `Outcome.Panic` result where the model follows the path through;
  - as a precondition where the source documents it as the caller's duty.
- Where the code and its own comments or tests differ, the model follows
  the code. Those places are listed under "Behaviour as written" and
  "Findings".

Files:

- `wrappers.dfy`: Option, Result, Outcome.
- `voxels.dfy`: voxels, coordinates, block ids.
- `bit_arith.dfy`: arithmetic lemmas.
- One file for each modelled source file.

## Model

| member | source | states |
|---|---|---|
| BlockBits.GetBits | voxel_lib/src/block.rs:103-109 | the extracted field never exceeds the mask of its width |
| BlockBits.WithBits | voxel_lib/src/block.rs:112-123 | reading the field back gives the value written, and every bit outside `[first, first+num)` keeps its old value |
| BlockBits.FieldsAreDisjointAndCoverTheWord | voxel_lib/src/block.rs:8-17 | the type, variant, z and x fields fit the word, are pairwise disjoint, and together cover all 32 bits |
| BlockBits.XFieldFailsDebugRangeCheck | voxel_lib/src/block.rs:104 | the x field (bits 28..32) fits the word, yet fails the debug check `first + num < 32` |
| BlockBits.AxisFromU32 | voxel_lib/src/block.rs:151-162 | ids 0..5 map to axes, and `axis_to_u32` gives the id back |
| BlockBits.AxisToU32 | voxel_lib/src/block.rs:164-175 | every axis maps to an id below 6 |
| BlockBits.AxisMapsAreInverse | voxel_lib/src/block.rs:151-175 | the two axis maps are mutually inverse bijections between 0..5 and the six axes |
| BlockBits.ZOffset | voxel_lib/src/block.rs:78 | the corrected offset `(z + 6 - x) % 6` is below 6 and, added to x modulo 6, gives z back |
| BlockBits.ZOffsetAsWritten | voxel_lib/src/block.rs:78 | the unsigned `z - x + 6` is defined exactly when x ≤ z, and underflows otherwise |
| BlockBits.PerpendicularIffNotParallel | voxel_lib/src/block.rs:79-88 | the accepted offsets {1, 2, 4, 5} are exactly the z axes that are neither x nor its opposite |
| BlockBits.ZRawFromOffset | voxel_lib/src/block.rs:83-89 | each accepted offset is stored in 2 bits and decodes back to itself |
| BlockBits.ZOffsetFromRaw | voxel_lib/src/block.rs:51-57 | every stored 2-bit value decodes to an accepted offset |
| BlockBits.ZWriteKeepsX | voxel_lib/src/block.rs:73-100 | writing the z field leaves the x field as it was |
| BlockBits.OrientationRoundTrip | voxel_lib/src/block.rs:43-100 | for a perpendicular orientation, `get_orientation` after `set_orientation` returns it |
| BlockBits.OrientationKeepsTypeAndVariant | voxel_lib/src/block.rs:73-100 | setting the orientation leaves type and variant unchanged |
| BlockBits.TypeWriteKeepsOtherFields | voxel_lib/src/block.rs:66-68 | setting the type leaves variant and orientation unchanged |
| BlockBits.VariantWriteKeepsOtherFields | voxel_lib/src/block.rs:70-72 | setting the variant leaves type and orientation unchanged |
| BlockBits.SetOrientationUnderflows | voxel_lib/src/block.rs:78 | the perpendicular orientation (x = NegX, z = PosY) underflows as written |
| BlockBits.BaseVoxel.constructor | voxel_lib/src/block.rs:25-31 | built on the corrected field check and z offset: a new voxel reads back its type, variant and orientation; in a checked build the source panics here, since `set_orientation` fails the range check on the x field (see Findings) |
| BlockBits.BaseVoxel.SetBits | voxel_lib/src/block.rs:112-123 | under the corrected check `first + num <= 32`: the word becomes the old word with the field replaced; the source's `< 32` rejects the x field (see Findings) |
| BlockBits.BaseVoxel.SetType | voxel_lib/src/block.rs:66-68 | the type field is replaced and reads back the new type |
| BlockBits.BaseVoxel.SetVariant | voxel_lib/src/block.rs:70-72 | the variant field is replaced and reads back the new variant |
| BlockBits.BaseVoxel.SetOrientation | voxel_lib/src/block.rs:73-100 | built on the corrected z offset and field check: the orientation fields are replaced and read back the new orientation; the source underflows when z < x and fails the range check on the x field (see Findings) |
| BlockBits.OrientationReadRoundTrip | voxel_lib/src/block.rs:43-64 | every word `get_orientation` can read holds a perpendicular orientation, and writing it back with `set_orientation` leaves the word unchanged |
| BlockBits.BaseVoxel.GetOrientation | voxel_lib/src/block.rs:43-64 | built on the corrected field check: for an x field below 6, the orientation read is perpendicular and encodes back to the word; in a checked build the source panics here on the x field's range check (see Findings) |
| BlockTypes.BlockTypeId | voxel_lib/src/block_types.rs:126-131 | each block type's id is at most 2 and maps back to the type |
| BlockTypes.BlockTypeFromId | voxel_lib/src/block_types.rs:25-31 | an id names a type exactly when it is 0, 1 or 2 |
| BlockTypes.SetTypeThenGetType | voxel_lib/src/block_types.rs:60-62 | `get_type` after `set_type(t)` returns `t`, and the variant is untouched |
| BlockTypes.Block.constructor | voxel_lib/src/block_types.rs:20-22 | a block holds the given word |
| BlockTypes.Block.SetType | voxel_lib/src/block_types.rs:60-62 | the type field is replaced, reads back the new type, and the variant is unchanged |
| BlockTypes.Block.SetVariant | voxel_lib/src/block_types.rs:64-66 | the variant field is replaced and reads back the new variant |
| BlockTypes.Block.SetOrientation | voxel_lib/src/block_types.rs:67-94 | built on the corrected z offset and field check: for a perpendicular orientation, the fields are replaced and read back the new orientation; the source repeats both defects of `block.rs` (see Findings) |
| BlockTypes.Block.GetOrientation | voxel_lib/src/block_types.rs:37-58 | built on the corrected field check: for an x field below 6, the orientation read is perpendicular and encodes back to the word; in a checked build the source panics here on the x field's range check (see Findings) |
| ItemStacks.SplitOffOne | player/src/item_stack.rs:44-56 | the item total is conserved, at most one item is taken, an empty stack yields an empty stack, and an NBT item moves whole |
| ItemStacks.SplitOffOneKeepsId | player/src/item_stack.rs:48-53 | a simple stack yields one item of its id, and is left empty exactly when its count was 1 |
| ItemStacks.TakeOne | player/src/item_stack.rs:44-56 | returns the taken item and the remaining stack of `SplitOffOne` |
| ItemStacks.RemoveOne | player/src/item_stack.rs:58-60 | the remaining stack holds one item fewer, unless the stack was empty |
| ItemStacks.IsEmpty | player/src/item_stack.rs:62-64 | holds exactly for the `Empty` stack |
| ItemStacks.ZeroCountStackIsNotEmpty | player/src/item_stack.rs:62-64 | a simple stack with count 0 holds no items, yet is not empty |
| ItemStacks.Default | player/src/item_stack.rs:67-71 | the default stack is empty |
| ItemStacks.Take | player/src/item_stack.rs:74-80 | both parts keep the id, the taken part has the requested count, and the counts add up to the old count |
| ItemStacks.TryTake | player/src/item_stack.rs:82-88 | fails, with the stack unchanged, exactly when more is asked than held; otherwise it behaves as `take` |
| ItemStacks.Add | player/src/item_stack.rs:90-93 | for equal ids, the count becomes the sum |
| PlayerStates.OffHandSlotIsOutOfBounds | player/src/player_state.rs:6-14 | every hotbar slot indexes the 45 slots, and the off-hand slot 45 does not |
| PlayerStates.PlayerState.constructor | player/src/player_state.rs:20-27 | no window is open, every slot is empty, and slot 36 is selected |
| PlayerStates.PlayerState.SelectSlot | player/src/player_state.rs:29-32 | a hotbar slot becomes the selection, the window is unchanged, and the selection stays in the hotbar |
| PlayerHandling.BlockFaceToDifference | player/src/player_handler.rs:98-107 | top and bottom move along y, south and north along z, east and west along x |
| PlayerHandling.FaceDifferencesAreDistinctUnitSteps | player/src/player_handler.rs:98-107 | every offset is a unit step, opposite faces give negated offsets, and distinct faces give distinct offsets |
| PlayerHandling.HandleBlockPlaceEvent | player/src/player_handler.rs:30-92 | panics exactly for the off hand (slot 45 of 45), for a simple stack of count 0, and for `Something` once an item was taken; otherwise one item is taken from the selected slot and the other slots are untouched, an empty slot gives no event, and a placement targets the clicked block when replacing, otherwise its neighbour across the face |
| GameEvents.Cmp | player/src/game_event.rs:19-23 | compares only the ticks |
| GameEvents.OrderIsTotalAndConsistentWithEq | player/src/game_event.rs:25-37 | `partial_cmp` is `Some(cmp)`, `cmp` is antisymmetric and transitive, and equality is equality of ticks whatever the event |
| GameEvents.LatestIndex | player/src/game_loop.rs:78 | the max-heap's `peek` returns an event of the latest tick |
| GameEvents.DrainAsWritten | player/src/game_loop.rs:78-85 | the drain loop over the max-heap conserves the events, and handles only events that are due |
| GameEvents.DrainAsWrittenSkipsDueEvents | player/src/game_loop.rs:78-85 | with events at ticks 1 and 5 at tick 1, the loop handles neither |
| GameEvents.DrainEarliestFirst | player/src/game_loop.rs:78-85 | the intended drain conserves the events, handles every due event in tick order, and keeps exactly the later ones |
| VoxelPalette.Decremented | voxel_lib/src/palette.rs:175-188 | the block id is kept; the slot becomes `Empty` for an NBT entry or a count of 1, and a larger count drops by one |
| VoxelPalette.LiveCount | voxel_lib/src/palette.rs:290-293 | the number of live entries is at most the table's length |
| VoxelPalette.InsertedFacts | voxel_lib/src/palette.rs:84-100 | a new entry fills the lowest `Empty` slot, or is appended when there is none; other slots are untouched and the live count grows by one |
| VoxelPalette.VoxelAddedFacts | voxel_lib/src/palette.rs:117-140 | an existing simple entry is counted up in place, and anything else inserts one live entry; the result's slot holds the voxel's block id |
| VoxelPalette.ComplexVoxelIsNeverDeduplicated | voxel_lib/src/palette.rs:133-139 | a complex voxel gets a fresh NBT entry, never the slot of a simple entry |
| VoxelPalette.CompactionFacts | voxel_lib/src/palette.rs:219-240 | the map sends holes to `u16::MAX` and live slots to their new place, in the same order, and the new table holds only live entries |
| VoxelPalette.CompactionMovesIdsPastAHole | voxel_lib/src/palette.rs:219-240 | a live entry after a hole moves to a lower index, and the table gets shorter |
| VoxelPalette.RemoveHolesMapOfTest | voxel_lib/src/palette_tests.rs:240-265 | on the unit test's table the map is `[0, MAX, 1, MAX, 2]`, not the `[0, 2, 4]` the test expects |
| VoxelPalette.AllSimpleOf | voxel_lib/src/palette.rs:277-284 | every listed id is the block id of a simple entry |
| VoxelPalette.AllSimpleOfSimpleTable | voxel_lib/src/palette.rs:277-284 | on an all-simple table, the list is the table's block ids in order |
| VoxelPalette.CompactedKeepsInvariant | voxel_lib/src/palette.rs:219-240 | compaction keeps the palette's invariant |
| VoxelPalette.LiveCountOfCompacted | voxel_lib/src/palette.rs:219-240 | compaction keeps the live count |
| VoxelPalette.Palette.New | voxel_lib/src/palette.rs:44-50 | a new palette is empty |
| VoxelPalette.Palette.Fill | voxel_lib/src/palette.rs:52-61 | a filled palette has length 1, and entry 0 is the fill block with count 4096 |
| VoxelPalette.Palette.Len | voxel_lib/src/palette.rs:290-293 | the length is at least the number of live entries |
| VoxelPalette.Palette.AddSimple | voxel_lib/src/palette.rs:63-82 | the table becomes `SimpleAdded`, and the length grows only when no simple entry for the block existed |
| VoxelPalette.Palette.AddIdInternal | voxel_lib/src/palette.rs:84-100 | the entry is inserted at `InsertIndex` and the length grows by one |
| VoxelPalette.Palette.AddNbtInternal | voxel_lib/src/palette.rs:102-115 | the record goes into the lowest unused record slot, or is appended; no entry points at that slot yet |
| VoxelPalette.Palette.AddVoxel | voxel_lib/src/palette.rs:117-140 | the table becomes `VoxelAdded`, a complex voxel adds a record, and the length grows exactly when an entry is added |
| VoxelPalette.Palette.SetBlockEntity | voxel_lib/src/palette.rs:143-167 | panics, changing nothing, exactly when no entry holds the block or the first one that does is a hole; otherwise that entry loses one use (freeing its record if it was NBT), the new record takes the lowest unused record slot, the new NBT entry takes the lowest hole or is appended, every other entry and record is unchanged, and the length moves by one less a simple entry that emptied |
| VoxelPalette.FirstEntryOfBlockCanBeHole | voxel_lib/src/palette.rs:143-148 | in `[x, hole(a), Nbt(a)]` the first entry holding `a` is the hole, although the NBT entry after it still holds `a` |
| VoxelPalette.Palette.Remove | voxel_lib/src/palette.rs:169-193 | returns the block id and decrements the slot; the length drops when a simple slot empties, but not when an NBT slot does |
| VoxelPalette.Palette.Get | voxel_lib/src/palette.rs:195-206 | a simple slot reads as an inferred block, and an NBT slot reads as the record's voxel |
| VoxelPalette.Palette.Find | voxel_lib/src/palette.rs:208-217 | returns the first index with that block id, whatever the slot's kind |
| VoxelPalette.Palette.RemoveHoles | voxel_lib/src/palette.rs:219-240 | the table is compacted and the old-to-new map returned; the length and the records are unchanged |
| VoxelPalette.Palette.SetToZero | voxel_lib/src/palette.rs:252-275 | a palette of length 1 keeps exactly its one live entry |
| VoxelPalette.Palette.AllSimple | voxel_lib/src/palette.rs:277-284 | lists the block ids of the simple entries |
| ChunkCells.NewEmpty | voxel_lib/src/chunk16.rs:30-32 | the empty cell is the direct block 0 |
| ChunkCells.MakeDirect | voxel_lib/src/chunk16.rs:34-37 | a value with bit 31 clear gives a direct cell holding that value |
| ChunkCells.MakeMapped | voxel_lib/src/chunk16.rs:39-44 | gives a mapped cell holding the id |
| ChunkCells.DirectAndMappedAreDisjoint | voxel_lib/src/chunk16.rs:20-62 | no direct cell equals a mapped cell |
| ChunkCells.Nibble | voxel_lib/src/chunk16.rs:143-150 | a 4-bit id is at most 15 |
| ChunkCells.WithNibble | voxel_lib/src/chunk16.rs:187-203 | the written nibble reads back, and the other nibble is kept |
| ChunkCells.Crumb | voxel_lib/src/chunk16.rs:151-156 | a 2-bit id is at most 3 |
| ChunkCells.WithCrumb | voxel_lib/src/chunk16.rs:204-216 | the written 2-bit field reads back, and the other three are kept |
| ChunkCells.CellIndex | voxel_lib/src/chunk16.rs:66 | the cell `[y][z][x]` has flat index `(y*16+z)*16+x` |
| ChunkCells.CellAt | voxel_lib/src/chunk16.rs:66 | every flat index names the cell it came from |
| ChunkCells.UnpackB4Write | voxel_lib/src/chunk16.rs:187-203 | a 4-bit write changes exactly one cell's id |
| ChunkCells.UnpackB2Write | voxel_lib/src/chunk16.rs:204-216 | a 2-bit write changes exactly one cell's id |
| ChunkCells.PackB4 | voxel_lib/src/chunk16.rs:670-686 | the corrected 8-to-4-bit packing reads back every id |
| ChunkCells.NarrowedB4AsWritten | voxel_lib/src/chunk16.rs:677-681 | the as-written shrink stores each pair's odd id, shifted, over the whole byte |
| ChunkCells.NarrowedB4AsWrittenReads | voxel_lib/src/chunk16.rs:677-681 | after the as-written shrink every even cell reads 0 and every odd cell reads its id |
| ChunkCells.NarrowedB4AsWrittenLosesEvenCells | voxel_lib/src/chunk16.rs:677-681 | a nonzero id in cell 0 is lost as written and kept by `PackB4` |
| ChunkCells.CapacityThresholds | voxel_lib/src/chunk16.rs:544-572 | capacities are 3 / 15 / 255; each layout holds more than the narrower one; each floor is the narrower capacity minus the hysteresis of 1 |
| Chunk16Store.BlocksOf | voxel_lib/src/chunk16.rs:132-161 | the block view of the cell ids has one block per cell |
| Chunk16Store.SetKeepsCounts | voxel_lib/src/chunk16.rs:176-245 | after adding the new voxel, writing its id and removing the old id, every entry's count equals the number of cells that refer to it |
| Chunk16Store.SetUpdatesBlocks | voxel_lib/src/chunk16.rs:176-245 | the same steps change the block of the written cell only |
| Chunk16Store.NonAirCount | voxel_lib/src/chunk16.rs:172-174 | the non-air count is at most the number of cells |
| Chunk16Store.NonAirCountUpdate | voxel_lib/src/chunk16.rs:247-254 | replacing one block moves the count by the two air tests |
| Chunk16Store.SetKeepsNonAirCount | voxel_lib/src/chunk16.rs:172-254 | the running counter stays equal to the number of non-air blocks |
| Chunk16Store.SetKeepsDiscipline | voxel_lib/src/chunk16.rs:168-255 | a paletted write keeps the section's counting invariant and updates one block |
| Chunk16Store.UpgradedEntry | voxel_lib/src/chunk16.rs:588-590 | a simple entry's cell becomes a direct cell holding the palette INDEX; otherwise a mapped cell holding the index |
| Chunk16Store.WidenB8ToB32 | voxel_lib/src/chunk16.rs:577-597 | panics exactly when a cell's id has no live entry; otherwise each cell becomes `UpgradedEntry` |
| Chunk16Store.WidenB4ToB8 | voxel_lib/src/chunk16.rs:598-616 | every cell keeps its id |
| Chunk16Store.WidenB2ToB4 | voxel_lib/src/chunk16.rs:617-640 | every cell keeps its id |
| Chunk16Store.WriteCellB8 | voxel_lib/src/chunk16.rs:182-186 | exactly one cell takes the new id's low byte, and the old id is returned |
| Chunk16Store.WriteCellB4 | voxel_lib/src/chunk16.rs:187-203 | exactly one cell takes the new id's low nibble, and the old id is returned |
| Chunk16Store.WriteCellB2 | voxel_lib/src/chunk16.rs:204-216 | exactly one cell takes the new id's low two bits, and the old id is returned |
| Chunk16Store.AddKeepsCapacity | voxel_lib/src/chunk16.rs:177-179 | after an add and at most one upgrade step, the table fits the layout |
| Chunk16Store.EntryKeys | voxel_lib/src/chunk16.rs:657-663 | the B32 shrink keys each cell by its direct value or mapped id |
| Chunk16Store.Remapped | voxel_lib/src/chunk16.rs:652-669 | each cell's new id is the map's value for its key, cut to a byte |
| Chunk16Store.NarrowB32ToB8 | voxel_lib/src/chunk16.rs:652-669 | panics exactly when a key is outside the map; otherwise the cells hold the remapped ids |
| Chunk16Store.NarrowB8ToB4 | voxel_lib/src/chunk16.rs:670-686 | panics exactly when a key is outside the map; otherwise the grid is the as-written shrink of the remapped ids |
| Chunk16Store.NarrowB4ToB2 | voxel_lib/src/chunk16.rs:687-709 | panics exactly when a key is outside the map; otherwise each cell holds the remapped id's low two bits |
| Chunk16Store.AsI16 | voxel_lib/src/chunk16.rs:398 | the `as i16` cast lies in the i16 range, is congruent modulo 2^16, and keeps values below 2^15 |
| Chunk16Store.RawPaletteWidth | voxel_lib/src/chunk16.rs:413-420 | fewer than 4 entries choose B2, fewer than 16 choose B4, otherwise B8 |
| Chunk16Store.RawPaletteRoundTrip | voxel_lib/src/chunk16.rs:407-429 | with distinct ids and in-range indices, the palette exports back as the ids and the grid holds the indices |
| Chunk16Store.FromSliceB8 | voxel_lib/src/chunk16.rs:489-503 | the cells hold the first 4096 bytes in y,z,x order |
| Chunk16Store.FromSliceB4 | voxel_lib/src/chunk16.rs:459-487 | the cells hold the bytes masked to 4 bits |
| Chunk16Store.FromSliceB2 | voxel_lib/src/chunk16.rs:431-457 | the cells hold the bytes masked to 2 bits |
| Chunk16Store.FromSliceB32 | voxel_lib/src/chunk16.rs:505-519 | every cell is mapped to its byte |
| Chunk16Store.FromSliceDirect | voxel_lib/src/chunk16.rs:521-542 | every cell is direct and holds its value |
| Chunk16Store.DistinctIdsGiveSimpleTable | voxel_lib/src/chunk16.rs:407-412 | adding distinct ids gives one simple entry of count 1 per id, in order |
| Chunk16Store.EntryBlocks | voxel_lib/src/chunk16.rs:334-387 | the table's block ids, one per slot, holes included |
| Chunk16Store.EntryBlocksDecode | voxel_lib/src/chunk16.rs:334-387 | indices decoded through that list give the cells' blocks |
| Chunk16Store.SimpleOnlyExportsEntryBlocks | voxel_lib/src/chunk16.rs:291-293 | with no holes or NBT entries, the exported palette is that list |
| Chunk16Store.ExportAfterHoleMisreads | voxel_lib/src/chunk16.rs:291-293 | after a hole, an exported index decodes to the wrong block |
| Chunk16Store.FromMinecraft | voxel_lib/src/chunk16.rs:257-281 | accepts exactly a readable section: `Single` fills every cell; `Paletted` loads the palette and the indices; `Raw` loads direct cells |
| Chunk16Store.Chunk16.New | voxel_lib/src/chunk16.rs:94-105 | a uniform B0 section whose every block is the fill, counted as non-air unless it is air |
| Chunk16Store.Chunk16.ConsistentCellsAreReadable | voxel_lib/src/chunk16.rs:132-161 | on a consistent section every cell reads through its id to its block |
| Chunk16Store.Chunk16.ConsistentReadsGiveBlocks | voxel_lib/src/chunk16.rs:132-161 | on a consistent section, `get_voxel_internal` gives the cell's block |
| Chunk16Store.Chunk16.ReadsGoThroughCellIds | voxel_lib/src/chunk16.rs:132-161 | a cell's id names a live entry, and that entry holds the cell's block |
| Chunk16Store.Chunk16.FromInternal | voxel_lib/src/chunk16.rs:89-91 | the block coordinate is the zero corner moved by the scaled index |
| Chunk16Store.Chunk16.ToInternalAsWritten | voxel_lib/src/chunk16.rs:107-125 | accepts exactly the relative components in `[0, 16]`, and otherwise errs with the coordinate |
| Chunk16Store.Chunk16.ToInternalAcceptsSixteen | voxel_lib/src/chunk16.rs:110-115 | component 16 is accepted and names no cell |
| Chunk16Store.Chunk16.ToInternal | voxel_lib/src/chunk16.rs:107-125 | accepts exactly the components in `[0, 16)`; the index names a cell and maps back to the coordinate |
| Chunk16Store.Chunk16.ToInternalInvertsFromInternal | voxel_lib/src/chunk16.rs:89-125 | every cell's coordinate maps back to the cell |
| Chunk16Store.Chunk16.GetVoxel | voxel_lib/src/chunk16.rs:127-130 | built on the corrected `ToInternal`: errs exactly outside `[0, 16)` on some axis, otherwise gives the cell's block; the source admits a component of 16 and then indexes cell 16, which panics (see Findings) |
| Chunk16Store.Chunk16.Upgrade | voxel_lib/src/chunk16.rs:574-646 | B0, B2 and B4 widen one step, keeping every cell's id; B8 goes to B32 as `UpgradedEntry`, or panics on a dangling id |
| Chunk16Store.Chunk16.Downgrade | voxel_lib/src/chunk16.rs:648-716 | compacts the palette and narrows one step: B32 to B8 by the remapped keys, B8 to B4 by the as-written shrink, B4 to B2, B2 to B0 |
| Chunk16Store.Chunk16.WritePaletted | voxel_lib/src/chunk16.rs:181-216 | one cell takes the new id, and the old id is returned |
| Chunk16Store.WrittenEntry | voxel_lib/src/chunk16.rs:227-231 | a simple voxel's cell is direct with its block id; any other is mapped to the new id cut to 16 bits |
| Chunk16Store.Chunk16.WriteB32 | voxel_lib/src/chunk16.rs:217-231 | panics exactly on a direct cell whose block the palette lacks or a simple block id with the tag bit; otherwise only that cell changes, to `WrittenEntry`, the palette is untouched, and the old id is where the direct block is first found, or the mapped id |
| Chunk16Store.Chunk16.Rebalance | voxel_lib/src/chunk16.rs:233-238 | in every layout: length 1 collapses to B0 and keeps one entry; a length under the floor compacts the table and, from 32 bits, narrows to 8 bits by the remapped keys (panicking exactly when a key is past the map); otherwise nothing changes |
| Chunk16Store.Chunk16.ReleaseThenRebalance | voxel_lib/src/chunk16.rs:233-254 | the corrected order: the old id is released on the table it was read from (panicking exactly when `Release` does), then the table collapses, compacts or stays as in `Rebalance` |
| Chunk16Store.Chunk16.AddAndFit | voxel_lib/src/chunk16.rs:172-179 | counts the new block and adds it to the palette; when the palette still fits a paletted layout, the cells are unchanged |
| Chunk16Store.Chunk16.AddEntry | voxel_lib/src/chunk16.rs:172-176 | counts the new block and adds it to the palette |
| Chunk16Store.Chunk16.Fit | voxel_lib/src/chunk16.rs:177-179 | upgrades exactly when the length exceeds the capacity |
| Chunk16Store.Chunk16.Release | voxel_lib/src/chunk16.rs:245-254 | removes the old id once, and uncounts it unless it is air |
| Chunk16Store.Chunk16.Repoint | voxel_lib/src/chunk16.rs:181-254 | on a paletted grid, one cell takes the new id and the old id is released |
| Chunk16Store.Chunk16.SetVoxelInternal | voxel_lib/src/chunk16.rs:168-255 | on a consistent section that stays paletted, the write changes that block only, keeps every count exact, moves the counter by the two air tests, reads back the new block, and keeps the layout or widens it one step, never narrowing |
| Chunk16Store.Chunk16.SetEndsConsistent | voxel_lib/src/chunk16.rs:168-255 | the steps of a paletted write leave the section consistent |
| Chunk16Store.Chunk16.SetVoxel | voxel_lib/src/chunk16.rs:163-166 | built on the corrected `ToInternal`: errs with the coordinate exactly outside `[0, 16)` on some axis, changing nothing; otherwise as `SetVoxelInternal`, and `get_voxel` then reads the new block; the source admits a component of 16 and then indexes cell 16, which panics (see Findings) |
| Chunk16Store.Chunk16.FromRawPalette | voxel_lib/src/chunk16.rs:407-429 | the palette holds the ids, the width is `RawPaletteWidth`, the cells hold the cut indices, and the counter is 0 |
| Chunk16Store.Chunk16.FromDirect | voxel_lib/src/chunk16.rs:521-542 | every cell reads back its direct value, the palette is empty, and the counter is 0 |
| Chunk16Store.Chunk16.ToMinecraft | voxel_lib/src/chunk16.rs:283-405 | exports the count as i16 and the cells as `Single`, `Paletted` or `Raw`; on a consistent section, each exported cell decodes to its block |
| Chunk16Store.Chunk16.EmitIndices | voxel_lib/src/chunk16.rs:334-387 | emits the cell ids in y,z,x order |
| Chunk16Store.Chunk16.EmitWords | voxel_lib/src/chunk16.rs:313-333 | emits each cell's block id, or panics on a dangling id |
| Chunk16Store.Chunk16.ConsistentExportDecodes | voxel_lib/src/chunk16.rs:283-405 | the exported count equals the number of non-air blocks, and every exported cell decodes to its block |
| Chunk64Store.New | voxel_lib/src/chunk64.rs:20-35 | 4×4×4 sections laid out `[y][z][x]`, each located `(x, y, z)` sections past `coord16`, all of the same fill |
| Chunk64Store.NewSectionsAreDistinct | voxel_lib/src/chunk64.rs:20-35 | distinct grid positions hold distinct sections |
| Chunk64Store.GetChunk16InternalUncheckedAsWritten | voxel_lib/src/chunk64.rs:37-39 | reads `voxels[x][y][z]` |
| Chunk64Store.LookupAsWrittenTransposes | voxel_lib/src/chunk64.rs:37-39 | the lookup of `(x, y, z)` yields the section built for `(z, x, y)` |
| Chunk64Store.LookupAsWrittenMissesSection | voxel_lib/src/chunk64.rs:37-39 | asking for `(1, 0, 0)` yields the section at `(0, 1, 0)` |
| Chunk64Store.GetChunk16Internal | voxel_lib/src/chunk64.rs:23-39 | the corrected lookup reads `voxels[y][z][x]` |
| Chunk64Store.LookupFindsBuiltSection | voxel_lib/src/chunk64.rs:23-39 | the corrected lookup yields the section built at that position |
| Chunk64Store.GetCoordinateFromIndex | voxel_lib/src/chunk64.rs:41-49 | the zero coordinate plus the index, axis by axis |
| Chunk64Store.CoordinateFromIndexInjective | voxel_lib/src/chunk64.rs:41-49 | distinct indices give distinct coordinates |
| LegacyChunk.TruncDiv | voxel_lib/src/chunk.rs:91-124 | Rust's `/` on i32 rounds toward zero: the quotient counts the whole divisors in the dividend, and its sign is the product of the signs |
| LegacyChunk.AxisAsWritten | voxel_lib/src/chunk.rs:91-124 | one axis is admitted exactly when `-step < rel < (limit + 1) * step`, and the quotient brackets the clamped component |
| LegacyChunk.ToInternalAsWritten | voxel_lib/src/chunk.rs:91-124 | admits a coordinate exactly when every axis passes the as-written check, with the index counting whole steps |
| LegacyChunk.ToInternalAdmitsBelowZero | voxel_lib/src/chunk.rs:91-124 | a block one below the corner is admitted, as index 0 |
| LegacyChunk.ToInternalAdmitsSectionSixteen | voxel_lib/src/chunk.rs:145-150 | `(16, 4)` admits section index 16, outside the grid |
| LegacyChunk.GetVoxelIndexCollapses | voxel_lib/src/chunk.rs:204-209 | `(16, 16)` reads blocks 0 and 5 as one cell, and admits index 256 |
| LegacyChunk.AxisIndex | voxel_lib/src/chunk.rs:91-124 | one corrected axis is admitted exactly in `[0, step * elements)`, with the index bracketing the component |
| LegacyChunk.FromInternal | voxel_lib/src/chunk.rs:140-142 | the block coordinate is the zero corner moved by the scaled index |
| LegacyChunk.ToInternal | voxel_lib/src/chunk.rs:91-124 | admits exactly the grid's range, and the index's cube holds the coordinate |
| LegacyChunk.ToInternalInvertsFromInternal | voxel_lib/src/chunk.rs:91-142 | every index maps back to itself |
| LegacyChunk.GetChunk16AsWritten | voxel_lib/src/chunk.rs:145-154 | finds exactly the blocks from 15 below the corner to 63 above, errs exactly where the check rejects, and panics in between |
| LegacyChunk.GetChunk16AsWrittenMisses | voxel_lib/src/chunk.rs:145-154 | block 16 along x is found in the section one step up, and block 64 panics |
| LegacyChunk.GetChunk16 | voxel_lib/src/chunk.rs:145-154 | finds exactly the blocks of the column, and errs with the coordinate otherwise |
| LegacyChunk.GetChunk16FindsBuiltSection | voxel_lib/src/chunk.rs:145-154 | every block is found in the section built for its 16-block cube |
| LegacyChunk.CoordinateFromIndexRoundTrip | voxel_lib/src/chunk.rs:156-164 | every block index maps back from its coordinate |
| LegacyChunk.SectionAt | voxel_lib/src/chunk.rs:168-171 | the loops' section number `s` names the section with digits `(y, z, x)` |
| LegacyChunk.SectionCalls | voxel_lib/src/chunk.rs:171-183 | one section makes 4096 calls |
| LegacyChunk.ForEach | voxel_lib/src/chunk.rs:166-187 | makes 64 × 4096 calls, call `n` being `VisitAt(n)` |
| LegacyChunk.VisitSection | voxel_lib/src/chunk.rs:171-183 | the calls of one section, in y,z,x order |
| LegacyChunk.CallsUpToAreVisits | voxel_lib/src/chunk.rs:166-187 | the calls of the first `s` sections are the first `s * 4096` calls |
| LegacyChunk.VisitIndexDecodes | voxel_lib/src/chunk.rs:166-187 | a block's call number decodes to its section and cell |
| LegacyChunk.VisitIndexOfVisit | voxel_lib/src/chunk.rs:166-187 | the block of call `n` is in the column and is visited at call `n` |
| LegacyChunk.ForEachVisitsEachBlockOnce | voxel_lib/src/chunk.rs:166-187 | every block of the column is visited at exactly one call |
| LegacyChunk.ForEachReadsSection | voxel_lib/src/chunk.rs:171-180 | the voxel passed for a block is read from the section the corrected `get_chunk16` returns, at the block's cell |
| LegacyChunk.WidenedB4AsWritten | voxel_lib/src/chunk.rs:663-681 | odd cells get their high nibble; even cells get the whole byte, low nibble plus the odd neighbour's id |
| LegacyChunk.WidenedB4AsWrittenExactWhen | voxel_lib/src/chunk.rs:671-672 | the as-written arm keeps every id exactly when every odd cell holds 0 |
| LegacyChunk.WidenedB4AsWrittenMisreads | voxel_lib/src/chunk.rs:671-672 | bytes `0x21` widen cell 0 to 33 instead of 1 |
| LegacyChunk.WidenB4ToB8AsWritten | voxel_lib/src/chunk.rs:663-681 | the new grid is `WidenedB4AsWritten` of the old |
| LegacyChunk.WriteB32AsWritten | voxel_lib/src/chunk.rs:291-312 | panics exactly on a dangling direct cell or a tagged block id; otherwise one cell is rewritten and the old id returned |
| ChunkColumns.ZeroHeightmap | voxel_lib/src/chunk_column.rs:47 | a 16×16 heightmap of zeros |
| ChunkColumns.WithHeight | voxel_lib/src/chunk_column.rs:61 | sets one height and keeps the others |
| ChunkColumns.AsU64 | voxel_lib/src/chunk_column.rs:60 | the `i64 as u64` cast is below 2^64 and keeps non-negative values |
| ChunkColumns.U64RoundTrip | voxel_lib/src/chunk_column.rs:32-60 | `u64 as i64 as u64` is the identity |
| ChunkColumns.BitLength | voxel_lib/src/chunk_column.rs:18-19 | `n < 2^r`, `2^(r-1) <= n`, and `r = 0` only for 0 |
| ChunkColumns.BitsPerElementBound | voxel_lib/src/chunk_column.rs:44-45 | the element width is 1 to 64 bits |
| ChunkColumns.ToMinecraftAsWritten | voxel_lib/src/chunk_column.rs:17-40 | finishes only with width 0 and all heights 0, and then returns no words |
| ChunkColumns.FromMinecraftAsWritten | voxel_lib/src/chunk_column.rs:42-69 | always panics |
| ChunkColumns.PerWord | voxel_lib/src/chunk_column.rs:31 | the number of fields in a word fits the word |
| ChunkColumns.FitsInWord | voxel_lib/src/chunk_column.rs:31 | `n` fields fit exactly when `n <= PerWord` |
| ChunkColumns.WireOrder | voxel_lib/src/chunk_column.rs:24-25 | 256 values, x outer and z inner |
| ChunkColumns.WireOrderAt | voxel_lib/src/chunk_column.rs:24-25 | value `16x + z` is `heightmap[z][x]` |
| ChunkColumns.Decoded | voxel_lib/src/chunk_column.rs:51-62 | decoding yields a 16×16 heightmap |
| ChunkColumns.ColumnIndexInRange | voxel_lib/src/chunk_column.rs:51-62 | every field index lies in a word |
| ChunkColumns.ToMinecraft | voxel_lib/src/chunk_column.rs:17-40 | the corrected encoder returns `Encoded` at the column's width |
| ChunkColumns.FromMinecraft | voxel_lib/src/chunk_column.rs:42-69 | the corrected decoder succeeds exactly when the word count matches, and returns `Decoded` |
| ChunkColumns.HeightmapRoundTrip | voxel_lib/src/chunk_column.rs:17-69 | heights below `2^bits` decode back to the same heightmap |
| ChunkColumns.HeightSurvives | voxel_lib/src/chunk_column.rs:17-69 | each height is read back from its field |
| ChunkColumns.ValueRoundTrip | voxel_lib/src/chunk_column.rs:17-69 | each packed value is read back from its word |
| ChunkColumns.PackedShape | voxel_lib/src/chunk_column.rs:31-39 | the packing has `ceil(n / k)` words, each a valid i64 |

## Behaviour as written

The model keeps these behaviours of the code even where the source's
comments or tests suggest otherwise.

- The palette reuses the lowest-indexed `Empty` slot.
- Removing an NBT entry empties the slot, but does not decrement the
  palette's length (`palette.rs:185-188`).
- `find` matches a block id in any slot, holes included.
- Widening B8 to B32 stores the palette index, not the block id, in a
  simple entry's direct cell (`chunk16.rs:588`). Writes store block ids
  (`chunk16.rs:228`), so afterwards a direct cell can hold either.
- Narrowing B32 to B8 looks up the compaction map by the direct cell's
  value, which may be a block id (`chunk16.rs:660`). A key outside the map
  is modelled as a panic.
- `from_raw_palette` and `from_direct` leave the non-air counter at 0.
- Downgrade and the collapse to B0 are checked only in the B32 arm of
  `set_voxel_internal`, before the old id is removed. The old id then
  indexes the table as it was before compaction (see Findings).
- `set_block_entity` removes one use of the first entry holding the block.
  When that entry is a hole, `remove` panics even if a later entry still
  holds the block (`palette.rs:145-148`).
- `from_direct` leaves the palette empty while every cell holds a direct
  block id. A later write to a cell whose block has no entry reaches
  `find`'s `unreachable!` (`chunk16.rs:219-222`).
- `handle_block_place_event` indexes slot 45 of the 45 slots for the off
  hand, which panics (`player_handler.rs:36-41`, `player_state.rs:6,14`).
- The nested `y, z, x` loops of the source are single flat loops over the
  cell index `(y*16+z)*16+x`, in the same order.
- The model follows a build with debug assertions and overflow checks.
  `debug_assert!` is checked, and integer overflow panics: the heightmap's
  range check and shifts, and the section's 16-bit non-air counter
  (`chunk16.rs:172-174`, `chunk16.rs:251-253`), are modelled as panics.
  Heightmap words are stored as i64 in two's complement.
- The block word is the exception. In a checked build, the field check of
  `block.rs:104` and `block.rs:113` (`block_types.rs:98`, `:107`) rejects
  the x field. Every `get_orientation`, `set_orientation` and
  `BaseVoxel::new` then panics. The `u32` subtraction of `block.rs:78`
  (`block_types.rs:72`) also panics when z < x. The class members of
  `BlockBits` and `BlockTypes` take the corrected form of both. Only the
  as-written members `XFieldFailsDebugRangeCheck`, `ZOffsetAsWritten` and
  `SetOrientationUnderflows` carry these panics (see Findings).

## Left out

- Block entities in `Chunk16::from_minecraft` and `to_minecraft`, and biomes: only the block data is modelled.
- `Palette::get_block_to_id_mapping` and `all_nbt_voxels` are not part of this model; the section code modelled here does not call them.
- The registry's `Block::from_id` and `is_air_block` are a parameter `isAir` of the section. A block id the registry does not know is not modelled.
- `Voxel`, `VoxelRef` and the NBT payload are abstract datatypes. Serde, trait objects and `Coordinate16` are not part of this model.
- `PlayerState::look_direction` (floating point) is left out.
- In `handle_block_place_event`, three things are inputs rather than computed: the registry's item-to-block lookup, `world.get_block` and the float cursor fields. `player.handle_item_change` is not part of this model.
- `to_internal_unchecked` in `chunk.rs` has no caller and is not modelled.
- The legacy `downgrade` is `todo!()`. WriteB32AsWritten requires a palette length at or above the floor, so that path is never reached.
- Chunk16Store.Chunk16.SetVoxelInternal: the full contract is proved only when the section is consistent and stays in a paletted layout. On the B32 path, only the shape invariant is stated, because of the index/id mix-up above.
- Chunk16Store.Chunk16.FromRawPalette: the section it builds is in general not consistent, since the counter is 0 and the counts are 1.
- Chunk16Store.FromSliceB8: every `from_slice` requires at least 4096 bytes. Indexing a shorter slice panics in the source.
- ItemStacks.TakeOne: `&mut self` is a value passed in and returned. A simple stack of count 0 is excluded by `CanTakeOne`, because `take` asserts on it.
- ItemStacks.Add: requires the sum to fit a `u16`, where the source would overflow.
- LegacyChunk.ToInternalAsWritten: coordinates are unbounded integers. The `i32` overflow of the subtraction is not modelled.
- Threads, channels, sleeping and network I/O around the game loop are left out. Only the drain loop over the event heap is modelled.

## Findings

| source | as written | input that shows it | evidently intended | confidence | as-written member | corrected member |
|---|---|---|---|---|---|---|
| voxel_lib/src/block.rs:78 | `z - x + 6` on `u32` underflows when z < x | x = NegX (id 3), z = PosY (id 1) | `(z + 6 - x) % 6` | not executed | BlockBits.SetOrientationUnderflows | BlockBits.OrientationRoundTrip |
| voxel_lib/src/block.rs:104 | `debug_assert!(first + num < 32)` in `get_bits`, and again in `set_bits` at `block.rs:113`, so every checked-build `get_orientation`, `set_orientation` and `BaseVoxel::new` panics | the x field, first 28 and 4 bits | `first + num <= 32` | not executed | BlockBits.XFieldFailsDebugRangeCheck | BlockBits.WithBits |
| voxel_lib/src/block_types.rs:72 | `z - x + 6` on `u32` underflows when z < x, as in `block.rs:78` | x = NegX (id 3), z = PosY (id 1) | `(z + 6 - x) % 6` | not executed | BlockBits.SetOrientationUnderflows | BlockTypes.Block.SetOrientation |
| voxel_lib/src/block_types.rs:98 | `debug_assert!(first + num < 32)` in `get_bits`, and again in `set_bits` at `block_types.rs:107`, as in `block.rs:104` | the x field, first 28 and 4 bits | `first + num <= 32` | not executed | BlockBits.XFieldFailsDebugRangeCheck | BlockTypes.Block.GetOrientation |
| player/src/game_loop.rs:78-85 | the max-heap surfaces the latest tick, so a due event behind a later one is skipped | events at ticks 1 and 5, current tick 1 | handle every due event, earliest first | not executed | GameEvents.DrainAsWrittenSkipsDueEvents | GameEvents.DrainEarliestFirst |
| voxel_lib/src/chunk16.rs:110-115 | a relative component of 16 is accepted | the zero corner plus (16, 0, 0) | the range `[0, 16)` | not executed | Chunk16Store.Chunk16.ToInternalAcceptsSixteen | Chunk16Store.Chunk16.ToInternalInvertsFromInternal |
| voxel_lib/src/chunk16.rs:677-681 | the B8 to B4 shrink assigns each pair's byte, losing the even cell | a grid whose cell 0 holds a nonzero id | OR the odd nibble into the even one | not executed | ChunkCells.NarrowedB4AsWrittenLosesEvenCells | ChunkCells.PackB4 |
| voxel_lib/src/chunk16.rs:291-293 | the exported palette lists only simple entries, but the indices are table slots | a table `[a, hole, b, d]` with cells `[0, 2, 3]` | export one block per slot | not executed | Chunk16Store.ExportAfterHoleMisreads | Chunk16Store.EntryBlocksDecode |
| voxel_lib/src/chunk_column.rs:28 | the encoder shifts the `u16` height right by the cursor, which overflows once the cursor passes 15; it starts a new word only when the cursor exceeds 64 after writing, and never pushes its last word | any column with at least one section | pack by left shifts, start a new word before a field when `start + bits > 64`, unpack by right shifts at the same breaks, push the last word | not executed | ChunkColumns.ToMinecraftAsWritten | ChunkColumns.HeightmapRoundTrip |
| voxel_lib/src/chunk_column.rs:61 | the decoder shifts left, and its final assert compares the length with the index of the last word read, not the number of words | every input, width 0 included | shift right, and compare the length with the number of words | not executed | ChunkColumns.FromMinecraftAsWritten | ChunkColumns.FromMinecraft |
| voxel_lib/src/chunk.rs:671-672 | the B4 to B8 widening copies the whole byte into even cells | bytes `0x21` (ids 1 and 2) | mask the low nibble | not executed | LegacyChunk.WidenedB4AsWrittenMisreads | Chunk16Store.WidenB4ToB8 |
| voxel_lib/src/chunk64.rs:37-39 | the lookup reads `voxels[x][y][z]`, but `new` lays out `[y][z][x]` | section (1, 0, 0) | read `voxels[y][z][x]` | not executed | Chunk64Store.LookupAsWrittenMissesSection | Chunk64Store.LookupFindsBuiltSection |
| voxel_lib/src/chunk.rs:145-154 | `get_chunk16` checks with `(16, 4)`, then reads `[x][y][z]` | block 16 along x, and block 64 | check `[0, 64)` and read `[y][z][x]` | not executed | LegacyChunk.GetChunk16AsWrittenMisses | LegacyChunk.GetChunk16FindsBuiltSection |
| voxel_lib/src/chunk.rs:91-124 | truncating division admits components from `-(step-1)` up, and the limit is `elements^2` | the zero corner minus 1 along x | the range `[0, step * elements)` | not executed | LegacyChunk.ToInternalAdmitsBelowZero | LegacyChunk.ToInternalInvertsFromInternal |
| voxel_lib/src/chunk.rs:205 | `get_voxel` passes `(16, 16)`, so coordinates are divided by 16 | blocks 0 and 5 of a section | step 1 and 16 elements | not executed | LegacyChunk.GetVoxelIndexCollapses | LegacyChunk.ToInternal |
| voxel_lib/src/chunk16.rs:233-245 | the old id is read before `set_to_zero` or `downgrade` compacts the table, then removed from the compacted table | a 32-bit section whose table `[hole(b), a, …]` falls under the minimum: `a` moves from index 1 to 0, so `remove(1)` frees another entry, or indexes past a table of one | release the old id before compacting | not executed | VoxelPalette.CompactionMovesIdsPastAHole | Chunk16Store.Chunk16.ReleaseThenRebalance |
| voxel_lib/src/chunk_tests.rs:205-212 | only the 32-bit arm of `set_voxel_internal` shrinks or collapses the layout, so a paletted section never narrows | a B2 section whose writes leave one live block type: it stays B2, while the test expects B0 | collapse to B0 after a write whenever one live block type is left, in every layout | not executed | Chunk16Store.Chunk16.SetVoxelInternal | Chunk16Store.Chunk16.Rebalance |
| voxel_lib/src/palette_tests.rs:256-264 | the test expects the map `[0, 2, 4]`, while `remove_holes` returns old-to-new | a table with holes at slots 1 and 3 | `[0, MAX, 1, MAX, 2]`, as the doc comment says | not executed | VoxelPalette.RemoveHolesMapOfTest | VoxelPalette.CompactionFacts |
