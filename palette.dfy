/**
 * `voxel_lib/src/palette.rs`: the per-chunk table from small local ids to
 * block ids.  A `Simple` entry counts the cells that use it; an `Nbt` entry
 * forwards to a block-entity record; an `Empty` entry is a hole that keeps
 * the block id it last held.  `size` is what `len()` reports.
 */
module VoxelPalette {
  import Voxels
  import opened Wrappers

  type BlockId = Voxels.BlockId

  /** `u16::MAX`, the mark `remove_holes` gives a removed index. */
  const U16_MAX: nat := 0xFFFF
  /** Cells in a 16x16x16 chunk: the count `Palette::fill` starts with. */
  const CHUNK_CELLS: nat := 4096

  /** `MappingData`. */
  datatype MappingData = Simple(numElements: nat) | Nbt(nbtIdx: nat) | Empty

  /** `BlockMapping`. */
  datatype BlockMapping = BlockMapping(blockId: BlockId, data: MappingData)

  /** `NbtVoxel`: a block entity and its chunk-local coordinate (each `as u8`). */
  datatype NbtVoxel = NbtVoxel(voxel: Voxels.Voxel, relativeX: nat, relativeY: nat, relativeZ: nat, isUsed: bool)

  predicate IsLive(m: BlockMapping)
  {
    !m.data.Empty?
  }

  /**
   * An entry after one of its cells is released: a `Simple` count drops by
   * one and reaching 0 leaves a hole; an `Nbt` entry always becomes a hole.
   * The block id stays.
   */
  function Decremented(m: BlockMapping): (r: BlockMapping)
    requires IsLive(m) && (m.data.Simple? ==> m.data.numElements >= 1)
    ensures r.blockId == m.blockId
    ensures r.data.Empty? <==> m.data.Nbt? || m.data == Simple(1)
    ensures m.data.Simple? && m.data.numElements > 1 ==> r.data == Simple(m.data.numElements - 1)
  {
    match m.data
    case Simple(n) => if n - 1 == 0 then m.(data := Empty) else m.(data := Simple(n - 1))
    case Nbt(_) => m.(data := Empty)
  }

  // ---------------------------------------------------------------------
  // Counting and searching

  /** Number of non-`Empty` entries. */
  function LiveCount(s: seq<BlockMapping>): (n: nat)
    ensures n <= |s|
  {
    if |s| == 0 then 0 else LiveCount(s[..|s| - 1]) + (if IsLive(s[|s| - 1]) then 1 else 0)
  }

  lemma {:induction false} LiveCountUpdate(s: seq<BlockMapping>, i: nat, m: BlockMapping)
    requires i < |s|
    ensures LiveCount(s[i := m]) == LiveCount(s) - (if IsLive(s[i]) then 1 else 0) + (if IsLive(m) then 1 else 0)
    decreases |s|
  {
    var t := s[i := m];
    if i == |s| - 1 {
      assert t[..|t| - 1] == s[..|s| - 1];
    } else {
      assert t[..|t| - 1] == s[..|s| - 1][i := m];
      LiveCountUpdate(s[..|s| - 1], i, m);
    }
  }

  lemma {:induction false} LiveCountAllLive(s: seq<BlockMapping>)
    requires forall i :: 0 <= i < |s| ==> IsLive(s[i])
    ensures LiveCount(s) == |s|
    decreases |s|
  {
    if |s| > 0 {
      LiveCountAllLive(s[..|s| - 1]);
    }
  }

  lemma {:induction false} LiveCountPositive(s: seq<BlockMapping>, i: nat)
    requires i < |s| && IsLive(s[i])
    ensures LiveCount(s) >= 1
    decreases |s|
  {
    if i < |s| - 1 {
      LiveCountPositive(s[..|s| - 1], i);
    }
  }

  /** The first entry for block `b` that is `Simple`: the one `add_simple` increments. */
  function FirstSimpleIndex(s: seq<BlockMapping>, b: BlockId): (r: Option<nat>)
    ensures r.Some? ==> r.value < |s| && s[r.value].blockId == b && s[r.value].data.Simple?
    ensures r.Some? ==> forall j :: 0 <= j < r.value ==> !(s[j].blockId == b && s[j].data.Simple?)
    ensures r.None? ==> forall j :: 0 <= j < |s| ==> !(s[j].blockId == b && s[j].data.Simple?)
  {
    if |s| == 0 then None
    else if s[0].blockId == b && s[0].data.Simple? then Some(0)
    else
      match FirstSimpleIndex(s[1..], b)
      case None => None
      case Some(k) => Some(k + 1)
  }

  /** The first hole. */
  function FirstEmptyIndex(s: seq<BlockMapping>): (r: Option<nat>)
    ensures r.Some? ==> r.value < |s| && s[r.value].data.Empty?
    ensures r.Some? ==> forall j :: 0 <= j < r.value ==> IsLive(s[j])
    ensures r.None? ==> forall j :: 0 <= j < |s| ==> IsLive(s[j])
  {
    if |s| == 0 then None
    else if s[0].data.Empty? then Some(0)
    else
      match FirstEmptyIndex(s[1..])
      case None => None
      case Some(k) => Some(k + 1)
  }

  /** The first entry, of any kind, holding block `b`: what `find` returns. */
  function FirstIndexOf(s: seq<BlockMapping>, b: BlockId): (r: Option<nat>)
    ensures r.Some? ==> r.value < |s| && s[r.value].blockId == b
    ensures r.Some? ==> forall j :: 0 <= j < r.value ==> s[j].blockId != b
    ensures r.None? ==> forall j :: 0 <= j < |s| ==> s[j].blockId != b
  {
    if |s| == 0 then None
    else if s[0].blockId == b then Some(0)
    else
      match FirstIndexOf(s[1..], b)
      case None => None
      case Some(k) => Some(k + 1)
  }

  /** The first record not in use. */
  function FirstUnusedIndex(s: seq<NbtVoxel>): (r: Option<nat>)
    ensures r.Some? ==> r.value < |s| && !s[r.value].isUsed
    ensures r.Some? ==> forall j :: 0 <= j < r.value ==> s[j].isUsed
    ensures r.None? ==> forall j :: 0 <= j < |s| ==> s[j].isUsed
  {
    if |s| == 0 then None
    else if !s[0].isUsed then Some(0)
    else
      match FirstUnusedIndex(s[1..])
      case None => None
      case Some(k) => Some(k + 1)
  }

  // ---------------------------------------------------------------------
  // The effects of adding

  /** Where `add_id_internal` puts a new entry: the lowest hole, else the end. */
  function InsertIndex(s: seq<BlockMapping>): nat
  {
    match FirstEmptyIndex(s)
    case Some(i) => i
    case None => |s|
  }

  /** The table after `add_id_internal(m)`. */
  function Inserted(s: seq<BlockMapping>, m: BlockMapping): seq<BlockMapping>
  {
    match FirstEmptyIndex(s)
    case Some(i) => s[i := m]
    case None => s + [m]
  }

  /**
   * A new entry takes the lowest hole, otherwise it is appended: it lands
   * at `InsertIndex`, nothing else changes, and one more entry is live.
   */
  lemma InsertedFacts(s: seq<BlockMapping>, m: BlockMapping)
    requires IsLive(m)
    ensures InsertIndex(s) < |Inserted(s, m)| && Inserted(s, m)[InsertIndex(s)] == m
    ensures InsertIndex(s) < |s| ==> s[InsertIndex(s)].data.Empty? && |Inserted(s, m)| == |s|
    ensures InsertIndex(s) == |s| ==> |Inserted(s, m)| == |s| + 1 && LiveCount(s) == |s|
    ensures forall j :: 0 <= j < InsertIndex(s) && j < |s| ==> IsLive(s[j])
    ensures forall j :: 0 <= j < |s| && j != InsertIndex(s) ==> Inserted(s, m)[j] == s[j]
    ensures LiveCount(Inserted(s, m)) == LiveCount(s) + 1
  {
    match FirstEmptyIndex(s)
    case Some(i) =>
      LiveCountUpdate(s, i, m);
    case None =>
      LiveCountAllLive(s);
      assert (s + [m])[..|s|] == s;
  }

  /** The table after `add_simple(b)` increments an existing entry or inserts `Simple{1}`. */
  function SimpleAdded(s: seq<BlockMapping>, b: BlockId): seq<BlockMapping>
  {
    match FirstSimpleIndex(s, b)
    case Some(i) => s[i := BlockMapping(b, Simple(s[i].data.numElements + 1))]
    case None => Inserted(s, BlockMapping(b, Simple(1)))
  }

  /** The index `add_simple(b)` returns. */
  function SimpleAddedId(s: seq<BlockMapping>, b: BlockId): nat
  {
    match FirstSimpleIndex(s, b)
    case Some(i) => i
    case None => InsertIndex(s)
  }

  /** The record `add_voxel` stores for a complex voxel: coordinates cut to `u8`. */
  function NewRecord(v: Voxels.Voxel, coord: Voxels.ICoordinate): NbtVoxel
  {
    NbtVoxel(v, coord.x % 256, coord.y % 256, coord.z % 256, true)
  }

  /** Where `add_nbt_internal` puts a record: the first unused one, else the end. */
  function NbtInsertIndex(s: seq<NbtVoxel>): nat
  {
    match FirstUnusedIndex(s)
    case Some(i) => i
    case None => |s|
  }

  /** The record list after `add_nbt_internal(r)`. */
  function NbtInserted(s: seq<NbtVoxel>, r: NbtVoxel): seq<NbtVoxel>
  {
    match FirstUnusedIndex(s)
    case Some(i) => s[i := r]
    case None => s + [r]
  }

  /** The record list after `remove(i)`: an `Nbt` entry frees its record, any other entry leaves it. */
  function RecordsReleased(s: seq<BlockMapping>, nbts: seq<NbtVoxel>, i: nat): (r: seq<NbtVoxel>)
    requires i < |s|
    ensures |r| == |nbts|
    ensures forall k :: 0 <= k < |nbts| && !(s[i].data.Nbt? && k == s[i].data.nbtIdx) ==> r[k] == nbts[k]
    ensures s[i].data.Nbt? && s[i].data.nbtIdx < |nbts| ==> !r[s[i].data.nbtIdx].isUsed
  {
    if s[i].data.Nbt? && s[i].data.nbtIdx < |nbts| then
      nbts[s[i].data.nbtIdx := nbts[s[i].data.nbtIdx].(isUsed := false)]
    else nbts
  }

  /**
   * The first entry holding a block can be a hole while a later entry
   * still holds it: a simple block and a block entity of the same block,
   * after the simple one's last cell is released.
   */
  lemma FirstEntryOfBlockCanBeHole(x: BlockId, a: BlockId, k: nat)
    requires x != a
    ensures var s := [BlockMapping(x, Simple(1)), BlockMapping(a, Empty), BlockMapping(a, Nbt(k))];
            && FirstIndexOf(s, a) == Some(1) && !IsLive(s[1])
            && IsLive(s[2]) && s[2].blockId == a
  {
    var s := [BlockMapping(x, Simple(1)), BlockMapping(a, Empty), BlockMapping(a, Nbt(k))];
    assert s[1..][0].blockId == a;
  }

  /** Does adding `v` create an entry (and grow `len()`)?  Only a simple voxel with a `Simple` entry does not. */
  predicate AddsEntry(s: seq<BlockMapping>, v: Voxels.Voxel)
  {
    !v.Simple? || FirstSimpleIndex(s, v.blockId).None?
  }

  /** The table after `add_voxel(v)`, given the records before it. */
  function VoxelAdded(s: seq<BlockMapping>, nbts: seq<NbtVoxel>, v: Voxels.Voxel): seq<BlockMapping>
  {
    if v.Simple? then SimpleAdded(s, v.blockId)
    else Inserted(s, BlockMapping(v.blockId, Nbt(NbtInsertIndex(nbts))))
  }

  /** The index `add_voxel(v)` returns. */
  function VoxelAddedId(s: seq<BlockMapping>, v: Voxels.Voxel): nat
  {
    if v.Simple? then SimpleAddedId(s, v.blockId) else InsertIndex(s)
  }

  /**
   * What a caller of `add_voxel` relies on: the returned entry is live and
   * holds `v`'s block; it is `Simple` exactly for a simple voxel; either it
   * was a `Simple` entry of the same block whose count grew by one, or it
   * was a hole or a new slot at the end; no other entry changes.
   */
  lemma VoxelAddedFacts(s: seq<BlockMapping>, nbts: seq<NbtVoxel>, v: Voxels.Voxel)
    ensures var r := VoxelAdded(s, nbts, v);
            var id := VoxelAddedId(s, v);
            && id < |r| && r[id].blockId == v.blockId && IsLive(r[id])
            && (r[id].data.Simple? <==> v.Simple?)
            && (|r| == |s| || (|r| == |s| + 1 && id == |s|))
            && (forall k :: 0 <= k < |s| && k != id ==> r[k] == s[k])
            && (AddsEntry(s, v) ==> (id < |s| ==> s[id].data.Empty?) && LiveCount(r) == LiveCount(s) + 1)
            && (AddsEntry(s, v) && id == |s| ==> LiveCount(s) == |s|)
            && (AddsEntry(s, v) && v.Simple? ==> r[id].data == Simple(1))
            && (!AddsEntry(s, v) ==> id < |s| && |r| == |s| && s[id].blockId == v.blockId && s[id].data.Simple?
                                     && r[id].data == Simple(s[id].data.numElements + 1)
                                     && LiveCount(r) == LiveCount(s))
  {
    if v.Simple? {
      match FirstSimpleIndex(s, v.blockId)
      case Some(i) =>
        LiveCountUpdate(s, i, BlockMapping(v.blockId, Simple(s[i].data.numElements + 1)));
      case None =>
        InsertedFacts(s, BlockMapping(v.blockId, Simple(1)));
    } else {
      InsertedFacts(s, BlockMapping(v.blockId, Nbt(NbtInsertIndex(nbts))));
    }
  }

  /**
   * A complex voxel is never merged: even when its block already has a
   * `Simple` entry, it gets a different, new `Nbt` entry.
   */
  lemma ComplexVoxelIsNeverDeduplicated(s: seq<BlockMapping>, nbts: seq<NbtVoxel>, v: Voxels.Voxel)
    requires v.Complex?
    ensures VoxelAdded(s, nbts, v)[VoxelAddedId(s, v)].data == Nbt(NbtInsertIndex(nbts))
    ensures forall k :: 0 <= k < |s| && s[k].data.Simple? ==> VoxelAddedId(s, v) != k
  {
    InsertedFacts(s, BlockMapping(v.blockId, Nbt(NbtInsertIndex(nbts))));
  }

  // ---------------------------------------------------------------------
  // Compaction

  /** The live entries in their original order: the table `remove_holes` builds. */
  function Compacted(s: seq<BlockMapping>): (r: seq<BlockMapping>)
    ensures |r| == LiveCount(s)
  {
    if |s| == 0 then []
    else Compacted(s[..|s| - 1]) + (if IsLive(s[|s| - 1]) then [s[|s| - 1]] else [])
  }

  /** The vector `remove_holes` returns: for each old index, its new index, or `u16::MAX` for a hole. */
  function OldToNew(s: seq<BlockMapping>): (r: seq<nat>)
    ensures |r| == |s|
  {
    if |s| == 0 then []
    else OldToNew(s[..|s| - 1]) + [if IsLive(s[|s| - 1]) then |Compacted(s[..|s| - 1])| else U16_MAX]
  }

  /**
   * `remove_holes` keeps every live entry, in order, at the index its map
   * names; holes map to `u16::MAX`; only live entries remain.
   */
  lemma {:induction false} CompactionFacts(s: seq<BlockMapping>)
    requires |s| < U16_MAX
    ensures forall i :: 0 <= i < |s| ==> (OldToNew(s)[i] == U16_MAX <==> s[i].data.Empty?)
    ensures forall i :: 0 <= i < |s| && IsLive(s[i]) ==>
              OldToNew(s)[i] < |Compacted(s)| && Compacted(s)[OldToNew(s)[i]] == s[i]
    ensures forall i, j :: 0 <= i < j < |s| && IsLive(s[i]) && IsLive(s[j]) ==> OldToNew(s)[i] < OldToNew(s)[j]
    ensures forall k :: 0 <= k < |Compacted(s)| ==> IsLive(Compacted(s)[k])
    decreases |s|
  {
    if |s| > 0 {
      var p := s[..|s| - 1];
      CompactionFacts(p);
      assert forall i :: 0 <= i < |p| ==> s[i] == p[i];
    }
  }

  /**
   * Compaction moves every live entry that follows a hole to a lower index,
   * so an index read before `remove_holes` (or `set_to_zero`) names another
   * slot afterwards, or none.
   */
  lemma {:induction false} CompactionMovesIdsPastAHole(s: seq<BlockMapping>, j: nat, i: nat)
    requires j < i < |s| && s[j].data.Empty? && IsLive(s[i])
    ensures OldToNew(s)[i] < i
    ensures |Compacted(s)| < |s|
    decreases |s|
  {
    var p := s[..|s| - 1];
    if i < |p| {
      CompactionMovesIdsPastAHole(p, j, i);
      assert OldToNew(s)[i] == OldToNew(p)[i];
    } else {
      LiveCountUpdate(p, j, s[i]);
      assert OldToNew(s)[i] == |Compacted(p)|;
    }
  }

  /** Every entry of the compacted table comes from the old table. */
  lemma {:induction false} CompactedFromOld(s: seq<BlockMapping>, k: nat)
    requires k < |Compacted(s)|
    ensures exists i :: 0 <= i < |s| && Compacted(s)[k] == s[i]
    decreases |s|
  {
    var p := s[..|s| - 1];
    if k < |Compacted(p)| {
      CompactedFromOld(p, k);
      var i :| 0 <= i < |p| && Compacted(p)[k] == p[i];
      assert s[i] == p[i];
    } else {
      assert Compacted(s)[k] == s[|s| - 1];
    }
  }

  /**
   * Distinct entries of the compacted table come from distinct old
   * entries: the old indices of two compacted positions differ.
   */
  lemma {:induction false} CompactedPairFromOld(s: seq<BlockMapping>, k1: nat, k2: nat)
    requires k1 < k2 < |Compacted(s)|
    ensures exists i1, i2 :: 0 <= i1 < i2 < |s| && Compacted(s)[k1] == s[i1] && Compacted(s)[k2] == s[i2]
    decreases |s|
  {
    var p := s[..|s| - 1];
    if k2 < |Compacted(p)| {
      CompactedPairFromOld(p, k1, k2);
      var i1, i2 :| 0 <= i1 < i2 < |p| && Compacted(p)[k1] == p[i1] && Compacted(p)[k2] == p[i2];
      assert s[i1] == p[i1] && s[i2] == p[i2];
    } else {
      CompactedFromOld(p, k1);
      var i1 :| 0 <= i1 < |p| && Compacted(p)[k1] == p[i1];
      assert s[i1] == p[i1];
      assert Compacted(s)[k2] == s[|s| - 1];
    }
  }

  /** The map the test of `remove_holes` computes for entries 1,_,3,_,5 is old-to-new, not `[0, 2, 4]`. */
  lemma RemoveHolesMapOfTest(a: BlockMapping, b: BlockMapping, c: BlockMapping, hole1: BlockMapping, hole2: BlockMapping)
    requires IsLive(a) && IsLive(b) && IsLive(c) && hole1.data.Empty? && hole2.data.Empty?
    ensures OldToNew([a, hole1, b, hole2, c]) == [0, U16_MAX, 1, U16_MAX, 2]
    ensures Compacted([a, hole1, b, hole2, c]) == [a, b, c]
  {
    var s := [a, hole1, b, hole2, c];
    assert s[..4] == [a, hole1, b, hole2];
    assert s[..4][..3] == [a, hole1, b];
    assert s[..4][..3][..2] == [a, hole1];
    assert s[..4][..3][..2][..1] == [a];
    assert [a][..0] == [];
    assert Compacted([a]) == [a] && OldToNew([a]) == [0];
    assert Compacted([a, hole1]) == [a] && OldToNew([a, hole1]) == [0, U16_MAX];
    assert Compacted([a, hole1, b]) == [a, b] && OldToNew([a, hole1, b]) == [0, U16_MAX, 1];
    assert Compacted([a, hole1, b, hole2]) == [a, b];
    assert OldToNew([a, hole1, b, hole2]) == [0, U16_MAX, 1, U16_MAX];
  }

  // ---------------------------------------------------------------------
  // Simple ids

  /** `all_simple`: the block ids of the `Simple` entries, in table order. */
  function AllSimpleOf(s: seq<BlockMapping>): (r: seq<BlockId>)
    ensures |r| <= |s|
    ensures forall b :: b in r ==> exists i :: 0 <= i < |s| && s[i].data.Simple? && s[i].blockId == b
  {
    if |s| == 0 then []
    else
      var p := s[..|s| - 1];
      var r := AllSimpleOf(p);
      assert forall i :: 0 <= i < |p| ==> s[i] == p[i];
      r + (if s[|s| - 1].data.Simple? then [s[|s| - 1].blockId] else [])
  }

  /** A table without `Nbt` entries or holes lists exactly its block ids, one per entry. */
  lemma {:induction false} AllSimpleOfSimpleTable(s: seq<BlockMapping>)
    requires forall i :: 0 <= i < |s| ==> s[i].data.Simple?
    ensures |AllSimpleOf(s)| == |s|
    ensures forall i :: 0 <= i < |s| ==> AllSimpleOf(s)[i] == s[i].blockId
    decreases |s|
  {
    if |s| > 0 {
      AllSimpleOfSimpleTable(s[..|s| - 1]);
    }
  }

  // ---------------------------------------------------------------------
  // Invariant

  /** An entry's own conditions: counts are positive, `Nbt` entries forward to a used record of their block. */
  predicate EntryValid(m: BlockMapping, nbts: seq<NbtVoxel>)
  {
    match m.data
    case Simple(n) => n >= 1
    case Nbt(k) => k < |nbts| && nbts[k].isUsed && nbts[k].voxel.blockId == m.blockId && nbts[k].voxel.Complex?
    case Empty => true
  }

  /** No two `Nbt` entries share a record. */
  predicate NbtDistinct(s: seq<BlockMapping>)
  {
    forall i, j :: 0 <= i < |s| && 0 <= j < |s| && i != j && s[i].data.Nbt? && s[j].data.Nbt? ==>
      s[i].data.nbtIdx != s[j].data.nbtIdx
  }

  /** The table's invariant: `len()` is at least the number of live entries. */
  predicate TableValid(s: seq<BlockMapping>, nbts: seq<NbtVoxel>, size: nat)
  {
    (forall i :: 0 <= i < |s| ==> EntryValid(s[i], nbts)) && NbtDistinct(s) && LiveCount(s) <= size
  }

  /** `Palette`. */
  class Palette {
    var base: seq<BlockMapping>
    var nbtVoxels: seq<NbtVoxel>
    var size: nat

    predicate Valid()
      reads this
    {
      TableValid(base, nbtVoxels, size)
    }

    /** `Palette::new`: no entries. */
    constructor New()
      ensures Valid() && base == [] && nbtVoxels == [] && size == 0
    {
      base := [];
      nbtVoxels := [];
      size := 0;
    }

    /** `Palette::fill`: one `Simple` entry counting all 4096 cells, at index 0. */
    constructor Fill(fillValue: BlockId)
      ensures Valid()
      ensures base == [BlockMapping(fillValue, Simple(CHUNK_CELLS))] && nbtVoxels == [] && size == 1
      ensures Len() == 1 && Get(0) == Voxels.Inferred(fillValue)
    {
      base := [BlockMapping(fillValue, Simple(CHUNK_CELLS))];
      nbtVoxels := [];
      size := 1;
    }

    /** `len`: the counter, at least the number of live entries. */
    function Len(): (r: nat)
      reads this
      requires Valid()
      ensures r >= LiveCount(base)
    {
      size
    }

    /** `add_simple`: count one more cell of block `blockId`. */
    method AddSimple(blockId: BlockId) returns (id: nat)
      requires Valid()
      modifies this
      ensures Valid()
      ensures base == SimpleAdded(old(base), blockId) && id == SimpleAddedId(old(base), blockId)
      ensures nbtVoxels == old(nbtVoxels)
      ensures size == old(size) + (if FirstSimpleIndex(old(base), blockId).None? then 1 else 0)
    {
      var idx := 0;
      while idx < |base|
        invariant 0 <= idx <= |base|
        invariant forall j :: 0 <= j < idx ==> !(base[j].blockId == blockId && base[j].data.Simple?)
      {
        var blockMapping := base[idx];
        if blockMapping.blockId == blockId {
          if blockMapping.data.Simple? {
            assert FirstSimpleIndex(base, blockId) == Some(idx);
            LiveCountUpdate(base, idx, BlockMapping(blockId, Simple(blockMapping.data.numElements + 1)));
            base := base[idx := BlockMapping(blockId, Simple(blockMapping.data.numElements + 1))];
            return idx;
          }
        }
        idx := idx + 1;
      }
      var newMapping := BlockMapping(blockId, Simple(1));
      id := AddIdInternal(newMapping);
    }

    /** `add_id_internal`: store a new live entry in the lowest hole, or append it. */
    method AddIdInternal(newMapping: BlockMapping) returns (id: nat)
      requires Valid() && IsLive(newMapping) && EntryValid(newMapping, nbtVoxels)
      requires newMapping.data.Nbt? ==>
                 forall i :: 0 <= i < |base| && base[i].data.Nbt? ==> base[i].data.nbtIdx != newMapping.data.nbtIdx
      modifies this
      ensures Valid()
      ensures base == Inserted(old(base), newMapping) && id == InsertIndex(old(base))
      ensures nbtVoxels == old(nbtVoxels) && size == old(size) + 1
    {
      InsertedFacts(base, newMapping);
      var idx := 0;
      while idx < |base|
        invariant 0 <= idx <= |base|
        invariant forall j :: 0 <= j < idx ==> IsLive(base[j])
      {
        if base[idx].data.Empty? {
          assert FirstEmptyIndex(base) == Some(idx);
          base := base[idx := newMapping];
          size := size + 1;
          return idx;
        }
        idx := idx + 1;
      }
      id := |base|;
      base := base + [newMapping];
      size := size + 1;
    }

    /** `add_nbt_internal`: store a record in the first unused slot, or append it. */
    method AddNbtInternal(newVoxel: NbtVoxel) returns (idx: nat)
      requires Valid() && newVoxel.isUsed
      modifies this
      ensures Valid()
      ensures nbtVoxels == NbtInserted(old(nbtVoxels), newVoxel) && idx == NbtInsertIndex(old(nbtVoxels))
      ensures idx < |nbtVoxels| && nbtVoxels[idx] == newVoxel
      ensures forall i :: 0 <= i < |base| && base[i].data.Nbt? ==> base[i].data.nbtIdx != idx
      ensures base == old(base) && size == old(size)
    {
      var i := 0;
      while i < |nbtVoxels|
        invariant 0 <= i <= |nbtVoxels|
        invariant forall j :: 0 <= j < i ==> nbtVoxels[j].isUsed
      {
        if !nbtVoxels[i].isUsed {
          assert FirstUnusedIndex(nbtVoxels) == Some(i);
          nbtVoxels := nbtVoxels[i := newVoxel];
          return i;
        }
        i := i + 1;
      }
      idx := |nbtVoxels|;
      nbtVoxels := nbtVoxels + [newVoxel];
    }

    /**
     * `add_voxel`: a simple voxel goes through `add_simple`; a complex one
     * always gets a new record and a new `Nbt` entry.
     */
    method AddVoxel(voxel: Voxels.Voxel, coord: Voxels.ICoordinate) returns (id: nat)
      requires Valid()
      modifies this
      ensures Valid()
      ensures base == VoxelAdded(old(base), old(nbtVoxels), voxel) && id == VoxelAddedId(old(base), voxel)
      ensures voxel.Simple? ==> nbtVoxels == old(nbtVoxels)
      ensures voxel.Complex? ==> nbtVoxels == NbtInserted(old(nbtVoxels), NewRecord(voxel, coord))
      ensures size == old(size) + (if AddsEntry(old(base), voxel) then 1 else 0)
    {
      var blockId := voxel.blockId;
      if voxel.Simple? {
        id := AddSimple(blockId);
        return;
      }
      var newVoxel := NewRecord(voxel, coord);
      var nbtIdx := AddNbtInternal(newVoxel);
      var newMapping := BlockMapping(blockId, Nbt(nbtIdx));
      id := AddIdInternal(newMapping);
    }

    /**
     * `set_block_entity`: remove one use of the first entry holding the
     * block, then add the block entity as a new `Nbt` entry in the lowest
     * hole (which may be the one just freed) or at the end.  A block id
     * held by no entry reaches `find`'s `unreachable!`; a first entry that
     * is a hole panics in `remove`, even when a later entry holds the block
     * (`FirstEntryOfBlockCanBeHole`).
     */
    method SetBlockEntity(blockId: BlockId, data: Voxels.NbtTag, coord: Voxels.ICoordinate) returns (outcome: Outcome, id: nat)
      requires Valid()
      modifies this
      ensures Valid()
      ensures outcome == Done <==>
                FirstIndexOf(old(base), blockId).Some? && IsLive(old(base)[FirstIndexOf(old(base), blockId).value])
      ensures outcome == Panic ==> base == old(base) && nbtVoxels == old(nbtVoxels) && size == old(size)
      ensures outcome == Done ==>
                var f := FirstIndexOf(old(base), blockId).value;
                var freed := old(base)[f := Decremented(old(base)[f])];
                var records := RecordsReleased(old(base), old(nbtVoxels), f);
                && nbtVoxels == NbtInserted(records, NewRecord(Voxels.Complex(blockId, data), coord))
                && base == Inserted(freed, BlockMapping(blockId, Nbt(NbtInsertIndex(records))))
                && id == InsertIndex(freed)
                && size == old(size) + 1 - (if old(base)[f].data == Simple(1) then 1 else 0)
      ensures outcome == Done ==>
                && id < |base| && base[id].blockId == blockId && base[id].data.Nbt?
                && nbtVoxels[base[id].data.nbtIdx] == NewRecord(Voxels.Complex(blockId, data), coord)
    {
      var first := FirstIndexOf(base, blockId);
      if first.None? {
        // `find` reaches `unreachable!`
        return Panic, 0;
      }
      assert base[first.value].blockId == blockId;
      var found := Find(blockId);
      if !IsLive(base[found]) {
        // `remove` of a hole panics
        return Panic, 0;
      }
      var _ := Remove(found);
      var newVoxel := NewRecord(Voxels.Complex(blockId, data), coord);
      var nbtIdx := AddNbtInternal(newVoxel);
      var newMapping := BlockMapping(blockId, Nbt(nbtIdx));
      InsertedFacts(base, newMapping);
      id := AddIdInternal(newMapping);
      outcome := Done;
    }

    /**
     * `remove`: one use fewer of entry `idx`; returns its block id.  A
     * `Simple` entry that reaches 0 becomes a hole and `len()` drops by one.
     * An `Nbt` entry becomes a hole and frees its record, but `len()` stays:
     * the counter then exceeds the number of live entries.  A hole panics.
     */
    method Remove(idx: nat) returns (blockId: BlockId)
      requires Valid() && idx < |base| && IsLive(base[idx])
      modifies this
      ensures Valid()
      ensures blockId == old(base)[idx].blockId
      ensures base == old(base)[idx := Decremented(old(base)[idx])]
      ensures old(base)[idx].data.Simple? && old(base)[idx].data.numElements > 1 ==>
                base[idx].data == Simple(old(base)[idx].data.numElements - 1) && size == old(size)
                && nbtVoxels == old(nbtVoxels)
      ensures old(base)[idx].data == Simple(1) ==>
                base[idx].data.Empty? && size == old(size) - 1 && nbtVoxels == old(nbtVoxels)
      ensures old(base)[idx].data.Nbt? ==>
                base[idx].data.Empty? && size == old(size)
                && nbtVoxels == old(nbtVoxels)[old(base)[idx].data.nbtIdx := old(nbtVoxels)[old(base)[idx].data.nbtIdx].(isUsed := false)]
      ensures LiveCount(base) == LiveCount(old(base)) - (if base[idx].data.Empty? then 1 else 0)
    {
      var elt := base[idx];
      blockId := elt.blockId;
      LiveCountPositive(base, idx);
      match elt.data {
        case Simple(numElements) =>
          var n := numElements - 1;
          if n == 0 {
            LiveCountUpdate(base, idx, elt.(data := Empty));
            base := base[idx := elt.(data := Empty)];
            size := size - 1;
          } else {
            LiveCountUpdate(base, idx, elt.(data := Simple(n)));
            base := base[idx := elt.(data := Simple(n))];
          }
        case Nbt(k) =>
          LiveCountUpdate(base, idx, elt.(data := Empty));
          nbtVoxels := nbtVoxels[k := nbtVoxels[k].(isUsed := false)];
          base := base[idx := elt.(data := Empty)];
      }
    }

    /** `get`: a `Simple` entry infers its block, an `Nbt` entry yields its record's voxel. */
    function Get(idx: nat): (r: Voxels.VoxelRef)
      reads this
      requires Valid() && idx < |base| && IsLive(base[idx])
      ensures r.GetBlockId() == base[idx].blockId
      ensures base[idx].data.Simple? <==> r.Inferred?
      ensures base[idx].data.Nbt? ==> r == Voxels.Real(nbtVoxels[base[idx].data.nbtIdx].voxel)
    {
      match base[idx].data
      case Simple(_) => Voxels.Inferred(base[idx].blockId)
      case Nbt(k) => Voxels.Real(nbtVoxels[k].voxel)
    }

    /**
     * `find`: the first index whose entry holds `blockId`, of whatever kind,
     * holes included.  A block id not in the table is `unreachable!`.
     */
    method Find(blockId: BlockId) returns (idx: nat)
      requires exists i :: 0 <= i < |base| && base[i].blockId == blockId
      ensures idx < |base| && base[idx].blockId == blockId
      ensures forall j :: 0 <= j < idx ==> base[j].blockId != blockId
      ensures FirstIndexOf(base, blockId) == Some(idx)
    {
      idx := 0;
      while idx < |base|
        invariant 0 <= idx <= |base|
        invariant forall j :: 0 <= j < idx ==> base[j].blockId != blockId
      {
        if base[idx].blockId == blockId {
          return;
        }
        idx := idx + 1;
      }
      assert false;
    }

    /**
     * `remove_holes`: drop the holes, keep the live entries in order, and
     * return the old-to-new index map with `u16::MAX` for each hole.  The
     * records and the counter are untouched.
     */
    method RemoveHoles() returns (newToOld: seq<nat>)
      requires Valid() && |base| < U16_MAX
      modifies this
      ensures Valid()
      ensures base == Compacted(old(base)) && newToOld == OldToNew(old(base))
      ensures nbtVoxels == old(nbtVoxels) && size == old(size)
    {
      newToOld := [];
      var newBase := [];
      var i := 0;
      while i < |base|
        invariant 0 <= i <= |base|
        invariant newBase == Compacted(base[..i]) && newToOld == OldToNew(base[..i])
      {
        assert base[..i + 1][..i] == base[..i];
        var blockMapping := base[i];
        if !blockMapping.data.Empty? {
          var newIndex := |newBase|;
          newBase := newBase + [blockMapping];
          newToOld := newToOld + [newIndex];
        } else {
          newToOld := newToOld + [U16_MAX];
        }
        i := i + 1;
      }
      assert base[..|base|] == base;
      CompactedKeepsInvariant(base, nbtVoxels, size);
      base := newBase;
    }

    /**
     * `set_to_zero`: with `len() == 1`, reduce the table to its one live
     * entry at index 0.  A one-entry table is left as it is; a longer table
     * without a live entry fails the final assertion.
     */
    method SetToZero()
      requires Valid() && size == 1
      requires |base| == 1 || LiveCount(base) >= 1
      modifies this
      ensures Valid()
      ensures |base| == 1 && nbtVoxels == old(nbtVoxels) && size == old(size)
      ensures |old(base)| == 1 ==> base == old(base)
      ensures |old(base)| != 1 ==> base == Compacted(old(base)) && IsLive(base[0])
    {
      if |base| == 1 {
        return;
      }
      assert LiveCount(base) <= 1;
      var onlyElement := BlockMapping(0, Empty);
      var i := 0;
      while i < |base|
        invariant 0 <= i <= |base|
        invariant Valid() && base == old(base) && nbtVoxels == old(nbtVoxels) && size == old(size)
        invariant OnlyLiveSoFar(base[..i], onlyElement)
      {
        ScanStep(base, i, onlyElement);
        var elt := base[i];
        if elt.data.Empty? {
          i := i + 1;
          continue;
        }
        assert onlyElement.data.Empty?;
        onlyElement := elt;
        i := i + 1;
      }
      assert base[..|base|] == base;
      assert !onlyElement.data.Empty?;
      CompactedKeepsInvariant(base, nbtVoxels, size);
      base := [onlyElement];
    }

    /** `only_element` after scanning `prefix`: the one live entry seen, or `Empty` while none was. */
    ghost predicate OnlyLiveSoFar(prefix: seq<BlockMapping>, onlyElement: BlockMapping)
    {
      && LiveCount(prefix) <= 1
      && (onlyElement.data.Empty? <==> LiveCount(prefix) == 0)
      && (LiveCount(prefix) == 1 ==> Compacted(prefix) == [onlyElement])
      && (LiveCount(prefix) == 0 ==> Compacted(prefix) == [])
    }

    /** Scanning one more entry of a table with at most one live entry. */
    lemma ScanStep(s: seq<BlockMapping>, i: nat, onlyElement: BlockMapping)
      requires i < |s| && LiveCount(s) <= 1 && OnlyLiveSoFar(s[..i], onlyElement)
      ensures OnlyLiveSoFar(s[..i + 1], if s[i].data.Empty? then onlyElement else s[i])
      ensures !s[i].data.Empty? ==> onlyElement.data.Empty?
    {
      assert s[..i + 1][..i] == s[..i];
      PrefixLiveCount(s, i + 1);
    }

    /** `all_simple`: every block id with a `Simple` entry. */
    function AllSimple(): (r: seq<BlockId>)
      reads this
      ensures r == AllSimpleOf(base)
      ensures forall b :: b in r ==> exists i :: 0 <= i < |base| && base[i].data.Simple? && base[i].blockId == b
    {
      AllSimpleOf(base)
    }
  }

  /** A prefix has no more live entries than the whole table. */
  lemma {:induction false} PrefixLiveCount(s: seq<BlockMapping>, n: nat)
    requires n <= |s|
    ensures LiveCount(s[..n]) <= LiveCount(s)
    decreases |s| - n
  {
    if n < |s| {
      PrefixLiveCount(s, n + 1);
      assert s[..n + 1][..n] == s[..n];
    } else {
      assert s[..n] == s;
    }
  }

  /** Compaction keeps the table invariant. */
  lemma CompactedKeepsInvariant(s: seq<BlockMapping>, nbts: seq<NbtVoxel>, size: nat)
    requires TableValid(s, nbts, size)
    ensures TableValid(Compacted(s), nbts, size)
  {
    var c := Compacted(s);
    forall k | 0 <= k < |c|
      ensures EntryValid(c[k], nbts)
    {
      CompactedFromOld(s, k);
    }
    forall k1, k2 | 0 <= k1 < |c| && 0 <= k2 < |c| && k1 != k2 && c[k1].data.Nbt? && c[k2].data.Nbt?
      ensures c[k1].data.nbtIdx != c[k2].data.nbtIdx
    {
      if k1 < k2 {
        CompactedPairFromOld(s, k1, k2);
      } else {
        CompactedPairFromOld(s, k2, k1);
      }
    }
    LiveCountOfCompacted(s);
  }

  /** The compacted table is all live. */
  lemma {:induction false} LiveCountOfCompacted(s: seq<BlockMapping>)
    ensures LiveCount(Compacted(s)) == LiveCount(s)
    decreases |s|
  {
    if |s| > 0 {
      var p := s[..|s| - 1];
      LiveCountOfCompacted(p);
      var c := Compacted(s);
      if IsLive(s[|s| - 1]) {
        assert c[..|c| - 1] == Compacted(p);
      } else {
        assert c == Compacted(p);
      }
    }
  }
}
