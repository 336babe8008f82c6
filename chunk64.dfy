/**
 * `Chunk64`: a 64x64x64 column of 4x4x4 sections, stored as
 * `voxels[y][z][x]`, with the block coordinate of its lowest corner.
 *
 * Construction is pure: every section is a fresh uniform `Chunk16::new`
 * of the same fill, so a section is modelled here by the arguments that
 * build it (`Chunk16Store.Chunk16.New` models what `new` does with them).
 * `Coordinate64`, `Coordinate16` and their `From` conversions are not part
 * of this model: `New` receives the converted values, the section location
 * `coord16` and the block coordinate `zero`, as parameters.
 */
module Chunk64Store {
  import opened Voxels

  /** Sections along each axis. */
  const SIDE: nat := 4

  /** The section `Chunk16::new(location, fill)` builds, by its arguments. */
  datatype Section = Section(location: Coordinate, fill: BlockId)

  /** The sections, indexed `[y][z][x]` by construction, and the block coordinate of the lowest corner. */
  datatype Chunk64<S> = Chunk64(voxels: seq<seq<seq<S>>>, zeroCoordinate: Coordinate)

  /** Four planes of four rows of four sections. */
  predicate Shaped<S>(voxels: seq<seq<seq<S>>>)
  {
    && |voxels| == SIDE
    && (forall i :: 0 <= i < SIDE ==> |voxels[i]| == SIDE)
    && (forall i, j :: 0 <= i < SIDE && 0 <= j < SIDE ==> |voxels[i][j]| == SIDE)
  }

  /** An index coordinate naming one of the 64 sections. */
  predicate InGrid(ic: ICoordinate)
  {
    ic.x < SIDE && ic.y < SIDE && ic.z < SIDE
  }

  function Offset(ic: ICoordinate): Coordinate
  {
    Coordinate(ic.x, ic.y, ic.z)
  }

  /**
   * `new`: the section at `voxels[y][z][x]` is a uniform section of
   * `fill` located `(x, y, z)` sections past `coord16`.
   */
  function New(coord16: Coordinate, zero: Coordinate, fill: BlockId): (c: Chunk64<Section>)
    ensures Shaped(c.voxels) && c.zeroCoordinate == zero
    ensures forall ic :: InGrid(ic) ==>
              c.voxels[ic.y][ic.z][ic.x].location.Sub(coord16) == Offset(ic)
              && c.voxels[ic.y][ic.z][ic.x].fill == fill
  {
    Chunk64(seq(SIDE, y => seq(SIDE, z => seq(SIDE, x => Section(coord16.Add(Coordinate(x, y, z)), fill)))), zero)
  }

  /** Distinct grid positions of a new column hold sections at distinct locations. */
  lemma NewSectionsAreDistinct(coord16: Coordinate, zero: Coordinate, fill: BlockId, a: ICoordinate, b: ICoordinate)
    requires InGrid(a) && InGrid(b) && a != b
    ensures var c := New(coord16, zero, fill);
            c.voxels[a.y][a.z][a.x] != c.voxels[b.y][b.z][b.x]
  {
    var c := New(coord16, zero, fill);
    assert c.voxels[a.y][a.z][a.x].location.Sub(coord16) == Offset(a);
    assert c.voxels[b.y][b.z][b.x].location.Sub(coord16) == Offset(b);
  }

  /**
   * `get_chunk16_internal_unchecked` as written: it indexes
   * `voxels[x][y][z]`, while `new` lays the sections out as `voxels[y][z][x]`.
   */
  function GetChunk16InternalUncheckedAsWritten<S>(c: Chunk64<S>, ic: ICoordinate): (s: S)
    requires Shaped(c.voxels) && InGrid(ic)
    ensures s in c.voxels[ic.x][ic.y]
  {
    c.voxels[ic.x][ic.y][ic.z]
  }

  /**
   * On a new column the as-written lookup of `(x, y, z)` yields the section
   * built for `(z, x, y)`.
   */
  lemma LookupAsWrittenTransposes(coord16: Coordinate, zero: Coordinate, fill: BlockId, ic: ICoordinate)
    requires InGrid(ic)
    ensures GetChunk16InternalUncheckedAsWritten(New(coord16, zero, fill), ic).location.Sub(coord16)
            == Coordinate(ic.z, ic.x, ic.y)
  {
    var t := ICoordinate(ic.z, ic.x, ic.y);
    assert New(coord16, zero, fill).voxels[t.y][t.z][t.x].location.Sub(coord16) == Offset(t);
  }

  /** Asking for section `(1, 0, 0)` yields the section one step up, at `(0, 1, 0)`. */
  lemma LookupAsWrittenMissesSection(coord16: Coordinate, zero: Coordinate, fill: BlockId)
    ensures var s := GetChunk16InternalUncheckedAsWritten(New(coord16, zero, fill), ICoordinate(1, 0, 0));
            s.location.Sub(coord16) == Coordinate(0, 1, 0)
            && s.location != coord16.Add(Coordinate(1, 0, 0))
  {
    LookupAsWrittenTransposes(coord16, zero, fill, ICoordinate(1, 0, 0));
  }

  /** `get_chunk16_internal_unchecked` in the construction's `[y][z][x]` order. */
  function GetChunk16Internal<S>(c: Chunk64<S>, ic: ICoordinate): (s: S)
    requires Shaped(c.voxels) && InGrid(ic)
    ensures s in c.voxels[ic.y][ic.z]
  {
    c.voxels[ic.y][ic.z][ic.x]
  }

  /** On a new column the lookup of `ic` yields the section built `ic` sections past `coord16`. */
  lemma LookupFindsBuiltSection(coord16: Coordinate, zero: Coordinate, fill: BlockId, ic: ICoordinate)
    requires InGrid(ic)
    ensures GetChunk16Internal(New(coord16, zero, fill), ic) == Section(coord16.Add(Offset(ic)), fill)
  {
    var s := New(coord16, zero, fill).voxels[ic.y][ic.z][ic.x];
    assert s.location.Sub(coord16) == Offset(ic);
  }

  /** `get_coordinate_from_index`: the column's zero coordinate moved by the index, axis by axis. */
  function GetCoordinateFromIndex<S>(c: Chunk64<S>, blockIndex: ICoordinate): (r: Coordinate)
    ensures r.Sub(c.zeroCoordinate) == Offset(blockIndex)
  {
    c.zeroCoordinate.Add(Coordinate(blockIndex.x, blockIndex.y, blockIndex.z))
  }

  /** Distinct indices name distinct block coordinates. */
  lemma CoordinateFromIndexInjective<S>(c: Chunk64<S>, a: ICoordinate, b: ICoordinate)
    requires GetCoordinateFromIndex(c, a) == GetCoordinateFromIndex(c, b)
    ensures a == b
  {
    assert Offset(a) == GetCoordinateFromIndex(c, a).Sub(c.zeroCoordinate);
  }
}
