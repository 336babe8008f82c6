/**
 * The earlier chunk store, `chunk.rs`, where it differs from `chunk16.rs`
 * and `chunk64.rs`: the free `to_internal` bounds helper, the column's
 * `get_chunk16` and `for_each`, the 4-to-8-bit arm of `upgrade`, and the
 * 32-bit arm of `set_voxel_internal`, whose `downgrade` is `todo!()`.
 *
 * The column type, its `[x][y][z]` lookup and `get_coordinate_from_index`
 * are written the same way in both files and are shared with
 * `Chunk64Store`.  Coordinates are unbounded integers; the `i32` width of
 * the source is not modelled.
 */
module LegacyChunk {
  import opened Wrappers
  import opened Voxels
  import opened BitArith
  import opened ChunkCells
  import opened VoxelPalette
  import Chunk16Store
  import Chunk64Store

  type Chunk64<S> = Chunk64Store.Chunk64<S>

  // ---------------------------------------------------------------------
  // Integer division as Rust does it

  function Abs(a: int): nat
  {
    if a < 0 then -a else a
  }

  /**
   * Rust's `/` on `i32`: the quotient rounded toward zero.  Its size is the
   * number of whole `|b|` in `|a|`, and it is negative exactly when the
   * operands' signs differ (Dafny's own `/` rounds down instead).
   */
  function TruncDiv(a: int, b: int): (q: int)
    requires b != 0
    ensures Abs(q) * Abs(b) <= Abs(a) < (Abs(q) + 1) * Abs(b)
    ensures q != 0 ==> (q > 0 <==> (a > 0) == (b > 0))
  {
    var m := Abs(a) / Abs(b);
    var q := if (a >= 0) == (b > 0) then m else -m;
    SignedQuotient(a, b, q);
    q
  }

  /** The bounds `TruncDiv` states, for the whole number of `|b|` in `|a|` with the sign chosen. */
  lemma SignedQuotient(a: int, b: int, q: int)
    requires b != 0
    requires q == if (a >= 0) == (b > 0) then Abs(a) / Abs(b) else -(Abs(a) / Abs(b))
    ensures Abs(q) * Abs(b) <= Abs(a) < (Abs(q) + 1) * Abs(b)
    ensures q != 0 ==> (q > 0 <==> (a > 0) == (b > 0))
  {
    var n: nat, d: nat := Abs(a), Abs(b);
    assert d > 0;
    var m := n / d;
    QuotientBounds(n, d);
    assert Abs(q) == m;
    assert Abs(q) * Abs(b) == m * d && (Abs(q) + 1) * Abs(b) == (m + 1) * d;
    if q != 0 {
      assert n > 0;
    }
  }

  /** The whole number of `d` in `n` is bracketed by its multiples, and is 0 when `n` is. */
  lemma QuotientBounds(n: nat, d: nat)
    requires d > 0
    ensures (n / d) * d <= n < (n / d + 1) * d
    ensures n / d != 0 ==> n > 0
  {
    DivMod(n, d);
    MulSucc(n / d, d);
    if n / d != 0 {
      MulMono(1, n / d, d);
    }
  }

  // ---------------------------------------------------------------------
  // `to_internal`

  /** One axis of `to_internal` as written: the quotient is rejected below 0 or above `limit`. */
  function AxisAsWritten(rel: int, step: int, limit: int): (r: Option<nat>)
    requires step != 0
    ensures step > 0 && limit >= 0 ==> (r.Some? <==> -step < rel < (limit + 1) * step)
    ensures step > 0 && r.Some? ==> r.value * step <= (if rel < 0 then 0 else rel) < r.value * step + step
  {
    var q := TruncDiv(rel, step);
    AxisAsWrittenBounds(rel, step, limit, q);
    if q < 0 || q > limit then None else Some(q)
  }

  /** The bounds `AxisAsWritten` states, for a positive step. */
  lemma AxisAsWrittenBounds(rel: int, step: int, limit: int, q: int)
    requires step > 0 ==> q == TruncDiv(rel, step)
    ensures step > 0 && limit >= 0 ==> (!(q < 0 || q > limit) <==> -step < rel < (limit + 1) * step)
    ensures step > 0 && !(q < 0 || q > limit) ==> q * step <= (if rel < 0 then 0 else rel) < q * step + step
  {
    if step > 0 {
      MulSucc(Abs(q), step);
      if rel >= 0 {
        if q <= limit {
          MulMono(q + 1, limit + 1, step);
        } else {
          MulMono(limit + 1, q, step);
        }
      } else if q != 0 {
        MulMono(1, Abs(q), step);
      }
    }
  }

  /** Whether `to_internal` as written admits a relative component `v`. */
  predicate AdmittedAsWritten(v: int, step: int, elementsInGrid: int)
  {
    -step < v < (elementsInGrid * elementsInGrid + 1) * step
  }

  lemma SquareIsNatural(e: int)
    ensures e * e >= 0
  {
    if e >= 0 {
      MulMono(0, e, e);
    } else {
      MulMono(0, -e, -e);
    }
  }

  /**
   * `to_internal` as written: the relative coordinate is divided by
   * `internal_step`, rounding toward zero, and each quotient is rejected
   * when it is negative or greater than `elements_in_grid` squared.  With a
   * positive step a component is admitted from `-step + 1` (which rounds to
   * 0) up to `(elements^2 + 1) * step - 1`, and the index is the number of
   * whole steps in the component.
   */
  function ToInternalAsWritten(coord: Coordinate, zeroCoord: Coordinate, internalStep: int, elementsInGrid: int)
    : (r: Option<ICoordinate>)
    requires internalStep != 0
    ensures var rel := coord.Sub(zeroCoord);
            internalStep > 0 ==>
              (r.Some? <==> AdmittedAsWritten(rel.x, internalStep, elementsInGrid)
                            && AdmittedAsWritten(rel.y, internalStep, elementsInGrid)
                            && AdmittedAsWritten(rel.z, internalStep, elementsInGrid))
    ensures var rel := coord.Sub(zeroCoord);
            internalStep > 0 && r.Some? ==>
              && r.value.x * internalStep <= (if rel.x < 0 then 0 else rel.x) < r.value.x * internalStep + internalStep
              && r.value.y * internalStep <= (if rel.y < 0 then 0 else rel.y) < r.value.y * internalStep + internalStep
              && r.value.z * internalStep <= (if rel.z < 0 then 0 else rel.z) < r.value.z * internalStep + internalStep
  {
    var rel := coord.Sub(zeroCoord);
    var limit := elementsInGrid * elementsInGrid;
    SquareIsNatural(elementsInGrid);
    match (AxisAsWritten(rel.x, internalStep, limit), AxisAsWritten(rel.y, internalStep, limit), AxisAsWritten(rel.z, internalStep, limit))
    case (Some(x), Some(y), Some(z)) => Some(ICoordinate(x, y, z))
    case _ => None
  }

  /** A block one below the column's corner along x is admitted, as section 0. */
  lemma ToInternalAdmitsBelowZero(zero: Coordinate)
    ensures ToInternalAsWritten(zero.Add(Coordinate(-1, 0, 0)), zero, 16, 4) == Some(ICoordinate(0, 0, 0))
  {
  }

  /** `get_chunk16` passes `(16, 4)`: section index 16 along x passes the check, in a grid of 4. */
  lemma ToInternalAdmitsSectionSixteen(zero: Coordinate)
    ensures var r := ToInternalAsWritten(zero.Add(Coordinate(256, 0, 0)), zero, 16, 4);
            r == Some(ICoordinate(16, 0, 0)) && !Chunk64Store.InGrid(r.value)
  {
  }

  /**
   * `Chunk16::get_voxel` passes `(16, 16)`: the relative coordinate is
   * divided by 16, so blocks 0 and 5 of a section read the same cell, and
   * index 256 along x passes the check.
   */
  lemma GetVoxelIndexCollapses(zero: Coordinate)
    ensures ToInternalAsWritten(zero.Add(Coordinate(5, 0, 0)), zero, 16, 16) == ToInternalAsWritten(zero, zero, 16, 16)
    ensures var r := ToInternalAsWritten(zero.Add(Coordinate(4096, 0, 0)), zero, 16, 16);
            r == Some(ICoordinate(256, 0, 0)) && !InSection(r.value)
  {
  }

  /** One axis of the corrected `to_internal`: the quotient, rounded down, must lie in `[0, elements)`. */
  function AxisIndex(rel: int, step: int, elementsInGrid: int): (r: Option<nat>)
    requires step > 0
    ensures r.Some? <==> 0 <= rel < step * elementsInGrid
    ensures r.Some? ==> r.value < elementsInGrid && r.value * step <= rel < r.value * step + step
  {
    var q := rel / step;
    AxisIndexBounds(rel, step, elementsInGrid);
    if q < 0 || q >= elementsInGrid then None else Some(q)
  }

  /** The bounds `AxisIndex` states. */
  lemma AxisIndexBounds(rel: int, step: int, elementsInGrid: int)
    requires step > 0
    ensures var q := rel / step;
            (0 <= q < elementsInGrid <==> 0 <= rel < step * elementsInGrid)
            && q * step <= rel < q * step + step
  {
    var q := rel / step;
    DivMod(rel, step);
    MulSucc(q, step);
    if q < 0 {
      MulMono(q + 1, 0, step);
    } else if q < elementsInGrid {
      MulMono(q + 1, elementsInGrid, step);
    } else {
      MulMono(elementsInGrid, q, step);
    }
  }

  /** `from_internal`: the block coordinate of an index, `internal_step` blocks per index. */
  function FromInternal(coord: ICoordinate, zeroCoord: Coordinate, internalStep: int): (r: Coordinate)
    ensures r.Sub(zeroCoord) == Coordinate(coord.x, coord.y, coord.z).Scale(internalStep)
  {
    zeroCoord.Add(Coordinate(coord.x, coord.y, coord.z).Scale(internalStep))
  }

  /** The cube of `step` blocks per side whose lowest corner is `corner` holds `coord`. */
  predicate Holds(corner: Coordinate, step: int, coord: Coordinate)
  {
    && corner.x <= coord.x < corner.x + step
    && corner.y <= coord.y < corner.y + step
    && corner.z <= coord.z < corner.z + step
  }

  /**
   * `to_internal` with the grid's range: every relative component must lie
   * in `[0, step * elements)`, and the index is the cube of `step` blocks
   * that holds the coordinate.
   */
  function ToInternal(coord: Coordinate, zeroCoord: Coordinate, internalStep: int, elementsInGrid: int)
    : (r: Option<ICoordinate>)
    requires internalStep > 0
    ensures var rel := coord.Sub(zeroCoord);
            r.Some? <==> && 0 <= rel.x < internalStep * elementsInGrid
                         && 0 <= rel.y < internalStep * elementsInGrid
                         && 0 <= rel.z < internalStep * elementsInGrid
    ensures r.Some? ==>
              && r.value.x < elementsInGrid && r.value.y < elementsInGrid && r.value.z < elementsInGrid
              && Holds(FromInternal(r.value, zeroCoord, internalStep), internalStep, coord)
  {
    var rel := coord.Sub(zeroCoord);
    match (AxisIndex(rel.x, internalStep, elementsInGrid), AxisIndex(rel.y, internalStep, elementsInGrid), AxisIndex(rel.z, internalStep, elementsInGrid))
    case (Some(x), Some(y), Some(z)) => Some(ICoordinate(x, y, z))
    case _ => None
  }

  /** Every index of the grid is found again from its block coordinate. */
  lemma ToInternalInvertsFromInternal(coord: ICoordinate, zeroCoord: Coordinate, internalStep: int, elementsInGrid: int)
    requires internalStep > 0
    requires coord.x < elementsInGrid && coord.y < elementsInGrid && coord.z < elementsInGrid
    ensures ToInternal(FromInternal(coord, zeroCoord, internalStep), zeroCoord, internalStep, elementsInGrid) == Some(coord)
  {
    var rel := FromInternal(coord, zeroCoord, internalStep).Sub(zeroCoord);
    DivModUnique(rel.x, internalStep, coord.x, 0);
    DivModUnique(rel.y, internalStep, coord.y, 0);
    DivModUnique(rel.z, internalStep, coord.z, 0);
    MulMono(0, coord.x, internalStep);
    MulMono(0, coord.y, internalStep);
    MulMono(0, coord.z, internalStep);
    MulMono(coord.x + 1, elementsInGrid, internalStep);
    MulMono(coord.y + 1, elementsInGrid, internalStep);
    MulMono(coord.z + 1, elementsInGrid, internalStep);
  }

  // ---------------------------------------------------------------------
  // The column: `get_chunk16` and `for_each`

  /** Blocks along each axis of a column. */
  const COLUMN_SIDE: nat := 64
  /** Sections in a column. */
  const SECTIONS: nat := 64

  /** An index coordinate of one of the column's blocks. */
  predicate InColumn(p: ICoordinate)
  {
    p.x < COLUMN_SIDE && p.y < COLUMN_SIDE && p.z < COLUMN_SIDE
  }

  /** What `get_chunk16` ends in: the section, the index error, or an out-of-bounds panic. */
  datatype Lookup<S> = Found(section: S) | Missing(error: Chunk16Store.VoxelIndexError) | Panicked

  /**
   * `get_chunk16` as written: `to_internal` with a step of 16 and 4
   * elements admits sections up to index 16, and the `[x][y][z]` lookup
   * panics past index 3.  Blocks from 15 below the corner to 63 above it
   * are found; a component from 64 to 271 passes the check and panics.
   */
  function GetChunk16AsWritten<S>(c: Chunk64<S>, coord: Coordinate): (r: Lookup<S>)
    requires Chunk64Store.Shaped(c.voxels)
    ensures var rel := coord.Sub(c.zeroCoordinate);
            r.Found? <==> -16 < rel.x < 64 && -16 < rel.y < 64 && -16 < rel.z < 64
    ensures var rel := coord.Sub(c.zeroCoordinate);
            r.Missing? <==> !(AdmittedAsWritten(rel.x, 16, 4) && AdmittedAsWritten(rel.y, 16, 4) && AdmittedAsWritten(rel.z, 16, 4))
    ensures r.Missing? ==> r.error == Chunk16Store.VoxelIndexError(coord)
  {
    match ToInternalAsWritten(coord, c.zeroCoordinate, 16, 4)
    case None => Missing(Chunk16Store.VoxelIndexError(coord))
    case Some(ic) =>
      if Chunk64Store.InGrid(ic) then Found(Chunk64Store.GetChunk16InternalUncheckedAsWritten(c, ic)) else Panicked
  }

  /** On a new column, block 16 along x is found in the section one step up, and block 64 panics. */
  lemma GetChunk16AsWrittenMisses(coord16: Coordinate, zero: Coordinate, fill: BlockId)
    ensures var c := Chunk64Store.New(coord16, zero, fill);
            && GetChunk16AsWritten(c, zero.Add(Coordinate(16, 0, 0))) == Found(Chunk64Store.Section(coord16.Add(Coordinate(0, 1, 0)), fill))
            && GetChunk16AsWritten(c, zero.Add(Coordinate(64, 0, 0))).Panicked?
  {
    Chunk64Store.LookupFindsBuiltSection(coord16, zero, fill, ICoordinate(0, 1, 0));
  }

  /** `get_chunk16` with the corrected bounds and the construction's `[y][z][x]` lookup. */
  function GetChunk16<S>(c: Chunk64<S>, coord: Coordinate): (r: Result<S, Chunk16Store.VoxelIndexError>)
    requires Chunk64Store.Shaped(c.voxels)
    ensures var rel := coord.Sub(c.zeroCoordinate);
            r.Ok? <==> 0 <= rel.x < COLUMN_SIDE && 0 <= rel.y < COLUMN_SIDE && 0 <= rel.z < COLUMN_SIDE
    ensures r.Err? ==> r.error == Chunk16Store.VoxelIndexError(coord)
  {
    match ToInternal(coord, c.zeroCoordinate, 16, 4)
    case None => Err(Chunk16Store.VoxelIndexError(coord))
    case Some(ic) => Ok(Chunk64Store.GetChunk16Internal(c, ic))
  }

  /** On a new column every block lies in the section built for its 16-block cube. */
  lemma GetChunk16FindsBuiltSection(coord16: Coordinate, zero: Coordinate, fill: BlockId, p: ICoordinate)
    requires InColumn(p)
    ensures GetChunk16(Chunk64Store.New(coord16, zero, fill), zero.Add(Coordinate(p.x, p.y, p.z)))
            == Ok(Chunk64Store.Section(coord16.Add(Coordinate(p.x / 16, p.y / 16, p.z / 16)), fill))
  {
    var c := Chunk64Store.New(coord16, zero, fill);
    var ic := ToInternal(zero.Add(Coordinate(p.x, p.y, p.z)), zero, 16, 4).value;
    DivModUnique(p.x, 16, ic.x, p.x - ic.x * 16);
    DivModUnique(p.y, 16, ic.y, p.y - ic.y * 16);
    DivModUnique(p.z, 16, ic.z, p.z - ic.z * 16);
    Chunk64Store.LookupFindsBuiltSection(coord16, zero, fill, ic);
  }

  /** Every block index of the column is found again from its block coordinate. */
  lemma CoordinateFromIndexRoundTrip<S>(c: Chunk64<S>, p: ICoordinate)
    requires InColumn(p)
    ensures ToInternal(Chunk64Store.GetCoordinateFromIndex(c, p), c.zeroCoordinate, 1, COLUMN_SIDE) == Some(p)
  {
    ToInternalInvertsFromInternal(p, c.zeroCoordinate, 1, COLUMN_SIDE);
    assert FromInternal(p, c.zeroCoordinate, 1) == Chunk64Store.GetCoordinateFromIndex(c, p);
  }

  /** One call of `for_each`'s action: the block's index coordinate and the voxel read there. */
  datatype Visit = Visit(index: ICoordinate, voxel: VoxelRef)

  /** Section number `s` of the loops' `y16, z16, x16` order. */
  function SectionAt(s: nat): (ic: ICoordinate)
    requires s < SECTIONS
    ensures Chunk64Store.InGrid(ic) && (ic.y * 4 + ic.z) * 4 + ic.x == s
  {
    ICoordinate(s % 4, s / 16, (s / 4) % 4)
  }

  /**
   * Call `i` of section `s`: cell `i` in `y, z, x` order of the section at
   * `[y16][z16][x16]`, reported at its index coordinate in the column.
   * `read` is the section's `get_voxel_internal`.
   */
  function VisitOf<S>(c: Chunk64<S>, read: (S, ICoordinate) -> VoxelRef, s: nat, i: nat): Visit
    requires Chunk64Store.Shaped(c.voxels) && s < SECTIONS && i < CELLS
  {
    var sec := SectionAt(s);
    var cell := CellAt(i);
    Visit(ICoordinate(sec.x * 16 + cell.x, sec.y * 16 + cell.y, sec.z * 16 + cell.z),
          read(c.voxels[sec.y][sec.z][sec.x], cell))
  }

  /** The `n`-th call of the action: call `n % 4096` of section `n / 4096`. */
  function VisitAt<S>(c: Chunk64<S>, read: (S, ICoordinate) -> VoxelRef, n: nat): Visit
    requires Chunk64Store.Shaped(c.voxels) && n < SECTIONS * CELLS
  {
    DivMod(n, CELLS);
    VisitOf(c, read, n / CELLS, n % CELLS)
  }

  /** The calls made for section `s`. */
  function SectionCalls<S>(c: Chunk64<S>, read: (S, ICoordinate) -> VoxelRef, s: nat): (calls: seq<Visit>)
    requires Chunk64Store.Shaped(c.voxels) && s < SECTIONS
    ensures |calls| == CELLS
  {
    seq(CELLS, i requires 0 <= i < CELLS => VisitOf(c, read, s, i))
  }

  /** The calls made for the first `s` sections. */
  ghost function CallsUpTo<S>(c: Chunk64<S>, read: (S, ICoordinate) -> VoxelRef, s: nat): seq<Visit>
    requires Chunk64Store.Shaped(c.voxels) && s <= SECTIONS
  {
    if s == 0 then [] else CallsUpTo(c, read, s - 1) + SectionCalls(c, read, s - 1)
  }

  /**
   * `for_each`: the action's calls, in order.  The three outer loops run
   * over the 64 sections in `y16, z16, x16` order (one loop here), and
   * `VisitSection` runs the three inner ones.
   */
  method ForEach<S>(c: Chunk64<S>, read: (S, ICoordinate) -> VoxelRef) returns (calls: seq<Visit>)
    requires Chunk64Store.Shaped(c.voxels)
    ensures |calls| == SECTIONS * CELLS
    ensures forall n :: 0 <= n < |calls| ==> calls[n] == VisitAt(c, read, n)
  {
    calls := [];
    for s := 0 to SECTIONS
      invariant calls == CallsUpTo(c, read, s)
    {
      var sectionCalls := VisitSection(c, read, s);
      calls := calls + sectionCalls;
    }
    CallsUpToAreVisits(c, read, SECTIONS);
  }

  /**
   * The body of `for_each`'s three outer loops for section `s`: every
   * cell of the section at `[y16][z16][x16]`, in `y, z, x` order, read and
   * reported at its index coordinate in the column.
   */
  method VisitSection<S>(c: Chunk64<S>, read: (S, ICoordinate) -> VoxelRef, s: nat) returns (calls: seq<Visit>)
    requires Chunk64Store.Shaped(c.voxels) && s < SECTIONS
    ensures calls == SectionCalls(c, read, s)
  {
    var sec := SectionAt(s);
    var chunk16 := c.voxels[sec.y][sec.z][sec.x];
    var base := ICoordinate(sec.x * 16, sec.y * 16, sec.z * 16);
    calls := [];
    for i := 0 to CELLS
      invariant calls == SectionCalls(c, read, s)[..i]
    {
      var indexVector := CellAt(i);
      var voxel := read(chunk16, indexVector);
      var call := Visit(ICoordinate(base.x + indexVector.x, base.y + indexVector.y, base.z + indexVector.z), voxel);
      assert call == VisitOf(c, read, s, i);
      PrefixStep(SectionCalls(c, read, s), i);
      calls := calls + [call];
    }
    assert SectionCalls(c, read, s)[..CELLS] == SectionCalls(c, read, s);
  }

  /** A prefix grows by the next element. */
  lemma PrefixStep<T>(q: seq<T>, i: nat)
    requires i < |q|
    ensures q[..i + 1] == q[..i] + [q[i]]
  {
  }

  /** The calls for the first `s` sections are the first `s * 4096` calls, each in its place. */
  lemma {:induction false} CallsUpToAreVisits<S>(c: Chunk64<S>, read: (S, ICoordinate) -> VoxelRef, s: nat)
    requires Chunk64Store.Shaped(c.voxels) && s <= SECTIONS
    ensures |CallsUpTo(c, read, s)| == s * CELLS
    ensures forall n :: 0 <= n < s * CELLS ==> n < SECTIONS * CELLS && CallsUpTo(c, read, s)[n] == VisitAt(c, read, n)
  {
    if s > 0 {
      var prefix := CallsUpTo(c, read, s - 1);
      CallsUpToAreVisits(c, read, s - 1);
      MulSucc(s - 1, CELLS);
      MulMono(s, SECTIONS, CELLS);
      forall n | 0 <= n < s * CELLS
        ensures n < SECTIONS * CELLS && CallsUpTo(c, read, s)[n] == VisitAt(c, read, n)
      {
        if n >= |prefix| {
          DivModUnique(n, CELLS, s - 1, n - |prefix|);
        }
      }
    }
  }

  /** The section holding block `p`. */
  function SectionOf(p: ICoordinate): (ic: ICoordinate)
    requires InColumn(p)
    ensures Chunk64Store.InGrid(ic)
  {
    ICoordinate(p.x / 16, p.y / 16, p.z / 16)
  }

  /** Block `p`'s cell within its section. */
  function CellOf(p: ICoordinate): (cell: ICoordinate)
    ensures InSection(cell)
  {
    ICoordinate(p.x % 16, p.y % 16, p.z % 16)
  }

  /** The loops' number of section `ic`. */
  function SectionNumber(ic: ICoordinate): (s: nat)
    requires Chunk64Store.InGrid(ic)
    ensures s < SECTIONS && SectionAt(s) == ic
  {
    SectionDigits(ic);
    (ic.y * 4 + ic.z) * 4 + ic.x
  }

  /** A section's number has its coordinates as base-4 digits. */
  lemma SectionDigits(ic: ICoordinate)
    requires Chunk64Store.InGrid(ic)
    ensures var s := (ic.y * 4 + ic.z) * 4 + ic.x;
            s < SECTIONS && s % 4 == ic.x && s / 16 == ic.y && (s / 4) % 4 == ic.z
  {
    var s := (ic.y * 4 + ic.z) * 4 + ic.x;
    assert s == ic.y * 16 + ic.z * 4 + ic.x;
    assert s / 4 == ic.y * 4 + ic.z;
  }

  /** The call number at which `for_each` visits block `p`. */
  function VisitIndex(p: ICoordinate): (n: nat)
    requires InColumn(p)
    ensures n < SECTIONS * CELLS
  {
    var s := SectionNumber(SectionOf(p));
    var cell := CellIndex(CellOf(p));
    BoundStep(cell, CELLS, s, SECTIONS);
    s * CELLS + cell
  }

  /** Decoding the call number `VisitIndex(p)` gives back `p`'s section and cell. */
  lemma VisitIndexDecodes(p: ICoordinate)
    requires InColumn(p)
    ensures SectionAt(VisitIndex(p) / CELLS) == SectionOf(p)
    ensures CellAt(VisitIndex(p) % CELLS) == CellOf(p)
  {
    DivModUnique(VisitIndex(p), CELLS, SectionNumber(SectionOf(p)), CellIndex(CellOf(p)));
  }

  /** The block of call `n` is in the column, and it is visited at call `n`. */
  lemma VisitIndexOfVisit<S>(c: Chunk64<S>, read: (S, ICoordinate) -> VoxelRef, n: nat)
    requires Chunk64Store.Shaped(c.voxels) && n < SECTIONS * CELLS
    ensures InColumn(VisitAt(c, read, n).index) && VisitIndex(VisitAt(c, read, n).index) == n
  {
    var p := VisitAt(c, read, n).index;
    var sec := SectionAt(n / CELLS);
    var cell := CellAt(n % CELLS);
    DivModUnique(p.x, 16, sec.x, cell.x);
    DivModUnique(p.y, 16, sec.y, cell.y);
    DivModUnique(p.z, 16, sec.z, cell.z);
    DivMod(n, CELLS);
  }

  /**
   * `for_each` calls the action exactly once for each of the column's
   * 64 * 4096 blocks: block `p` at call `VisitIndex(p)` and at no other.
   */
  lemma ForEachVisitsEachBlockOnce<S>(c: Chunk64<S>, read: (S, ICoordinate) -> VoxelRef, p: ICoordinate)
    requires Chunk64Store.Shaped(c.voxels) && InColumn(p)
    ensures VisitAt(c, read, VisitIndex(p)).index == p
    ensures forall n :: 0 <= n < SECTIONS * CELLS && VisitAt(c, read, n).index == p ==> n == VisitIndex(p)
  {
    VisitIndexDecodes(p);
    var q := VisitAt(c, read, VisitIndex(p)).index;
    DivMod(p.x, 16);
    DivMod(p.y, 16);
    DivMod(p.z, 16);
    assert q == p;
    forall n | 0 <= n < SECTIONS * CELLS && VisitAt(c, read, n).index == p
      ensures n == VisitIndex(p)
    {
      VisitIndexOfVisit(c, read, n);
    }
  }

  /**
   * The voxel passed for block `p` is read from the section at `p / 16`
   * by the construction's `[y][z][x]` order, at cell `p % 16`: the section
   * `get_chunk16` with the corrected lookup returns for `p`'s coordinate.
   */
  lemma ForEachReadsSection<S>(c: Chunk64<S>, read: (S, ICoordinate) -> VoxelRef, p: ICoordinate)
    requires Chunk64Store.Shaped(c.voxels) && InColumn(p)
    ensures var s := GetChunk16(c, Chunk64Store.GetCoordinateFromIndex(c, p));
            s.Ok? && VisitAt(c, read, VisitIndex(p)).voxel == read(s.value, ICoordinate(p.x % 16, p.y % 16, p.z % 16))
  {
    VisitIndexDecodes(p);
    var ic := ToInternal(Chunk64Store.GetCoordinateFromIndex(c, p), c.zeroCoordinate, 16, 4).value;
    DivModUnique(p.x, 16, ic.x, p.x - ic.x * 16);
    DivModUnique(p.y, 16, ic.y, p.y - ic.y * 16);
    DivModUnique(p.z, 16, ic.z, p.z - ic.z * 16);
  }

  // ---------------------------------------------------------------------
  // The 4-to-8-bit arm of `upgrade`

  /**
   * The ids the 4-to-8-bit arm of `upgrade` writes as written: an odd cell
   * gets its high nibble, but an even cell gets the whole byte, so its id
   * carries its odd neighbour's id in the high four bits.
   */
  function WidenedB4AsWritten(bytes: seq<bv8>): (ids: seq<bv8>)
    requires |bytes| == CELLS / 2
    ensures |ids| == CELLS
    ensures forall c :: 0 <= c < CELLS && c % 2 == 1 ==> ids[c] == UnpackB4(bytes)[c]
    ensures forall c :: 0 <= c < CELLS && c % 2 == 0 ==>
              ids[c] & 0x0F == UnpackB4(bytes)[c] && ids[c] >> 4 == UnpackB4(bytes)[c + 1]
  {
    var ids := seq(CELLS, c requires 0 <= c < CELLS => if c % 2 == 0 then bytes[c / 2] else Nibble(bytes[c / 2], true));
    HighNibblesAreShifts(bytes);
    ids
  }

  /** A byte shifted right by four is its high nibble. */
  lemma HighNibblesAreShifts(bytes: seq<bv8>)
    ensures forall i :: 0 <= i < |bytes| ==> bytes[i] >> 4 == (bytes[i] & 0xF0) >> 4
  {
    forall i | 0 <= i < |bytes|
      ensures bytes[i] >> 4 == (bytes[i] & 0xF0) >> 4
    {
      var b := bytes[i];
      assert b >> 4 == (b & 0xF0) >> 4;
    }
  }

  /** A byte whose high nibble is clear is its low nibble, and only then. */
  lemma LowNibbleOnly(b: bv8)
    ensures b >> 4 == 0 <==> b & 0x0F == b
  {
  }

  /** The as-written arm reads every cell correctly exactly when every odd cell holds id 0. */
  lemma WidenedB4AsWrittenExactWhen(bytes: seq<bv8>)
    requires |bytes| == CELLS / 2
    ensures WidenedB4AsWritten(bytes) == UnpackB4(bytes)
            <==> forall c :: 0 <= c < CELLS && c % 2 == 1 ==> UnpackB4(bytes)[c] == 0
  {
    var ids := WidenedB4AsWritten(bytes);
    var want := UnpackB4(bytes);
    if ids == want {
      forall c | 0 <= c < CELLS && c % 2 == 1
        ensures want[c] == 0
      {
        LowNibbleOnly(ids[c - 1]);
      }
    }
    if forall c :: 0 <= c < CELLS && c % 2 == 1 ==> want[c] == 0 {
      forall c | 0 <= c < CELLS
        ensures ids[c] == want[c]
      {
        if c % 2 == 0 {
          assert want[c + 1] == 0;
          assert ids[c] >> 4 == 0 && ids[c] & 0x0F == want[c];
          LowNibbleOnly(ids[c]);
        }
      }
    }
  }

  /** A grid of bytes `0x21` (ids 1 and 2 alternating) widens its even cells to 33 instead of 1. */
  lemma WidenedB4AsWrittenMisreads()
    ensures var bytes := seq(CELLS / 2, _ => 0x21 as bv8);
            WidenedB4AsWritten(bytes)[0] == 0x21 && UnpackB4(bytes)[0] == 1
  {
  }

  /** The 4-to-8-bit arm of `upgrade` as written. */
  method WidenB4ToB8AsWritten(a: array<bv8>) returns (newGrid: array<bv8>)
    requires a.Length == CELLS / 2
    ensures fresh(newGrid) && newGrid.Length == CELLS
    ensures newGrid[..] == WidenedB4AsWritten(a[..])
  {
    newGrid := new bv8[CELLS](_ => 0);
    for c := 0 to CELLS
      invariant forall d :: 0 <= d < c ==> newGrid[d] == WidenedB4AsWritten(a[..])[d]
    {
      var byteRef := a[c / 2];
      if c % 2 == 0 {
        newGrid[c] := byteRef;
      } else {
        newGrid[c] := (byteRef & 0xF0) >> 4;
      }
    }
  }

  // ---------------------------------------------------------------------
  // The 32-bit arm of `set_voxel_internal`

  /** `min_num_palettes` of the 32-bit layout: 255 less the hysteresis of 1. */
  const B32_MIN_PALETTE_LEN: nat := 254

  /**
   * The 32-bit arm of `set_voxel_internal`: the index the cell held (found
   * in the palette for a direct cell), then the cell rewritten.  A table
   * shorter than the layout's minimum would then call `downgrade`, which
   * is `todo!()` in this file: that path is excluded by the precondition.
   * A direct cell missing from the palette and a simple block id with the
   * tag bit set panic.
   */
  method WriteB32AsWritten(entries: array<ChunkB32Entry>, palette: Palette, c: nat, newId: nat,
                           voxelBlockId: BlockId, voxelIsSimple: bool) returns (outcome: Outcome, oldId: nat)
    requires entries.Length == CELLS && c < CELLS && palette.Valid()
    requires palette.Len() >= B32_MIN_PALETTE_LEN
    modifies entries
    ensures var e := old(entries[c]);
            outcome == Done <==>
              && (IsDirect(e) ==> FirstIndexOf(palette.base, AsDirect(e) as int).Some?)
              && (voxelIsSimple ==> (voxelBlockId as bv32) & CHUNK_B32_ENTRY_FLAG_BIT == 0)
    ensures outcome == Done ==>
              && entries[..] == old(entries[..])[c := Chunk16Store.WrittenEntry(newId, voxelBlockId, voxelIsSimple)]
              && var e := old(entries[c]);
                 if IsDirect(e) then FirstIndexOf(palette.base, AsDirect(e) as int) == Some(oldId)
                 else oldId == AsMapped(e) as nat
    ensures outcome == Panic ==> entries[..] == old(entries[..])
  {
    var entry := entries[c];
    if IsDirect(entry) {
      if FirstIndexOf(palette.base, AsDirect(entry) as int).None? {
        // "direct entries in grid must be in palette"
        return Panic, 0;
      }
      oldId := palette.Find(AsDirect(entry) as int);
    } else {
      oldId := AsMapped(entry) as nat;
    }
    if voxelIsSimple && (voxelBlockId as bv32) & CHUNK_B32_ENTRY_FLAG_BIT != 0 {
      // `make_direct` asserts that the tag bit is clear
      return Panic, oldId;
    }
    entries[c] := Chunk16Store.WrittenEntry(newId, voxelBlockId, voxelIsSimple);
    outcome := Done;
  }
}
