/**
 * The cell-level encodings of a 16x16x16 chunk section: the tagged 32-bit
 * cell of the widest layout (`ChunkB32Entry`), the nibble and 2-bit
 * packings of the narrow layouts, the flat [y][z][x] cell order, and the
 * palette capacity of each layout.
 *
 * A grid `[[[T; w]; 16]; 16]` indexed `[y][z][x]` is stored flat: cell
 * (x, y, z) is number `(y * 16 + z) * 16 + x`, so the flat order is the
 * y-then-z-then-x order of the source's nested loops.  In the 4-bit layout
 * cell `c` lives in byte `c / 2` (low nibble for even `c`); in the 2-bit
 * layout it lives in byte `c / 4` at bit `2 * (c % 4)`.  Since a row has
 * 16 cells, `c / 2`, `c / 4`, `c % 2` and `c % 4` are exactly the source's
 * `[y][z][x / 2]`, `[y][z][x / 4]`, `x % 2` and `x % 4`.
 */
module ChunkCells {
  import opened Voxels

  /** Cells in a chunk section. */
  const CELLS: nat := 4096

  // ---------------------------------------------------------------------
  // ChunkB32Entry (voxel_lib/src/chunk16.rs:20-62)

  /** Bit 31 tags a cell as mapped (a palette index) rather than direct (a block id). */
  const CHUNK_B32_ENTRY_FLAG_BIT: bv32 := 0x8000_0000

  datatype ChunkB32Entry = ChunkB32Entry(value: bv32)

  predicate IsDirect(e: ChunkB32Entry)
  {
    e.value & CHUNK_B32_ENTRY_FLAG_BIT == 0
  }

  predicate IsMapped(e: ChunkB32Entry)
  {
    !IsDirect(e)
  }

  function AsDirect(e: ChunkB32Entry): bv32
  {
    e.value
  }

  /** The low 16 bits, which masks off at least the tag bit. */
  function AsMapped(e: ChunkB32Entry): bv16
  {
    (e.value & 0xFFFF) as bv16
  }

  /** `new_empty`: the direct value 0. */
  function NewEmpty(): (e: ChunkB32Entry)
    ensures IsDirect(e) && AsDirect(e) == 0
  {
    ChunkB32Entry(0)
  }

  /** `make_direct`: the value must leave the tag bit clear (the source asserts it). */
  function MakeDirect(value: bv32): (e: ChunkB32Entry)
    requires value & CHUNK_B32_ENTRY_FLAG_BIT == 0
    ensures IsDirect(e) && AsDirect(e) == value
  {
    ChunkB32Entry(value)
  }

  /** `make_mapped`: any 16-bit palette index, with the tag bit set. */
  function MakeMapped(mappedId: bv16): (e: ChunkB32Entry)
    ensures IsMapped(e) && AsMapped(e) == mappedId
  {
    ChunkB32Entry((mappedId as bv32) | CHUNK_B32_ENTRY_FLAG_BIT)
  }

  /** A cell is direct or mapped, never both, and the two constructors can never produce the same cell. */
  lemma DirectAndMappedAreDisjoint(value: bv32, mappedId: bv16)
    requires value & CHUNK_B32_ENTRY_FLAG_BIT == 0
    ensures MakeDirect(value) != MakeMapped(mappedId)
  {
    assert IsDirect(MakeDirect(value)) && !IsDirect(MakeMapped(mappedId));
  }

  // ---------------------------------------------------------------------
  // Nibble and 2-bit packing (voxel_lib/src/chunk16.rs:143-155, 187-216)

  /** The 4-bit id in the low (`odd == false`) or high (`odd == true`) half of a byte. */
  function Nibble(b: bv8, odd: bool): (r: bv8)
    ensures r <= 15
  {
    if odd then (b & 0xF0) >> 4 else b & 0x0F
  }

  /** A byte with one half replaced by `id4`: the half is cleared, then `id4` is or-ed in. */
  function WithNibble(b: bv8, odd: bool, id4: bv8): (r: bv8)
    requires id4 <= 15
    ensures Nibble(r, odd) == id4
    ensures Nibble(r, !odd) == Nibble(b, !odd)
  {
    if odd then (b & 0x0F) | (id4 << 4) else (b & 0xF0) | id4
  }

  /**
   * The 2-bit id number `k` of a byte: `(b & (3 << 2k)) >> 2k`, written out
   * for each of the four fields.
   */
  function Crumb(b: bv8, k: nat): (r: bv8)
    requires k < 4
    ensures r <= 3
  {
    if k == 0 then b & 0x03
    else if k == 1 then (b & 0x0C) >> 2
    else if k == 2 then (b & 0x30) >> 4
    else (b & 0xC0) >> 6
  }

  /** A byte with its 2-bit field number `k` cleared (`b & !(3 << 2k)`) and `id2` or-ed in. */
  function WithCrumb(b: bv8, k: nat, id2: bv8): (r: bv8)
    requires k < 4 && id2 <= 3
    ensures Crumb(r, k) == id2
    ensures forall j :: 0 <= j < 4 && j != k ==> Crumb(r, j) == Crumb(b, j)
  {
    if k == 0 then (b & 0xFC) | id2
    else if k == 1 then (b & 0xF3) | (id2 << 2)
    else if k == 2 then (b & 0xCF) | (id2 << 4)
    else (b & 0x3F) | (id2 << 6)
  }

  // ---------------------------------------------------------------------
  // Flat cell order

  predicate InSection(coord: ICoordinate)
  {
    coord.x < 16 && coord.y < 16 && coord.z < 16
  }

  /** The flat number of cell `[y][z][x]`. */
  function CellIndex(coord: ICoordinate): (c: nat)
    requires InSection(coord)
    ensures c < CELLS
    ensures c % 16 == coord.x && (c / 16) % 16 == coord.z && c / 256 == coord.y
  {
    (coord.y * 16 + coord.z) * 16 + coord.x
  }

  /** The cell with flat number `c`. */
  function CellAt(c: nat): (coord: ICoordinate)
    requires c < CELLS
    ensures InSection(coord) && CellIndex(coord) == c
  {
    FlatDigits(c);
    ICoordinate(c % 16, c / 256, (c / 16) % 16)
  }

  /** A flat number below 4096 is made of its three base-16 digits. */
  lemma FlatDigits(c: nat)
    requires c < CELLS
    ensures c / 256 < 16 && ((c / 256) * 16 + (c / 16) % 16) * 16 + c % 16 == c
  {
    var q, r := c / 16, c % 16;
    assert c == q * 16 + r;
    var y, z := q / 16, q % 16;
    assert q == y * 16 + z;
    assert c == y * 256 + z * 16 + r;
    assert c / 256 == y;
  }

  /** Distinct cells have distinct flat numbers. */
  lemma CellIndexInjective(a: ICoordinate, b: ICoordinate)
    requires InSection(a) && InSection(b) && a != b
    ensures CellIndex(a) != CellIndex(b)
  {
  }

  // ---------------------------------------------------------------------
  // The ids a packed grid holds, cell by cell

  /** The 8-bit layout: one id per byte. */
  function UnpackB8(bytes: seq<bv8>): (ids: seq<bv8>)
    requires |bytes| == CELLS
    ensures |ids| == CELLS
  {
    bytes
  }

  /** The 4-bit layout: cell `c` is nibble `c % 2` of byte `c / 2`. */
  function UnpackB4(bytes: seq<bv8>): (ids: seq<bv8>)
    requires |bytes| == CELLS / 2
    ensures |ids| == CELLS && forall c :: 0 <= c < CELLS ==> ids[c] <= 15
  {
    seq(CELLS, c requires 0 <= c < CELLS => Nibble(bytes[c / 2], c % 2 == 1))
  }

  /** The 2-bit layout: cell `c` is field `c % 4` of byte `c / 4`. */
  function UnpackB2(bytes: seq<bv8>): (ids: seq<bv8>)
    requires |bytes| == CELLS / 4
    ensures |ids| == CELLS && forall c :: 0 <= c < CELLS ==> ids[c] <= 3
  {
    seq(CELLS, c requires 0 <= c < CELLS => Crumb(bytes[c / 4], c % 4))
  }

  /** Writing a nibble changes the id of exactly one cell of the 4-bit layout. */
  lemma {:induction false} UnpackB4Write(bytes: seq<bv8>, c: nat, id4: bv8)
    requires |bytes| == CELLS / 2 && c < CELLS && id4 <= 15
    ensures UnpackB4(bytes[c / 2 := WithNibble(bytes[c / 2], c % 2 == 1, id4)]) == UnpackB4(bytes)[c := id4]
  {
    var after := bytes[c / 2 := WithNibble(bytes[c / 2], c % 2 == 1, id4)];
    forall d | 0 <= d < CELLS
      ensures UnpackB4(after)[d] == UnpackB4(bytes)[c := id4][d]
    {
      if d / 2 != c / 2 {
        assert after[d / 2] == bytes[d / 2];
      } else if d != c {
        assert d % 2 != c % 2;
      }
    }
  }

  /** Writing a 2-bit field changes the id of exactly one cell of the 2-bit layout. */
  lemma {:induction false} UnpackB2Write(bytes: seq<bv8>, c: nat, id2: bv8)
    requires |bytes| == CELLS / 4 && c < CELLS && id2 <= 3
    ensures UnpackB2(bytes[c / 4 := WithCrumb(bytes[c / 4], c % 4, id2)]) == UnpackB2(bytes)[c := id2]
  {
    var after := bytes[c / 4 := WithCrumb(bytes[c / 4], c % 4, id2)];
    forall d | 0 <= d < CELLS
      ensures UnpackB2(after)[d] == UnpackB2(bytes)[c := id2][d]
    {
      if d / 4 != c / 4 {
        assert after[d / 4] == bytes[d / 4];
      } else if d != c {
        assert d % 4 != c % 4;
      }
    }
  }

  /** Two 4-bit ids packed low nibble first, as the 4-bit layout stores cells `2 * j` and `2 * j + 1`. */
  function PackB4(ids: seq<bv8>): (bytes: seq<bv8>)
    requires |ids| == CELLS && forall c :: 0 <= c < CELLS ==> ids[c] <= 15
    ensures |bytes| == CELLS / 2
    ensures UnpackB4(bytes) == ids
  {
    var bytes := seq(CELLS / 2, j requires 0 <= j < CELLS / 2 => PairByte(ids[2 * j], ids[2 * j + 1]));
    assert forall c :: 0 <= c < CELLS ==> UnpackB4(bytes)[c] == ids[c] by {
      forall c | 0 <= c < CELLS
        ensures UnpackB4(bytes)[c] == ids[c]
      {
        var j := c / 2;
        NibblesOfPair(ids[2 * j], ids[2 * j + 1]);
        assert bytes[j] == PairByte(ids[2 * j], ids[2 * j + 1]);
      }
    }
    bytes
  }

  /** The byte holding `lo` in its low half and `hi` in its high half. */
  function PairByte(lo: bv8, hi: bv8): bv8
  {
    lo | (hi << 4)
  }

  /** A byte packed from two nibbles gives each back. */
  lemma NibblesOfPair(lo: bv8, hi: bv8)
    requires lo <= 15 && hi <= 15
    ensures Nibble(PairByte(lo, hi), false) == lo && Nibble(PairByte(lo, hi), true) == hi
  {
  }

  /**
   * The bytes the 8-to-4-bit shrink writes, as written: for each cell it
   * assigns the whole byte (the id for an even cell, the id shifted into the
   * high nibble for an odd one), so the odd cell's assignment replaces the
   * even cell's.  Every even cell then reads 0.
   */
  function NarrowedB4AsWritten(newIds: seq<bv8>): (bytes: seq<bv8>)
    requires |newIds| == CELLS
    ensures |bytes| == CELLS / 2
    ensures forall j :: 0 <= j < CELLS / 2 ==> bytes[j] == HighNibbleByte(newIds[2 * j + 1])
  {
    seq(CELLS / 2, j requires 0 <= j < CELLS / 2 => HighNibbleByte(newIds[2 * j + 1]))
  }

  /** Read back, the as-written shrink keeps the odd cells' low nibbles and zeroes the even cells. */
  lemma NarrowedB4AsWrittenReads(newIds: seq<bv8>)
    requires |newIds| == CELLS
    ensures forall c :: 0 <= c < CELLS ==>
              UnpackB4(NarrowedB4AsWritten(newIds))[c] == if c % 2 == 0 then 0 else newIds[c] & 0x0F
  {
    var bytes := NarrowedB4AsWritten(newIds);
    forall c | 0 <= c < CELLS
      ensures UnpackB4(bytes)[c] == if c % 2 == 0 then 0 else newIds[c] & 0x0F
    {
      ShiftedNibbles(newIds[2 * (c / 2) + 1]);
    }
  }

  /** A byte shifted into the high half. */
  function HighNibbleByte(x: bv8): bv8
  {
    x << 4
  }

  /** A byte shifted left by 4 has a zero low nibble and the byte's low nibble on top. */
  lemma ShiftedNibbles(x: bv8)
    ensures Nibble(HighNibbleByte(x), false) == 0 && Nibble(HighNibbleByte(x), true) == x & 0x0F
  {
  }

  /** The shrink as written loses a non-zero id in an even cell, where packing both nibbles keeps it. */
  lemma NarrowedB4AsWrittenLosesEvenCells(newIds: seq<bv8>)
    requires |newIds| == CELLS && forall c :: 0 <= c < CELLS ==> newIds[c] <= 15
    requires newIds[0] != 0
    ensures UnpackB4(NarrowedB4AsWritten(newIds))[0] == 0
    ensures UnpackB4(PackB4(newIds))[0] == newIds[0]
  {
    NarrowedB4AsWrittenReads(newIds);
  }

  // ---------------------------------------------------------------------
  // Layout widths and palette capacities (voxel_lib/src/chunk16.rs:544-572)

  /** The five storage widths, widest first. */
  datatype Width = W32 | W8 | W4 | W2 | W0

  /** The next wider layout; the widest has none. */
  function Wider(w: Width): Width
  {
    match w
    case W0 => W2
    case W2 => W4
    case W4 => W8
    case W8 => W32
    case W32 => W32
  }

  /** The next narrower layout; the narrowest has none. */
  function Narrower(w: Width): Width
  {
    match w
    case W32 => W8
    case W8 => W4
    case W4 => W2
    case W2 => W0
    case W0 => W0
  }

  /** `max_palette_len`: the largest `len()` a layout can address. */
  function MaxPaletteLen(w: Width): nat
  {
    match w
    case W32 => 0xFFFF_FFFF
    case W8 => 255
    case W4 => 15
    case W2 => 3
    case W0 => 1
  }

  /** The hysteresis between the grow and the shrink thresholds. */
  const PALETTE_HYSTERESIS_VALUE: nat := 1

  /**
   * `min_palette_len`: below this `len()` a layout shrinks.  It is the
   * capacity the next narrower layout would have, less the hysteresis,
   * floored at 0.  For the 2-bit layout that capacity is taken as 1.
   */
  function MinPaletteLen(w: Width): nat
  {
    var maxLenOfDowngrade := match w
      case W32 => 255
      case W8 => 15
      case W4 => 3
      case W2 => 1
      case W0 => 0;
    if maxLenOfDowngrade <= PALETTE_HYSTERESIS_VALUE then 0 else maxLenOfDowngrade - PALETTE_HYSTERESIS_VALUE
  }

  /**
   * The thresholds: each paletted layout's capacity is one less than a power
   * of two, so its ids fit its bits; every capacity can be exceeded by one
   * before the next wider layout's capacity is reached; and the shrink
   * threshold sits one below the narrower layout's capacity, so a layout
   * that has just grown does not shrink again at once.
   */
  lemma {:induction false} CapacityThresholds(w: Width)
    ensures w == W8 ==> MaxPaletteLen(w) == 0x100 - 1
    ensures w == W4 ==> MaxPaletteLen(w) == 0x10 - 1
    ensures w == W2 ==> MaxPaletteLen(w) == 0x4 - 1
    ensures w != W32 ==> MaxPaletteLen(w) + 1 <= MaxPaletteLen(Wider(w))
    ensures w != W32 ==> MaxPaletteLen(w) < MaxPaletteLen(Wider(w))
    ensures MinPaletteLen(w) < MaxPaletteLen(w)
    ensures w != W0 && w != W2 ==> MinPaletteLen(w) == MaxPaletteLen(Narrower(w)) - PALETTE_HYSTERESIS_VALUE
    ensures w != W0 && w != W2 ==> MinPaletteLen(w) < MaxPaletteLen(Narrower(w))
    ensures w != W32 ==> MinPaletteLen(Wider(w)) <= MaxPaletteLen(w)
  {
  }
}
