/**
 * A column of chunk sections and the wire codec of its heightmaps
 * (voxel_lib/src/chunk_column.rs).
 *
 * A heightmap holds one `u16` height per block column of the 16 x 16
 * footprint, indexed `[z][x]`.  On the wire it travels as a sequence of
 * `i64` words, each value taking `bits` bits, where `bits` is the bit
 * length of the column's world height (16 blocks per section).  Both
 * directions visit the footprint x-outer, z-inner, so value number
 * `16 * x + z` is the height at `[z][x]`.
 *
 * The source's two loops do not form a codec: the encoder shifts each
 * height right by the running bit cursor and the decoder shifts each word
 * left, and the cursor is compared with 64 only after it has passed it.
 * They are modelled as written (`ToMinecraftAsWritten`,
 * `FromMinecraftAsWritten`), in a build with overflow checks, where every
 * shift by at least the operand's width panics.  Beside them sits the
 * intended codec (`ToMinecraft`, `FromMinecraft`): each height is shifted
 * left into the accumulator and right out of the word, a new word starts
 * when the next value would not fit, and the last partial word is sent.
 * The round trip is proved for that pair.
 */
module ChunkColumns {
  import opened Wrappers
  import opened BitArith
  import Chunk16Store

  /** Block columns along each side of the footprint. */
  const SIDE: nat := 16

  /** Heights in one heightmap. */
  const COLUMNS: nat := 256

  /** Blocks stacked in one chunk section. */
  const SECTION_HEIGHT: nat := 16

  /** Bits in one wire word. */
  const WORD_BITS: nat := 64

  /** `2^64`: the range of `u64` and `usize`. */
  const TWO_TO_64: nat := 0x1_0000_0000_0000_0000

  /** `2^63`: the first value an `i64` cannot hold. */
  const TWO_TO_63: nat := 0x8000_0000_0000_0000

  /** `2^16`: the range of `u16`. */
  const U16_LIMIT: nat := 0x1_0000

  /** A heightmap `[[u16; 16]; 16]`, indexed `[z][x]`. */
  type Heightmap = seq<seq<nat>>

  predicate IsHeightmap(h: Heightmap)
  {
    |h| == SIDE &&
    forall z :: 0 <= z < SIDE ==> |h[z]| == SIDE && forall x :: 0 <= x < SIDE ==> h[z][x] < U16_LIMIT
  }

  predicate AllZero(h: Heightmap)
    requires IsHeightmap(h)
  {
    forall z, x :: 0 <= z < SIDE && 0 <= x < SIDE ==> h[z][x] == 0
  }

  /** The heightmap of zeros the decoder starts from. */
  function ZeroHeightmap(): (h: Heightmap)
    ensures IsHeightmap(h) && AllZero(h)
  {
    seq(SIDE, _ => seq(SIDE, _ => 0))
  }

  /** `h` with the height at `[z][x]` replaced by `v`. */
  function WithHeight(h: Heightmap, z: nat, x: nat, v: nat): (r: Heightmap)
    requires z < |h| && x < |h[z]|
    ensures |r| == |h| && |r[z]| == |h[z]| && r[z][x] == v
    ensures forall z' :: 0 <= z' < |h| ==> |r[z']| == |h[z']|
    ensures forall z', x' :: 0 <= z' < |h| && 0 <= x' < |h[z']| && (z', x') != (z, x) ==> r[z'][x'] == h[z'][x']
  {
    var row: seq<nat> := h[z][x := v];
    h[z := row]
  }

  /** Every word is an `i64`. */
  predicate IsLongArray(ws: seq<int>)
  {
    forall j :: 0 <= j < |ws| ==> -(TWO_TO_63 as int) <= ws[j] < TWO_TO_63
  }

  /** `w as i64` for a `u64` word: the same 64 bits read as two's complement. */
  function AsI64(w: int): int
  {
    if w < TWO_TO_63 then w else w - TWO_TO_64
  }

  /** `w as u64` for an `i64` word. */
  function AsU64(w: int): (r: nat)
    requires -(TWO_TO_63 as int) <= w < TWO_TO_63
    ensures r < TWO_TO_64
    ensures w >= 0 ==> r == w
  {
    if w < 0 then w + TWO_TO_64 else w
  }

  lemma U64RoundTrip(w: int)
    requires 0 <= w < TWO_TO_64
    ensures -(TWO_TO_63 as int) <= AsI64(w) < TWO_TO_63 && AsU64(AsI64(w)) == w
  {
  }

  lemma Pow2SixtyFour()
    ensures Pow2(WORD_BITS) == TWO_TO_64
  {
    var p2 := Pow2(2);
    assert p2 == 4;
    Pow2Add(2, 2);
    var p4 := Pow2(4);
    assert p4 == 16;
    Pow2Add(4, 4);
    var p8 := Pow2(8);
    assert p8 == 256;
    Pow2Add(8, 8);
    var p16 := Pow2(16);
    assert p16 == 0x1_0000;
    Pow2Add(16, 16);
    var p32 := Pow2(32);
    assert p32 == 0x1_0000_0000;
    Pow2Add(32, 32);
  }

  /** `ChunkColumn`: the column's position, its sections and its two heightmaps. */
  datatype ChunkColumn = ChunkColumn(
    chunkX16: int,
    chunkY16: int,
    chunkSections: seq<Chunk16Store.Chunk16>,
    heightmapMotionBlocking: Heightmap,
    heightmapWorldSurface: Heightmap)

  function WorldHeight(column: ChunkColumn): nat
  {
    |column.chunkSections| * SECTION_HEIGHT
  }

  /** `usize::BITS - n.leading_zeros()`: the number of bits needed to write `n`. */
  function BitLength(n: nat): (r: nat)
    ensures n < Pow2(r)
    ensures r > 0 ==> Pow2(r - 1) <= n
    ensures n == 0 <==> r == 0
  {
    if n == 0 then 0 else 1 + BitLength(n / 2)
  }

  /** The same computation opens both directions of the codec. */
  function BitsPerElement(column: ChunkColumn): nat
  {
    BitLength(WorldHeight(column))
  }

  lemma BitsPerElementBound(column: ChunkColumn)
    requires WorldHeight(column) < TWO_TO_64
    ensures BitsPerElement(column) <= WORD_BITS
    ensures WorldHeight(column) > 0 ==> BitsPerElement(column) >= 1
  {
    var b := BitsPerElement(column);
    Pow2SixtyFour();
    if b > WORD_BITS {
      Pow2Mono(64, b - 1);
      assert false;
    }
  }

  // ---------------------------------------------------------------------
  // As written (chunk_column.rs:17-69)

  /**
   * `to_minecraft` as written.  The height is shifted right by the running
   * cursor, a word is pushed only once the cursor exceeds 64, and the last
   * partial word is dropped.  With overflow checks the shift of a `u16` by
   * 16 or more panics, and the cursor reaches 16 long before it exceeds 64,
   * so the encoder ends normally only for a column of no sections whose
   * heights are all zero, and then it sends nothing.
   */
  method ToMinecraftAsWritten(column: ChunkColumn, heightmap: Heightmap) returns (outcome: Outcome, result: seq<int>)
    requires IsHeightmap(heightmap)
    ensures outcome == Done <==> BitsPerElement(column) == 0 && AllZero(heightmap)
    ensures outcome == Done ==> result == []
  {
    var bits := BitsPerElement(column);
    result := [];
    var accumulator: bv64 := 0;
    var start: int := 0;
    for x := 0 to SIDE
      invariant result == []
      invariant bits == 0 ==> start == 0
      invariant bits == 0 ==> forall x', z' :: 0 <= x' < x && 0 <= z' < SIDE ==> heightmap[z'][x'] == 0
      invariant 0 <= start
      invariant bits > 0 ==> SIDE * x <= start < 16 + bits
      invariant x > 0 ==> bits < 16
    {
      for z := 0 to SIDE
        invariant result == []
        invariant bits == 0 ==> start == 0
        invariant bits == 0 ==> forall x', z' :: 0 <= x' < x && 0 <= z' < SIDE ==> heightmap[z'][x'] == 0
        invariant bits == 0 ==> forall z' :: 0 <= z' < z ==> heightmap[z'][x] == 0
        invariant 0 <= start
        invariant bits > 0 ==> SIDE * x + z <= start < 16 + bits
        invariant x > 0 || z > 0 ==> bits < 16
      {
        // debug_assert!(heightmap[z][x] < (1 << bits_per_element)), the 1 being a u16
        if bits >= 16 || heightmap[z][x] >= Pow2(bits) {
          return Panic, result;
        }
        // a u16 shifted right by 16 or more overflows
        if start >= 16 {
          return Panic, result;
        }
        accumulator := accumulator | ((heightmap[z][x] as bv16) >> start) as bv64;
        start := start + bits;
        if start > WORD_BITS {
          result := result + [AsI64(accumulator as int)];
          accumulator := 0;
          start := 0;
        }
      }
    }
    return Done, result;
  }

  /**
   * `from_minecraft` as written.  Every step reads the word at
   * `byte_index`, so the closing assertion `len == byte_index` can never
   * hold: the decoder panics on every input (even before it, a left shift
   * by 64 panics when the width divides 64).
   */
  method FromMinecraftAsWritten(column: ChunkColumn, byteArray: seq<int>) returns (outcome: Outcome, heightmap: Heightmap)
    requires IsLongArray(byteArray)
    requires WorldHeight(column) < TWO_TO_64
    ensures outcome == Panic
  {
    var bits := BitsPerElement(column);
    BitsPerElementBound(column);
    heightmap := ZeroHeightmap();
    // (1u64 << bits_per_element) overflows when the width is 64
    if bits >= WORD_BITS {
      return Panic, heightmap;
    }
    var byteIndex: nat := 0;
    var start: nat := 0;
    for x := 0 to SIDE
      invariant |heightmap| == SIDE && forall z' :: 0 <= z' < SIDE ==> |heightmap[z']| == SIDE
      invariant x > 0 ==> byteIndex < |byteArray|
    {
      for z := 0 to SIDE
        invariant |heightmap| == SIDE && forall z' :: 0 <= z' < SIDE ==> |heightmap[z']| == SIDE
        invariant x > 0 || z > 0 ==> byteIndex < |byteArray|
      {
        if start > WORD_BITS {
          byteIndex := byteIndex + 1;
          start := 0;
        }
        if byteIndex >= |byteArray| {
          return Panic, heightmap;
        }
        var word := AsU64(byteArray[byteIndex]);
        // a u64 shifted left by 64 or more overflows
        if start >= WORD_BITS {
          return Panic, heightmap;
        }
        // (word << start) keeps the low 64 bits; `& mask` keeps the low `bits`; `as u16` the low 16
        var value: nat := word * Pow2(start) % TWO_TO_64 % Pow2(bits) % U16_LIMIT;
        heightmap := WithHeight(heightmap, z, x, value);
        start := start + bits;
      }
    }
    if |byteArray| != byteIndex {
      return Panic, heightmap;
    }
    return Done, heightmap;
  }

  // ---------------------------------------------------------------------
  // The intended codec

  /** Values per word: a value never straddles two words. */
  function PerWord(bits: nat): (k: nat)
    requires 1 <= bits <= WORD_BITS
    ensures 1 <= k <= WORD_BITS && k * bits <= WORD_BITS
  {
    assert WORD_BITS == (WORD_BITS / bits) * bits + WORD_BITS % bits;
    MulMono(1, WORD_BITS / bits, bits);
    WORD_BITS / bits
  }

  /** `n` values of width `bits` fit in one word exactly when `n <= PerWord(bits)`. */
  lemma FitsInWord(n: nat, bits: nat)
    requires 1 <= bits <= WORD_BITS
    ensures n * bits <= WORD_BITS <==> n <= PerWord(bits)
  {
    var k := PerWord(bits);
    if n <= k {
      MulMono(n, k, bits);
    } else {
      assert WORD_BITS == k * bits + WORD_BITS % bits;
      MulMono(k + 1, n, bits);
      MulSucc(k, bits);
    }
  }

  /** Words on the wire for a whole heightmap. */
  function WordCount(bits: nat): nat
    requires 1 <= bits <= WORD_BITS
  {
    (COLUMNS - 1) / PerWord(bits) + 1
  }

  /** Heights in wire order: value `16 * x + z` is the height at `[z][x]`. */
  function WireOrder(h: Heightmap): (vs: seq<nat>)
    requires IsHeightmap(h)
    ensures |vs| == COLUMNS
  {
    seq(COLUMNS, i requires 0 <= i < COLUMNS => h[i % SIDE][i / SIDE])
  }

  lemma WireOrderAt(h: Heightmap, x: nat, z: nat)
    requires IsHeightmap(h) && x < SIDE && z < SIDE
    ensures WireOrder(h)[SIDE * x + z] == h[z][x]
  {
    DivModUnique(SIDE * x + z, SIDE, x, z);
  }

  /** Values packed little-endian into one word, `bits` bits each: the first value in the lowest bits. */
  function WordOf(fs: seq<nat>, bits: nat): nat
  {
    if |fs| == 0 then 0 else fs[0] + Pow2(bits) * WordOf(fs[1..], bits)
  }

  /** The words that carry `vs`: full words of `k` values each, then the remainder. */
  function Packed(vs: seq<nat>, k: nat, bits: nat): seq<int>
    requires k >= 1
    decreases |vs|
  {
    if |vs| == 0 then []
    else if |vs| <= k then [AsI64(WordOf(vs, bits))]
    else [AsI64(WordOf(vs[..k], bits))] + Packed(vs[k..], k, bits)
  }

  /** The wire form of a heightmap. */
  function Encoded(h: Heightmap, bits: nat): seq<int>
    requires IsHeightmap(h) && 1 <= bits <= WORD_BITS
  {
    Packed(WireOrder(h), PerWord(bits), bits)
  }

  /** `((word >> shift) & mask) as u16`: the `bits`-bit field of a `u64` word at `shift`, cut to 16 bits. */
  function FieldOf(word: nat, shift: nat, bits: nat): nat
  {
    word / Pow2(shift) % Pow2(bits) % U16_LIMIT
  }

  /** Value number `i` read back: the field at its offset in its word. */
  function Field(ws: seq<int>, i: nat, bits: nat): nat
    requires 1 <= bits <= WORD_BITS && IsLongArray(ws)
    requires i / PerWord(bits) < |ws|
  {
    var k := PerWord(bits);
    FieldOf(AsU64(ws[i / k]), (i % k) * bits, bits)
  }

  /** The heightmap a word array of the right length decodes to. */
  function Decoded(ws: seq<int>, bits: nat): (h: Heightmap)
    requires 1 <= bits <= WORD_BITS && IsLongArray(ws) && |ws| == WordCount(bits)
    ensures IsHeightmap(h)
  {
    seq(SIDE, z requires 0 <= z < SIDE =>
      seq(SIDE, x requires 0 <= x < SIDE =>
        ColumnIndexInRange(SIDE * x + z, bits);
        Field(ws, SIDE * x + z, bits)))
  }

  lemma ColumnIndexInRange(i: nat, bits: nat)
    requires 1 <= bits <= WORD_BITS && i < COLUMNS
    ensures i / PerWord(bits) < WordCount(bits)
  {
    var k := PerWord(bits);
    assert i == (i / k) * k + i % k;
    MulMono(i / k, i / k, k);
    DivLower(i / k, k, COLUMNS - 1);
  }

  /**
   * `to_minecraft` as intended: each height is shifted left into the
   * accumulator at the cursor, a full word is pushed before a value that
   * would not fit, and the last partial word is pushed at the end.  The
   * debug assertion that every height fits in `bits` bits is the caller's
   * obligation.
   */
  method ToMinecraft(column: ChunkColumn, heightmap: Heightmap) returns (result: seq<int>)
    requires IsHeightmap(heightmap)
    requires 0 < WorldHeight(column) < TWO_TO_64
    requires forall z, x :: 0 <= z < SIDE && 0 <= x < SIDE ==> heightmap[z][x] < Pow2(BitsPerElement(column))
    ensures 1 <= BitsPerElement(column) <= WORD_BITS
    ensures result == Encoded(heightmap, BitsPerElement(column))
  {
    var bits := BitsPerElement(column);
    BitsPerElementBound(column);
    ghost var vs := WireOrder(heightmap);
    ghost var k := PerWord(bits);
    ghost var inWord: nat := 0;
    result := [];
    var accumulator: int := 0;
    var start: nat := 0;
    PackingStart(vs, k, bits);
    // the source's loops over x, then z, run as one loop over i = 16 * x + z
    for i := 0 to COLUMNS
      invariant Packing(vs, k, bits, i, result, accumulator, start, inWord)
      invariant i > 0 ==> inWord >= 1
    {
      var x, z := i / SIDE, i % SIDE;
      WireOrderAt(heightmap, x, z);
      PackingFits(vs, bits, i, result, accumulator, start, inWord);
      if start + bits > WORD_BITS {
        PackingFlush(vs, k, bits, i, result, accumulator, start, inWord);
        result := result + [AsI64(accumulator)];
        accumulator := 0;
        start := 0;
        inWord := 0;
      }
      PackingAppend(vs, k, bits, i, result, accumulator, start, inWord);
      // the new field lies above every bit already set, so `|=` adds it
      accumulator := accumulator + heightmap[z][x] * Pow2(start);
      start := start + bits;
      inWord := inWord + 1;
    }
    PackingDone(vs, k, bits, result, accumulator, start, inWord);
    result := result + [AsI64(accumulator)];
  }

  /**
   * The encoder's state after `i` values: `result` holds the whole words
   * of the first values, `accumulator` packs the `inWord` values after
   * them, and the cursor sits just above those.
   */
  ghost predicate Packing(vs: seq<nat>, k: nat, bits: nat, i: nat, result: seq<int>, accumulator: int, start: nat, inWord: nat)
  {
    k >= 1 && i <= |vs| &&
    inWord <= k && start == inWord * bits &&
    |result| * k + inWord == i &&
    result == Packed(vs[..|result| * k], k, bits) &&
    accumulator == WordOf(vs[|result| * k..i], bits)
  }

  /** Before the first value: no words, an empty accumulator, the cursor at bit 0. */
  lemma PackingStart(vs: seq<nat>, k: nat, bits: nat)
    requires k >= 1
    ensures Packing(vs, k, bits, 0, [], 0, 0, 0)
  {
    assert vs[..0] == [] && vs[0..0] == [];
  }

  /** The next value fails to fit exactly when the accumulator holds a full word. */
  lemma PackingFits(vs: seq<nat>, bits: nat, i: nat, result: seq<int>, accumulator: int, start: nat, inWord: nat)
    requires 1 <= bits <= WORD_BITS && Packing(vs, PerWord(bits), bits, i, result, accumulator, start, inWord)
    ensures start + bits > WORD_BITS <==> inWord == PerWord(bits)
  {
    MulSucc(inWord, bits);
    FitsInWord(inWord + 1, bits);
  }

  /** A full word is closed: the accumulator joins the result. */
  lemma PackingFlush(vs: seq<nat>, k: nat, bits: nat, i: nat, result: seq<int>, accumulator: int, start: nat, inWord: nat)
    requires Packing(vs, k, bits, i, result, accumulator, start, inWord)
    requires inWord == k
    ensures Packing(vs, k, bits, i, result + [AsI64(accumulator)], 0, 0, 0)
  {
    var full := |result|;
    MulSucc(full, k);
    var a := vs[..(full + 1) * k];
    PackedConcat(a[..full * k], a[full * k..], full, k, bits);
    assert a[..full * k] + a[full * k..] == a;
    assert a[..full * k] == vs[..full * k];
    assert a[full * k..] == vs[full * k..i];
    assert vs[i..i] == [];
  }

  /** The next value goes in at the cursor. */
  lemma PackingAppend(vs: seq<nat>, k: nat, bits: nat, i: nat, result: seq<int>, accumulator: int, start: nat, inWord: nat)
    requires Packing(vs, k, bits, i, result, accumulator, start, inWord)
    requires i < |vs| && inWord < k
    ensures Packing(vs, k, bits, i + 1, result, accumulator + vs[i] * Pow2(start), start + bits, inWord + 1)
  {
    var lo := |result| * k;
    var word := vs[lo..i];
    assert |word| == inWord && |word| * bits == start;
    MulSucc(inWord, bits);
    WordOfAppend(word, vs[i], bits);
    assert word + [vs[i]] == vs[lo..i + 1];
    assert WordOf(vs[lo..i + 1], bits) == accumulator + vs[i] * Pow2(start);
  }

  /** After the last value, the last word is the accumulator. */
  lemma PackingDone(vs: seq<nat>, k: nat, bits: nat, result: seq<int>, accumulator: int, start: nat, inWord: nat)
    requires Packing(vs, k, bits, |vs|, result, accumulator, start, inWord) && inWord >= 1
    ensures Packed(vs, k, bits) == result + [AsI64(accumulator)]
  {
    var full := |result|;
    PackedConcat(vs[..full * k], vs[full * k..], full, k, bits);
    assert vs[..full * k] + vs[full * k..] == vs;
    assert vs[full * k..] == vs[full * k..|vs|];
  }

  /**
   * `from_minecraft` as intended: a new word is taken when the next value
   * would not fit in the current one, each value is the word shifted right
   * by the cursor and masked to `bits` bits, and the closing check asks for
   * exactly the words that were read.
   */
  method FromMinecraft(column: ChunkColumn, byteArray: seq<int>) returns (outcome: Outcome, heightmap: Heightmap)
    requires IsLongArray(byteArray)
    requires 0 < WorldHeight(column) < TWO_TO_64
    ensures 1 <= BitsPerElement(column) <= WORD_BITS
    ensures outcome == Done <==> |byteArray| == WordCount(BitsPerElement(column))
    ensures outcome == Done ==> heightmap == Decoded(byteArray, BitsPerElement(column))
  {
    var bits := BitsPerElement(column);
    BitsPerElementBound(column);
    ghost var k := PerWord(bits);
    ghost var inWord: nat := 0;
    heightmap := ZeroHeightmap();
    var byteIndex: nat := 0;
    var start: nat := 0;
    // the source's loops over x, then z, run as one loop over i = 16 * x + z
    for i := 0 to COLUMNS
      invariant Cursor(k, bits, i, byteIndex, inWord, start)
      invariant DecodedUpTo(byteArray, bits, i, heightmap, byteIndex)
    {
      var x, z := i / SIDE, i % SIDE;
      ghost var previous := byteIndex;
      CursorFlush(bits, i, byteIndex, inWord, start);
      if start + bits > WORD_BITS {
        byteIndex := byteIndex + 1;
        start := 0;
        inWord := 0;
      }
      CursorRead(bits, i, byteIndex, inWord, start);
      if byteIndex >= |byteArray| {
        DivLower(byteIndex, k, COLUMNS - 1);
        return Panic, heightmap;
      }
      var word := AsU64(byteArray[byteIndex]);
      var value := FieldOf(word, start, bits);
      assert value == Field(byteArray, i, bits);
      DecodedStep(byteArray, bits, i, heightmap, previous, byteIndex, x, z, value);
      heightmap := WithHeight(heightmap, z, x, value);
      start := start + bits;
      inWord := inWord + 1;
    }
    DivModUnique(COLUMNS - 1, k, byteIndex, inWord - 1);
    if |byteArray| != byteIndex + 1 {
      return Panic, heightmap;
    }
    DecodedAll(byteArray, bits, heightmap, byteIndex);
    return Done, heightmap;
  }

  /**
   * The decoder's cursor after `i` values: `inWord` values of word
   * `byteIndex` are read and `start` sits just above them.
   */
  ghost predicate Cursor(k: nat, bits: nat, i: nat, byteIndex: nat, inWord: nat, start: nat)
  {
    inWord <= k && start == inWord * bits && byteIndex * k + inWord == i && (i > 0 ==> inWord >= 1)
  }

  /** The next value fails to fit exactly when the current word is full. */
  lemma CursorFlush(bits: nat, i: nat, byteIndex: nat, inWord: nat, start: nat)
    requires 1 <= bits <= WORD_BITS && Cursor(PerWord(bits), bits, i, byteIndex, inWord, start)
    ensures start + bits > WORD_BITS ==> (byteIndex + 1) * PerWord(bits) == i
    ensures start + bits <= WORD_BITS ==> inWord < PerWord(bits)
  {
    MulSucc(inWord, bits);
    FitsInWord(inWord + 1, bits);
    MulSucc(byteIndex, PerWord(bits));
  }

  /** Value `i` is read at the cursor, which then moves past it. */
  lemma CursorRead(bits: nat, i: nat, byteIndex: nat, inWord: nat, start: nat)
    requires 1 <= bits <= WORD_BITS && inWord < PerWord(bits)
    requires start == inWord * bits && byteIndex * PerWord(bits) + inWord == i
    ensures i / PerWord(bits) == byteIndex && i % PerWord(bits) == inWord
    ensures Cursor(PerWord(bits), bits, i + 1, byteIndex, inWord + 1, start + bits)
  {
    DivModUnique(i, PerWord(bits), byteIndex, inWord);
    MulSucc(inWord, bits);
  }

  /** Once every value is visited, the heightmap is the decoding of the words. */
  lemma DecodedAll(ws: seq<int>, bits: nat, h: Heightmap, byteIndex: nat)
    requires DecodedUpTo(ws, bits, COLUMNS, h, byteIndex) && |ws| == WordCount(bits)
    ensures h == Decoded(ws, bits)
  {
    forall z | 0 <= z < SIDE
      ensures h[z] == Decoded(ws, bits)[z]
    {
      forall x | 0 <= x < SIDE
        ensures h[z][x] == Decoded(ws, bits)[z][x]
      {
        assert SIDE * x + z < COLUMNS;
        assert CellDecoded(ws, bits, h, byteIndex, z, x);
      }
    }
  }

  /**
   * The decoder's state after `i` values: each height already visited is
   * its field on the wire, read from a word no later than the current one.
   */
  ghost predicate DecodedUpTo(ws: seq<int>, bits: nat, i: nat, h: Heightmap, byteIndex: nat)
  {
    1 <= bits <= WORD_BITS && IsLongArray(ws) &&
    |h| == SIDE && (forall z :: 0 <= z < SIDE ==> |h[z]| == SIDE) &&
    (i > 0 ==> byteIndex < |ws|) &&
    forall z, x :: 0 <= z < SIDE && 0 <= x < SIDE && SIDE * x + z < i ==> CellDecoded(ws, bits, h, byteIndex, z, x)
  }

  /** The height at `[z][x]` is its field on the wire, read from a word no later than `byteIndex`. */
  ghost predicate CellDecoded(ws: seq<int>, bits: nat, h: Heightmap, byteIndex: nat, z: nat, x: nat)
    requires 1 <= bits <= WORD_BITS && IsLongArray(ws) && byteIndex < |ws|
    requires z < |h| && x < |h[z]|
  {
    (SIDE * x + z) / PerWord(bits) <= byteIndex && h[z][x] == Field(ws, SIDE * x + z, bits)
  }

  lemma DecodedStep(ws: seq<int>, bits: nat, i: nat, h: Heightmap, byteIndex: nat, next: nat, x: nat, z: nat, value: nat)
    requires DecodedUpTo(ws, bits, i, h, byteIndex)
    requires x < SIDE && z < SIDE && i == SIDE * x + z
    requires byteIndex <= next < |ws| && i / PerWord(bits) == next
    requires value == Field(ws, i, bits)
    ensures DecodedUpTo(ws, bits, i + 1, WithHeight(h, z, x, value), next)
  {
    var h' := WithHeight(h, z, x, value);
    forall z', x' | 0 <= z' < SIDE && 0 <= x' < SIDE && SIDE * x' + z' < i + 1
      ensures CellDecoded(ws, bits, h', next, z', x')
    {
      if SIDE * x' + z' < i {
        assert (z', x') != (z, x);
        assert CellDecoded(ws, bits, h, byteIndex, z', x');
      } else {
        assert x' == x && z' == z;
      }
    }
  }

  /**
   * Encoding then decoding gives the heightmap back, whenever every
   * height fits in `bits` bits (the source's debug assertion).
   */
  lemma HeightmapRoundTrip(h: Heightmap, bits: nat)
    requires IsHeightmap(h) && 1 <= bits <= WORD_BITS
    requires forall z, x :: 0 <= z < SIDE && 0 <= x < SIDE ==> h[z][x] < Pow2(bits)
    ensures IsLongArray(Encoded(h, bits)) && |Encoded(h, bits)| == WordCount(bits)
    ensures Decoded(Encoded(h, bits), bits) == h
  {
    var vs := WireOrder(h);
    var k := PerWord(bits);
    var ws := Encoded(h, bits);
    forall i | 0 <= i < |vs|
      ensures vs[i] < Pow2(bits) && vs[i] < U16_LIMIT
    {
      WireOrderAt(h, i / SIDE, i % SIDE);
    }
    PackedShape(vs, k, bits);
    forall z | 0 <= z < SIDE
      ensures Decoded(ws, bits)[z] == h[z]
    {
      forall x | 0 <= x < SIDE
        ensures Decoded(ws, bits)[z][x] == h[z][x]
      {
        HeightSurvives(h, bits, x, z);
      }
    }
  }

  /** The height at `[z][x]` is read back from its field of the encoding. */
  lemma HeightSurvives(h: Heightmap, bits: nat, x: nat, z: nat)
    requires IsHeightmap(h) && 1 <= bits <= WORD_BITS && x < SIDE && z < SIDE
    requires forall m :: 0 <= m < |WireOrder(h)| ==> WireOrder(h)[m] < Pow2(bits)
    requires IsLongArray(Encoded(h, bits)) && |Encoded(h, bits)| == WordCount(bits)
    ensures (SIDE * x + z) / PerWord(bits) < |Encoded(h, bits)|
    ensures Field(Encoded(h, bits), SIDE * x + z, bits) == h[z][x]
  {
    var vs := WireOrder(h);
    var k := PerWord(bits);
    var ws := Encoded(h, bits);
    assert ws == Packed(vs, k, bits);
    var i := SIDE * x + z;
    WireOrderAt(h, x, z);
    var j, n := Split(i, k);
    ValueRoundTrip(vs, k, bits, j, n);
    MulMono(0, n, bits);
    SmallFieldSurvivesCast(AsU64(ws[j]), n * bits, bits, h[z][x]);
    assert Field(ws, i, bits) == FieldOf(AsU64(ws[j]), n * bits, bits);
  }

  /** A field below `2^16` survives the `u16` cast. */
  lemma SmallFieldSurvivesCast(word: nat, shift: nat, bits: nat, v: nat)
    requires word / Pow2(shift) % Pow2(bits) == v < U16_LIMIT
    ensures FieldOf(word, shift, bits) == v
  {
  }

  /** Value `j * k + n` survives packing and unpacking. */
  lemma ValueRoundTrip(vs: seq<nat>, k: nat, bits: nat, j: nat, n: nat)
    requires 1 <= k && k * bits <= WORD_BITS
    requires n < k && j * k + n < |vs|
    requires forall m :: 0 <= m < |vs| ==> vs[m] < Pow2(bits)
    ensures j < |Packed(vs, k, bits)| && IsLongArray(Packed(vs, k, bits))
    ensures AsU64(Packed(vs, k, bits)[j]) / Pow2(n * bits) % Pow2(bits) == vs[j * k + n]
  {
    PackedShape(vs, k, bits);
    var chunk := PackedAt(vs, k, bits, j);
    assert n < |chunk|;
    forall m | 0 <= m < |chunk|
      ensures chunk[m] < Pow2(bits)
    {
      assert chunk[m] == vs[j * k + m];
    }
    WordFits(chunk, k, bits);
    WordOfField(chunk, bits, n);
  }

  /** How many words `Packed` produces, and that each is an `i64`. */
  lemma {:induction false} PackedShape(vs: seq<nat>, k: nat, bits: nat)
    requires 1 <= k && k * bits <= WORD_BITS
    requires forall m :: 0 <= m < |vs| ==> vs[m] < Pow2(bits)
    ensures |Packed(vs, k, bits)| == if |vs| == 0 then 0 else (|vs| - 1) / k + 1
    ensures IsLongArray(Packed(vs, k, bits))
    decreases |vs|
  {
    if |vs| > 0 {
      var first := if |vs| <= k then vs else vs[..k];
      WordFits(first, k, bits);
      if |vs| <= k {
        DivModUnique(|vs| - 1, k, 0, |vs| - 1);
      } else {
        PackedShape(vs[k..], k, bits);
        WordCountStep(|vs|, k);
      }
    }
  }

  /** At most `k` values below `2^bits` fill one `u64` word, which the `i64` cast keeps. */
  lemma WordFits(fs: seq<nat>, k: nat, bits: nat)
    requires |fs| <= k && k * bits <= WORD_BITS
    requires forall m :: 0 <= m < |fs| ==> fs[m] < Pow2(bits)
    ensures WordOf(fs, bits) < TWO_TO_64
    ensures -(TWO_TO_63 as int) <= AsI64(WordOf(fs, bits)) < TWO_TO_63
    ensures AsU64(AsI64(WordOf(fs, bits))) == WordOf(fs, bits)
  {
    WordOfBound(fs, bits);
    MulMono(0, |fs|, bits);
    MulMono(|fs|, k, bits);
    Pow2Mono(|fs| * bits, WORD_BITS);
    Pow2SixtyFour();
    U64RoundTrip(WordOf(fs, bits));
  }

  /** Taking off one word of `k` values takes one off the word count. */
  lemma WordCountStep(n: nat, k: nat)
    requires 1 <= k < n
    ensures (n - 1) / k == (n - k - 1) / k + 1
  {
    var q, rest := Split(n - k - 1, k);
    MulSucc(q, k);
    DivModUnique(n - 1, k, q + 1, rest);
  }

  /** Word `j` of `Packed` packs the values from `j * k` on, at most `k` of them. */
  lemma {:induction false} PackedAt(vs: seq<nat>, k: nat, bits: nat, j: nat) returns (chunk: seq<nat>)
    requires 1 <= k && j * k < |vs|
    ensures j < |Packed(vs, k, bits)| && Packed(vs, k, bits)[j] == AsI64(WordOf(chunk, bits))
    ensures 1 <= |chunk| <= k && j * k + |chunk| <= |vs|
    ensures |chunk| == k || j * k + |chunk| == |vs|
    ensures forall m :: 0 <= m < |chunk| ==> chunk[m] == vs[j * k + m]
    decreases j
  {
    if j == 0 {
      chunk := if |vs| <= k then vs else vs[..k];
    } else {
      MulSucc(j - 1, k);
      assert (j - 1) * k + k == j * k && k <= j * k < |vs|;
      chunk := PackedAt(vs[k..], k, bits, j - 1);
      assert Packed(vs, k, bits) == [AsI64(WordOf(vs[..k], bits))] + Packed(vs[k..], k, bits);
      forall m | 0 <= m < |chunk|
        ensures chunk[m] == vs[j * k + m]
      {
        assert chunk[m] == vs[k..][(j - 1) * k + m];
      }
    }
  }

  /** Whole words pack independently of what follows them. */
  lemma {:induction false} PackedConcat(a: seq<nat>, c: seq<nat>, m: nat, k: nat, bits: nat)
    requires 1 <= k && |a| == m * k
    ensures Packed(a + c, k, bits) == Packed(a, k, bits) + Packed(c, k, bits)
    decreases m
  {
    if m == 0 {
      assert a + c == c;
    } else {
      MulSucc(m - 1, k);
      assert (a + c)[..k] == a[..k];
      assert (a + c)[k..] == a[k..] + c;
      if m == 1 {
        assert a[..k] == a;
        assert a[k..] + c == c;
        if |c| == 0 {
          assert a + c == a;
        } else {
          assert Packed(a + c, k, bits) == [AsI64(WordOf(a, bits))] + Packed(c, k, bits);
        }
      } else {
        PackedConcat(a[k..], c, m - 1, k, bits);
        assert Packed(a, k, bits) == [AsI64(WordOf(a[..k], bits))] + Packed(a[k..], k, bits);
      }
    }
  }

  lemma {:induction false} WordOfAppend(fs: seq<nat>, v: nat, bits: nat)
    ensures WordOf(fs + [v], bits) == WordOf(fs, bits) + v * Pow2(|fs| * bits)
    decreases |fs|
  {
    if |fs| == 0 {
      assert WordOf([v], bits) == v + Pow2(bits) * WordOf([], bits);
    } else {
      assert (fs + [v])[1..] == fs[1..] + [v];
      WordOfAppend(fs[1..], v, bits);
      Pow2Add(bits, (|fs| - 1) * bits);
      MulSucc(|fs| - 1, bits);
      Distrib(fs[0], Pow2(bits), WordOf(fs[1..], bits), v, Pow2((|fs| - 1) * bits));
    }
  }

  /** Values below `2^bits` pack into fewer than `|fs| * bits` bits. */
  lemma {:induction false} WordOfBound(fs: seq<nat>, bits: nat)
    requires forall i :: 0 <= i < |fs| ==> fs[i] < Pow2(bits)
    ensures WordOf(fs, bits) < Pow2(|fs| * bits)
    decreases |fs|
  {
    if |fs| > 0 {
      WordOfBound(fs[1..], bits);
      Pow2Add(bits, (|fs| - 1) * bits);
      MulSucc(|fs| - 1, bits);
      BoundStep(fs[0], Pow2(bits), WordOf(fs[1..], bits), Pow2((|fs| - 1) * bits));
    }
  }

  /** Shifting a packed word right by `n * bits` and keeping `bits` bits gives back value `n`. */
  lemma {:induction false} WordOfField(fs: seq<nat>, bits: nat, n: nat)
    requires forall i :: 0 <= i < |fs| ==> fs[i] < Pow2(bits)
    requires n < |fs|
    ensures WordOf(fs, bits) / Pow2(n * bits) % Pow2(bits) == fs[n]
    decreases n
  {
    var w := WordOf(fs, bits);
    DivModUnique(w, Pow2(bits), WordOf(fs[1..], bits), fs[0]);
    if n > 0 {
      WordOfField(fs[1..], bits, n - 1);
      Pow2Add(bits, (n - 1) * bits);
      MulSucc(n - 1, bits);
      DivDiv(w, Pow2(bits), Pow2((n - 1) * bits));
    }
  }
}
