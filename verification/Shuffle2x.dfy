/**
 The shuffle2x layout of src/galois/simd/x86/avx2.rs: within every 256-bit chunk of sixteen
 symbols the low bytes come first, then the high bytes.  Multiplying and adding in this
 layout is the same as doing so on the symbols, whatever the length.

 A 256-bit register is its 32 bytes, byte 0 lowest.
 */
module Shuffle2x {
  import opened GaloisField
  import opened Primitive
  import opened GaloisTables
  import opened LinearAlgebra
  import opened Scalar
  import opened Bytes
  import opened NibbleTables

  type V256 = v: seq<Byte> | |v| == 32 witness seq(32, _ => 0)

  type Indices = c: seq<nat> | |c| == 32 && forall j :: 0 <= j < 32 ==> c[j] < 16 witness seq(32, _ => 0)

  // ----- intrinsics

  /** _mm256_shuffle_epi8: every byte is picked from its own 128-bit lane. */
  function ShuffleBytes(v: V256, c: Indices): V256 {
    seq(32, j requires 0 <= j < 32 => v[16 * (j / 16) + c[j]])
  }

  /** _mm256_permute4x64_epi64 with 0b11_01_10_00: the middle two quadwords change places. */
  function PermuteQuads(v: V256): V256 {
    seq(32, j requires 0 <= j < 32 => v[if 8 <= j < 16 then j + 8 else if 16 <= j < 24 then j - 8 else j])
  }

  /** _mm256_permute2x128_si256(v, v, 0x01): the halves change places. */
  function SwapHalves(v: V256): V256 {
    seq(32, j requires 0 <= j < 32 => v[if j < 16 then j + 16 else j - 16])
  }

  /** _mm256_xor_si256 */
  function XorBytes(a: V256, b: V256): V256 {
    seq(32, j requires 0 <= j < 32 => XorByte(a[j], b[j]))
  }

  /** separate_shuf: 0, 2, .. 14, 1, 3, .. 15 in each lane */
  function SeparateIndices(): Indices {
    seq(32, j requires 0 <= j < 32 => if j % 16 < 8 then 2 * (j % 16) else 2 * (j % 16) - 15)
  }

  /** recombine_shuf: 0, 8, 1, 9, .. 7, 15 in each lane */
  function RecombineIndices(): Indices {
    seq(32, j requires 0 <= j < 32 => if j % 2 == 0 then (j % 16) / 2 else (j % 16) / 2 + 8)
  }

  /** A table of sixteen bytes for each half of the register. */
  type HalfTables = s: seq<seq<Byte>> | |s| == 2 && |s[0]| == 16 && |s[1]| == 16
    witness [seq(16, _ => 0), seq(16, _ => 0)]

  /** _mm256_shuffle_epi8 of a table register by nibbles */
  function LookupLow(table: HalfTables, v: V256): V256 {
    seq(32, j requires 0 <= j < 32 => table[j / 16][LowNibble(v[j])])
  }

  function LookupHigh(table: HalfTables, v: V256): V256 {
    seq(32, j requires 0 <= j < 32 => table[j / 16][HighNibble(v[j])])
  }

  // ----- one chunk

  function Separate(v: V256): V256 {
    PermuteQuads(ShuffleBytes(v, SeparateIndices()))
  }

  function Recombine(v: V256): V256 {
    ShuffleBytes(PermuteQuads(v), RecombineIndices())
  }

  type Chunk = c: Row | |c| == 16 witness seq(16, _ => 0)

  /** The low bytes of sixteen symbols, then their high bytes. */
  function Planar(c: Chunk): V256 {
    seq(32, j requires 0 <= j < 32 => if j < 16 then LoByte(c[j]) else HiByte(c[j - 16]))
  }

  lemma SeparateAt(v: V256, j: nat)
    requires j < 16
    ensures Separate(v)[j] == v[2 * j] && Separate(v)[j + 16] == v[2 * j + 1]
  {
    var s := ShuffleBytes(v, SeparateIndices());
    if j < 8 {
      assert s[j] == v[2 * j] && s[j + 8] == v[2 * j + 1];
    } else {
      assert s[j + 8] == v[2 * j] && s[j + 16] == v[2 * j + 1];
    }
    hide ShuffleBytes;
  }

  lemma RecombineAt(v: V256, i: nat)
    requires i < 16
    ensures Recombine(v)[2 * i] == v[i] && Recombine(v)[2 * i + 1] == v[i + 16]
  {
    hide PermuteQuads;
    PermutedAt(v, i);
    ShuffledAt(PermuteQuads(v), i);
  }

  lemma PermutedAt(v: V256, i: nat)
    requires i < 16
    ensures PermuteQuads(v)[if i < 8 then i else i + 8] == v[i]
    ensures PermuteQuads(v)[if i < 8 then i + 8 else i + 16] == v[i + 16]
  {
  }

  lemma ShuffledAt(p: V256, i: nat)
    requires i < 16
    ensures ShuffleBytes(p, RecombineIndices())[2 * i] == p[if i < 8 then i else i + 8]
    ensures ShuffleBytes(p, RecombineIndices())[2 * i + 1] == p[if i < 8 then i + 8 else i + 16]
  {
    assert (2 * i) % 16 == if i < 8 then 2 * i else 2 * i - 16;
    assert (2 * i + 1) % 16 == if i < 8 then 2 * i + 1 else 2 * i - 15;
  }

  lemma SeparateIsPlanar(c: Chunk)
    ensures Separate(ToBytes(c)) == Planar(c)
  {
    hide LoByte, HiByte, Separate;
    forall j | 0 <= j < 16
      ensures Separate(ToBytes(c))[j] == LoByte(c[j]) && Separate(ToBytes(c))[j + 16] == HiByte(c[j])
    {
      SeparateAt(ToBytes(c), j);
      assert (2 * j) / 2 == j && (2 * j + 1) / 2 == j;
    }
  }

  lemma RecombinePlanar(c: Chunk)
    ensures Recombine(Planar(c)) == ToBytes(c)
  {
    hide LoByte, HiByte, Recombine;
    forall j | 0 <= j < 32
      ensures Recombine(Planar(c))[j] == ToBytes(c)[j]
    {
      var i := j / 2;
      RecombineAt(Planar(c), i);
      assert j == 2 * i || j == 2 * i + 1;
    }
  }

  datatype ShuffleTables = ShuffleTables(normLo: HalfTables, swapLo: HalfTables, normHi: HalfTables, swapHi: HalfTables)

  /** gf_load_shuffle2x_tables, from the nibble tables of the factor. */
  function LoadTables(lut: Lut): ShuffleTables
    requires LutShape(lut)
  {
    ShuffleTables([lut.lo[0], lut.hi[2]], [lut.hi[0], lut.lo[2]], [lut.lo[1], lut.hi[3]], [lut.hi[1], lut.lo[3]])
  }

  /** The four lookups of the multiply loop, on separated bytes. */
  function MulPlanar(t: ShuffleTables, data: V256): V256 {
    var result := XorBytes(LookupLow(t.normLo, data), LookupHigh(t.normHi, data));
    var swap := XorBytes(LookupLow(t.swapLo, data), LookupHigh(t.swapHi, data));
    XorBytes(result, SwapHalves(swap))
  }

  lemma XorByteComm(a: Byte, b: Byte)
    ensures XorByte(a, b) == XorByte(b, a)
  {
  }

  /** Multiplying separated bytes gives the separated bytes of the products. */
  lemma MulPlanarProduct(lut: Lut, m: Symbol, c: Chunk)
    requires IsLut(lut, m) && LutShape(lut)
    ensures MulPlanar(LoadTables(lut), Planar(c)) == Planar(Scale(m, c))
  {
    hide LoByte, HiByte, XorByte, Mul, LowNibble, HighNibble, Nibble, NibbleValue;
    var t := LoadTables(lut);
    var r := MulPlanar(t, Planar(c));
    forall j | 0 <= j < 16
      ensures r[j] == LoByte(Mul(c[j], m)) && r[j + 16] == HiByte(Mul(c[j], m))
    {
      LookupProduct(lut, m, c[j]);
      var (n0, n1) := (LowNibble(LoByte(c[j])), HighNibble(LoByte(c[j])));
      var (n2, n3) := (LowNibble(HiByte(c[j])), HighNibble(HiByte(c[j])));
      XorByteComm(XorByte(lut.hi[0][n0], lut.hi[1][n1]), XorByte(lut.hi[2][n2], lut.hi[3][n3]));
    }
  }

  lemma XorPlanar(a: Chunk, b: Chunk)
    ensures XorBytes(Planar(a), Planar(b)) == Planar(AddRow(a, b))
  {
    hide LoByte, HiByte, XorByte, Add;
    forall i | 0 <= i < 16
      ensures LoByte(Add(a[i], b[i])) == XorByte(LoByte(a[i]), LoByte(b[i]))
      ensures HiByte(Add(a[i], b[i])) == XorByte(HiByte(a[i]), HiByte(b[i]))
    {
      ByteAdd(a[i], b[i]);
    }
  }

  // ----- whole slices

  function ChunkAt(row: Row, i: nat): Chunk
    requires 16 * i + 16 <= |row|
  {
    row[16 * i..16 * i + 16]
  }

  /** The chunk in the shuffle2x layout, read back as symbols. */
  function PrepareChunk(c: Chunk): Chunk {
    ToSymbols(Separate(ToBytes(c)))
  }

  function FinishChunk(c: Chunk): Chunk {
    ToSymbols(Recombine(ToBytes(c)))
  }

  function MuladdChunk(t: ShuffleTables, dst: Chunk, src: Chunk): Chunk {
    ToSymbols(XorBytes(ToBytes(dst), MulPlanar(t, ToBytes(src))))
  }

  /** The layout of a slice: whole chunks are separated, a remainder is left as it is. */
  function Prepare(row: Row): (r: Row)
    ensures |r| == |row|
  {
    seq(|row|, k requires 0 <= k < |row| =>
      if k / 16 < |row| / 16 then PrepareChunk(ChunkAt(row, k / 16))[k % 16] else row[k])
  }

  lemma ChunkOfPrepare(row: Row, i: nat)
    requires i < |row| / 16
    ensures ChunkAt(Prepare(row), i) == PrepareChunk(ChunkAt(row, i))
  {
    hide PrepareChunk;
    forall j | 0 <= j < 16
      ensures Prepare(row)[16 * i + j] == PrepareChunk(ChunkAt(row, i))[j]
    {
      assert (16 * i + j) / 16 == i && (16 * i + j) % 16 == j;
    }
  }

  lemma PrepareChunkBytes(c: Chunk)
    ensures ToBytes(PrepareChunk(c)) == Planar(c)
  {
    hide *;
    SeparateIsPlanar(c);
    BytesOfSymbols(Separate(ToBytes(c)));
    PrepareChunkDef(c);
  }

  lemma PrepareChunkDef(c: Chunk)
    ensures PrepareChunk(c) == ToSymbols(Separate(ToBytes(c)))
    ensures FinishChunk(c) == ToSymbols(Recombine(ToBytes(c)))
  {
  }

  /** Finishing a prepared chunk gives it back. */
  lemma FinishPrepareChunk(c: Chunk)
    ensures FinishChunk(PrepareChunk(c)) == c
  {
    hide *;
    PrepareChunkDef(PrepareChunk(c));
    PrepareChunkBytes(c);
    RecombinePlanar(c);
    SymbolsOfBytes(c);
  }

  /** Preparing a finished chunk gives it back as well. */
  lemma PrepareFinishChunk(c: Chunk)
    ensures PrepareChunk(FinishChunk(c)) == c
  {
    hide ToBytes, ToSymbols, Separate, Recombine;
    var v := ToBytes(c);
    PrepareChunkDef(c);
    PrepareChunkDef(FinishChunk(c));
    BytesOfSymbols(Recombine(v));
    forall k | 0 <= k < 32
      ensures Separate(Recombine(v))[k] == v[k]
    {
      var j := if k < 16 then k else k - 16;
      SeparateAt(Recombine(v), j);
      RecombineAt(v, j);
    }
    assert Separate(Recombine(v)) == v;
    SymbolsOfBytes(c);
  }

  /** Multiply-add on prepared chunks is the prepared multiply-add. */
  lemma MuladdPreparedChunk(lut: Lut, m: Symbol, dst: Chunk, src: Chunk)
    requires IsLut(lut, m) && LutShape(lut)
    ensures MuladdChunk(LoadTables(lut), PrepareChunk(dst), PrepareChunk(src))
            == PrepareChunk(AddRow(dst, Scale(m, src)))
  {
    hide Planar, MulPlanar, XorBytes, PrepareChunk, AddRow, Scale, ToBytes, ToSymbols, IsRow;
    PrepareChunkBytes(dst);
    PrepareChunkBytes(src);
    MulPlanarProduct(lut, m, src);
    XorPlanar(dst, Scale(m, src));
    SeparateIsPlanar(AddRow(dst, Scale(m, src)));
    PrepareChunkDef(AddRow(dst, Scale(m, src)));
  }

  /** The inverse layout change. */
  function Finish(row: Row): (r: Row)
    ensures |r| == |row|
  {
    seq(|row|, k requires 0 <= k < |row| =>
      if k / 16 < |row| / 16 then FinishChunk(ChunkAt(row, k / 16))[k % 16] else row[k])
  }

  /** Finishing undoes preparing, whatever the length. */
  lemma FinishPrepare(row: Row)
    ensures Finish(Prepare(row)) == row
  {
    hide PrepareChunk, FinishChunk;
    forall k | 0 <= k < |row|
      ensures Finish(Prepare(row))[k] == row[k]
    {
      if k / 16 < |row| / 16 {
        ChunkOfPrepare(row, k / 16);
        FinishPrepareChunk(ChunkAt(row, k / 16));
        assert k == 16 * (k / 16) + k % 16;
      }
    }
  }

  lemma ChunkOfFinish(row: Row, i: nat)
    requires i < |row| / 16
    ensures ChunkAt(Finish(row), i) == FinishChunk(ChunkAt(row, i))
  {
    hide Finish, FinishChunk;
    FinishAt(row, i);
    assert ChunkAt(Finish(row), i) == FinishChunk(ChunkAt(row, i));
  }

  /** Preparing undoes finishing, whatever the length: every content of a buffer is the layout of some row. */
  lemma PrepareFinish(row: Row)
    ensures Prepare(Finish(row)) == row
  {
    hide PrepareChunk, FinishChunk, Finish;
    FinishRest(row);
    forall k | 0 <= k < |row|
      ensures Prepare(Finish(row))[k] == row[k]
    {
      if k / 16 < |row| / 16 {
        ChunkOfFinish(row, k / 16);
        PrepareFinishChunk(ChunkAt(row, k / 16));
      }
    }
  }

  /** gf_muladd_native_shuffle2x_avx2 on rows: whole chunks by lookup, the remainder by scalar products. */
  function MuladdNative(lut: Lut, m: Symbol, dst: Row, src: Row): (r: Row)
    requires LutShape(lut) && |dst| == |src|
    ensures |r| == |dst|
  {
    seq(|dst|, k requires 0 <= k < |dst| =>
      if k / 16 < |dst| / 16 then
        MuladdChunk(LoadTables(lut), ChunkAt(dst, k / 16), ChunkAt(src, k / 16))[k % 16]
      else
        Add(dst[k], Mul(src[k], m)))
  }

  lemma ChunkOfMulAdd(d: Row, s: Row, m: Symbol, i: nat)
    requires |d| == |s| && i < |d| / 16
    ensures ChunkAt(MulAdd(d, s, m), i) == AddRow(ChunkAt(d, i), Scale(m, ChunkAt(s, i)))
  {
    hide Add, Mul;
  }

  /** In the shuffle2x layout, multiply-add is the layout of multiply-add, whatever the length. */
  lemma MuladdPrepared(lut: Lut, m: Symbol, d: Row, s: Row)
    requires IsLut(lut, m) && LutShape(lut) && |d| == |s|
    ensures MuladdNative(lut, m, Prepare(d), Prepare(s)) == Prepare(MulAdd(d, s, m))
  {
    hide PrepareChunk, MuladdChunk, LoadTables, Add, Mul, LoByte, HiByte, NibbleValue;
    var r := MulAdd(d, s, m);
    forall k | 0 <= k < |d|
      ensures MuladdNative(lut, m, Prepare(d), Prepare(s))[k] == Prepare(r)[k]
    {
      if k / 16 < |d| / 16 {
        MuladdAt(lut, m, d, s, k / 16);
      }
    }
  }

  lemma MuladdAt(lut: Lut, m: Symbol, d: Row, s: Row, i: nat)
    requires IsLut(lut, m) && LutShape(lut) && |d| == |s| && i < |d| / 16
    ensures MuladdChunk(LoadTables(lut), ChunkAt(Prepare(d), i), ChunkAt(Prepare(s), i))
         == PrepareChunk(ChunkAt(MulAdd(d, s, m), i))
  {
    hide PrepareChunk, MuladdChunk, LoadTables, ChunkAt, Prepare, MulAdd, IsRow;
    ChunkOfPrepare(d, i);
    ChunkOfPrepare(s, i);
    ChunkOfMulAdd(d, s, m, i);
    MuladdPreparedChunk(lut, m, ChunkAt(d, i), ChunkAt(s, i));
  }

  // ----- the loops, in place

  /** Replaces the chunk at i. */
  method StoreChunk(data: array<Symbol>, i: nat, c: Chunk)
    requires 16 * i + 16 <= data.Length
    modifies data
    ensures forall k :: 16 * i <= k < 16 * i + 16 ==> data[k] == c[k - 16 * i]
    ensures forall k :: 0 <= k < data.Length && !(16 * i <= k < 16 * i + 16) ==> data[k] == old(data[k])
  {
    for j := 0 to 16
      invariant forall k :: 16 * i <= k < 16 * i + j ==> data[k] == c[k - 16 * i]
      invariant forall k :: 0 <= k < data.Length && !(16 * i <= k < 16 * i + j) ==> data[k] == old(data[k])
    {
      data[16 * i + j] := c[j];
    }
  }

  /** gf_prepare_shuffle2x_avx2 */
  method PrepareShuffle2x(data: array<Symbol>)
    modifies data
    ensures data[..] == Prepare(old(data[..]))
  {
    hide PrepareChunk;
    ghost var was := data[..];
    var chunks := data.Length / 16;
    for i := 0 to chunks
      invariant forall k :: 0 <= k < 16 * i ==> data[k] == Prepare(was)[k]
      invariant forall k :: 16 * i <= k < data.Length ==> data[k] == was[k]
    {
      assert ChunkAt(data[..], i) == ChunkAt(was, i);
      ChunkOfPrepare(was, i);
      StoreChunk(data, i, PrepareChunk(ChunkAt(data[..], i)));
    }
  }

  lemma FinishAt(row: Row, i: nat)
    requires i < |row| / 16
    ensures forall k :: 16 * i <= k < 16 * i + 16 ==> Finish(row)[k] == FinishChunk(ChunkAt(row, i))[k - 16 * i]
  {
    hide FinishChunk, ChunkAt;
  }

  lemma FinishRest(row: Row)
    ensures forall k :: 16 * (|row| / 16) <= k < |row| ==> Finish(row)[k] == row[k]
  {
    hide FinishChunk, ChunkAt;
  }

  /** gf_finish_shuffle2x_avx2 */
  method FinishShuffle2x(data: array<Symbol>)
    modifies data
    ensures data[..] == Finish(old(data[..]))
  {
    hide Finish, FinishChunk;
    ghost var was := data[..];
    var chunks := data.Length / 16;
    FinishRest(was);
    for i := 0 to chunks
      invariant forall k :: 0 <= k < 16 * i ==> data[k] == Finish(was)[k]
      invariant forall k :: 16 * i <= k < data.Length ==> data[k] == was[k]
    {
      assert ChunkAt(data[..], i) == ChunkAt(was, i);
      FinishAt(was, i);
      StoreChunk(data, i, FinishChunk(ChunkAt(data[..], i)));
    }
  }

  lemma NativeChunk(lut: Lut, m: Symbol, dst: Row, src: Row, i: nat)
    requires LutShape(lut) && |dst| == |src| && i < |dst| / 16
    ensures forall k :: 16 * i <= k < 16 * i + 16 ==>
              MuladdNative(lut, m, dst, src)[k]
                == MuladdChunk(LoadTables(lut), ChunkAt(dst, i), ChunkAt(src, i))[k - 16 * i]
  {
    hide MuladdChunk, LoadTables, Add, Mul, LutShape;
  }

  lemma NativeRest(lut: Lut, m: Symbol, dst: Row, src: Row, k: nat)
    requires LutShape(lut) && |dst| == |src| && 16 * (|dst| / 16) <= k < |dst|
    ensures MuladdNative(lut, m, dst, src)[k] == Add(dst[k], Mul(src[k], m))
  {
    hide MuladdChunk, LoadTables, Add, Mul, LutShape;
  }

  function ShorterLength(a: nat, b: nat): (n: nat)
    ensures n <= a && n <= b && (n == a || n == b)
  {
    if a < b then a else b
  }

  /** As far as both slices reach; the rest of the destination stays. */
  function MuladdNativeShorter(lut: Lut, m: Symbol, dst: Row, src: Row): (r: Row)
    requires LutShape(lut)
    ensures |r| == |dst|
  {
    var len := ShorterLength(|dst|, |src|);
    MuladdNative(lut, m, dst[..len], src[..len]) + dst[len..]
  }

  lemma NativeSameLength(lut: Lut, m: Symbol, dst: Row, src: Row)
    requires LutShape(lut) && |dst| == |src|
    ensures MuladdNativeShorter(lut, m, dst, src) == MuladdNative(lut, m, dst, src)
  {
    hide MuladdNative;
    assert dst[..|dst|] == dst && src[..|src|] == src;
  }

  /** The loops of gf_muladd_native_shuffle2x_avx2, with the tables loaded. */
  method MuladdLoops(t: Tables, lut: Lut, scalar: Symbol, dst: array<Symbol>, src: array<Symbol>)
    requires t.Valid() && dst != src && LutShape(lut)
    modifies dst
    ensures dst[..] == MuladdNativeShorter(lut, scalar, old(dst[..]), src[..])
  {
    hide MuladdNative, MuladdChunk, Mul, Add, LoadTables, LutShape, Tables.Valid;
    var len := ShorterLength(dst.Length, src.Length);
    ghost var (was, from) := (dst[..len], src[..len]);
    ghost var r := MuladdNative(lut, scalar, was, from);
    var chunks := len / 16;
    for i := 0 to chunks
      invariant forall k :: 0 <= k < 16 * i ==> dst[k] == r[k]
      invariant forall k :: 16 * i <= k < dst.Length ==> dst[k] == old(dst[k])
    {
      assert ChunkAt(dst[..], i) == ChunkAt(was, i) && ChunkAt(src[..], i) == ChunkAt(from, i);
      NativeChunk(lut, scalar, was, from, i);
      StoreChunk(dst, i, MuladdChunk(LoadTables(lut), ChunkAt(dst[..], i), ChunkAt(src[..], i)));
    }
    for i := 16 * chunks to len
      invariant forall k :: 0 <= k < i ==> dst[k] == r[k]
      invariant forall k :: i <= k < dst.Length ==> dst[k] == old(dst[k])
    {
      NativeRest(lut, scalar, was, from, i);
      dst[i] := Add(dst[i], t.GfMul(src[i], scalar));
    }
    assert dst[..len] == r && dst[len..] == old(dst[len..]);
    assert dst[..] == dst[..len] + dst[len..];
  }

  /**
   gf_muladd_native_shuffle2x_avx2 on slices of any lengths.  On prepared slices of the same
   length it is the prepared scalar multiply-add.
   */
  method GfMuladdNativeShuffle2x(t: Tables, mul128: seq<Lut>, dst: array<Symbol>, src: array<Symbol>, scalar: Symbol,
                                 ghost d: Row, ghost s: Row)
    requires t.Valid() && IsMul128(mul128) && dst != src
    modifies dst
    ensures scalar == 0 ==> dst[..] == old(dst[..])
    ensures scalar != 0 ==> LutShape(mul128[Log(scalar)])
                            && dst[..] == MuladdNativeShorter(mul128[Log(scalar)], scalar, old(dst[..]), src[..])
    ensures dst.Length == src.Length && old(dst[..]) == Prepare(d) && src[..] == Prepare(s) ==>
              dst[..] == Prepare(MulAdd(d, s, scalar))
  {
    hide Prepare, MulAdd, MuladdNative, MuladdNativeShorter, IsLut, Exp;
    MulAddZero(d, s);
    if scalar == 0 {
      return;
    }
    var lut := mul128[t.LogAt(scalar)];
    LutHasShape(lut, scalar);
    ghost var was := dst[..];
    MuladdLoops(t, lut, scalar, dst, src);
    if dst.Length == src.Length && was == Prepare(d) && src[..] == Prepare(s) {
      NativeSameLength(lut, scalar, was, src[..]);
      MuladdPrepared(lut, scalar, d, s);
    }
  }
}
