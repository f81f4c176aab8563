/**
 The loops of gf_muladd_region_native_shuffle2x_avx2 (src/galois/simd/x86/avx2.rs): sources
 are taken four at a time, and each 256-bit chunk of a destination is loaded once and
 stored once per batch.  The order of the loops does not matter: the result is that of one
 source after the other.
 */
module NativeLoops {
  import opened GaloisField
  import opened Primitive
  import opened GaloisTables
  import opened LinearAlgebra
  import opened Bytes
  import opened NibbleTables
  import opened Shuffle2x
  import opened Regions

  const SRC_BATCH: nat := 4

  /** One chunk after the sources. */
  ghost function ChunkSum(mul128: seq<Lut>, coeffs: Row, sources: Matrix, i: nat, c: Chunk): Chunk
    requires IsMul128(mul128) && |sources| == |coeffs| && forall b :: 0 <= b < |sources| ==> 16 * i + 16 <= |sources[b]|
  {
    if |coeffs| == 0 then c
    else
      var n := |coeffs| - 1;
      var before := ChunkSum(mul128, coeffs[..n], sources[..n], i, c);
      if coeffs[n] == 0 then before else
        FactorLut(mul128, coeffs[n]);
        MuladdChunk(LoadTables(mul128[Log(coeffs[n])]), before, ChunkAt(sources[n], i))
  }

  /** One symbol of the remainder after the sources. */
  function SymbolSum(coeffs: Row, sources: Matrix, k: nat, a: Symbol): Symbol
    requires |sources| == |coeffs| && forall b :: 0 <= b < |sources| ==> k < |sources[b]|
  {
    if |coeffs| == 0 then a
    else
      var n := |coeffs| - 1;
      Add(SymbolSum(coeffs[..n], sources[..n], k, a), Mul(sources[n][k], coeffs[n]))
  }

  lemma {:induction false} NativeSumChunk(mul128: seq<Lut>, coeffs: Row, sources: Matrix, dst: Row, i: nat)
    requires IsMul128(mul128) && IsMatrix(sources, |coeffs|, |dst|) && i < |dst| / 16
    ensures ChunkAt(NativeSum(mul128, coeffs, sources, dst), i) == ChunkSum(mul128, coeffs, sources, i, ChunkAt(dst, i))
    decreases |coeffs|
  {
    hide IsMul128, MuladdChunk, LoadTables, MuladdNative, IsLut;
    if |coeffs| != 0 {
      var n := |coeffs| - 1;
      NativeSumChunk(mul128, coeffs[..n], sources[..n], dst, i);
      if coeffs[n] != 0 {
        FactorLut(mul128, coeffs[n]);
        NativeChunk(mul128[Log(coeffs[n])], coeffs[n], NativeSum(mul128, coeffs[..n], sources[..n], dst),
                    sources[n], i);
      }
    }
  }

  lemma {:induction false} NativeSumRest(mul128: seq<Lut>, coeffs: Row, sources: Matrix, dst: Row, k: nat)
    requires IsMul128(mul128) && IsMatrix(sources, |coeffs|, |dst|) && 16 * (|dst| / 16) <= k < |dst|
    ensures NativeSum(mul128, coeffs, sources, dst)[k] == SymbolSum(coeffs, sources, k, dst[k])
    decreases |coeffs|
  {
    hide IsMul128, MuladdNative, IsLut, Add, Mul;
    if |coeffs| != 0 {
      var n := |coeffs| - 1;
      NativeSumRest(mul128, coeffs[..n], sources[..n], dst, k);
      var before := NativeSum(mul128, coeffs[..n], sources[..n], dst);
      if coeffs[n] != 0 {
        FactorLut(mul128, coeffs[n]);
        NativeRest(mul128[Log(coeffs[n])], coeffs[n], before, sources[n], k);
      } else {
        MulZero(sources[n][k]);
        AddZero(before[k]);
      }
    }
  }

  /** Batches of sources one after the other are all the sources. */
  lemma {:induction false} NativeSumSplit(mul128: seq<Lut>, c: Row, d: Row, rows: Matrix, more: Matrix, dst: Row)
    requires IsMul128(mul128) && IsMatrix(rows, |c|, |dst|) && IsMatrix(more, |d|, |dst|)
    ensures NativeSum(mul128, c + d, rows + more, dst) == NativeSum(mul128, d, more, NativeSum(mul128, c, rows, dst))
    decreases |d|
  {
    hide IsMul128, MuladdOne;
    if |d| == 0 {
      assert c + d == c && rows + more == rows;
    } else {
      var n := |d| - 1;
      assert (c + d)[..|c| + n] == c + d[..n] && (rows + more)[..|c| + n] == rows + more[..n];
      NativeSumSplit(mul128, c, d[..n], rows, more[..n], dst);
    }
  }

  lemma {:induction false} NativeSumZeros(mul128: seq<Lut>, coeffs: Row, sources: Matrix, dst: Row)
    requires IsMul128(mul128) && IsMatrix(sources, |coeffs|, |dst|)
    requires forall b :: 0 <= b < |coeffs| ==> coeffs[b] == 0
    ensures NativeSum(mul128, coeffs, sources, dst) == dst
    decreases |coeffs|
  {
    hide IsMul128;
    if |coeffs| != 0 {
      NativeSumZeros(mul128, coeffs[..|coeffs| - 1], sources[..|coeffs| - 1], dst);
    }
  }

  /** The table of a nonzero factor, found by its logarithm. */
  function LutOf(t: Tables, mul128: seq<Lut>, c: Symbol): (lut: Lut)
    requires t.Valid() && IsMul128(mul128) && c != 0
    ensures LutShape(lut) && Log(c) < |mul128| && lut == mul128[Log(c)]
  {
    hide IsMul128, LutShape, Tables.Valid;
    FactorLut(mul128, c);
    mul128[t.LogAt(c)]
  }

  method ChunkLoop(t: Tables, mul128: seq<Lut>, coeffs: Row, sources: Matrix, i: nat, c: Chunk) returns (r: Chunk)
    requires t.Valid() && IsMul128(mul128) && |sources| == |coeffs|
    requires forall b :: 0 <= b < |sources| ==> 16 * i + 16 <= |sources[b]|
    ensures r == ChunkSum(mul128, coeffs, sources, i, c)
  {
    hide IsMul128, MuladdChunk, LoadTables, LutShape, Tables.Valid;
    r := c;
    for b := 0 to |coeffs|
      invariant r == ChunkSum(mul128, coeffs[..b], sources[..b], i, c)
    {
      assert coeffs[..b + 1][..b] == coeffs[..b] && sources[..b + 1][..b] == sources[..b];
      if coeffs[b] != 0 {
        r := MuladdChunk(LoadTables(LutOf(t, mul128, coeffs[b])), r, ChunkAt(sources[b], i));
      }
    }
    assert coeffs[..|coeffs|] == coeffs && sources[..|coeffs|] == sources;
  }

  method SymbolLoop(t: Tables, coeffs: Row, sources: Matrix, k: nat, a: Symbol) returns (r: Symbol)
    requires t.Valid() && |sources| == |coeffs| && forall b :: 0 <= b < |sources| ==> k < |sources[b]|
    ensures r == SymbolSum(coeffs, sources, k, a)
  {
    hide Add, Mul, Tables.Valid;
    r := a;
    for b := 0 to |coeffs|
      invariant r == SymbolSum(coeffs[..b], sources[..b], k, a)
    {
      assert coeffs[..b + 1][..b] == coeffs[..b] && sources[..b + 1][..b] == sources[..b];
      if coeffs[b] != 0 {
        r := Add(r, t.GfMul(sources[b][k], coeffs[b]));
      } else {
        MulZero(sources[b][k]);
        AddZero(r);
      }
    }
    assert coeffs[..|coeffs|] == coeffs && sources[..|coeffs|] == sources;
  }

  /** One batch of sources: chunk by chunk, then the remainder. */
  method NativeBatch(t: Tables, mul128: seq<Lut>, coeffs: Row, sources: Matrix, dst: Row) returns (r: Row)
    requires t.Valid() && IsMul128(mul128) && IsMatrix(sources, |coeffs|, |dst|)
    ensures r == NativeSum(mul128, coeffs, sources, dst)
  {
    hide IsMul128, NativeSum, ChunkSum, SymbolSum, Tables.Valid;
    ghost var sum := NativeSum(mul128, coeffs, sources, dst);
    r := dst;
    for i := 0 to |dst| / 16
      invariant |r| == |dst|
      invariant forall k :: 0 <= k < 16 * i ==> r[k] == sum[k]
      invariant forall k :: 16 * i <= k < |dst| ==> r[k] == dst[k]
    {
      assert ChunkAt(r, i) == ChunkAt(dst, i);
      NativeSumChunk(mul128, coeffs, sources, dst, i);
      var c := ChunkLoop(t, mul128, coeffs, sources, i, ChunkAt(r, i));
      ghost var chunk := ChunkAt(sum, i);
      assert forall k :: 16 * i <= k < 16 * i + 16 ==> sum[k] == chunk[k - 16 * i];
      r := r[..16 * i] + c + r[16 * i + 16..];
    }
    for k := 16 * (|dst| / 16) to |dst|
      invariant |r| == |dst|
      invariant forall j :: 0 <= j < k ==> r[j] == sum[j]
      invariant forall j :: k <= j < |dst| ==> r[j] == dst[j]
    {
      NativeSumRest(mul128, coeffs, sources, dst, k);
      var a := SymbolLoop(t, coeffs, sources, k, r[k]);
      r := r[k := a];
    }
  }

  /** All sources into one destination, in batches; a batch without a nonzero coefficient is skipped. */
  method NativeRow(t: Tables, mul128: seq<Lut>, coeffs: Row, sources: Matrix, dst: Row) returns (r: Row)
    requires t.Valid() && IsMul128(mul128) && IsMatrix(sources, |coeffs|, |dst|)
    ensures r == NativeSum(mul128, coeffs, sources, dst)
  {
    hide IsMul128, NativeSum, Tables.Valid;
    r := dst;
    var start := 0;
    NativeSumZeros(mul128, coeffs[..0], sources[..0], dst);
    while start < |coeffs|
      invariant start <= |coeffs|
      invariant |r| == |dst| && r == NativeSum(mul128, coeffs[..start], sources[..start], dst)
    {
      var end := Min(start + SRC_BATCH, |coeffs|);
      var batch, rows := coeffs[start..end], sources[start..end];
      assert coeffs[..end] == coeffs[..start] + batch && sources[..end] == sources[..start] + rows;
      NativeSumSplit(mul128, coeffs[..start], batch, sources[..start], rows, dst);
      if exists b :: 0 <= b < |batch| && batch[b] != 0 {
        r := NativeBatch(t, mul128, batch, rows, r);
      } else {
        NativeSumZeros(mul128, batch, rows, r);
      }
      start := end;
    }
    assert coeffs[..|coeffs|] == coeffs && sources[..|coeffs|] == sources;
  }

  /** gf_muladd_block_regions_shuffle2x, for every region size. */
  method MuladdBlockRegionsShuffle2x(t: Tables, mul128: seq<Lut>, destinations: Matrix, sources: Matrix,
                                     coefficients: Matrix, blockSize: nat, regionU16s: nat) returns (r: Matrix)
    requires t.Valid() && IsMul128(mul128) && regionU16s > 0
    requires IsMatrix(destinations, |destinations|, blockSize) && IsMatrix(sources, |sources|, blockSize)
    requires IsMatrix(coefficients, |destinations|, |sources|)
    ensures IsMatrix(r, |destinations|, blockSize)
    ensures forall d :: 0 <= d < |destinations| ==>
              r[d] == NativeRegions(mul128, coefficients[d], sources, destinations[d], regionU16s, 0)
  {
    hide IsMul128, NativeRegions, NativeSum, Splice, Slices, Tables.Valid;
    r := destinations;
    var offset := 0;
    while offset < blockSize
      invariant offset <= blockSize
      invariant IsMatrix(r, |destinations|, blockSize)
      invariant forall d :: 0 <= d < |destinations| ==>
                  NativeRegions(mul128, coefficients[d], sources, r[d], regionU16s, offset)
                  == NativeRegions(mul128, coefficients[d], sources, destinations[d], regionU16s, 0)
    {
      var regionSize := Min(blockSize - offset, regionU16s);
      var slices := Slices(sources, offset, regionSize);
      for d := 0 to |destinations|
        invariant IsMatrix(r, |destinations|, blockSize)
        invariant forall i :: 0 <= i < |destinations| ==>
                    NativeRegions(mul128, coefficients[i], sources, r[i], regionU16s,
                                  if i < d then offset + regionSize else offset)
                    == NativeRegions(mul128, coefficients[i], sources, destinations[i], regionU16s, 0)
      {
        NativeRegionsStep(mul128, coefficients[d], sources, r[d], regionU16s, offset, regionSize);
        var part := NativeRow(t, mul128, coefficients[d], slices, r[d][offset..offset + regionSize]);
        r := r[d := Splice(r[d], offset, part)];
      }
      offset := offset + regionSize;
    }
    forall d | 0 <= d < |destinations|
      ensures r[d] == NativeRegions(mul128, coefficients[d], sources, destinations[d], regionU16s, 0)
    {
      NativeRegionsDone(mul128, coefficients[d], sources, r[d], regionU16s);
    }
  }

  lemma NativeRegionsDone(mul128: seq<Lut>, coeffs: Row, sources: Matrix, dst: Row, g: nat)
    requires IsMul128(mul128) && IsMatrix(sources, |coeffs|, |dst|) && g > 0
    ensures NativeRegions(mul128, coeffs, sources, dst, g, |dst|) == dst
  {
    hide IsMul128;
  }
}
