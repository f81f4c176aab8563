/**
 The slice, multi-source and column loops of src/galois/arm.rs: sixteen symbols at a time,
 then the remainder one by one.  All equal the scalar forms for every length.
 */
module NeonLoops {
  import opened GaloisField
  import opened GaloisTables
  import opened LinearAlgebra
  import opened Scalar
  import opened Bytes
  import opened NibbleTables
  import opened Shuffle2x
  import opened Regions
  import opened Neon

  function XorPlanes(p: Planes, q: Planes): Planes {
    Planes(Zip(XorByte, p.lo, q.lo), Zip(XorByte, p.hi, q.hi))
  }

  function PlanesOf(c: Chunk): Planes {
    Planes(LowPlane(c), HighPlane(c))
  }

  lemma InterleavePlanes(c: Chunk, d: Chunk)
    ensures Interleave(PlanesOf(c)) == c
    ensures XorPlanes(PlanesOf(c), PlanesOf(d)) == PlanesOf(AddRow(c, d))
  {
    hide LoByte, HiByte, Join, XorByte, Add;
    forall j | 0 <= j < 16
      ensures Join(LoByte(c[j]), HiByte(c[j])) == c[j]
      ensures XorByte(LoByte(c[j]), LoByte(d[j])) == LoByte(Add(c[j], d[j]))
              && XorByte(HiByte(c[j]), HiByte(d[j])) == HiByte(Add(c[j], d[j]))
    {
      JoinBytes(c[j]);
      ByteAdd(c[j], d[j]);
    }
  }

  /** The planes of a chunk are determined by the chunk. */
  lemma PlanesOfInterleave(p: Planes)
    ensures PlanesOf(Interleave(p)) == p
  {
    hide LoByte, HiByte, Join;
    forall j | 0 <= j < 16
      ensures LoByte(Join(p.lo[j], p.hi[j])) == p.lo[j] && HiByte(Join(p.lo[j], p.hi[j])) == p.hi[j]
    {
      BytesOfJoin(p.lo[j], p.hi[j]);
    }
  }

  /** The planes of the product are those of the scaled chunk. */
  lemma MulPlanesOf(c: Chunk, scalar: Symbol)
    ensures MulPlanes(c, scalar) == PlanesOf(Scale(scalar, c))
  {
    hide Interleave, MulPlanes, PlanesOf, Scale;
    MulPlanesProduct(c, scalar);
    PlanesOfInterleave(MulPlanes(c, scalar));
  }

  lemma MuladdPlanes(d: Chunk, c: Chunk, scalar: Symbol)
    ensures Interleave(XorPlanes(PlanesOf(d), MulPlanes(c, scalar))) == AddRow(d, Scale(scalar, c))
  {
    hide Interleave, MulPlanes, PlanesOf, Scale, AddRow, XorPlanes;
    MulPlanesOf(c, scalar);
    InterleavePlanes(d, Scale(scalar, c));
    InterleavePlanes(AddRow(d, Scale(scalar, c)), d);
  }

  lemma ScaleByZero(row: Row)
    ensures Scale(0, row) == ZeroRow(|row|)
  {
    ScaleZero(0, row);
  }

  /** gf_mul_slice_pmull_neon */
  method GfMulSliceNeon(t: Tables, scalar: Symbol, data: array<Symbol>)
    requires t.Valid()
    modifies data
    ensures data[..] == Scale(scalar, old(data[..]))
  {
    hide Mul, Interleave, MulPlanes, Tables.Valid;
    ghost var was := data[..];
    if scalar == 0 {
      ScaleByZero(was);
      for i := 0 to data.Length
        invariant forall k :: 0 <= k < i ==> data[k] == 0
      {
        data[i] := 0;
      }
      return;
    }
    var chunks := data.Length / 16;
    for i := 0 to chunks
      invariant forall k :: 0 <= k < 16 * i ==> data[k] == Mul(was[k], scalar)
      invariant forall k :: 16 * i <= k < data.Length ==> data[k] == was[k]
    {
      assert ChunkAt(data[..], i) == ChunkAt(was, i);
      MulPlanesProduct(ChunkAt(was, i), scalar);
      StoreChunk(data, i, Interleave(MulPlanes(ChunkAt(data[..], i), scalar)));
    }
    for k := 16 * chunks to data.Length
      invariant forall j :: 0 <= j < k ==> data[j] == Mul(was[j], scalar)
      invariant forall j :: k <= j < data.Length ==> data[j] == was[j]
    {
      data[k] := t.GfMul(data[k], scalar);
    }
  }

  /** gf_muladd_pmull_neon; the slices may differ in length. */
  method GfMuladdNeon(t: Tables, dst: array<Symbol>, src: array<Symbol>, scalar: Symbol)
    requires t.Valid() && dst != src
    modifies dst
    ensures dst[..] == MulAdd(old(dst[..]), src[..], scalar)
  {
    hide Mul, Add, Interleave, MulPlanes, XorPlanes, PlanesOf, Tables.Valid;
    ghost var was := dst[..];
    if scalar == 0 {
      MulAddZero(was, src[..]);
      return;
    }
    var minLen := Min(dst.Length, src.Length);
    var chunks := minLen / 16;
    for i := 0 to chunks
      invariant forall k :: 0 <= k < 16 * i ==> dst[k] == Add(was[k], Mul(src[k], scalar))
      invariant forall k :: 16 * i <= k < dst.Length ==> dst[k] == was[k]
    {
      var (d, c) := (ChunkAt(dst[..], i), ChunkAt(src[..], i));
      MuladdPlanes(d, c, scalar);
      StoreChunk(dst, i, Interleave(XorPlanes(PlanesOf(d), MulPlanes(c, scalar))));
    }
    for k := 16 * chunks to minLen
      invariant forall j :: 0 <= j < k ==> dst[j] == Add(was[j], Mul(src[j], scalar))
      invariant forall j :: k <= j < dst.Length ==> dst[j] == was[j]
    {
      dst[k] := Add(dst[k], t.GfMul(src[k], scalar));
    }
  }

  // ----- many sources into one destination

  lemma CombineChunk(coeffs: Row, sources: Matrix, w: nat, i: nat)
    requires IsMatrix(sources, |coeffs|, w) && i < w / 16
    ensures ChunkAt(Combine(coeffs, sources, w), i) == Combine(coeffs, Slices(sources, 16 * i, 16), 16)
  {
    hide Combine;
    CombineSlices(coeffs, sources, w, 16 * i, 16);
  }

  /** The products of one chunk of every source, accumulated in two registers. */
  method AccumulatePlanes(coeffs: Row, chunks: Matrix) returns (acc: Planes)
    requires IsMatrix(chunks, |coeffs|, 16)
    ensures acc == PlanesOf(Combine(coeffs, chunks, 16))
  {
    hide XorPlanes, MulPlanes, PlanesOf, Combine, Scale, AddRow;
    acc := Planes(Splat(0), Splat(0));
    ZeroPlanes();
    for b := 0 to |coeffs|
      invariant acc == PlanesOf(Combine(coeffs[..b], chunks[..b], 16))
    {
      assert coeffs[..b + 1] == coeffs[..b] + [coeffs[b]] && chunks[..b + 1] == chunks[..b] + [chunks[b]];
      CombineAppend(coeffs[..b], coeffs[b], chunks[..b], chunks[b], chunks[..b + 1], 16);
      ghost var before := Combine(coeffs[..b], chunks[..b], 16);
      if coeffs[b] == 0 {
        ScaleZero(0, chunks[b]);
        AddRowZero(before);
      } else {
        MulPlanesOf(chunks[b], coeffs[b]);
        InterleavePlanes(before, Scale(coeffs[b], chunks[b]));
        acc := XorPlanes(acc, MulPlanes(chunks[b], coeffs[b]));
      }
    }
    assert coeffs[..|coeffs|] == coeffs && chunks[..|coeffs|] == chunks;
  }

  lemma ZeroPlanes()
    ensures Planes(Splat(0), Splat(0)) == PlanesOf(Combine([], [], 16))
  {
    assert LoByte(0) == 0 && HiByte(0) == 0;
    hide LoByte, HiByte;
  }

  /** The scalar loop over the sources for one symbol of the remainder. */
  method AccumulateSymbol(t: Tables, coeffs: Row, sources: Matrix, w: nat, k: nat, a: Symbol) returns (r: Symbol)
    requires t.Valid() && IsMatrix(sources, |coeffs|, w) && k < w
    ensures r == Add(a, Combine(coeffs, sources, w)[k])
  {
    hide Add, Mul, Tables.Valid;
    r := a;
    AddZero(a);
    for b := 0 to |coeffs|
      invariant r == Add(a, Combine(coeffs[..b], sources[..b], w)[k])
    {
      assert coeffs[..b + 1] == coeffs[..b] + [coeffs[b]] && sources[..b + 1] == sources[..b] + [sources[b]];
      CombineAppend(coeffs[..b], coeffs[b], sources[..b], sources[b], sources[..b + 1], w);
      ghost var before := Combine(coeffs[..b], sources[..b], w)[k];
      AddAssoc(a, before, Mul(sources[b][k], coeffs[b]));
      if coeffs[b] != 0 {
        r := Add(r, t.GfMul(sources[b][k], coeffs[b]));
      } else {
        MulZero(sources[b][k]);
        AddZero(r);
      }
    }
    assert coeffs[..|coeffs|] == coeffs && sources[..|coeffs|] == sources;
  }

  /** gf_muladd_multi_pmull_neon: destination values are loaded and stored once. */
  method GfMuladdMultiNeon(t: Tables, dst: array<Symbol>, sources: Matrix, coeffs: Row)
    requires t.Valid() && IsMatrix(sources, |coeffs|, dst.Length)
    modifies dst
    ensures dst[..] == Accumulated(old(dst[..]), coeffs, sources)
  {
    hide Add, Combine, Interleave, XorPlanes, PlanesOf, Tables.Valid;
    ghost var was := dst[..];
    ghost var sum := Combine(coeffs, sources, dst.Length);
    if |sources| == 0 {
      AccumulatedNone(was);
      assert coeffs == [] && sources == [];
      return;
    }
    var chunks := dst.Length / 16;
    for i := 0 to chunks
      invariant forall k :: 0 <= k < 16 * i ==> dst[k] == Add(was[k], sum[k])
      invariant forall k :: 16 * i <= k < dst.Length ==> dst[k] == was[k]
    {
      var d := ChunkAt(dst[..], i);
      var acc := AccumulatePlanes(coeffs, Slices(sources, 16 * i, 16));
      CombineChunk(coeffs, sources, dst.Length, i);
      ghost var s := ChunkAt(sum, i);
      InterleavePlanes(d, s);
      InterleavePlanes(AddRow(d, s), d);
      StoreChunk(dst, i, Interleave(XorPlanes(PlanesOf(d), acc)));
    }
    for k := 16 * chunks to dst.Length
      invariant forall j :: 0 <= j < k ==> dst[j] == Add(was[j], sum[j])
      invariant forall j :: k <= j < dst.Length ==> dst[j] == was[j]
    {
      var a := AccumulateSymbol(t, coeffs, sources, dst.Length, k, dst[k]);
      dst[k] := a;
    }
  }

  // ----- one source into many destinations

  function ReplaceChunk(row: Row, i: nat, c: Chunk): (r: Row)
    requires 16 * i + 16 <= |row|
    ensures |r| == |row|
  {
    row[..16 * i] + c + row[16 * i + 16..]
  }

  /** One chunk of the source into one destination; a zero coefficient is skipped. */
  method ColumnChunk(row: Row, i: nat, c: Chunk, coeff: Symbol) returns (r: Row)
    requires 16 * i + 16 <= |row|
    ensures |r| == |row|
    ensures forall k :: 16 * i <= k < 16 * i + 16 ==> r[k] == Add(row[k], Mul(c[k - 16 * i], coeff))
    ensures forall k :: 0 <= k < |row| && !(16 * i <= k < 16 * i + 16) ==> r[k] == row[k]
  {
    hide Mul, Add, Interleave, MulPlanes, XorPlanes, PlanesOf;
    var d := ChunkAt(row, i);
    if coeff == 0 {
      ZeroChunk(d, c);
      return row;
    }
    MuladdPlanes(d, c, coeff);
    r := ReplaceChunk(row, i, Interleave(XorPlanes(PlanesOf(d), MulPlanes(c, coeff))));
  }

  /** gf_muladd_column_neon: each chunk of the source is loaded once for all destinations. */
  method GfMuladdColumnNeon(t: Tables, destinations: Matrix, source: Row, coeffs: Row) returns (r: Matrix)
    requires t.Valid() && |destinations| == |coeffs| <= 8 && IsMatrix(destinations, |destinations|, |source|)
    ensures IsMatrix(r, |destinations|, |source|)
    ensures forall j :: 0 <= j < |destinations| ==> r[j] == MulAdd(destinations[j], source, coeffs[j])
  {
    hide Mul, Add, Tables.Valid;
    r := destinations;
    var chunks := |source| / 16;
    for i := 0 to chunks
      invariant IsMatrix(r, |destinations|, |source|)
      invariant forall j, k :: 0 <= j < |r| && 0 <= k < 16 * i ==>
                r[j][k] == Add(destinations[j][k], Mul(source[k], coeffs[j]))
      invariant forall j, k :: 0 <= j < |r| && 16 * i <= k < |source| ==> r[j][k] == destinations[j][k]
    {
      var c := ChunkAt(source, i);
      for j := 0 to |coeffs|
        invariant IsMatrix(r, |destinations|, |source|)
        invariant forall d, k :: 0 <= d < |r| && 0 <= k < 16 * (if d < j then i + 1 else i) ==>
                    r[d][k] == Add(destinations[d][k], Mul(source[k], coeffs[d]))
        invariant forall d, k :: 0 <= d < |r| && 16 * (if d < j then i + 1 else i) <= k < |source| ==>
                  r[d][k] == destinations[d][k]
      {
        var row := ColumnChunk(r[j], i, c, coeffs[j]);
        r := r[j := row];
      }
    }
    for k := 16 * chunks to |source|
      invariant IsMatrix(r, |destinations|, |source|)
      invariant forall d, i :: 0 <= d < |r| && 0 <= i < k ==>
                r[d][i] == Add(destinations[d][i], Mul(source[i], coeffs[d]))
      invariant forall d, i :: 0 <= d < |r| && k <= i < |source| ==> r[d][i] == destinations[d][i]
    {
      for j := 0 to |coeffs|
        invariant IsMatrix(r, |destinations|, |source|)
        invariant forall d, i :: 0 <= d < |r| && 0 <= i < (if d < j then k + 1 else k) ==>
                    r[d][i] == Add(destinations[d][i], Mul(source[i], coeffs[d]))
        invariant forall d, i :: 0 <= d < |r| && (if d < j then k + 1 else k) <= i < |source| ==>
                  r[d][i] == destinations[d][i]
      {
        MulZero(source[k]);
        AddZero(r[j][k]);
        if coeffs[j] != 0 {
          r := r[j := r[j][k := Add(r[j][k], t.GfMul(source[k], coeffs[j]))]];
        }
      }
    }
  }

  lemma ZeroChunk(d: Chunk, c: Chunk)
    ensures forall k :: 0 <= k < 16 ==> Add(d[k], Mul(c[k], 0)) == d[k]
  {
    hide Add, Mul;
    forall k | 0 <= k < 16
      ensures Add(d[k], Mul(c[k], 0)) == d[k]
    {
      MulZero(c[k]);
      AddZero(d[k]);
    }
  }
}
