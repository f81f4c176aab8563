/**
 Multiply-accumulate of many sources into many destinations, a cache-sized region at a time
 (src/galois/region/mod.rs, and the region functions of avx2.rs).

 In the plain layout the region size does not matter.  In the shuffle2x layout it must be
 a multiple of sixteen symbols: `AlignmentMatters` gives the exact condition.
 */
module Regions {
  import opened GaloisField
  import opened Primitive
  import opened GaloisTables
  import opened LinearAlgebra
  import opened Scalar
  import opened Bytes
  import opened NibbleTables
  import opened Shuffle2x

  function Min(a: nat, b: nat): nat {
    if a < b then a else b
  }

  function Slices(rows: Matrix, o: nat, n: nat): (r: Matrix)
    requires forall i :: 0 <= i < |rows| ==> o + n <= |rows[i]|
    ensures IsMatrix(r, |rows|, n)
  {
    seq(|rows|, i requires 0 <= i < |rows| => rows[i][o..o + n])
  }

  /** A row with the part from o replaced. */
  function Splice(row: Row, o: nat, part: Row): (r: Row)
    requires o + |part| <= |row|
    ensures |r| == |row|
  {
    row[..o] + part + row[o + |part|..]
  }

  // ----- the plain layout

  /** What a destination row becomes: itself plus the combination of the sources. */
  function Accumulated(dst: Row, coeffs: Row, sources: Matrix): (r: Row)
    requires IsMatrix(sources, |coeffs|, |dst|)
    ensures |r| == |dst|
  {
    AddRow(dst, Combine(coeffs, sources, |dst|))
  }

  /** One more source. */
  lemma AccumulatedNext(dst: Row, coeffs: Row, sources: Matrix, n: nat)
    requires IsMatrix(sources, |coeffs|, |dst|) && n < |coeffs|
    ensures Accumulated(dst, coeffs[..n + 1], sources[..n + 1])
         == MulAdd(Accumulated(dst, coeffs[..n], sources[..n]), sources[n], coeffs[n])
  {
    hide AddRow, Scale, MulAdd;
    var w := |dst|;
    assert coeffs[..n + 1][..n] == coeffs[..n] && sources[..n + 1][..n] == sources[..n];
    var before := Combine(coeffs[..n], sources[..n], w);
    AddRowAssoc(dst, before, Scale(coeffs[n], sources[n]));
    MulAddSameLength(AddRow(dst, before), sources[n], coeffs[n]);
  }

  lemma ScaleSlice(f: Symbol, row: Row, o: nat, n: nat)
    requires o + n <= |row|
    ensures Scale(f, row[o..o + n]) == Scale(f, row)[o..o + n]
  {
    hide Mul;
  }

  lemma AddRowSlice(a: Row, b: Row, o: nat, n: nat)
    requires |a| == |b| && o + n <= |a|
    ensures AddRow(a[o..o + n], b[o..o + n]) == AddRow(a, b)[o..o + n]
  {
    hide Add;
  }

  /** A combination of slices is the slice of the combination. */
  lemma {:induction false} CombineSlices(c: Row, rows: Matrix, w: nat, o: nat, n: nat)
    requires IsMatrix(rows, |c|, w) && o + n <= w
    ensures Combine(c, Slices(rows, o, n), n) == Combine(c, rows, w)[o..o + n]
    decreases |c|
  {
    hide Scale, AddRow;
    if |c| != 0 {
      var k := |c| - 1;
      assert Slices(rows, o, n)[..k] == Slices(rows[..k], o, n);
      CombineSlices(c[..k], rows[..k], w, o, n);
      ScaleSlice(c[k], rows[k], o, n);
      AddRowSlice(Combine(c[..k], rows[..k], w), Scale(c[k], rows[k]), o, n);
    }
  }

  lemma AccumulatedSlice(dst: Row, coeffs: Row, sources: Matrix, o: nat, n: nat)
    requires IsMatrix(sources, |coeffs|, |dst|) && o + n <= |dst|
    ensures Accumulated(dst[o..o + n], coeffs, Slices(sources, o, n)) == Accumulated(dst, coeffs, sources)[o..o + n]
  {
    CombineSlices(coeffs, sources, |dst|, o, n);
    hide Add, Combine;
  }

  lemma SplicePart(row: Row, o: nat, part: Row)
    requires o + |part| <= |row| && part == row[o..o + |part|]
    ensures Splice(row, o, part) == row
  {
  }

  lemma SpliceTwice(row: Row, o: nat, part: Row, next: Row)
    requires o + |part| <= |row| && |part| == |next|
    ensures Splice(row, o, part)[o..o + |part|] == part
    ensures Splice(Splice(row, o, part), o, next) == Splice(row, o, next)
  {
  }

  /** gf_muladd_region_scalar for one destination: zero coefficients and zero symbols are skipped. */
  method MuladdRegionRow(t: Tables, dst: Row, coeffs: Row, sources: Matrix, o: nat, n: nat) returns (r: Row)
    requires t.Valid() && IsMatrix(sources, |coeffs|, |dst|) && o + n <= |dst|
    ensures r == Splice(dst, o, Accumulated(dst[o..o + n], coeffs, Slices(sources, o, n)))
  {
    hide Add, Mul, AddRow, Combine, Accumulated, Tables.Valid;
    hide Splice, MulAdd;
    ghost var part := dst[o..o + n];
    ghost var slices := Slices(sources, o, n);
    AccumulatedNone(part);
    SplicePart(dst, o, part);
    r := dst;
    for k := 0 to |coeffs|
      invariant |r| == |dst| && r == Splice(dst, o, Accumulated(part, coeffs[..k], slices[..k]))
    {
      AccumulatedNext(part, coeffs, slices, k);
      MulAddZero(Accumulated(part, coeffs[..k], slices[..k]), slices[k]);
      SpliceTwice(dst, o, Accumulated(part, coeffs[..k], slices[..k]),
                  Accumulated(part, coeffs[..k + 1], slices[..k + 1]));
      if coeffs[k] != 0 {
        var next := MulAddSymbols(t, r[o..o + n], sources[k][o..o + n], coeffs[k]);
        r := Splice(r, o, next);
      }
    }
    assert coeffs[..|coeffs|] == coeffs && slices[..|coeffs|] == slices;
  }

  lemma AccumulatedNone(dst: Row)
    ensures Accumulated(dst, [], []) == dst
  {
    AddRowZero(dst);
    hide AddRow;
  }

  method MulAddSymbols(t: Tables, dst: Row, src: Row, coeff: Symbol) returns (r: Row)
    requires t.Valid() && |dst| == |src|
    ensures r == MulAdd(dst, src, coeff)
  {
    hide Add, Mul, Tables.Valid;
    r := dst;
    for i := 0 to |dst|
      invariant |r| == |dst|
      invariant forall k :: 0 <= k < i ==> r[k] == Add(dst[k], Mul(src[k], coeff))
      invariant forall k :: i <= k < |dst| ==> r[k] == dst[k]
    {
      if src[i] != 0 {
        r := r[i := Add(r[i], t.GfMul(src[i], coeff))];
      } else {
        MulZero(coeff);
        AddZero(dst[i]);
      }
    }
  }

  /** A row that is new up to o, and old from there on. */
  ghost function Mixed(done: Row, start: Row, o: nat): (r: Row)
    requires |done| == |start| && o <= |start|
    ensures |r| == |start|
  {
    done[..o] + start[o..]
  }

  lemma MixedEnds(done: Row, start: Row)
    requires |done| == |start|
    ensures Mixed(done, start, 0) == start && Mixed(done, start, |start|) == done
  {
  }

  lemma MixedNext(done: Row, start: Row, o: nat, n: nat)
    requires |done| == |start| && o + n <= |start|
    ensures Mixed(done, start, o)[o..o + n] == start[o..o + n]
    ensures Splice(Mixed(done, start, o), o, done[o..o + n]) == Mixed(done, start, o + n)
  {
  }

  /** gf_muladd_block_regions: the whole block is accumulated, for every region size. */
  method MuladdBlockRegions(t: Tables, destinations: Matrix, sources: Matrix, coefficients: Matrix,
                            blockSize: nat, regionU16s: nat) returns (r: Matrix)
    requires t.Valid() && regionU16s > 0
    requires IsMatrix(destinations, |destinations|, blockSize) && IsMatrix(sources, |sources|, blockSize)
    requires IsMatrix(coefficients, |destinations|, |sources|)
    ensures IsMatrix(r, |destinations|, blockSize)
    ensures forall d :: 0 <= d < |destinations| ==> r[d] == Accumulated(destinations[d], coefficients[d], sources)
  {
    hide Accumulated, Tables.Valid, Mixed, Splice;
    r := destinations;
    forall d | 0 <= d < |destinations|
      ensures r[d] == Mixed(Accumulated(destinations[d], coefficients[d], sources), destinations[d], 0)
    {
      MixedEnds(Accumulated(destinations[d], coefficients[d], sources), destinations[d]);
    }
    var offset := 0;
    while offset < blockSize
      invariant offset <= blockSize
      invariant IsMatrix(r, |destinations|, blockSize)
      invariant forall d :: 0 <= d < |destinations| ==>
                  r[d] == Mixed(Accumulated(destinations[d], coefficients[d], sources), destinations[d], offset)
    {
      var regionSize := Min(blockSize - offset, regionU16s);
      ghost var before := r;
      for d := 0 to |destinations|
        invariant IsMatrix(r, |destinations|, blockSize)
        invariant forall i :: d <= i < |r| ==> r[i] == before[i]
        invariant forall i :: 0 <= i < d ==>
                    r[i] == Mixed(Accumulated(destinations[i], coefficients[i], sources), destinations[i],
                                  offset + regionSize)
      {
        var row := MuladdRegionRow(t, r[d], coefficients[d], sources, offset, regionSize);
        AccumulatedSlice(destinations[d], coefficients[d], sources, offset, regionSize);
        MixedNext(Accumulated(destinations[d], coefficients[d], sources), destinations[d], offset, regionSize);
        r := r[d := row];
      }
      offset := offset + regionSize;
    }
    forall d | 0 <= d < |destinations|
      ensures r[d] == Accumulated(destinations[d], coefficients[d], sources)
    {
      MixedEnds(Accumulated(destinations[d], coefficients[d], sources), destinations[d]);
    }
  }

  // ----- the shuffle2x layout

  function PrepareAll(rows: Matrix): (r: Matrix)
    ensures |r| == |rows| && forall i :: 0 <= i < |rows| ==> |r[i]| == |rows[i]|
  {
    seq(|rows|, i requires 0 <= i < |rows| => Prepare(rows[i]))
  }

  /** One source into one destination; a zero coefficient is skipped. */
  ghost function MuladdOne(mul128: seq<Lut>, c: Symbol, dst: Row, src: Row): (r: Row)
    requires IsMul128(mul128) && |dst| == |src|
    ensures |r| == |dst|
  {
    if c == 0 then dst else
      LutHasShape(mul128[Log(c)], c);
      MuladdNative(mul128[Log(c)], c, dst, src)
  }

  ghost function NativeSum(mul128: seq<Lut>, coeffs: Row, sources: Matrix, dst: Row): (r: Row)
    requires IsMul128(mul128) && IsMatrix(sources, |coeffs|, |dst|)
    ensures |r| == |dst|
  {
    if |coeffs| == 0 then dst
    else
      var n := |coeffs| - 1;
      MuladdOne(mul128, coeffs[n], NativeSum(mul128, coeffs[..n], sources[..n], dst), sources[n])
  }

  /** gf_muladd_block_regions_shuffle2x for one destination, from offset o on. */
  ghost function NativeRegions(mul128: seq<Lut>, coeffs: Row, sources: Matrix, dst: Row, g: nat, o: nat): (r: Row)
    requires IsMul128(mul128) && IsMatrix(sources, |coeffs|, |dst|) && g > 0 && o <= |dst|
    ensures |r| == |dst|
    decreases |dst| - o
  {
    if o == |dst| then dst
    else
      var n := Min(|dst| - o, g);
      var part := NativeSum(mul128, coeffs, Slices(sources, o, n), dst[o..o + n]);
      NativeRegions(mul128, coeffs, sources, Splice(dst, o, part), g, o + n)
  }

  lemma MuladdOnePrepared(mul128: seq<Lut>, c: Symbol, d: Row, s: Row)
    requires IsMul128(mul128) && |d| == |s|
    ensures MuladdOne(mul128, c, Prepare(d), Prepare(s)) == Prepare(MulAdd(d, s, c))
  {
    hide Prepare, MulAdd, MuladdNative, IsLut, Exp;
    if c == 0 {
      MulAddZero(d, s);
    } else {
      LutHasShape(mul128[Log(c)], c);
      MuladdPrepared(mul128[Log(c)], c, d, s);
    }
  }

  /** Accumulating prepared rows gives the prepared accumulation. */
  lemma {:induction false} NativeSumPrepared(mul128: seq<Lut>, coeffs: Row, sources: Matrix, dst: Row)
    requires IsMul128(mul128) && IsMatrix(sources, |coeffs|, |dst|)
    ensures NativeSum(mul128, coeffs, PrepareAll(sources), Prepare(dst)) == Prepare(Accumulated(dst, coeffs, sources))
    decreases |coeffs|
  {
    hide Prepare, Accumulated, MuladdOne, IsMul128;
    if |coeffs| == 0 {
      AccumulatedNone(dst);
      assert coeffs == [] && sources == [];
      return;
    }
    var n := |coeffs| - 1;
    assert PrepareAll(sources)[..n] == PrepareAll(sources[..n]);
    NativeSumPrepared(mul128, coeffs[..n], sources[..n], dst);
    AccumulatedNext(dst, coeffs, sources, n);
    assert coeffs[..n + 1] == coeffs && sources[..n + 1] == sources;
    MuladdOnePrepared(mul128, coeffs[n], Accumulated(dst, coeffs[..n], sources[..n]), sources[n]);
  }

  /** A cut of a row of w symbols that splits no whole chunk. */
  predicate CleanCut(w: nat, o: nat) {
    o % 16 == 0 || o >= 16 * (w / 16)
  }

  lemma ChunkOfSlice(row: Row, o: nat, n: nat, c: nat, i: nat)
    requires o == 16 * c && 16 * i + 16 <= n && o + n <= |row|
    ensures ChunkAt(row[o..o + n], i) == ChunkAt(row, c + i)
  {
    SliceOfSlice(row, o, n, 16 * i, 16 * i + 16);
  }

  lemma SliceOfSlice<T>(s: seq<T>, o: nat, n: nat, a: nat, b: nat)
    requires a <= b <= n && o + n <= |s|
    ensures s[o..o + n][a..b] == s[o + a..o + b]
  {
    var (x, y) := (s[o..o + n][a..b], s[o + a..o + b]);
    forall k | 0 <= k < b - a
      ensures x[k] == y[k]
    {
    }
  }

  lemma DividedSum(o: nat, k: nat, c: nat)
    requires o == 16 * c
    ensures (o + k) / 16 == c + k / 16 && (o + k) % 16 == k % 16
  {
  }

  lemma PrepareSliceAt(row: Row, o: nat, n: nat, k: nat)
    requires k < n && o + n <= |row| && CleanCut(|row|, o) && CleanCut(|row|, o + n)
    ensures Prepare(row)[o + k] == Prepare(row[o..o + n])[k]
  {
    hide PrepareChunk, ChunkAt;
    if o % 16 == 0 {
      DividedSum(o, k, o / 16);
      assert k / 16 < n / 16 <==> (o + k) / 16 < |row| / 16;
      if k / 16 < n / 16 {
        ChunkOfSlice(row, o, n, o / 16, k / 16);
      }
    } else {
      assert n / 16 == 0 && (o + k) / 16 >= |row| / 16;
    }
  }

  lemma PrepareSlice(row: Row, o: nat, n: nat)
    requires o + n <= |row| && CleanCut(|row|, o) && CleanCut(|row|, o + n)
    ensures Prepare(row)[o..o + n] == Prepare(row[o..o + n])
  {
    hide Prepare, CleanCut;
    var part := Prepare(row[o..o + n]);
    forall k | 0 <= k < n
      ensures Prepare(row)[o..o + n][k] == part[k]
    {
      PrepareSliceAt(row, o, n, k);
    }
  }

  lemma EndsAreClean(w: nat)
    ensures CleanCut(w, 0) && CleanCut(w, w)
  {
  }

  lemma PrepareSpliceAt(row: Row, o: nat, part: Row, spliced: Row, k: nat)
    requires o + |part| <= |row| == |spliced| && CleanCut(|row|, o) && CleanCut(|row|, o + |part|) && k < |row|
    requires spliced[0..o] == row[0..o] && spliced[o..o + |part|] == part
    requires spliced[o + |part|..|row|] == row[o + |part|..|row|]
    ensures Prepare(spliced)[k] == if o <= k < o + |part| then Prepare(part)[k - o] else Prepare(row)[k]
  {
    hide Prepare, CleanCut;
    EndsAreClean(|row|);
    var n, w := |part|, |row|;
    if k < o {
      PrepareSliceAt(spliced, 0, o, k);
      PrepareSliceAt(row, 0, o, k);
    } else if k < o + n {
      PrepareSliceAt(spliced, o, n, k - o);
    } else {
      PrepareSliceAt(spliced, o + n, w - o - n, k - o - n);
      PrepareSliceAt(row, o + n, w - o - n, k - o - n);
    }
  }

  lemma SpliceParts(row: Row, o: nat, part: Row)
    requires o + |part| <= |row|
    ensures var r := Splice(row, o, part);
            r[0..o] == row[0..o] && r[o..o + |part|] == part && r[o + |part|..|row|] == row[o + |part|..|row|]
  {
  }

  lemma SpliceAt(row: Row, o: nat, part: Row, k: nat)
    requires o + |part| <= |row| && k < |row|
    ensures Splice(row, o, part)[k] == if o <= k < o + |part| then part[k - o] else row[k]
  {
  }

  lemma PrepareSplice(row: Row, o: nat, part: Row)
    requires o + |part| <= |row| && CleanCut(|row|, o) && CleanCut(|row|, o + |part|)
    ensures Prepare(Splice(row, o, part)) == Splice(Prepare(row), o, Prepare(part))
  {
    hide Prepare, CleanCut, Splice;
    var spliced := Splice(row, o, part);
    SpliceParts(row, o, part);
    forall k | 0 <= k < |row|
      ensures Prepare(spliced)[k] == Splice(Prepare(row), o, Prepare(part))[k]
    {
      PrepareSpliceAt(row, o, part, spliced, k);
      SpliceAt(Prepare(row), o, Prepare(part), k);
    }
  }

  /** No region boundary splits a whole chunk. */
  predicate AlignedRegions(w: nat, g: nat) {
    g % 16 == 0 || g >= 16 * (w / 16)
  }

  /** The offsets the loop visits. */
  predicate RegionStart(w: nat, g: nat, o: nat) {
    CleanCut(w, o) && (o == 0 || g % 16 == 0 || o >= 16 * (w / 16))
  }

  lemma NextStart(w: nat, g: nat, o: nat)
    requires AlignedRegions(w, g) && o < w && RegionStart(w, g, o)
    ensures RegionStart(w, g, o + Min(w - o, g))
  {
  }

  /** One region of prepared rows. */
  lemma NativeRegion(mul128: seq<Lut>, coeffs: Row, sources: Matrix, dst: Row, o: nat, n: nat)
    requires IsMul128(mul128) && IsMatrix(sources, |coeffs|, |dst|) && o + n <= |dst|
    requires CleanCut(|dst|, o) && CleanCut(|dst|, o + n)
    ensures NativeSum(mul128, coeffs, Slices(PrepareAll(sources), o, n), Prepare(dst)[o..o + n])
         == Prepare(Accumulated(dst, coeffs, sources)[o..o + n])
  {
    hide Prepare, Accumulated, NativeSum, IsMul128, CleanCut;
    forall i | 0 <= i < |sources|
      ensures Prepare(sources[i])[o..o + n] == Prepare(sources[i][o..o + n])
    {
      PrepareSlice(sources[i], o, n);
    }
    assert Slices(PrepareAll(sources), o, n) == PrepareAll(Slices(sources, o, n));
    PrepareSlice(dst, o, n);
    NativeSumPrepared(mul128, coeffs, Slices(sources, o, n), dst[o..o + n]);
    AccumulatedSlice(dst, coeffs, sources, o, n);
  }

  /** What is accumulated after o depends only on the rows after o. */
  lemma AccumulatedTail(dst: Row, dst': Row, coeffs: Row, sources: Matrix, o: nat)
    requires |dst| == |dst'| && IsMatrix(sources, |coeffs|, |dst|) && o <= |dst| && dst[o..] == dst'[o..]
    ensures Accumulated(dst, coeffs, sources)[o..] == Accumulated(dst', coeffs, sources)[o..]
  {
    hide Accumulated;
    var n := |dst| - o;
    assert dst[o..o + n] == dst'[o..o + n];
    AccumulatedSlice(dst, coeffs, sources, o, n);
    AccumulatedSlice(dst', coeffs, sources, o, n);
  }

  lemma SplicedPrefix(dst: Row, acc: Row, o: nat, n: nat, dst': Row)
    requires |dst| == |acc| && o + n <= |dst| && dst' == Splice(dst, o, acc[o..o + n])
    ensures dst'[..o + n] + acc[o + n..] == dst[..o] + acc[o..]
    ensures dst'[o + n..] == dst[o + n..]
  {
  }

  /** One region leaves prepared rows to which the rest of the loop applies. */
  lemma RegionStep(mul128: seq<Lut>, coeffs: Row, sources: Matrix, dst: Row, g: nat, o: nat) returns (n: nat, dst': Row)
    requires IsMul128(mul128) && IsMatrix(sources, |coeffs|, |dst|) && g > 0 && o < |dst|
    requires AlignedRegions(|dst|, g) && RegionStart(|dst|, g, o)
    ensures 0 < n <= |dst| - o && |dst'| == |dst| && RegionStart(|dst|, g, o + n)
    ensures NativeRegions(mul128, coeffs, PrepareAll(sources), Prepare(dst), g, o)
         == NativeRegions(mul128, coeffs, PrepareAll(sources), Prepare(dst'), g, o + n)
    ensures dst'[..o + n] + Accumulated(dst', coeffs, sources)[o + n..]
            == dst[..o] + Accumulated(dst, coeffs, sources)[o..]
  {
    hide NativeRegions, NativeSum, Prepare, Accumulated, IsMul128, Splice, Slices, PrepareAll;
    n := Min(|dst| - o, g);
    NextStart(|dst|, g, o);
    hide AlignedRegions;
    var acc := Accumulated(dst, coeffs, sources);
    var part := acc[o..o + n];
    dst' := Splice(dst, o, part);
    NativeRegionsStep(mul128, coeffs, PrepareAll(sources), Prepare(dst), g, o, n);
    NativeRegion(mul128, coeffs, sources, dst, o, n);
    PrepareSplice(dst, o, part);
    SplicedPrefix(dst, acc, o, n, dst');
    AccumulatedTail(dst, dst', coeffs, sources, o + n);
  }

  /** Regions of aligned size accumulate prepared rows as a whole. */
  lemma {:induction false} NativeRegionsAligned(mul128: seq<Lut>, coeffs: Row, sources: Matrix, dst: Row, g: nat,
                                                o: nat)
    requires IsMul128(mul128) && IsMatrix(sources, |coeffs|, |dst|) && g > 0 && o <= |dst|
    requires AlignedRegions(|dst|, g) && RegionStart(|dst|, g, o)
    ensures NativeRegions(mul128, coeffs, PrepareAll(sources), Prepare(dst), g, o)
         == Prepare(dst[..o] + Accumulated(dst, coeffs, sources)[o..])
    decreases |dst| - o
  {
    hide Prepare, Accumulated, IsMul128, AlignedRegions, RegionStart, PrepareAll, NativeSum;
    if o == |dst| {
      assert dst[..o] + Accumulated(dst, coeffs, sources)[o..] == dst;
    } else {
      hide NativeRegions;
      var n, dst' := RegionStep(mul128, coeffs, sources, dst, g, o);
      NativeRegionsAligned(mul128, coeffs, sources, dst', g, o + n);
    }
  }

  lemma NativeRegionsStep(mul128: seq<Lut>, coeffs: Row, sources: Matrix, dst: Row, g: nat, o: nat, n: nat)
    requires IsMul128(mul128) && IsMatrix(sources, |coeffs|, |dst|) && 0 < g && o < |dst| && n == Min(|dst| - o, g)
    ensures NativeRegions(mul128, coeffs, sources, dst, g, o)
         == NativeRegions(mul128, coeffs, sources,
                          Splice(dst, o, NativeSum(mul128, coeffs, Slices(sources, o, n), dst[o..o + n])), g, o + n)
  {
    hide NativeSum, IsMul128, Splice, Slices;
  }

  /** Regions before offset o are not touched any more. */
  lemma {:induction false} NativeRegionsKeeps(mul128: seq<Lut>, coeffs: Row, sources: Matrix, dst: Row, g: nat, o: nat)
    requires IsMul128(mul128) && IsMatrix(sources, |coeffs|, |dst|) && g > 0 && o <= |dst|
    ensures NativeRegions(mul128, coeffs, sources, dst, g, o)[..o] == dst[..o]
    decreases |dst| - o
  {
    hide NativeSum, IsMul128;
    if o < |dst| {
      var n := Min(|dst| - o, g);
      var part := NativeSum(mul128, coeffs, Slices(sources, o, n), dst[o..o + n]);
      var dst' := Splice(dst, o, part);
      NativeRegionsKeeps(mul128, coeffs, sources, dst', g, o + n);
      var r := NativeRegions(mul128, coeffs, sources, dst', g, o + n);
      assert r[..o] == r[..o + n][..o] && dst'[..o + n][..o] == dst[..o];
    }
  }

  /** A source that is zero except for one symbol. */
  function Spike(w: nat, p: nat): (r: Row)
    ensures |r| == w
  {
    seq(w, k => if k == p then 0x80 else 0)
  }

  lemma FirstPlanar(c: Chunk)
    ensures ToSymbols(Planar(c))[0] == Join(LoByte(c[0]), LoByte(c[1]))
  {
    hide LoByte, HiByte, Join;
  }

  /** The first symbol of a prepared chunk holds the low bytes of its first two symbols. */
  lemma FirstOfChunk(row: Row, q: nat)
    requires q < |row| / 16
    ensures Prepare(row)[16 * q] == Join(LoByte(row[16 * q]), LoByte(row[16 * q + 1]))
  {
    hide Prepare, PrepareChunk, LoByte, HiByte, Join, Planar, ToSymbols, ToBytes;
    var c := ChunkAt(row, q);
    ChunkOfPrepare(row, q);
    assert ChunkAt(Prepare(row), q)[0] == Prepare(row)[16 * q];
    PrepareChunkBytes(c);
    SymbolsOfBytes(PrepareChunk(c));
    FirstPlanar(c);
  }

  lemma SpikeValues()
    ensures Join(LoByte(0x80), LoByte(0)) == 0x80 && Join(LoByte(0), LoByte(0)) == 0
    ensures Join(LoByte(0x100), LoByte(0)) == 0
    ensures Mul(0x80, 2) == 0x100 && Mul(0, 2) == 0
  {
    MulUnrolled(0x80, 2);
    MulZero(2);
    hide Mul;
  }

  lemma SingleSource(mul128: seq<Lut>, c: Symbol, dst: Row, src: Row)
    requires IsMul128(mul128) && |dst| == |src|
    ensures NativeSum(mul128, [c], [src], dst) == MuladdOne(mul128, c, dst, src)
    ensures Accumulated(dst, [c], [src]) == MulAdd(dst, src, c)
  {
    hide MuladdOne, IsMul128, Accumulated, MulAdd;
    assert [c][..0] == [] && [src][..0] == [] && [c][..1] == [c] && [src][..1] == [src];
    AccumulatedNone(dst);
    AccumulatedNext(dst, [c], [src], 0);
  }

  lemma FactorLut(mul128: seq<Lut>, c: Symbol)
    requires IsMul128(mul128) && c != 0
    ensures Log(c) < |mul128| && IsLut(mul128[Log(c)], c) && LutShape(mul128[Log(c)])
  {
    hide IsLut, LutShape;
    assert Exp(Log(c)) == c;
    LutHasShape(mul128[Log(c)], c);
  }

  /** The symbol the region loop leaves at p, the first of a chunk that a region boundary splits. */
  lemma SplitChunkSymbol(mul128: seq<Lut>, dst: Row, src: Row, g: nat, p: nat)
    requires IsMul128(mul128) && |dst| == |src| && 0 < g <= |dst| && 16 * (g / 16) <= p < g
    ensures NativeRegions(mul128, [2], [src], dst, g, 0)[p] == Add(dst[p], Mul(src[p], 2))
  {
    hide IsMul128, Add, Mul, MuladdNative, NativeSum, IsLut;
    var (d, s) := (dst[0..g], src[0..g]);
    assert Slices([src], 0, g) == [s];
    SingleSource(mul128, 2, d, s);
    FactorLut(mul128, 2);
    NativeRest(mul128[Log(2)], 2, d, s, p);
    var part := NativeSum(mul128, [2], [s], d);
    var dst' := Splice(dst, 0, part);
    assert dst'[p] == part[p];
    NativeRegionsStep(mul128, [2], [src], dst, g, 0, g);
    NativeRegionsKeeps(mul128, [2], [src], dst', g, g);
    hide NativeRegions;
    assert NativeRegions(mul128, [2], [src], dst', g, g)[..g][p] == dst'[..g][p];
  }

  /**
   A boundary inside a whole chunk breaks the result: the first symbol of that chunk is
   multiplied as a symbol although it holds the low bytes of two.
   */
  lemma MisalignedDiffers(mul128: seq<Lut>, w: nat, g: nat)
    requires IsMul128(mul128) && g > 0 && !AlignedRegions(w, g)
    ensures var src := Spike(w, 16 * (g / 16));
            NativeRegions(mul128, [2], PrepareAll([src]), Prepare(ZeroRow(w)), g, 0)
              != Prepare(Accumulated(ZeroRow(w), [2], [src]))
  {
    hide IsMul128, Add, Mul, LoByte, Join, Prepare, NativeRegions;
    var q := g / 16;
    var p := 16 * q;
    var src := Spike(w, p);
    SpikeValues();
    FirstOfChunk(src, q);
    FirstOfChunk(ZeroRow(w), q);
    assert PrepareAll([src]) == [Prepare(src)];
    SplitChunkSymbol(mul128, Prepare(ZeroRow(w)), Prepare(src), g, p);
    SingleSource(mul128, 2, ZeroRow(w), src);
    AddZero(0x100);
    AddZero(0);
    FirstOfChunk(MulAdd(ZeroRow(w), src, 2), q);
  }

  /**
   The region loop over prepared rows gives the prepared accumulation for all data and
   coefficients exactly when no region boundary splits a whole chunk.
   */
  lemma AlignmentMatters(mul128: seq<Lut>, w: nat, g: nat)
    requires IsMul128(mul128) && g > 0
    ensures AlignedRegions(w, g) <==>
            forall coeffs: Row, sources: Matrix, dst: Row :: |dst| == w && IsMatrix(sources, |coeffs|, w) ==>
              NativeRegions(mul128, coeffs, PrepareAll(sources), Prepare(dst), g, 0)
                == Prepare(Accumulated(dst, coeffs, sources))
  {
    hide IsMul128, Prepare, NativeRegions, Accumulated, PrepareAll;
    if AlignedRegions(w, g) {
      forall coeffs: Row, sources: Matrix, dst: Row | |dst| == w && IsMatrix(sources, |coeffs|, w)
        ensures NativeRegions(mul128, coeffs, PrepareAll(sources), Prepare(dst), g, 0)
                == Prepare(Accumulated(dst, coeffs, sources))
      {
        NativeRegionsAligned(mul128, coeffs, sources, dst, g, 0);
        assert dst[..0] + Accumulated(dst, coeffs, sources)[0..] == Accumulated(dst, coeffs, sources);
      }
    } else {
      MisalignedDiffers(mul128, w, g);
      assert IsMatrix([Spike(w, 16 * (g / 16))], |[2 as Symbol]|, w);
    }
  }
}
