/**
 Reconstruction of one chunk of every missing block (`reconstruct_streaming_chunk`,
 src/par2_rs.rs).  Blocks are read through a function that may fail; recovery block i has
 index dataBlocks + i.
 */
module ChunkReconstruction {
  import opened Options
  import opened GaloisField
  import opened GaloisTables
  import opened LinearAlgebra
  import opened Elimination
  import opened Scalar
  import opened Bytes
  import opened NibbleTables
  import opened Shuffle2x
  import opened Regions
  import opened NativeLoops
  import opened Encoding
  import opened Reconstruction

  /** Sources are accumulated so many at a time. */
  const SOURCES_PER_BATCH: nat := 8

  /** The chunk of a block, by index; None when reading fails. */
  type Reader = nat -> Option<seq<Byte>>

  ghost predicate ReadsChunks(read: Reader, chunkSize: nat) {
    forall b: nat :: read(b).Some? ==> |read(b).value| == chunkSize
  }

  datatype Restored = Restored(index: nat, data: seq<Byte>)

  // ----- what a chunk comes out as

  /** The symbols of a block's chunk; zeros stand for a block that is never needed. */
  function ChunkRow(read: Reader, b: nat, w: nat): (r: Row)
    ensures |r| == w
  {
    if read(b).Some? && |read(b).value| / 2 == w then ToSymbols(read(b).value) else ZeroRow(w)
  }

  function ChunkRows(read: Reader, indices: seq<nat>, w: nat): (r: Matrix)
    ensures IsMatrix(r, |indices|, w)
  {
    seq(|indices|, i requires 0 <= i < |indices| => ChunkRow(read, indices[i], w))
  }

  /** Row p of the sums: the recovery chunk placed there plus the multiples of the data chunks. */
  function Sums(order: seq<nat>, coeffs: Matrix, recovery: Matrix, data: Matrix, w: nat): (r: Matrix)
    requires |order| == |recovery| && forall i :: 0 <= i < |order| ==> order[i] < |recovery|
    requires IsMatrix(recovery, |order|, w) && IsMatrix(data, |data|, w) && IsMatrix(coeffs, |order|, |data|)
    ensures IsMatrix(r, |order|, w)
  {
    seq(|order|, p requires 0 <= p < |order| => Accumulated(Place(order, recovery)[p], coeffs[p], data))
  }

  ghost function RestoredRows(tr: ReconstructionTransform, recovery: Matrix, data: Matrix, w: nat): (r: Matrix)
    requires WellFormed(tr.record, |recovery|) && IsMatrix(recovery, |recovery|, w)
    requires IsMatrix(data, |data|, w) && IsMatrix(tr.coeffs, |recovery|, |data|)
    ensures IsMatrix(r, |recovery|, w)
  {
    Replay(|recovery|, tr.record.scale, tr.record.elim, Sums(tr.record.order, tr.coeffs, recovery, data, w), w)
  }

  /** Some row uses data column j. */
  predicate Used(coeffs: Matrix, j: nat)
    requires forall p :: 0 <= p < |coeffs| ==> j < |coeffs[p]|
  {
    exists p :: 0 <= p < |coeffs| && coeffs[p][j] != 0
  }

  /** used_data_cols: the columns below n that some row uses. */
  function UsedColumns(coeffs: Matrix, n: nat): (r: seq<nat>)
    requires forall p :: 0 <= p < |coeffs| ==> n <= |coeffs[p]|
    ensures forall i :: 0 <= i < |r| ==> r[i] < n && Used(coeffs, r[i])
    ensures forall j :: 0 <= j < n && Used(coeffs, j) ==> j in r
  {
    if n == 0 then []
    else UsedColumns(coeffs, n - 1) + if Used(coeffs, n - 1) then [n - 1] else []
  }

  /** Every block that is needed can be read. */
  ghost predicate AllReadable(tr: ReconstructionTransform, present: seq<nat>, presentRecovery: seq<nat>, m: nat,
                              read: Reader)
    requires m <= |presentRecovery| && IsMatrix(tr.coeffs, m, |present|)
  {
    && (forall i :: 0 <= i < m ==> read(presentRecovery[i]).Some?)
    && (forall j :: 0 <= j < |present| && Used(tr.coeffs, j) ==> read(present[j]).Some?)
  }

  function Outputs(missing: seq<nat>, rows: Matrix): (r: seq<Restored>)
    requires |rows| == |missing|
    ensures |r| == |missing|
  {
    seq(|missing|, i requires 0 <= i < |missing| => Restored(missing[i], ToBytes(rows[i])))
  }

  ghost function ChunkResult(tr: ReconstructionTransform, missing: seq<nat>, present: seq<nat>,
                             presentRecovery: seq<nat>, read: Reader, chunkSize: nat): Result<seq<Restored>>
    requires WellFormed(tr.record, |missing|) && IsMatrix(tr.coeffs, |missing|, |present|)
  {
    var m := |missing|;
    if m == 0 then Ok([])
    else if |presentRecovery| < m then Err(TooFewRecoveryBlocks)
    else if !AllReadable(tr, present, presentRecovery, m, read) then Err(ReadFailed)
    else
      var w := chunkSize / 2;
      Ok(Outputs(missing, RestoredRows(tr, ChunkRows(read, presentRecovery[..m], w), ChunkRows(read, present, w), w)))
  }

  // ----- skipping unused columns and batching do not change the sums

  lemma AccumulatedSplit(dst: Row, c: Row, d: Row, rows: Matrix, more: Matrix)
    requires IsMatrix(rows, |c|, |dst|) && IsMatrix(more, |d|, |dst|)
    ensures Accumulated(dst, c + d, rows + more) == Accumulated(Accumulated(dst, c, rows), d, more)
  {
    hide AddRow, Combine;
    var w := |dst|;
    CombineSplit(c, d, rows, more, w);
    AddRowAssoc(dst, Combine(c, rows, w), Combine(d, more, w));
  }

  lemma AccumulatedZero(dst: Row, src: Row)
    requires |src| == |dst|
    ensures Accumulated(dst, [0], [src]) == dst
  {
    hide Accumulated, MulAdd;
    var zero: Row := [0];
    assert zero[..0] == [] && [src][..0] == [] && zero[..1] == zero && [src][..1] == [src];
    AccumulatedNone(dst);
    AccumulatedNext(dst, zero, [src], 0);
    MulAddZero(dst, src);
  }

  lemma {:induction false} UsedColumnsSuffice(coeffs: Matrix, p: nat, data: Matrix, dst: Row, n: nat)
    requires p < |coeffs| && IsMatrix(coeffs, |coeffs|, |data|) && IsMatrix(data, |data|, |dst|) && n <= |data|
    ensures Accumulated(dst, coeffs[p][..n], data[..n])
         == Accumulated(dst, Select(coeffs[p], UsedColumns(coeffs, n)), Select(data, UsedColumns(coeffs, n)))
    decreases n
  {
    hide Accumulated;
    if n == 0 {
      assert Select(coeffs[p], []) == coeffs[p][..0] && Select(data, []) == data[..0];
      return;
    }
    var k := n - 1;
    var before := UsedColumns(coeffs, k);
    UsedColumnsSuffice(coeffs, p, data, dst, k);
    assert coeffs[p][..n] == coeffs[p][..k] + [coeffs[p][k]] && data[..n] == data[..k] + [data[k]];
    AccumulatedSplit(dst, coeffs[p][..k], [coeffs[p][k]], data[..k], [data[k]]);
    if Used(coeffs, k) {
      assert Select(coeffs[p], before + [k]) == Select(coeffs[p], before) + [coeffs[p][k]];
      assert Select(data, before + [k]) == Select(data, before) + [data[k]];
      AccumulatedSplit(dst, Select(coeffs[p], before), [coeffs[p][k]], Select(data, before), [data[k]]);
    } else {
      assert coeffs[p][k] == 0 && UsedColumns(coeffs, n) == before;
      AccumulatedZero(Accumulated(dst, coeffs[p][..k], data[..k]), data[k]);
    }
  }

  // ----- the layouts

  function Lay(shuffle: bool, row: Row): (r: Row)
    ensures |r| == |row|
  {
    if shuffle then Prepare(row) else row
  }

  /** The row that a laid-out buffer stands for. */
  function Unlay(shuffle: bool, row: Row): (r: Row)
    ensures |r| == |row|
  {
    if shuffle then Finish(row) else row
  }

  lemma LayUnlay(shuffle: bool, row: Row)
    ensures Lay(shuffle, Unlay(shuffle, row)) == row && Unlay(shuffle, Lay(shuffle, row)) == row
  {
    hide Prepare, Finish;
    PrepareFinish(row);
    FinishPrepare(row);
  }

  predicate LayoutClean(shuffle: bool, w: nat, g: nat) {
    shuffle ==> AlignedRegions(w, g)
  }

  method LayRow(shuffle: bool, row: Row) returns (r: Row)
    ensures r == Lay(shuffle, row)
  {
    hide Prepare;
    r := row;
    if shuffle {
      var buffer := new Symbol[|row|](i requires 0 <= i < |row| => row[i]);
      assert buffer[..] == row;
      PrepareShuffle2x(buffer);
      r := buffer[..];
    }
  }

  method UnlayRow(shuffle: bool, row: Row) returns (r: Row)
    ensures |r| == |row|
    ensures forall plain :: row == Lay(shuffle, plain) ==> r == plain
  {
    hide Prepare, Finish;
    r := row;
    if shuffle {
      var buffer := new Symbol[|row|](i requires 0 <= i < |row| => row[i]);
      assert buffer[..] == row;
      FinishShuffle2x(buffer);
      r := buffer[..];
    }
    forall plain | row == Lay(shuffle, plain)
      ensures r == plain
    {
      FinishPrepare(plain);
    }
  }

  /** One batch of sources into all accumulators, in either layout. */
  method AccumulateBatch(t: Tables, mul128: seq<Lut>, shuffle: bool, acc: Matrix, sources: Matrix, coeffs: Matrix,
                         w: nat, g: nat, ghost plainAcc: Matrix, ghost plainSources: Matrix)
    returns (r: Matrix)
    requires t.Valid() && IsMul128(mul128) && g > 0
    requires IsMatrix(acc, |acc|, w) && IsMatrix(sources, |sources|, w) && IsMatrix(coeffs, |acc|, |sources|)
    requires IsMatrix(plainAcc, |acc|, w) && IsMatrix(plainSources, |sources|, w)
    requires forall i :: 0 <= i < |sources| ==> sources[i] == Lay(shuffle, plainSources[i])
    ensures IsMatrix(r, |acc|, w)
    ensures forall d :: 0 <= d < |acc| && LayoutClean(shuffle, w, g) && acc[d] == Lay(shuffle, plainAcc[d]) ==>
              r[d] == Lay(shuffle, Accumulated(plainAcc[d], coeffs[d], plainSources))
  {
    hide IsMul128, Prepare, Accumulated, NativeRegions, AlignedRegions, Tables.Valid;
    if |sources| == 0 {
      forall d | 0 <= d < |acc|
        ensures Accumulated(plainAcc[d], coeffs[d], plainSources) == plainAcc[d]
      {
        AccumulatedNone(plainAcc[d]);
        assert coeffs[d] == [] && plainSources == [];
      }
      return acc;
    }
    if shuffle {
      r := MuladdBlockRegionsShuffle2x(t, mul128, acc, sources, coeffs, w, g);
      assert sources == PrepareAll(plainSources);
      forall d | 0 <= d < |acc| && AlignedRegions(w, g)
        ensures NativeRegions(mul128, coeffs[d], PrepareAll(plainSources), Prepare(plainAcc[d]), g, 0)
             == Prepare(Accumulated(plainAcc[d], coeffs[d], plainSources))
      {
        NativeWhole(mul128, coeffs[d], plainSources, plainAcc[d], g);
      }
    } else {
      r := MuladdBlockRegions(t, acc, sources, coeffs, w, g);
      assert sources == plainSources;
    }
  }

  lemma NativeWhole(mul128: seq<Lut>, coeffs: Row, sources: Matrix, dst: Row, g: nat)
    requires IsMul128(mul128) && IsMatrix(sources, |coeffs|, |dst|) && g > 0 && AlignedRegions(|dst|, g)
    ensures NativeRegions(mul128, coeffs, PrepareAll(sources), Prepare(dst), g, 0)
            == Prepare(Accumulated(dst, coeffs, sources))
  {
    hide IsMul128, Prepare, Accumulated, NativeRegions, AlignedRegions;
    NativeRegionsAligned(mul128, coeffs, sources, dst, g, 0);
    assert dst[..0] + Accumulated(dst, coeffs, sources)[0..] == Accumulated(dst, coeffs, sources);
  }

  // ----- the chunk

  method SymbolsOf(bytes: seq<Byte>, w: nat) returns (r: Row)
    requires |bytes| == 2 * w
    ensures |r| == w && r == ToSymbols(bytes)
  {
    hide ToSymbols;
    var buffer := new Symbol[w](_ => 0);
    BytesToU16(bytes, buffer);
    r := buffer[..];
  }

  method BytesOf(row: Row) returns (r: seq<Byte>)
    ensures r == ToBytes(row)
  {
    hide ToBytes;
    var buffer := new Byte[2 * |row|](_ => 0);
    U16ToBytes(row, buffer);
    r := buffer[..];
  }

  /** The place that original row i was moved to. */
  function PlaceOf(order: seq<nat>, i: nat): (p: nat)
    requires i in order
    ensures p < |order| && order[p] == i
    decreases |order|
  {
    if order[0] == i then 0 else 1 + PlaceOf(order[1..], i)
  }

  /** Reads the recovery chunks into their places. */
  method ReadRecovery(order: seq<nat>, presentRecovery: seq<nat>, read: Reader, w: nat) returns (r: Option<Matrix>)
    requires |order| <= |presentRecovery| && ReadsChunks(read, 2 * w)
    requires forall i :: 0 <= i < |order| ==> order[i] < |order|
    requires forall i, j :: 0 <= i < j < |order| ==> order[i] != order[j]
    requires forall i: nat :: i < |order| ==> i in order
    ensures r.Some? <==> forall i :: 0 <= i < |order| ==> read(presentRecovery[i]).Some?
    ensures r.Some? ==> IsMatrix(r.value, |order|, w)
                        && r.value == Place(order, ChunkRows(read, presentRecovery[..|order|], w))
  {
    hide ToSymbols;
    var m := |order|;
    var acc: Matrix := seq(m, _ => ZeroRow(w));
    for i := 0 to m
      invariant IsMatrix(acc, m, w)
      invariant forall k :: 0 <= k < i ==> read(presentRecovery[k]).Some?
      invariant forall p :: 0 <= p < m && order[p] < i ==> acc[p] == ChunkRow(read, presentRecovery[order[p]], w)
    {
      var chunk := read(presentRecovery[i]);
      if chunk.None? {
        return None;
      }
      var row := SymbolsOf(chunk.value, w);
      acc := acc[PlaceOf(order, i) := row];
    }
    return Some(acc);
  }

  /** Reads one batch of data chunks. */
  method ReadBatch(indices: seq<nat>, read: Reader, shuffle: bool, w: nat) returns (r: Option<Matrix>)
    requires ReadsChunks(read, 2 * w)
    ensures r.Some? <==> forall i :: 0 <= i < |indices| ==> read(indices[i]).Some?
    ensures r.Some? ==> IsMatrix(r.value, |indices|, w)
                        && forall i :: 0 <= i < |indices| ==> r.value[i] == Lay(shuffle, ChunkRow(read, indices[i], w))
  {
    hide ToSymbols, Lay;
    var rows: Matrix := [];
    for i := 0 to |indices|
      invariant IsMatrix(rows, i, w)
      invariant forall k :: 0 <= k < i ==> read(indices[k]).Some?
                                           && rows[k] == Lay(shuffle, ChunkRow(read, indices[k], w))
    {
      var chunk := read(indices[i]);
      if chunk.None? {
        return None;
      }
      var row := SymbolsOf(chunk.value, w);
      row := LayRow(shuffle, row);
      rows := rows + [row];
    }
    return Some(rows);
  }

  /** All accumulators laid out. */
  method LayAll(shuffle: bool, rows: Matrix, w: nat) returns (r: Matrix)
    requires IsMatrix(rows, |rows|, w)
    ensures IsMatrix(r, |rows|, w) && forall p :: 0 <= p < |rows| ==> r[p] == Lay(shuffle, rows[p])
  {
    hide Lay;
    r := [];
    for p := 0 to |rows|
      invariant IsMatrix(r, p, w) && forall q :: 0 <= q < p ==> r[q] == Lay(shuffle, rows[q])
    {
      var row := LayRow(shuffle, rows[p]);
      r := r + [row];
    }
  }

  method UnlayAll(shuffle: bool, rows: Matrix, w: nat, ghost plain: Matrix, ghost clean: bool) returns (r: Matrix)
    requires IsMatrix(rows, |rows|, w) && IsMatrix(plain, |rows|, w)
    requires clean ==> forall p :: 0 <= p < |rows| ==> rows[p] == Lay(shuffle, plain[p])
    ensures IsMatrix(r, |rows|, w) && (clean ==> r == plain)
  {
    hide Lay;
    r := [];
    for p := 0 to |rows|
      invariant IsMatrix(r, p, w) && (clean ==> forall q :: 0 <= q < p ==> r[q] == plain[q])
    {
      var row := UnlayRow(shuffle, rows[p]);
      r := r + [row];
    }
  }

  /** The columns of each coefficient row for one batch. */
  function BatchCoeffs(coeffs: Matrix, columns: seq<nat>): (r: Matrix)
    requires forall p, i :: 0 <= p < |coeffs| && 0 <= i < |columns| ==> columns[i] < |coeffs[p]|
    ensures IsMatrix(r, |coeffs|, |columns|)
    ensures forall p :: 0 <= p < |coeffs| ==> r[p] == Select(coeffs[p], columns)
  {
    seq(|coeffs|, p requires 0 <= p < |coeffs| => Select(coeffs[p], columns))
  }

  /** The sums over the first n used columns. */
  function PartialSums(placed: Matrix, coeffs: Matrix, data: Matrix, columns: seq<nat>, w: nat): (r: Matrix)
    requires IsMatrix(placed, |placed|, w) && IsMatrix(data, |data|, w) && IsMatrix(coeffs, |placed|, |data|)
    requires forall i :: 0 <= i < |columns| ==> columns[i] < |data|
    ensures IsMatrix(r, |placed|, w)
  {
    seq(|placed|, p requires 0 <= p < |placed| =>
      Accumulated(placed[p], Select(coeffs[p], columns), Select(data, columns)))
  }

  lemma PartialSumsStart(placed: Matrix, coeffs: Matrix, data: Matrix, w: nat)
    requires IsMatrix(placed, |placed|, w) && IsMatrix(data, |data|, w) && IsMatrix(coeffs, |placed|, |data|)
    ensures PartialSums(placed, coeffs, data, [], w) == placed
  {
    hide Accumulated;
    forall p | 0 <= p < |placed|
      ensures Accumulated(placed[p], Select(coeffs[p], []), Select(data, [])) == placed[p]
    {
      AccumulatedNone(placed[p]);
      assert Select(coeffs[p], []) == [] && Select(data, []) == [];
    }
  }

  lemma PartialSumsNext(placed: Matrix, coeffs: Matrix, data: Matrix, columns: seq<nat>, more: seq<nat>, w: nat, p: nat)
    requires IsMatrix(placed, |placed|, w) && IsMatrix(data, |data|, w) && IsMatrix(coeffs, |placed|, |data|)
    requires forall i :: 0 <= i < |columns| ==> columns[i] < |data|
    requires forall i :: 0 <= i < |more| ==> more[i] < |data|
    requires p < |placed|
    ensures PartialSums(placed, coeffs, data, columns + more, w)[p]
         == Accumulated(PartialSums(placed, coeffs, data, columns, w)[p], Select(coeffs[p], more), Select(data, more))
  {
    hide Accumulated;
    assert Select(coeffs[p], columns + more) == Select(coeffs[p], columns) + Select(coeffs[p], more);
    assert Select(data, columns + more) == Select(data, columns) + Select(data, more);
    AccumulatedSplit(placed[p], Select(coeffs[p], columns), Select(coeffs[p], more), Select(data, columns),
                     Select(data, more));
  }

  lemma PartialSumsAll(order: seq<nat>, coeffs: Matrix, recovery: Matrix, data: Matrix, w: nat)
    requires |order| == |recovery| && forall i :: 0 <= i < |order| ==> order[i] < |recovery|
    requires IsMatrix(recovery, |order|, w) && IsMatrix(data, |data|, w) && IsMatrix(coeffs, |order|, |data|)
    ensures PartialSums(Place(order, recovery), coeffs, data, UsedColumns(coeffs, |data|), w)
            == Sums(order, coeffs, recovery, data, w)
  {
    hide Accumulated, UsedColumns;
    forall p | 0 <= p < |order|
      ensures Accumulated(Place(order, recovery)[p], Select(coeffs[p], UsedColumns(coeffs, |data|)),
                          Select(data, UsedColumns(coeffs, |data|)))
           == Accumulated(Place(order, recovery)[p], coeffs[p], data)
    {
      UsedColumnsSuffice(coeffs, p, data, Place(order, recovery)[p], |data|);
      assert coeffs[p][..|data|] == coeffs[p] && data[..|data|] == data;
    }
  }

  ghost predicate Laid(shuffle: bool, rows: Matrix, plain: Matrix) {
    |rows| == |plain| && forall p :: 0 <= p < |rows| ==> rows[p] == Lay(shuffle, plain[p])
  }

  /** One batch of used columns into the accumulators. */
  method AddBatch(t: Tables, mul128: seq<Lut>, shuffle: bool, acc: Matrix, sources: Matrix, coeffs: Matrix,
                  batch: seq<nat>, w: nat, g: nat, ghost placed: Matrix, ghost data: Matrix,
                  ghost before: seq<nat>)
    returns (r: Matrix)
    requires t.Valid() && IsMul128(mul128) && g > 0
    requires IsMatrix(acc, |placed|, w) && IsMatrix(placed, |placed|, w) && IsMatrix(data, |data|, w)
    requires IsMatrix(coeffs, |placed|, |data|) && IsMatrix(sources, |batch|, w)
    requires forall i :: 0 <= i < |before| ==> before[i] < |data|
    requires forall i :: 0 <= i < |batch| ==> batch[i] < |data| && sources[i] == Lay(shuffle, data[batch[i]])
    ensures IsMatrix(r, |placed|, w)
    ensures LayoutClean(shuffle, w, g) && Laid(shuffle, acc, PartialSums(placed, coeffs, data, before, w)) ==>
              Laid(shuffle, r, PartialSums(placed, coeffs, data, before + batch, w))
  {
    hide IsMul128, Lay, LayoutClean, PartialSums, Accumulated, Tables.Valid;
    forall p | 0 <= p < |placed|
      ensures PartialSums(placed, coeffs, data, before + batch, w)[p]
           == Accumulated(PartialSums(placed, coeffs, data, before, w)[p], Select(coeffs[p], batch),
                          Select(data, batch))
    {
      PartialSumsNext(placed, coeffs, data, before, batch, w, p);
    }
    r := AccumulateBatch(t, mul128, shuffle, acc, sources, BatchCoeffs(coeffs, batch), w, g,
                         PartialSums(placed, coeffs, data, before, w), Select(data, batch));
  }

  /** Phase 2: streams the data chunks in batches into the laid-out accumulators. */
  method StreamData(t: Tables, mul128: seq<Lut>, shuffle: bool, placed: Matrix, coeffs: Matrix, present: seq<nat>,
                    read: Reader, w: nat, g: nat) returns (r: Option<Matrix>)
    requires t.Valid() && IsMul128(mul128) && g > 0 && ReadsChunks(read, 2 * w)
    requires IsMatrix(placed, |placed|, w) && IsMatrix(coeffs, |placed|, |present|)
    ensures r.Some? <==> forall j :: 0 <= j < |present| && Used(coeffs, j) ==> read(present[j]).Some?
    ensures r.Some? ==> IsMatrix(r.value, |placed|, w)
    ensures r.Some? && LayoutClean(shuffle, w, g) ==>
              r.value == PartialSums(placed, coeffs, ChunkRows(read, present, w), UsedColumns(coeffs, |present|), w)
  {
    hide IsMul128, Lay, LayoutClean, PartialSums, Accumulated, UsedColumns, Used, ChunkRow, Tables.Valid;
    ghost var data := ChunkRows(read, present, w);
    ghost var clean := LayoutClean(shuffle, w, g);
    PartialSumsStart(placed, coeffs, data, w);
    var acc := LayAll(shuffle, placed, w);
    var columns := UsedColumns(coeffs, |present|);
    assert columns[..0] == [];
    var start := 0;
    while start < |columns|
      invariant start <= |columns| && IsMatrix(acc, |placed|, w)
      invariant forall i :: 0 <= i < start ==> read(present[columns[i]]).Some?
      invariant clean ==> Laid(shuffle, acc, PartialSums(placed, coeffs, data, columns[..start], w))
    {
      var end := Min(start + SOURCES_PER_BATCH, |columns|);
      var batch := columns[start..end];
      var sources := ReadBatch(Select(present, batch), read, shuffle, w);
      assert forall i :: start <= i < end ==> Select(present, batch)[i - start] == present[columns[i]];
      if sources.None? {
        UnreadableColumn(coeffs, present, read, columns, start, end);
        return None;
      }
      assert columns[..end] == columns[..start] + batch;
      acc := AddBatch(t, mul128, shuffle, acc, sources.value, coeffs, batch, w, g, placed, data, columns[..start]);
      start := end;
    }
    assert columns[..|columns|] == columns;
    var sums := UnlayAll(shuffle, acc, w, PartialSums(placed, coeffs, data, columns, w), clean);
    forall j | 0 <= j < |present| && Used(coeffs, j)
      ensures read(present[j]).Some?
    {
      assert j in columns;
    }
    return Some(sums);
  }

  lemma UnreadableColumn(coeffs: Matrix, present: seq<nat>, read: Reader, columns: seq<nat>, start: nat, end: nat)
    requires IsMatrix(coeffs, |coeffs|, |present|) && columns == UsedColumns(coeffs, |present|)
             && start <= end <= |columns|
    requires exists i :: start <= i < end && read(present[columns[i]]).None?
    ensures !forall j :: 0 <= j < |present| && Used(coeffs, j) ==> read(present[j]).Some?
  {
  }

  method ReconstructStreamingChunk(t: Tables, mul128: seq<Lut>, shuffle: bool, regionU16s: nat,
                                   tr: ReconstructionTransform, missing: seq<nat>, present: seq<nat>,
                                   presentRecovery: seq<nat>, read: Reader, chunkSize: nat)
    returns (r: Result<seq<Restored>>)
    requires t.Valid() && IsMul128(mul128) && regionU16s > 0
    requires WellFormed(tr.record, |missing|) && IsMatrix(tr.coeffs, |missing|, |present|)
    requires chunkSize % 2 == 0 && ReadsChunks(read, chunkSize)
    ensures LayoutClean(shuffle, chunkSize / 2, regionU16s) ==>
              r == ChunkResult(tr, missing, present, presentRecovery, read, chunkSize)
    ensures |missing| == 0 ==> r == Ok([])
    ensures |presentRecovery| < |missing| ==> r == Err(TooFewRecoveryBlocks)
    ensures 0 < |missing| <= |presentRecovery| ==>
              && (r.Ok? || r == Err(ReadFailed))
              && (r.Ok? <==>
                    && (forall i :: 0 <= i < |missing| ==> read(presentRecovery[i]).Some?)
                    && (forall j, p :: 0 <= j < |present| && 0 <= p < |missing| && tr.coeffs[p][j] != 0 ==>
                          read(present[j]).Some?))
    ensures r.Ok? ==> |r.value| == |missing| && forall i :: 0 <= i < |missing| ==>
                        r.value[i].index == missing[i] && |r.value[i].data| == chunkSize
  {
    hide IsMul128, LayoutClean, PartialSums, UsedColumns, ChunkRow, Replay, Sums, Place, ToBytes, Tables.Valid;
    var m := |missing|;
    if m == 0 {
      return Ok([]);
    }
    if |presentRecovery| < m {
      return Err(TooFewRecoveryBlocks);
    }
    var w := chunkSize / 2;
    var placed := ReadRecovery(tr.record.order, presentRecovery, read, w);
    if placed.None? {
      return Err(ReadFailed);
    }
    var sums := StreamData(t, mul128, shuffle, placed.value, tr.coeffs, present, read, w, regionU16s);
    if sums.None? {
      return Err(ReadFailed);
    }
    PartialSumsAll(tr.record.order, tr.coeffs, ChunkRows(read, presentRecovery[..m], w), ChunkRows(read, present, w),
                   w);
    var rows := ReplayInPlace(t, tr.record, sums.value, w);
    var outputs: seq<Restored> := [];
    for row := 0 to m
      invariant |outputs| == row && forall i :: 0 <= i < row ==> outputs[i] == Restored(missing[i], ToBytes(rows[i]))
    {
      var bytes := BytesOf(rows[row]);
      outputs := outputs + [Restored(missing[row], bytes)];
    }
    assert outputs == Outputs(missing, rows);
    return Ok(outputs);
  }
}
