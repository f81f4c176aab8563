/**
 The streaming encoder (`StreamingEncoder`, src/par2_rs.rs): blocks are buffered, and a full
 buffer is added to all recovery blocks at once.  Whatever the batch sizes, the layout and
 the order of the blocks, the result is that of plain encoding.
 */
module Streaming {
  import opened Options
  import opened GaloisField
  import opened GaloisTables
  import opened LinearAlgebra
  import opened Vandermonde
  import opened Scalar
  import opened Bytes
  import opened NibbleTables
  import opened Shuffle2x
  import opened Regions
  import opened NativeLoops
  import opened Encoding
  import opened Reconstruction
  import opened ChunkReconstruction
  import opened Erasures

  /** A block handed to the encoder. */
  datatype Submission = Submission(index: nat, row: Row)

  predicate Submissions(subs: seq<Submission>, n: nat, w: nat) {
    forall i :: 0 <= i < |subs| ==> subs[i].index < n && |subs[i].row| == w
  }

  /** The sum of constant^e times the block, over the blocks submitted. */
  function SubmittedSum(constants: Row, subs: seq<Submission>, e: nat, w: nat): (r: Row)
    requires Submissions(subs, |constants|, w)
    ensures |r| == w
  {
    if subs == [] then ZeroRow(w)
    else
      var n := |subs| - 1;
      MulAdd(SubmittedSum(constants, subs[..n], e, w), subs[n].row, Pow(constants[subs[n].index], e))
  }

  function Clamp(x: nat, lo: nat, hi: nat): (r: nat)
    requires lo <= hi
    ensures lo <= r <= hi && (lo <= x <= hi ==> r == x)
  {
    if x < lo then lo else if x > hi then hi else x
  }

  function OptimalDataBatchSize(recoveryBlocks: nat, numCpus: nat): nat {
    var wanted :=
      if recoveryBlocks >= 100 then numCpus * 8 else if recoveryBlocks >= 50 then numCpus * 4 else numCpus * 2;
    Clamp(wanted, 16, 128)
  }

  function OptimalRecoveryBatchSize(recoveryBlocks: nat, numCpus: nat): nat
    requires numCpus > 0
  {
    Clamp(if recoveryBlocks / numCpus > 1 then recoveryBlocks / numCpus else 1, 4, 8)
  }

  /** What create_streaming_encoder refuses. */
  function CreateError(blockSize: nat, chunkSize: nat): Option<Error> {
    if blockSize % 2 != 0 then Some(OddBlockSize)
    else if chunkSize % 2 != 0 then Some(OddChunkSize)
    else if chunkSize > blockSize then Some(ChunkTooLarge)
    else None
  }

  /** One block into one recovery block, in either layout; a zero coefficient is skipped. */
  method MuladdLaid(t: Tables, mul128: seq<Lut>, shuffle: bool, dst: Row, src: Row, c: Symbol) returns (r: Row)
    requires t.Valid() && IsMul128(mul128) && |dst| == |src|
    ensures |r| == |dst|
    ensures forall d: Row, s: Row :: dst == Lay(shuffle, d) && src == Lay(shuffle, s) ==>
              r == Lay(shuffle, MulAdd(d, s, c))
  {
    hide IsMul128, MulAdd, Prepare, MuladdNative, MuladdNativeShorter, LutShape, Tables.Valid;
    if c == 0 {
      forall d: Row, s: Row | true
        ensures MulAdd(d, s, 0) == d
      {
        MulAddZero(d, s);
      }
      return dst;
    }
    if !shuffle {
      r := MulAddRow(t, dst, src, c);
      MulAddLength(dst, src, c);
      return r;
    }
    var buffer := new Symbol[|dst|](i requires 0 <= i < |dst| => dst[i]);
    var source := new Symbol[|src|](i requires 0 <= i < |src| => src[i]);
    assert buffer[..] == dst && source[..] == src;
    MuladdLoops(t, LutOf(t, mul128, c), c, buffer, source);
    r := buffer[..];
    forall d: Row, s: Row | dst == Prepare(d) && src == Prepare(s)
      ensures r == Prepare(MulAdd(d, s, c))
    {
      FactorLut(mul128, c);
      NativeSameLength(LutOf(t, mul128, c), c, dst, src);
      MuladdPrepared(LutOf(t, mul128, c), c, d, s);
    }
  }

  lemma MulAddLength(dst: Row, src: Row, c: Symbol)
    ensures |MulAdd(dst, src, c)| == |dst|
  {
  }

  // ----- what a block becomes in its buffer

  /** The buffer after a block has been written over its start. */
  function Buffered(shuffle: bool, block: Row, buffer: Row): (r: Row)
    requires |block| <= |buffer|
    ensures |r| == |buffer|
  {
    Lay(shuffle, block) + buffer[|block|..]
  }

  /** The row that the buffer then stands for. */
  function Effective(shuffle: bool, block: Row, buffer: Row): (r: Row)
    requires |block| <= |buffer|
    ensures |r| == |buffer|
  {
    Unlay(shuffle, Buffered(shuffle, block, buffer))
  }

  lemma WholeBlock(shuffle: bool, block: Row, buffer: Row)
    requires |block| == |buffer|
    ensures Effective(shuffle, block, buffer) == block
  {
    hide Lay, Unlay;
    LayUnlay(shuffle, block);
    assert Buffered(shuffle, block, buffer) == Lay(shuffle, block);
  }

  class StreamingEncoder {
    const t: Tables
    const mul128: seq<Lut>
    const dataBlocks: nat
    const blockSize: nat
    const symbolsPerBlock: nat
    const coeffMatrix: Matrix
    const useShuffle2x: bool
    const dataBatchSize: nat
    const recoveryBatchSize: nat
    var recoveryData: Matrix
    var batchBuffers: Matrix
    var batchIndices: seq<nat>

    ghost const constants: Row
    /** Everything submitted so far, in order, as it stands in the buffer. */
    ghost var submitted: seq<Submission>

    ghost predicate Shape()
      reads this
    {
      && t.Valid() && IsMul128(mul128)
      && |constants| == dataBlocks
      && IsCoeffMatrix(coeffMatrix, constants, |recoveryData|)
      && symbolsPerBlock == blockSize / 2
      && dataBatchSize > 0 && recoveryBatchSize > 0
      && IsMatrix(recoveryData, |recoveryData|, symbolsPerBlock)
      && IsMatrix(batchBuffers, dataBatchSize, symbolsPerBlock)
      && |batchIndices| <= dataBatchSize && |batchIndices| <= |submitted|
      && (forall i :: 0 <= i < |batchIndices| ==> batchIndices[i] < dataBlocks)
      && Submissions(submitted, dataBlocks, symbolsPerBlock)
    }

    /** How many submitted blocks have been added to the recovery blocks. */
    ghost function Flushed(): nat
      requires Shape()
      reads this
    {
      |submitted| - |batchIndices|
    }

    ghost predicate BufferedAt(i: nat)
      requires Shape() && i < |batchIndices|
      reads this
    {
      && batchIndices[i] == submitted[Flushed() + i].index
      && batchBuffers[i] == Lay(useShuffle2x, submitted[Flushed() + i].row)
    }

    /** Recovery block e holds the sum over the flushed blocks, and the buffer holds the others. */
    ghost predicate Consistent()
      reads this
    {
      && Shape()
      && (forall e: nat :: e < |recoveryData| ==>
            recoveryData[e] == Lay(useShuffle2x, SubmittedSum(constants, submitted[..Flushed()], e, symbolsPerBlock)))
      && (forall i: nat :: i < |batchIndices| ==> BufferedAt(i))
    }

    ghost predicate Valid()
      reads this
    {
      Consistent() && |batchIndices| < dataBatchSize
    }

    constructor (t: Tables, mul128: seq<Lut>, constants: Row, recoveryBlocks: nat, blockSize: nat, chunkSize: nat,
                 shuffle: bool, numCpus: nat)
      requires t.Valid() && IsMul128(mul128) && numCpus > 0
      requires CreateError(blockSize, chunkSize) == None && chunkSize > 0
      ensures Valid() && submitted == [] && batchIndices == []
      ensures this.constants == constants && this.blockSize == blockSize && |recoveryData| == recoveryBlocks
      ensures useShuffle2x == shuffle && dataBatchSize == OptimalDataBatchSize(recoveryBlocks, numCpus)
      ensures batchBuffers == seq(dataBatchSize, _ => ZeroRow(symbolsPerBlock))
    {
      hide IsMul128, Tables.Valid, Pow, Prepare;
      this.t, this.mul128, this.constants, this.dataBlocks := t, mul128, constants, |constants|;
      this.blockSize, this.symbolsPerBlock, this.useShuffle2x := blockSize, blockSize / 2, shuffle;
      this.dataBatchSize := OptimalDataBatchSize(recoveryBlocks, numCpus);
      this.recoveryBatchSize := OptimalRecoveryBatchSize(recoveryBlocks, numCpus);
      var coeffs := CoeffMatrix(t, constants, recoveryBlocks);
      this.coeffMatrix := coeffs;
      var zeros: Matrix := seq(recoveryBlocks, _ => ZeroRow(blockSize / 2));
      var laid := LayAll(shuffle, zeros, blockSize / 2);
      this.recoveryData := laid;
      this.batchBuffers := seq(OptimalDataBatchSize(recoveryBlocks, numCpus), _ => ZeroRow(blockSize / 2));
      this.batchIndices := [];
      this.submitted := [];
    }

    /** One buffered block into the recovery blocks from lo up to hi. */
    method AddSlot(data: Matrix, slot: nat, lo: nat, hi: nat) returns (r: Matrix)
      requires Shape() && slot < |batchIndices| && lo <= hi <= |recoveryData|
      requires IsMatrix(data, |recoveryData|, symbolsPerBlock)
      ensures IsMatrix(r, |recoveryData|, symbolsPerBlock)
      ensures forall e :: 0 <= e < |data| && !(lo <= e < hi) ==> r[e] == data[e]
      ensures forall e: nat, d: Row, s: Row :: lo <= e < hi && data[e] == Lay(useShuffle2x, d)
                                               && batchBuffers[slot] == Lay(useShuffle2x, s) ==>
                r[e] == Lay(useShuffle2x, MulAdd(d, s, Pow(constants[batchIndices[slot]], e)))
    {
      hide IsMul128, MulAdd, Lay, Pow, Tables.Valid;
      r := data;
      for e := lo to hi
        invariant IsMatrix(r, |data|, symbolsPerBlock)
        invariant forall i :: 0 <= i < |data| && !(lo <= i < e) ==> r[i] == data[i]
        invariant forall i: nat, d: Row, s: Row ::
                  lo <= i < e && data[i] == Lay(useShuffle2x, d) && batchBuffers[slot] == Lay(useShuffle2x, s) ==>
                    r[i] == Lay(useShuffle2x, MulAdd(d, s, Pow(constants[batchIndices[slot]], i)))
      {
        var row := MuladdLaid(t, mul128, useShuffle2x, r[e], batchBuffers[slot], coeffMatrix[batchIndices[slot]][e]);
        r := r[e := row];
      }
    }

    /** The sum for recovery block e over the flushed blocks and the first k buffered ones. */
    ghost function SumTo(k: nat, e: nat): (r: Row)
      requires Shape() && k <= |batchIndices|
      reads this
    {
      SubmittedSum(constants, submitted[..Flushed() + k], e, symbolsPerBlock)
    }

    lemma SumNext(k: nat, e: nat)
      requires Shape() && k < |batchIndices|
      ensures SumTo(k + 1, e) == MulAdd(SumTo(k, e), submitted[Flushed() + k].row,
                                        Pow(constants[submitted[Flushed() + k].index], e))
    {
      hide MulAdd, Pow;
      var j := Flushed() + k;
      assert submitted[..j + 1][..j] == submitted[..j];
    }

    /** The next buffered block into one batch of recovery blocks. */
    method AddNextSlot(data: Matrix, slot: nat, lo: nat, hi: nat) returns (r: Matrix)
      requires Consistent() && slot < |batchIndices| && lo <= hi <= |recoveryData|
      requires IsMatrix(data, |recoveryData|, symbolsPerBlock)
      ensures IsMatrix(r, |recoveryData|, symbolsPerBlock)
      ensures forall e :: 0 <= e < |data| && !(lo <= e < hi) ==> r[e] == data[e]
      ensures forall e: nat :: lo <= e < hi && data[e] == Lay(useShuffle2x, SumTo(slot, e)) ==>
                r[e] == Lay(useShuffle2x, SumTo(slot + 1, e))
    {
      hide IsMul128, MulAdd, Lay, Pow, SumTo, SubmittedSum, Tables.Valid;
      r := AddSlot(data, slot, lo, hi);
      assert BufferedAt(slot);
      forall e: nat | lo <= e < hi
        ensures SumTo(slot + 1, e) == MulAdd(SumTo(slot, e), submitted[Flushed() + slot].row,
                                             Pow(constants[batchIndices[slot]], e))
      {
        SumNext(slot, e);
      }
    }

    /** The loops of flush_batch: recovery blocks are taken in batches, and each batch takes all buffered blocks. */
    method AddBuffered() returns (data: Matrix)
      requires Consistent()
      ensures IsMatrix(data, |recoveryData|, symbolsPerBlock)
      ensures forall e: nat :: e < |data| ==>
                data[e] == Lay(useShuffle2x, SubmittedSum(constants, submitted, e, symbolsPerBlock))
    {
      hide IsMul128, Lay, SumTo, SubmittedSum, Tables.Valid, IsCoeffMatrix;
      data := recoveryData;
      var batchStart := 0;
      FlushedSums();
      AllSums();
      while batchStart < |data|
        invariant batchStart <= |data| && IsMatrix(data, |recoveryData|, symbolsPerBlock)
        invariant forall e: nat :: e < |data| ==>
                    data[e] == Lay(useShuffle2x, SumTo(if e < batchStart then |batchIndices| else 0, e))
      {
        var batchEnd := Min(batchStart + recoveryBatchSize, |data|);
        for slot := 0 to |batchIndices|
          invariant IsMatrix(data, |recoveryData|, symbolsPerBlock)
          invariant forall e: nat :: e < |data| ==>
                      var added := if e < batchStart then |batchIndices| else if e < batchEnd then slot else 0;
                      data[e] == Lay(useShuffle2x, SumTo(added, e))
        {
          data := AddNextSlot(data, slot, batchStart, batchEnd);
        }
        batchStart := batchEnd;
      }
    }

    /** flush_batch: afterwards the recovery blocks hold everything submitted. */
    method FlushBatch()
      requires Consistent()
      modifies this`recoveryData, this`batchIndices
      ensures Valid() && batchIndices == [] && |recoveryData| == old(|recoveryData|)
    {
      hide IsMul128, Lay, SumTo, SubmittedSum, Tables.Valid, IsCoeffMatrix;
      if batchIndices == [] {
        return;
      }
      var data := AddBuffered();
      recoveryData := data;
      batchIndices := [];
      assert submitted[..|submitted|] == submitted;
    }

    /**
     process_block: a block outside the file set is ignored.  A short block overwrites, and lays
     out, only the start of its buffer, so what is submitted is the row that the whole buffer
     then stands for.
     */
    method ProcessBlock(dataBlockIdx: nat, block: Row)
      requires Valid() && |block| <= symbolsPerBlock
      modifies this`recoveryData, this`batchBuffers, this`batchIndices, this`submitted
      ensures Valid() && |recoveryData| == old(|recoveryData|)
      ensures dataBlockIdx < dataBlocks ==>
                var slot := old(|batchIndices|);
                && submitted == old(submitted)
                   + [Submission(dataBlockIdx, Effective(useShuffle2x, block, old(batchBuffers)[slot]))]
                && batchBuffers == old(batchBuffers)[slot := Buffered(useShuffle2x, block, old(batchBuffers)[slot])]
                && batchIndices == if slot + 1 >= dataBatchSize then [] else old(batchIndices) + [dataBlockIdx]
      ensures dataBlockIdx < dataBlocks && |block| == symbolsPerBlock ==>
                submitted == old(submitted) + [Submission(dataBlockIdx, block)]
      ensures dataBlockIdx >= dataBlocks ==>
                && submitted == old(submitted) && recoveryData == old(recoveryData)
                && batchBuffers == old(batchBuffers) && batchIndices == old(batchIndices)
    {
      hide IsMul128, Lay, Unlay, SubmittedSum, Tables.Valid, IsCoeffMatrix;
      if dataBlockIdx >= dataBlocks {
        return;
      }
      var slot := |batchIndices|;
      var start := LayRow(useShuffle2x, block);
      ghost var flushed := Flushed();
      ghost var row := Effective(useShuffle2x, block, batchBuffers[slot]);
      LayUnlay(useShuffle2x, Buffered(useShuffle2x, block, batchBuffers[slot]));
      if |block| == symbolsPerBlock {
        WholeBlock(useShuffle2x, block, batchBuffers[slot]);
      }
      batchBuffers := batchBuffers[slot := start + batchBuffers[slot][|block|..]];
      batchIndices := batchIndices + [dataBlockIdx];
      submitted := submitted + [Submission(dataBlockIdx, row)];
      assert submitted[..flushed] == old(submitted)[..flushed];
      assert Shape() && Flushed() == flushed;
      forall i: nat | i < |batchIndices|
        ensures BufferedAt(i)
      {
        assert i < slot ==> old(BufferedAt(i));
      }
      if |batchIndices| >= dataBatchSize {
        FlushBatch();
      }
    }

    /** finalize: the recovery blocks with their exponents. */
    method Finalize() returns (r: seq<Recovery>)
      requires Valid()
      modifies this`recoveryData, this`batchIndices
      ensures |r| == old(|recoveryData|)
      ensures forall e: nat :: e < |r| ==>
                r[e] == Recovery(e, ToBytes(SubmittedSum(constants, submitted, e, symbolsPerBlock)))
    {
      hide IsMul128, Lay, SubmittedSum, ToBytes, Tables.Valid, IsCoeffMatrix;
      FlushBatch();
      assert submitted[..|submitted|] == submitted;
      var data := recoveryData;
      r := [];
      for e := 0 to |data|
        invariant |r| == e
        invariant forall i: nat :: i < e ==>
                    r[i] == Recovery(i, ToBytes(SubmittedSum(constants, submitted, i, symbolsPerBlock)))
      {
        var row := UnlayRow(useShuffle2x, data[e]);
        var bytes := BytesOf(row);
        r := r + [Recovery(e, bytes)];
      }
    }

    lemma FlushedSums()
      requires Consistent()
      ensures forall e: nat :: e < |recoveryData| ==> recoveryData[e] == Lay(useShuffle2x, SumTo(0, e))
    {
      hide Lay, SubmittedSum;
    }

    lemma AllSums()
      requires Shape()
      ensures forall e: nat :: SumTo(|batchIndices|, e) == SubmittedSum(constants, submitted, e, symbolsPerBlock)
    {
      hide SubmittedSum;
      assert submitted[..|submitted|] == submitted;
    }
  }

  // ----- every block once, in any order

  function InSubmissionOrder(rows: Matrix, order: seq<nat>): (r: seq<Submission>)
    requires IndicesBelow(order, |rows|)
    ensures |r| == |order|
  {
    seq(|order|, i requires 0 <= i < |order| => Submission(order[i], rows[order[i]]))
  }

  lemma NextSubmission(rows: Matrix, n: nat)
    requires n < |rows|
    ensures IndicesBelow(Consecutive(0, n), |rows|) && IndicesBelow(Consecutive(0, n + 1), |rows|)
    ensures InSubmissionOrder(rows, Consecutive(0, n + 1)) == InSubmissionOrder(rows, Consecutive(0, n))
            + [Submission(n, rows[n])]
  {
  }

  /** Everything submitted once and in order. */
  lemma AllSubmitted(rows: Matrix)
    ensures IndicesBelow(Consecutive(0, |rows|), |rows|) && Distinct(Consecutive(0, |rows|))
  {
  }

  lemma NothingSubmitted(rows: Matrix)
    ensures IndicesBelow(Consecutive(0, 0), |rows|) && InSubmissionOrder(rows, Consecutive(0, 0)) == []
  {
  }

  lemma {:induction false} SubmittedCombine(constants: Row, rows: Matrix, order: seq<nat>, e: nat, w: nat)
    requires IsMatrix(rows, |constants|, w) && IndicesBelow(order, |constants|)
    ensures SubmittedSum(constants, InSubmissionOrder(rows, order), e, w)
         == Combine(Select(PowerRow(constants, e), order), Select(rows, order), w)
    decreases |order|
  {
    hide MulAdd, AddRow, Scale, Pow;
    if order != [] {
      var n := |order| - 1;
      var subs := InSubmissionOrder(rows, order);
      assert subs[..n] == InSubmissionOrder(rows, order[..n]);
      SubmittedCombine(constants, rows, order[..n], e, w);
      var p := PowerRow(constants, e);
      assert Select(p, order) == Select(p, order[..n]) + [p[order[n]]];
      assert Select(rows, order) == Select(rows, order[..n]) + [rows[order[n]]];
      CombineAppend(Select(p, order[..n]), p[order[n]], Select(rows, order[..n]), rows[order[n]],
                    Select(rows, order), w);
      MulAddSameLength(SubmittedSum(constants, subs[..n], e, w), rows[order[n]], p[order[n]]);
    }
  }

  /** Each block submitted once, in any order, sums up to the recovery block. */
  lemma SubmittedOnce(constants: Row, rows: Matrix, order: seq<nat>, e: nat, w: nat)
    requires IsMatrix(rows, |constants|, w) && IndicesBelow(order, |constants|)
    requires Distinct(order) && |order| == |constants|
    ensures SubmittedSum(constants, InSubmissionOrder(rows, order), e, w) == RecoveryRow(constants, e, rows, w)
  {
    hide Combine, PowerRow;
    SubmittedCombine(constants, rows, order, e, w);
    CombinePermuted(PowerRow(constants, e), rows, w, order);
  }

  /** The way `create` drives the encoder, for any order of the blocks: the result is that of encode. */
  method EncodeStreaming(t: Tables, mul128: seq<Lut>, constants: Row, blocks: seq<seq<Byte>>, order: seq<nat>,
                         count: nat, blockSize: nat, chunkSize: nat, shuffle: bool, numCpus: nat)
    returns (r: Result<seq<Recovery>>)
    requires t.Valid() && IsMul128(mul128) && numCpus > 0
    requires |blocks| == |constants| && Uniform(blocks, blockSize)
    requires Distinct(order) && |order| == |blocks| && IndicesBelow(order, |blocks|)
    requires chunkSize > 0
    ensures r == match CreateError(blockSize, chunkSize)
                 case Some(error) => Err(error)
                 case None => Ok(Encoded(constants, blocks, count, blockSize))
  {
    hide Effective, Buffered, Lay, IsMul128, ToSymbols, ToBytes, RecoveryRow, SubmittedSum, Tables.Valid, IsCoeffMatrix;
    var error := CreateError(blockSize, chunkSize);
    if error.Some? {
      return Err(error.value);
    }
    var encoder := new StreamingEncoder(t, mul128, constants, count, blockSize, chunkSize, shuffle, numCpus);
    ghost var rows := AllSymbols(blocks);
    for i := 0 to |order|
      invariant encoder.Valid() && fresh(encoder)
      invariant |encoder.recoveryData| == count
      invariant encoder.submitted == InSubmissionOrder(rows, order[..i])
    {
      var row := SymbolsOf(blocks[order[i]], blockSize / 2);
      encoder.ProcessBlock(order[i], row);
      assert order[..i + 1] == order[..i] + [order[i]];
      assert InSubmissionOrder(rows, order[..i + 1]) == InSubmissionOrder(rows, order[..i])
             + [Submission(order[i], row)];
    }
    assert order[..|order|] == order;
    var recoveries := encoder.Finalize();
    forall e | 0 <= e < count
      ensures recoveries[e] == Encoded(constants, blocks, count, blockSize)[e]
    {
      SubmittedOnce(constants, rows, order, e, blockSize / 2);
    }
    assert recoveries == Encoded(constants, blocks, count, blockSize);
    return Ok(recoveries);
  }
}
