/**
 Decoding inverts encoding, on bytes and chunk by chunk: what `encode` (or the streaming
 encoder) made, `compute_reconstruction_transform` and `reconstruct_streaming_chunk` undo.
 */
module RoundTrip {
  import opened Options
  import opened GaloisField
  import opened LinearAlgebra
  import opened Elimination
  import opened Vandermonde
  import opened Constants
  import opened Bytes
  import opened Regions
  import opened Encoding
  import opened Reconstruction
  import opened ChunkReconstruction
  import opened Erasures
  import opened LeadingMinors

  /** A recovery block that belongs to the data blocks. */
  predicate Genuine(blocks: seq<seq<Byte>>, blockSize: nat, recovery: Recovery)
    requires Uniform(blocks, blockSize)
  {
    && |recovery.data| == blockSize
    && ToSymbols(recovery.data) == RecoveryRow(FirstConstants(|blocks|), recovery.exponent, AllSymbols(blocks),
                                               blockSize / 2)
  }

  function Exponents(recoveries: seq<Recovery>): (r: seq<nat>)
    ensures |r| == |recoveries|
  {
    seq(|recoveries|, i requires 0 <= i < |recoveries| => recoveries[i].exponent)
  }

  /** What is lost, what is left, and which recovery blocks are used. */
  datatype Damage = Damage(missing: seq<nat>, present: seq<nat>, presentRecovery: seq<nat>)

  predicate Recoverable(blocks: seq<seq<Byte>>, blockSize: nat, recoveries: seq<Recovery>, d: Damage) {
    && blockSize % 2 == 0 && Uniform(blocks, blockSize)
    && (forall i :: 0 <= i < |recoveries| ==> Genuine(blocks, blockSize, recoveries[i]))
    && Partition(d.missing, d.present, |blocks|)
    && 0 < |d.missing| <= |d.presentRecovery|
    && (forall i :: 0 <= i < |d.missing| ==> |blocks| <= d.presentRecovery[i] < |blocks| + |recoveries|)
  }

  /** Reading yields bytes o up to o + z of every present data block and every used recovery block. */
  ghost predicate ReadsSlices(read: Reader, blocks: seq<seq<Byte>>, recoveries: seq<Recovery>, d: Damage, o: nat,
                              z: nat)
  {
    && (forall j :: 0 <= j < |d.present| ==>
          && d.present[j] < |blocks| && o + z <= |blocks[d.present[j]]|
          && read(d.present[j]) == Some(blocks[d.present[j]][o..o + z]))
    && |d.missing| <= |d.presentRecovery|
    && (forall i :: 0 <= i < |d.missing| ==>
          && |blocks| <= d.presentRecovery[i] < |blocks| + |recoveries|
          && var data := recoveries[d.presentRecovery[i] - |blocks|].data;
          && o + z <= |data| && read(d.presentRecovery[i]) == Some(data[o..o + z]))
  }

  /** The chunk of every missing block. */
  function Originals(blocks: seq<seq<Byte>>, blockSize: nat, missing: seq<nat>, o: nat, z: nat): seq<Restored>
    requires IndicesBelow(missing, |blocks|) && Uniform(blocks, blockSize) && o + z <= blockSize
  {
    seq(|missing|, i requires 0 <= i < |missing| => Restored(missing[i], blocks[missing[i]][o..o + z]))
  }

  // ----- chunks of symbols

  lemma SymbolsSlice(bytes: seq<Byte>, a: nat, w: nat)
    requires 2 * a + 2 * w <= |bytes|
    ensures ToSymbols(bytes[2 * a..2 * a + 2 * w]) == ToSymbols(bytes)[a..a + w]
  {
    hide Join;
    var part := bytes[2 * a..2 * a + 2 * w];
    forall i | 0 <= i < w
      ensures ToSymbols(part)[i] == ToSymbols(bytes)[a..a + w][i]
    {
      assert part[2 * i] == bytes[2 * (a + i)] && part[2 * i + 1] == bytes[2 * (a + i) + 1];
    }
  }

  /** The chunk of a recovery block is the recovery block of the chunks. */
  lemma RecoverySlice(blocks: seq<seq<Byte>>, blockSize: nat, recovery: Recovery, a: nat, w: nat)
    requires Uniform(blocks, blockSize) && Genuine(blocks, blockSize, recovery) && 2 * a + 2 * w <= blockSize
    ensures ToSymbols(recovery.data[2 * a..2 * a + 2 * w])
         == RecoveryRow(FirstConstants(|blocks|), recovery.exponent, Slices(AllSymbols(blocks), a, w), w)
  {
    hide ToSymbols, Combine, PowerRow, FirstConstants;
    SymbolsSlice(recovery.data, a, w);
    CombineSlices(PowerRow(FirstConstants(|blocks|), recovery.exponent), AllSymbols(blocks), blockSize / 2, a, w);
  }

  /** What the readers give, as symbols. */
  lemma ReadSymbols(blocks: seq<seq<Byte>>, blockSize: nat, recoveries: seq<Recovery>, d: Damage, read: Reader,
                    a: nat, w: nat)
    requires Recoverable(blocks, blockSize, recoveries, d) && 2 * a + 2 * w <= blockSize
    requires ReadsSlices(read, blocks, recoveries, d, 2 * a, 2 * w)
    requires IndicesBelow(d.present, |blocks|)
    ensures var (c, m, sl) := (FirstConstants(|blocks|), |d.missing|, Slices(AllSymbols(blocks), a, w));
            && ChunkRows(read, d.present, w) == Select(sl, d.present)
            && ChunkRows(read, d.presentRecovery[..m], w)
               == RecoveryRows(c, UsedExponents(|blocks|, d.presentRecovery, Exponents(recoveries), m), sl, w)
  {
    hide ToSymbols, RecoveryRow, FirstConstants, Partition;
    var sl := Slices(AllSymbols(blocks), a, w);
    forall j | 0 <= j < |d.present|
      ensures ChunkRow(read, d.present[j], w) == sl[d.present[j]]
    {
      SymbolsSlice(blocks[d.present[j]], a, w);
    }
    forall i | 0 <= i < |d.missing|
      ensures ChunkRow(read, d.presentRecovery[i], w)
           == RecoveryRow(FirstConstants(|blocks|), recoveries[d.presentRecovery[i] - |blocks|].exponent, sl, w)
    {
      RecoverySlice(blocks, blockSize, recoveries[d.presentRecovery[i] - |blocks|], a, w);
    }
  }

  lemma OutputOriginals(blocks: seq<seq<Byte>>, blockSize: nat, missing: seq<nat>, a: nat, w: nat)
    requires IndicesBelow(missing, |blocks|) && Uniform(blocks, blockSize) && 2 * a + 2 * w <= blockSize
    ensures Outputs(missing, Select(Slices(AllSymbols(blocks), a, w), missing))
            == Originals(blocks, blockSize, missing, 2 * a, 2 * w)
  {
    hide ToSymbols, ToBytes;
    forall i | 0 <= i < |missing|
      ensures ToBytes(Slices(AllSymbols(blocks), a, w)[missing[i]]) == blocks[missing[i]][2 * a..2 * a + 2 * w]
    {
      SymbolsSlice(blocks[missing[i]], a, w);
      BytesOfSymbols(blocks[missing[i]][2 * a..2 * a + 2 * w]);
    }
  }

  // ----- main results

  ghost function TransformFor(blocks: seq<seq<Byte>>, blockSize: nat, recoveries: seq<Recovery>,
                              d: Damage): Result<ReconstructionTransform>
    requires Recoverable(blocks, blockSize, recoveries, d)
  {
    PartitionIndices(d.missing, d.present, |blocks|);
    TransformResult(FirstConstants(|blocks|), d.missing, d.present, d.presentRecovery, Exponents(recoveries))
  }

  /** Whenever a transform is found without swapping rows, every chunk comes out as it was. */
  lemma ChunkRestored(blocks: seq<seq<Byte>>, blockSize: nat, recoveries: seq<Recovery>, d: Damage,
                      tr: ReconstructionTransform, read: Reader, o: nat, z: nat)
    requires Recoverable(blocks, blockSize, recoveries, d) && IndicesBelow(d.missing, |blocks|)
    requires TransformFor(blocks, blockSize, recoveries, d) == Ok(tr)
    requires InOrder(tr.record.order) || d.present == []
    requires o % 2 == 0 && z % 2 == 0 && o + z <= blockSize
    requires ReadsSlices(read, blocks, recoveries, d, o, z)
    ensures WellFormed(tr.record, |d.missing|) && IsMatrix(tr.coeffs, |d.missing|, |d.present|)
    ensures ChunkResult(tr, d.missing, d.present, d.presentRecovery, read, z)
            == Ok(Originals(blocks, blockSize, d.missing, o, z))
  {
    hide RecoveryRow, RecoveryRows, RestoredRows, TransformOf, FirstConstants, Partition, Genuine, WellFormed,
         PowerMatrix, Used;
    PartitionIndices(d.missing, d.present, |blocks|);
    var (a, w) := (o / 2, z / 2);
    var c := FirstConstants(|blocks|);
    var used := UsedExponents(|blocks|, d.presentRecovery, Exponents(recoveries), |d.missing|);
    var sl := Slices(AllSymbols(blocks), a, w);
    assert IsTransform(tr, c, d.missing, d.present, used);
    ReadSymbols(blocks, blockSize, recoveries, d, read, a, w);
    RestoredInOrder(tr, c, sl, w, d.missing, d.present, used);
    OutputOriginals(blocks, blockSize, d.missing, a, w);
    assert AllReadable(tr, d.present, d.presentRecovery, |d.missing|, read);
  }

  /** The powers that the elimination works on: a row for each recovery block, a column for each missing block. */
  ghost function UsedPowers(n: nat, recoveries: seq<Recovery>, d: Damage): (a: Matrix)
    requires IndicesBelow(d.missing, n) && |d.missing| <= |d.presentRecovery|
    requires forall i :: 0 <= i < |d.missing| ==> n <= d.presentRecovery[i] < n + |recoveries|
    ensures IsMatrix(a, |d.missing|, |d.missing|)
  {
    PowerMatrix(Select(FirstConstants(n), d.missing),
                UsedExponents(n, d.presentRecovery, Exponents(recoveries), |d.missing|))
  }

  /** For any exponents: when the transform is found, and when no swap does harm. */
  lemma TransformExactly(blocks: seq<seq<Byte>>, blockSize: nat, recoveries: seq<Recovery>, d: Damage)
    requires Recoverable(blocks, blockSize, recoveries, d) && IndicesBelow(d.missing, |blocks|)
    ensures var r := TransformFor(blocks, blockSize, recoveries, d);
            var a := UsedPowers(|blocks|, recoveries, d);
            && (r.Ok? <==> Nonsingular(a))
            && (r.Err? ==> r == Err(SingularMatrix))
            && (r.Ok? && (InOrder(r.value.record.order) || d.present == []) <==> Restorable(a, d.present))
  {
    hide TransformOf, PowerMatrix, Genuine, FirstConstants, Partition, Restorable, Nonsingular, InOrder;
    PartitionIndices(d.missing, d.present, |blocks|);
    RestorableExactly(UsedPowers(|blocks|, recoveries, d), d.present);
  }

  /**
   Consecutive exponents: the transform is found exactly when no two missing blocks agree modulo
   32768, and without a swap.  For up to 32768 blocks that is always so.
   */
  lemma ConsecutiveSucceeds(blocks: seq<seq<Byte>>, blockSize: nat, recoveries: seq<Recovery>, d: Damage, s: nat)
    requires Recoverable(blocks, blockSize, recoveries, d)
    requires UsedExponents(|blocks|, d.presentRecovery, Exponents(recoveries), |d.missing|)
             == Consecutive(s, |d.missing|)
    ensures var r := TransformFor(blocks, blockSize, recoveries, d);
            && (r.Ok? <==> DistinctResidues(d.missing))
            && (r.Err? ==> r == Err(SingularMatrix))
            && (r.Ok? ==> InOrder(r.value.record.order))
    ensures |blocks| <= DISTINCT_CONSTANTS ==> DistinctResidues(d.missing)
  {
    hide TransformOf, PowerMatrix, Genuine, Constant, Partition, DistinctResidues;
    PartitionIndices(d.missing, d.present, |blocks|);
    TransformExists(|blocks|, d.missing, s);
    if |blocks| <= DISTINCT_CONSTANTS {
      SmallResidues(d.missing, |blocks|);
    }
  }

  /** What encode yields is genuine. */
  lemma EncodedGenuine(blocks: seq<seq<Byte>>, count: nat, blockSize: nat, e: nat)
    requires Uniform(blocks, blockSize) && blockSize % 2 == 0 && e < count
    ensures var r := Encoded(FirstConstants(|blocks|), blocks, count, blockSize)[e];
            r.exponent == e && Genuine(blocks, blockSize, r)
  {
    hide RecoveryRow, ToBytes, ToSymbols;
    SymbolsOfBytes(RecoveryRow(FirstConstants(|blocks|), e, AllSymbols(blocks), blockSize / 2));
  }

  /**
   Encode, lose any m blocks, keep any m consecutive recovery blocks: the transform is found
   exactly when no two lost blocks agree modulo 32768, which holds for up to 32768 blocks, and
   then every chunk of the lost blocks is reconstructed.
   */
  lemma DecodeInvertsEncode(blocks: seq<seq<Byte>>, blockSize: nat, count: nat, d: Damage, s: nat,
                            read: Reader, o: nat, z: nat)
    requires Uniform(blocks, blockSize) && blockSize % 2 == 0
    requires Partition(d.missing, d.present, |blocks|) && |d.missing| > 0
    requires s + |d.missing| <= count && d.presentRecovery == Consecutive(|blocks| + s, |d.missing|)
    requires o % 2 == 0 && z % 2 == 0 && o + z <= blockSize
    requires ReadsSlices(read, blocks, Encoded(FirstConstants(|blocks|), blocks, count, blockSize), d, o, z)
    ensures var recoveries := Encoded(FirstConstants(|blocks|), blocks, count, blockSize);
            && Recoverable(blocks, blockSize, recoveries, d)
            && IndicesBelow(d.missing, |blocks|)
            && match TransformFor(blocks, blockSize, recoveries, d)
               case Ok(tr) =>
                 && DistinctResidues(d.missing)
                 && WellFormed(tr.record, |d.missing|) && IsMatrix(tr.coeffs, |d.missing|, |d.present|)
                 && ChunkResult(tr, d.missing, d.present, d.presentRecovery, read, z)
                    == Ok(Originals(blocks, blockSize, d.missing, o, z))
               case Err(error) =>
                 error == SingularMatrix && !DistinctResidues(d.missing)
    ensures |blocks| <= DISTINCT_CONSTANTS ==> DistinctResidues(d.missing)
  {
    hide Encoded, Genuine, FirstConstants, Partition, ReadsSlices, ChunkResult, WellFormed, Uniform, DistinctResidues;
    var recoveries := Encoded(FirstConstants(|blocks|), blocks, count, blockSize);
    forall e | 0 <= e < count
      ensures recoveries[e].exponent == e && Genuine(blocks, blockSize, recoveries[e])
    {
      EncodedGenuine(blocks, count, blockSize, e);
    }
    PartitionIndices(d.missing, d.present, |blocks|);
    assert UsedExponents(|blocks|, d.presentRecovery, Exponents(recoveries), |d.missing|)
           == Consecutive(s, |d.missing|);
    ConsecutiveSucceeds(blocks, blockSize, recoveries, d, s);
    var r := TransformFor(blocks, blockSize, recoveries, d);
    if r.Ok? {
      ChunkRestored(blocks, blockSize, recoveries, d, r.value, read, o, z);
    }
  }

  // ----- the recovery blocks, symbol by symbol

  function SymbolIn(block: seq<Byte>, x: nat): Symbol {
    if x < |block| / 2 then ToSymbols(block)[x] else 0
  }

  /** Symbol x of recovery block e over the first d blocks: each symbol times its constant to the power e. */
  function ParitySum(blocks: seq<seq<Byte>>, e: nat, x: nat, d: nat): Symbol
    requires d <= |blocks|
  {
    if d == 0 then 0
    else Add(ParitySum(blocks, e, x, d - 1), Mul(SymbolIn(blocks[d - 1], x), Pow(Constant(d - 1), e)))
  }

  /** Plain parity. */
  function XorSum(blocks: seq<seq<Byte>>, x: nat, d: nat): Symbol
    requires d <= |blocks|
  {
    if d == 0 then 0 else Add(XorSum(blocks, x, d - 1), SymbolIn(blocks[d - 1], x))
  }

  /** The first recovery block is the plain parity of the data blocks. */
  lemma {:induction false} FirstIsXor(blocks: seq<seq<Byte>>, x: nat, d: nat)
    requires d <= |blocks|
    ensures ParitySum(blocks, 0, x, d) == XorSum(blocks, x, d)
  {
    hide Add, Mul, SymbolIn, Constant;
    if d > 0 {
      FirstIsXor(blocks, x, d - 1);
      MulOne(SymbolIn(blocks[d - 1], x));
    }
  }

  lemma {:induction false} CombineIsSum(blocks: seq<seq<Byte>>, constants: Row, blockSize: nat, e: nat, x: nat, d: nat)
    requires Uniform(blocks, blockSize) && d <= |blocks| && x < blockSize / 2
    requires constants == FirstConstants(|blocks|)
    ensures Combine(PowerRow(constants[..d], e), AllSymbols(blocks)[..d], blockSize / 2)[x]
            == ParitySum(blocks, e, x, d)
  {
    hide Add, Mul, Pow, ToSymbols, Constant;
    if d > 0 {
      var (rows, c) := (AllSymbols(blocks), PowerRow(constants[..d], e));
      CombineIsSum(blocks, constants, blockSize, e, x, d - 1);
      assert c[..d - 1] == PowerRow(constants[..d - 1], e) && rows[..d][..d - 1] == rows[..d - 1];
      assert c[d - 1] == Pow(Constant(d - 1), e) && rows[..d][d - 1] == ToSymbols(blocks[d - 1]);
    }
  }

  /** What encode computes, without its matrices: every symbol of every recovery block. */
  lemma ParityIs(blocks: seq<seq<Byte>>, count: nat, blockSize: nat, e: nat, x: nat)
    requires Uniform(blocks, blockSize) && blockSize % 2 == 0 && e < count && x < blockSize / 2
    ensures var r := EncodeResult(FirstConstants(|blocks|), blocks, count, blockSize);
            && r.Ok? && |r.value| == count && r.value[e].exponent == e && |r.value[e].data| == blockSize
            && ToSymbols(r.value[e].data)[x] == ParitySum(blocks, e, x, |blocks|)
  {
    hide Combine, ToSymbols, ToBytes, Constant;
    var (constants, rows) := (FirstConstants(|blocks|), AllSymbols(blocks));
    CombineIsSum(blocks, constants, blockSize, e, x, |blocks|);
    assert constants[..|blocks|] == constants && rows[..|blocks|] == rows;
    SymbolsOfBytes(RecoveryRow(constants, e, rows, blockSize / 2));
  }
}
