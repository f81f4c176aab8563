/**
 How `create` cuts the files into blocks and drives the encoder (src/creator.rs): file by file
 in canonical order, each block padded with zeros, checksummed, and handed to the encoder
 under the next global number.
 */
module Creator {
  import opened Options
  import opened GaloisTables
  import opened LinearAlgebra
  import opened Vandermonde
  import opened Constants
  import opened Bytes
  import opened NibbleTables
  import opened FileIds
  import opened Packets
  import opened Encoding
  import opened Reconstruction
  import opened ChunkReconstruction
  import opened Streaming
  import opened RoundTrip
  import opened BlockNumbering
  import opened RepairChunks
  import opened Rebuild
  import opened Verification

  datatype Parity = Parity(recoveries: seq<Recovery>, checksums: map<Id, seq<SliceChecksum>>)

  /** Every file has the checksums of its padded blocks, and there are no others. */
  ghost predicate ChecksumsOf(sums: map<Id, seq<SliceChecksum>>, md5: Md5, crc: Crc32, infos: seq<FileInfo>,
                              contents: Contents, blockSize: nat, n: nat)
    requires blockSize > 0 && n <= |infos| && IsPristine(contents, infos)
  {
    && (forall i :: 0 <= i < n ==>
          infos[i].id in sums && sums[infos[i].id] == BlockChecksums(md5, crc, contents[infos[i].id], blockSize))
    && (forall id :: id in sums ==> exists i :: 0 <= i < n && infos[i].id == id)
  }

  /** Reads what the file has of block b, and pads it. */
  method CutBlock(content: seq<Byte>, b: nat, blockSize: nat) returns (block: seq<Byte>)
    requires blockSize > 0 && b < BlocksIn(|content|, blockSize)
    ensures block == ReadAt(content, b * blockSize, blockSize)
    ensures |block| == blockSize && forall k :: 0 <= k < blockSize ==>
              block[k] == if b * blockSize + k < |content| then content[b * blockSize + k] else 0
  {
    BlockStarts(|content|, blockSize, b);
    var offset := b * blockSize;
    var size := Least(|content| - offset, blockSize);
    block := content[offset..offset + size];
    if |block| < blockSize {
      block := block + seq(blockSize - |block|, _ => 0);
    }
  }

  /** Every block starts before the end of its file. */
  lemma BlockStarts(length: nat, blockSize: nat, b: nat)
    requires blockSize > 0 && b < BlocksIn(length, blockSize)
    ensures b * blockSize < length
  {
    CeilBounds(length, blockSize);
    MulLess(b, BlocksIn(length, blockSize), blockSize);
  }

  /** Block b of file i is the data block with the global number. */
  lemma GlobalBlock(infos: seq<FileInfo>, blockSize: nat, contents: Contents, i: nat, b: nat)
    requires blockSize > 0 && IsPristine(contents, infos) && i < |infos| && b < BlocksIn(infos[i].length, blockSize)
    ensures StartOf(infos, blockSize, i) + b < TotalBlocks(infos, blockSize)
    ensures DataBlocks(infos, blockSize, contents)[StartOf(infos, blockSize, i) + b]
         == ReadAt(contents[infos[i].id], b * blockSize, blockSize)
  {
    hide ReadAt, StartOf, TotalBlocks, BlocksIn, PlaceOfBlock;
    PlaceOfLocal(infos, blockSize, i, b);
  }

  /** One block goes to the encoder. */
  method EncodeBlock(encoder: StreamingEncoder, ghost data: seq<seq<Byte>>, block: seq<Byte>, next: nat)
    requires encoder.Valid() && encoder.blockSize == 2 * encoder.symbolsPerBlock
    requires |encoder.constants| == |data| && next < |data| && block == data[next] && |block| == encoder.blockSize
    requires IndicesBelow(Consecutive(0, next), |data|)
             && encoder.submitted == InSubmissionOrder(AllSymbols(data), Consecutive(0, next))
    modifies encoder
    ensures encoder.Valid() && |encoder.recoveryData| == old(|encoder.recoveryData|)
    ensures IndicesBelow(Consecutive(0, next + 1), |data|)
    ensures encoder.submitted == InSubmissionOrder(AllSymbols(data), Consecutive(0, next + 1))
  {
    hide ToSymbols, InSubmissionOrder, Consecutive, AllSymbols, Effective, Buffered, SubmittedSum, Lay,
         IsCoeffMatrix, IsMul128, Tables.Valid;
    var row := SymbolsOf(block, encoder.symbolsPerBlock);
    SymbolsAt(data, next);
    NextSubmission(AllSymbols(data), next);
    encoder.ProcessBlock(next, row);
  }

  /** One file: its blocks go to the encoder, their checksums into a list. */
  method EncodeFile(encoder: StreamingEncoder, md5: Md5, crc: Crc32, ghost infos: seq<FileInfo>,
                    ghost contents: Contents, ghost i: nat, content: seq<Byte>, first: nat)
    returns (sums: seq<SliceChecksum>, next: nat)
    requires encoder.Valid() && encoder.blockSize > 0 && encoder.blockSize == 2 * encoder.symbolsPerBlock
    requires IsPristine(contents, infos) && i < |infos| && content == contents[infos[i].id]
    requires |encoder.constants| == TotalBlocks(infos, encoder.blockSize)
             && first == StartOf(infos, encoder.blockSize, i)
    requires IndicesBelow(Consecutive(0, first), |encoder.constants|)
    requires encoder.submitted == InSubmissionOrder(AllSymbols(DataBlocks(infos, encoder.blockSize, contents)),
                                                    Consecutive(0, first))
    modifies encoder
    ensures encoder.Valid() && |encoder.recoveryData| == old(|encoder.recoveryData|)
    ensures next == StartOf(infos, encoder.blockSize, i + 1) && IndicesBelow(Consecutive(0, next), |encoder.constants|)
    ensures encoder.submitted == InSubmissionOrder(AllSymbols(DataBlocks(infos, encoder.blockSize, contents)),
                                                   Consecutive(0, next))
    ensures sums == BlockChecksums(md5, crc, content, encoder.blockSize)
  {
    hide DataBlocks, ToSymbols, ReadAt, BlocksIn, TotalBlocks, InSubmissionOrder, Consecutive, AllSymbols,
         BlockChecksums, Effective, Buffered, SubmittedSum, Lay, IsCoeffMatrix, IsMul128, Tables.Valid;
    var blockSize := encoder.blockSize;
    ghost var data := DataBlocks(infos, blockSize, contents);
    sums, next := [], first;
    for b := 0 to BlocksIn(|content|, blockSize)
      invariant encoder.Valid() && |encoder.recoveryData| == old(|encoder.recoveryData|)
      invariant next == first + b && IndicesBelow(Consecutive(0, next), |encoder.constants|)
      invariant encoder.submitted == InSubmissionOrder(AllSymbols(data), Consecutive(0, next))
      invariant |BlockChecksums(md5, crc, content, blockSize)| == BlocksIn(|content|, blockSize)
      invariant sums == BlockChecksums(md5, crc, content, blockSize)[..b]
    {
      var block := CutBlock(content, b, blockSize);
      ChecksumAt(md5, crc, content, blockSize, b);
      sums := sums + [SliceChecksum(md5(block), crc(block))];
      GlobalBlock(infos, blockSize, contents, i, b);
      EncodeBlock(encoder, data, block, next);
      next := next + 1;
    }
  }

  lemma ChecksumAt(md5: Md5, crc: Crc32, content: seq<Byte>, blockSize: nat, b: nat)
    requires blockSize > 0 && b < BlocksIn(|content|, blockSize)
    ensures BlockChecksums(md5, crc, content, blockSize)[..b + 1]
         == BlockChecksums(md5, crc, content, blockSize)[..b]
            + [SliceChecksum(md5(ReadAt(content, b * blockSize, blockSize)),
                             crc(ReadAt(content, b * blockSize, blockSize)))]
  {
    hide ReadAt, BlocksIn;
  }

  lemma SymbolsAt(blocks: seq<seq<Byte>>, b: nat)
    requires b < |blocks|
    ensures AllSymbols(blocks)[b] == ToSymbols(blocks[b])
  {
  }

  /** The first counting loop of create. */
  method CountBlocks(infos: seq<FileInfo>, blockSize: nat) returns (total: nat)
    requires blockSize > 0
    ensures total == TotalBlocks(infos, blockSize)
  {
    hide BlocksIn;
    total := 0;
    for i := 0 to |infos|
      invariant total == StartOf(infos, blockSize, i)
    {
      total := total + BlocksIn(infos[i].length, blockSize);
    }
  }

  lemma EncodedRow(constants: Row, blocks: seq<seq<Byte>>, count: nat, blockSize: nat, e: nat)
    requires |blocks| == |constants| && Uniform(blocks, blockSize) && e < count
    ensures IsMatrix(AllSymbols(blocks), |constants|, blockSize / 2)
    ensures Encoded(constants, blocks, count, blockSize)[e]
            == Recovery(e, ToBytes(RecoveryRow(constants, e, AllSymbols(blocks), blockSize / 2)))
  {
  }

  lemma NoChecksums(md5: Md5, crc: Crc32, infos: seq<FileInfo>, contents: Contents, blockSize: nat)
    requires blockSize > 0 && IsPristine(contents, infos)
    ensures ChecksumsOf(map[], md5, crc, infos, contents, blockSize, 0)
    ensures StartOf(infos, blockSize, 0) == 0 && StartOf(infos, blockSize, |infos|) == TotalBlocks(infos, blockSize)
  {
  }

  lemma ChecksumsNext(sums: map<Id, seq<SliceChecksum>>, md5: Md5, crc: Crc32, infos: seq<FileInfo>,
                      contents: Contents, blockSize: nat, i: nat, list: seq<SliceChecksum>)
    requires blockSize > 0 && i < |infos| && IsPristine(contents, infos) && DistinctFiles(infos)
    requires ChecksumsOf(sums, md5, crc, infos, contents, blockSize, i)
    requires list == BlockChecksums(md5, crc, contents[infos[i].id], blockSize)
    ensures ChecksumsOf(sums[infos[i].id := list], md5, crc, infos, contents, blockSize, i + 1)
  {
    hide BlockChecksums;
  }

  /** Everything submitted in order: the recovery blocks are those of plain encoding. */
  method FinishParity(encoder: StreamingEncoder, ghost data: seq<seq<Byte>>) returns (recoveries: seq<Recovery>)
    requires encoder.Valid() && |encoder.constants| == |data| && Uniform(data, encoder.blockSize)
    requires IndicesBelow(Consecutive(0, |data|), |data|)
    requires encoder.submitted == InSubmissionOrder(AllSymbols(data), Consecutive(0, |data|))
    modifies encoder
    ensures recoveries == Encoded(encoder.constants, data, old(|encoder.recoveryData|), encoder.blockSize)
  {
    hide Encoded, AllSymbols, RecoveryRow, SubmittedSum, IsMul128, IsCoeffMatrix, Tables.Valid, ToBytes, Uniform;
    ghost var rows := AllSymbols(data);
    var blockSize := encoder.blockSize;
    AllSubmitted(rows);
    recoveries := encoder.Finalize();
    forall e | 0 <= e < |recoveries|
      ensures recoveries[e] == Encoded(encoder.constants, data, |recoveries|, blockSize)[e]
    {
      EncodedRow(encoder.constants, data, |recoveries|, blockSize, e);
      SubmittedOnce(encoder.constants, rows, Consecutive(0, |rows|), e, blockSize / 2);
    }
  }

  /** The encoding loop of create. */
  method EncodeFiles(encoder: StreamingEncoder, md5: Md5, crc: Crc32, infos: seq<FileInfo>, contents: Contents)
    returns (sums: map<Id, seq<SliceChecksum>>)
    requires encoder.Valid() && encoder.submitted == []
    requires encoder.blockSize > 0 && encoder.blockSize == 2 * encoder.symbolsPerBlock && DistinctFiles(infos)
             && IsPristine(contents, infos)
    requires |encoder.constants| == TotalBlocks(infos, encoder.blockSize)
    modifies encoder
    ensures encoder.Valid() && |encoder.recoveryData| == old(|encoder.recoveryData|)
    ensures var data := DataBlocks(infos, encoder.blockSize, contents);
            && IndicesBelow(Consecutive(0, |data|), |data|)
            && encoder.submitted == InSubmissionOrder(AllSymbols(data), Consecutive(0, |data|))
    ensures ChecksumsOf(sums, md5, crc, infos, contents, encoder.blockSize, |infos|)
  {
    hide IsMul128, Tables.Valid, DataBlocks, TotalBlocks, InSubmissionOrder, Consecutive, AllSymbols,
         BlockChecksums, ChecksumsOf, StartOf;
    var blockSize := encoder.blockSize;
    ghost var rows := AllSymbols(DataBlocks(infos, blockSize, contents));
    NothingSubmitted(rows);
    NoChecksums(md5, crc, infos, contents, blockSize);
    sums := map[];
    var next := 0;
    for i := 0 to |infos|
      invariant encoder.Valid() && |encoder.recoveryData| == old(|encoder.recoveryData|)
      invariant next == StartOf(infos, blockSize, i) && IndicesBelow(Consecutive(0, next), |encoder.constants|)
      invariant encoder.submitted == InSubmissionOrder(rows, Consecutive(0, next))
      invariant ChecksumsOf(sums, md5, crc, infos, contents, blockSize, i)
    {
      var id := infos[i].id;
      var list;
      list, next := EncodeFile(encoder, md5, crc, infos, contents, i, contents[id], next);
      ChecksumsNext(sums, md5, crc, infos, contents, blockSize, i, list);
      sums := sums[id := list];
    }
  }

  /** The chunk size that create asks for is never refused. */
  lemma ChunkAccepted(blockSize: nat)
    requires blockSize > 0 && blockSize % 4 == 0
    ensures CreateError(blockSize, Least(100_000, blockSize)) == None
    ensures blockSize % 2 == 0
  {
    HalfBlocks(blockSize);
  }

  /** The encoding part of create; None when there are too many blocks. */
  method CreateParity(t: Tables, mul128: seq<Lut>, md5: Md5, crc: Crc32, infos: seq<FileInfo>, contents: Contents,
                      blockSize: nat, count: nat, shuffle: bool, numCpus: nat) returns (r: Option<Parity>)
    requires t.Valid() && IsMul128(mul128) && numCpus > 0
    requires blockSize > 0 && blockSize % 4 == 0 && DistinctFiles(infos) && IsPristine(contents, infos)
    ensures r.Some? <==> WithinLimits(TotalBlocks(infos, blockSize), count)
    ensures r.None? <==> TotalBlocks(infos, blockSize) > 65535 || count > 65535
                         || TotalBlocks(infos, blockSize) + count > 65535
    ensures r.Some? ==>
              var data := DataBlocks(infos, blockSize, contents);
              && |FirstConstants(|data|)| == |data|
              && r.value.recoveries == Encoded(FirstConstants(|data|), data, count, blockSize)
              && ChecksumsOf(r.value.checksums, md5, crc, infos, contents, blockSize, |infos|)
  {
    hide IsMul128, Tables.Valid, DataBlocks, FirstConstants, TotalBlocks, InSubmissionOrder, Consecutive,
         AllSymbols, BlockChecksums, Encoded, ChecksumsOf, StartOf, CreateError, Uniform, Submissions,
         IsCoeffMatrix;
    var total := CountBlocks(infos, blockSize);
    if !WithinLimits(total, count) {
      return None;
    }
    var constants := GeneratePar2Constants(t, total);
    ChunkAccepted(blockSize);
    var chunkSize := Least(100_000, blockSize);
    var encoder := new StreamingEncoder(t, mul128, constants, count, blockSize, chunkSize, shuffle, numCpus);
    ghost var data := DataBlocks(infos, blockSize, contents);
    NothingSubmitted(AllSymbols(data));
    var sums := EncodeFiles(encoder, md5, crc, infos, contents);
    var recoveries := FinishParity(encoder, data);
    return Some(Parity(recoveries, sums));
  }
}
