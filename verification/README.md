# par2-rs, modelled and proved in Dafny

par2-rs creates and repairs PAR2 file sets: Reed-Solomon coding over GF(2^16), following the
Parity Volume Set Specification 2.0 ("Packet Header", "Main packet", "Input File Slice Checksum
packet", "Recovery Slice packet").  This project models four layers of it and stacks them.

1. **Field** (`Field`, `Primitive`, `Tables`, `Carryless`, `NibbleTables`): the shift-and-add
   product modulo 0x1100B is a field product, 2 has order exactly 65535, and the log/exp and
   nibble tables compute that product.
2. **Codec** (`LinearAlgebra`, `Elimination`, `Vandermonde`, `Constants`, `Encoding`, `Streaming`,
   `ShortBlocks`, `Reconstruction`, `ChunkReconstruction`, `Erasures`, `LeadingMinors`, `RoundTrip`,
   `SwapExample`): the recorded elimination and its replay, the streaming encoder, and decoding as
   the inverse of encoding.
3. **SIMD** (`Scalar`, `Pclmul`, `Ssse3`, `Shuffle2x`, `Regions`, `NativeLoops`, `Neon`, `NeonLoops`):
   every fast form is proved equal to the scalar form, instruction by instruction, and every
   loop for every length.
4. **Container and repair** (`LittleEndian`, `FileIds`, `Packets`, `Scanner`, `Layouts`, `ScanFacts`,
   `Archive`, `Creation`, `Loading`, `Creator`, `BlockNumbering`, `RepairChunks`, `Rebuild`, `Verification`, `FileChecks`,
   `FileSystems`, `Disk`, `Repair`, `CreateRepair`, `CommitProtocol`, `Workers`, `EndToEnd`): packets,
   canonical file order, block numbering, chunks, verification, temp files at their paths, worker
   threads and the rename protocol.

The layers meet in one method.  `EndToEnd.CreateLoseRepair` runs `CreateParity`, splits and writes
the index and the volumes, lets anything happen to the volume files and to the disk, runs `Load` on
the index and on what is left, and runs `VerifyFiles` and `RepairFiles` on the disk.  It assumes
nothing of the hashes but that no block on the disk collides with the very block that should be
there.  What the verification finds is exact: missing are the files that are not there, damaged
those that differ from the pristine ones, and of a damaged file of the right length exactly the
blocks that differ are listed.  Files of other recovery sets beside the volumes do not count.  The
result of the repair holds under three conditions that can be checked when the repair starts:

- `EnoughLeft`: there are as many recovery blocks as damaged blocks, those with the lowest exponents
  are as they were created, and they are regular, which for consecutive exponents means that no two
  damaged blocks have numbers equal modulo 32768;
- `NamesClear`: no file of the set has the name of the temp of a file to replace, and no other file
  has the name of a file to replace;
- `LayoutFits`: no region boundary splits a chunk of the layout.

Then either nothing needed repair and every file is there, or the disk with the temps can be
committed, and every run of the commit protocol that does leaves every file of the set, replaced or
kept, with its pristine bytes at the path of its name; and in every state of every run, committing or
not, the kept files are as they were.

MD5 and CRC32 are uninterpreted functions (parameters).  The number of CPUs, the ideal chunk size,
the region size, the layout that the CPU supports, the cancel flag and every I/O failure are
parameters or nondeterministic steps.  A file system is a map from paths to bytes.

## Where the code falls short of its promise

Each of these keeps the code as it is, and states exactly when it is right.

- **Swapped rows.** The coefficients of the present blocks are built in the original row order
  (`src/par2_rs.rs:405-412`) and applied to accumulators that are in swapped order
  (`src/par2_rs.rs:488-498`, `565-571`).  `Erasures.OrderMatters`: all data is restored if and only
  if no row was swapped or no data block is present.  `LeadingMinors.RestoredAllExactly` says the
  same of the input: all data is restored if and only if every leading square of the matrix of
  powers (constants of the missing blocks, exponents in use) is nonsingular, or no data block is
  present.  `SwapExample.ReconstructsWrongly` is a transform that succeeds and restores wrong data:
  five data blocks, 0, 2 and 4 missing, recovery exponents 0, 21845 and 21846.
  `Erasures.PermutedRestores`: with the coefficient rows permuted by `row_order` everything is
  restored whenever elimination succeeds.  Consecutive exponents never swap
  (`Vandermonde.NeverSwaps`), so repairs whose lowest recovery exponents are consecutive are not
  affected.
- **Number of data blocks.** The limit is 65535 (`src/repair.rs:49`), but there are only 32768
  constants: block i and block j have the same one exactly when i and j are equal modulo 32768
  (`Constants.ConstantsEqual`).  `Erasures.TransformExists`: with consecutive exponents the
  transform exists if and only if no two missing blocks are equal modulo 32768;
  `Erasures.RepeatedConstantFails`: otherwise the elimination fails for every choice of exponents.
  `RoundTrip.DecodeInvertsEncode`, `CreateRepair.LowestRepairable` and `EndToEnd.ConsecutiveEnough`
  are stated with this condition for up to 65535 blocks, with the failure on the other side.
- **Region size.** A region size that is not a multiple of 16 symbols breaks the shuffle2x layout.
  `Regions.AlignmentMatters` is the exact condition on the block length and the region size.  The
  size can be set by an environment variable, which is only required to be even and at least 4096
  bytes (`src/galois/region/mod.rs:50-61`).
- **Powers.** `gf_pow` multiplies a logarithm by the exponent in a `usize`.
  `GaloisTables.GfPowExact`: the result is the power if and only if the product fits in 64 bits; all
  32-bit exponents do.
- **Short blocks.** `process_block` overwrites only the start of a reused buffer
  (`src/par2_rs.rs:785-806`), so a short block is followed by what an earlier block left there, and
  in the shuffle2x layout only the start is laid out.  `ShortBlocks.ShortBlockExactly`: the recovery
  blocks are those of the block padded with zeros if and only if the block `FillsUp`, which the
  caller can read off the block and the old buffer: the rest of the buffer is zero, or, where the
  block ends inside a chunk of the layout, the chunk happens to read as laid out.
  The contracts of `ShortBlocks.StaleTailRun` and `ShortBlocks.UnalignedRun` prove, one for each
  layout, that a particular sequence of calls ends with a recovery block different from that of the
  padded blocks.  `create` pads every block, so it is not affected.
- **Short checksum lists.** A body that is cut off is parsed as a shorter list of checksums
  (`Packets.CutIfscParsed`), and a file is accepted as far as its list reaches.
  `Verification.AcceptedPrefix` is the exact set of accepted contents for the first k checksums;
  `Verification.FullListNeeded`: only the right content is accepted if and only if k is the number of
  blocks; `Verification.ShortListAccepts` is a wrong content for every shorter list.
- **Clashing names.** `create` accepts a file "x" beside a file "x.par2tmp".  If "x" is to be
  replaced, creating its temp overwrites the other file, which is then read as a source of good blocks
  (`Disk.ClashedRead`) and removed by the cleanup (`CommitProtocol.KeptFileLost`,
  `CommitProtocol.TempClashUnsafe`).  It also accepts files of the same name from two directories, of
  which one then replaces the other (`CommitProtocol.NameClashUnsafe`).
  `CommitProtocol.SafeExactly`: every state of every run from every file system is safe, for the files
  to replace and for the files to keep, if and only if no name of the set is the temp name of a file
  to replace, and each final name differs from every other name (or verification accepts nothing at
  all).  `CommitProtocol.PathsSafeExactly` says the same path by path, where duplicate names do no
  harm.  `EndToEnd.ClearExactly` turns the condition into one on the names and findings of a set, and
  `Disk.CleanExactly` into one on the names alone, which `create` could check.
- **Duplicated recovery blocks.** A recovery block that is found twice counts twice when the blocks
  are counted, and both copies are used.  `Repair.RepeatedExponentFails`: whenever an exponent
  occurs twice among the lowest exponents that are used, the transform is refused as singular, even
  if other recovery blocks would do.
- **Unchecked recovery packets.** Recovery packets are taken without looking at their MD5
  (`src/parser.rs:270-303`, `793-884`), so a corrupted packet among the lowest exponents is used
  although others would do.  `Erasures.OnlyGenuineRestores`: where no swap does harm, the missing
  blocks come out if and only if the recovery rows that are used are the created ones.  Corrupted
  packets that are not used do no harm: `CreateRepair.CreatedIsSalvageable`, `Repair.RepairFiles` and
  `EndToEnd.CreateLoseRepair` ask only for those that are used.
- **Wrong lengths.** A file whose blocks are all right, but whose length is not, is damaged without a
  block to list, and a damaged file without listed blocks counts with all its blocks
  (`src/repair.rs:547-558`), so that bytes appended to a file can make a repair refuse for lack of
  recovery blocks.  `FileChecks.FindingsAreRight`: a block of a file that is there is listed if and
  only if the file differs and the block does, or no block does, or its checksums are lost.
  `FileChecks.WrongBlocksListed`: in a file of the right length exactly the blocks that differ are.
- **Contradicting descriptions.** If two packets describe a file differently, the map of files keeps
  the last description and the list that numbers the blocks the first (`src/parser.rs:351-365`):
  `ScanFacts.RepeatedDescriptions`.

## Model

| member | source | states |
|---|---|---|
| GaloisField.MulComm | src/galois/core.rs:175-190 | the spec product modulo 0x1100B is commutative |
| GaloisField.MulAssoc | src/galois/core.rs:175-190 | the spec product is associative |
| GaloisField.MulAddLeft | src/galois/core.rs:125-160 | the product distributes over xor, on which the nibble tables rest |
| Primitive.ExpIsOne | src/galois/core.rs:49-91 | 2^n = 1 exactly for the multiples of 65535: 2 is primitive |
| Primitive.ExpInjective | src/galois/core.rs:49-91 | powers of 2 agree exactly when the exponents agree modulo 65535 |
| Primitive.DiscreteLogExists | src/galois/core.rs:49-91 | every nonzero element is a power of 2 below 65535 (by counting), so the log table has no gap |
| Primitive.InverseMul | src/galois/core.rs:205-225 | every nonzero element has an inverse |
| GaloisTables.InitTables | src/galois/core.rs:49-91 | the loops fill tables of discrete logarithms and powers of 2, the powers twice and followed by two zeros |
| GaloisTables.Tables.GfMul | src/galois/core.rs:175-190 | the table lookup is the carry-less product modulo 0x1100B, for all inputs |
| GaloisTables.Tables.GfDiv | src/galois/core.rs:205-225 | no result exactly for a zero divisor, otherwise the r with r * b = a |
| GaloisTables.GfDivUndoesMul | src/galois/core.rs:205-225 | division undoes multiplication |
| GaloisTables.GfPowExact | src/galois/core.rs:242-258 | gf_pow is the n-fold product if and only if log * n does not overflow a 64-bit usize |
| Carryless.ReduceProduct | src/galois/core.rs:175-190 | the field product is the remainder of the plain 32-bit carry-less product |
| NibbleTables.InitializeMul128Table | src/galois/core.rs:116-163 | every entry of the table holds the bytes of the products of all nibbles with its factor |
| NibbleTables.LookupProduct | src/galois/simd/x86/sse.rs:244-258 | the xor of the four nibble lookups is the product, byte by byte, for every value and factor |
| Elimination.ReplaySolves | src/par2_rs.rs:355-401 | for every matrix on which elimination succeeds, swaps included, replaying on A * x gives x back |
| Elimination.ReplayIsSolution | src/par2_rs.rs:618-655 | for every right-hand side b the replay yields x with A * x = b |
| Elimination.FailsOnSingular | src/par2_rs.rs:362-371 | "Singular matrix" is reported only if some nonzero x has A * x = 0 |
| Elimination.NextState | src/par2_rs.rs:361-400 | a step keeps the record and the matrix consistent, and fails exactly when no row has a pivot |
| Vandermonde.TooManyRoots | src/par2_rs.rs:346-371 | a monic polynomial of degree k does not vanish on k + 1 distinct points |
| Vandermonde.PivotNonzero | src/par2_rs.rs:362-371 | for consecutive exponents and distinct nonzero constants the pivot of step k is not zero |
| Vandermonde.NeverSwaps | src/par2_rs.rs:361-401 | for consecutive exponents every step succeeds without a swap, for every m and start |
| Vandermonde.ConsecutiveTransform | src/par2_rs.rs:355-421 | the transform exists and row_order is the identity |
| Constants.GeneratePar2Constants | src/par2_rs.rs:64-76 | the loop terminates with the first count constants; the counter stays within 32 bits |
| Constants.ConstantOrder | src/par2_rs.rs:64-76 | every constant has order exactly 65535 |
| Constants.ConstantExponentAt | src/par2_rs.rs:64-76 | the constants are the powers of 2 with exponents coprime to 65535, none left out, in order |
| Constants.SurvivorsTotient | src/par2_rs.rs:64-76 | sieving by primes leaves the fraction given by Euler's totient, by induction over the primes |
| Constants.ConstantsRepeat | src/par2_rs.rs:64-76 | after 32768 constants the list starts again |
| Constants.ConstantsEqual | src/par2_rs.rs:64-76 | two constants are equal if and only if their indices are equal modulo 32768 |
| Constants.ConstantsDistinct | src/par2_rs.rs:64-76 | the constants are pairwise distinct if and only if count <= 32768 |
| Encoding.Encode | src/par2_rs.rs:198-313 | the error cases in order, and otherwise as many recovery blocks as asked for, of the block size, with exponents 0, 1, 2, ..., each the combination of the data blocks with the powers of the constants |
| Streaming.StreamingEncoder.constructor | src/par2_rs.rs:687-771 | a new encoder satisfies the invariant with nothing submitted, zeroed buffers and the batch size of the source |
| Streaming.StreamingEncoder.ProcessBlock | src/par2_rs.rs:785-812 | recovery data plus buffered blocks stay the sum over everything submitted, where a short block counts as its start in front of the old end of its buffer; exactly one buffer changes; unknown indices are ignored |
| Streaming.StreamingEncoder.AddBuffered | src/par2_rs.rs:822-870 | adding the buffer, in recovery batches of any size and either layout, completes the sums over everything submitted, short blocks included |
| Streaming.StreamingEncoder.FlushBatch | src/par2_rs.rs:816-878 | the invariant is kept and the buffer emptied |
| Streaming.StreamingEncoder.Finalize | src/par2_rs.rs:880-902 | the recovery blocks are the sums over everything submitted, short blocks included, with exponents 0, 1, 2, ... |
| Streaming.SubmittedOnce | src/par2_rs.rs:785-902 | each block submitted once, in any order, sums up to the recovery block of plain encoding |
| Streaming.EncodeStreaming | src/par2_rs.rs:687-902 | for every order of the blocks, batch size and layout, streaming equals encode |
| ShortBlocks.EffectiveIsPadded | src/par2_rs.rs:785-806 | a short block counts as padded with zeros if and only if the rest of its buffer is zero or, in a chunk that is cut, reads as laid out, in either layout and for every length |
| ShortBlocks.ShortBlockExactly | src/par2_rs.rs:785-902 | the recovery blocks are those of the padded block if and only if the block fills up, for every exponent and everything submitted before |
| ShortBlocks.StaleTailRun | src/par2_rs.rs:785-902 | plain layout: a run of seventeen blocks whose recovery block is not that of the padded blocks, because the last block gets the tail of the first |
| ShortBlocks.UnalignedRun | src/par2_rs.rs:785-902 | shuffle2x layout: a run of one short block over a zeroed buffer whose recovery block is wrong |
| Reconstruction.ClearColumnInPlace | src/par2_rs.rs:373-400 | the in-place step, which touches only columns from k on and skips zeros, is the step of the specification |
| Reconstruction.Eliminate | src/par2_rs.rs:355-401 | the elimination loop computes the transform of the matrix or reports it singular |
| Reconstruction.ComputeReconstructionTransform | src/par2_rs.rs:319-422 | nothing missing, too few recovery blocks and a singular matrix are refused, in this order; otherwise the transform of the power matrix, and for every missing row and present block the constant of the block to the exponent of the recovery block in original row order |
| Reconstruction.ReplayInPlace | src/par2_rs.rs:617-655 | the two loops around row k replay the recorded steps |
| ChunkReconstruction.ReadRecovery | src/par2_rs.rs:486-498 | recovery chunks are placed through row_order; fails exactly when one of them cannot be read |
| ChunkReconstruction.UsedColumnsSuffice | src/par2_rs.rs:510-524 | leaving out columns that no row uses does not change a sum |
| ChunkReconstruction.StreamData | src/par2_rs.rs:526-603 | batches of eight sources in either layout add up to the whole sum; fails exactly when a used block cannot be read |
| ChunkReconstruction.ReconstructStreamingChunk | src/par2_rs.rs:442-675 | the chunks written are the replay of the sums, for every block count and batch, in both layouts; in every layout, clean or not: nothing missing is nothing to do, too few recovery blocks are refused, it fails exactly if a recovery chunk or a data chunk with a nonzero coefficient cannot be read, and otherwise returns one chunk for every missing block |
| Erasures.CombinePermuted | src/par2_rs.rs:785-812 | a combination does not depend on the order of its terms |
| Erasures.RestoredExactly | src/par2_rs.rs:486-655 | the missing blocks come out exactly when the present blocks contribute the same in original and in swapped row order |
| Erasures.RestoredInOrder | src/par2_rs.rs:442-675 | if row_order is the identity the missing blocks come out, for arbitrary exponents |
| Erasures.OrderMatters | src/par2_rs.rs:405-412 | all data is restored if and only if no row was swapped or nothing is present |
| Erasures.PermutedRestores | src/par2_rs.rs:565-571 | with coefficients permuted by row_order the missing blocks always come out |
| Erasures.OnlyGenuineRestores | src/par2_rs.rs:486-655 | where no swap does harm, the missing blocks come out if and only if the recovery rows that are used are genuine |
| Erasures.TransformExists | src/par2_rs.rs:319-422 | for consecutive exponents and any number of blocks the transform exists if and only if no two missing blocks are equal modulo 32768, and then row_order is the identity |
| Erasures.RepeatedConstantFails | src/par2_rs.rs:346-371 | two missing blocks equal modulo 32768 make the elimination fail, for every choice of exponents |
| LeadingMinors.SucceedsExactly | src/par2_rs.rs:355-421 | the elimination succeeds if and only if the matrix maps only zero to zero |
| LeadingMinors.NoSwapExactly | src/par2_rs.rs:361-401 | the elimination succeeds without a swap if and only if every leading square of the matrix is nonsingular |
| LeadingMinors.RestoredAllExactly | src/par2_rs.rs:405-412 | for any exponents whose transform exists, all data is restored if and only if every leading square of the matrix of powers is nonsingular or no data block is present |
| SwapExample.ReconstructsWrongly | src/par2_rs.rs:362-371 | a concrete transform that succeeds after a swap and restores wrong data, for every chunk length |
| RoundTrip.ChunkRestored | src/par2_rs.rs:442-675 | every even chunk of the missing blocks is written back byte for byte when no row was swapped |
| RoundTrip.TransformExactly | src/par2_rs.rs:319-422 | for any exponents the transform is Ok if and only if the matrix of powers is nonsingular, otherwise a singular matrix; it is harmless if and only if every leading square is nonsingular or nothing is present |
| RoundTrip.ConsecutiveSucceeds | src/par2_rs.rs:319-422 | for consecutive exponents the transform is Ok, and in order, if and only if no two missing blocks are equal modulo 32768; otherwise it is a singular matrix; up to 32768 blocks it is always Ok |
| RoundTrip.DecodeInvertsEncode | src/par2_rs.rs:198-675 | encode, lose any m blocks, keep any m consecutive recovery blocks: every chunk comes back byte for byte if no two missing blocks are equal modulo 32768, and otherwise the transform is refused as singular |
| RoundTrip.ParityIs | src/par2_rs.rs:198-313 | what encode returns, without its matrices: symbol x of recovery block e is the sum over all blocks of their symbol x times their constant to the power e |
| RoundTrip.FirstIsXor | src/par2_rs.rs:198-313 | the recovery block of exponent 0 is the xor of the data blocks |
| Pclmul.BlendedProducts | src/galois/simd/x86/pclmul.rs:114-135 | after blending, each pair of lanes holds the product of one pair of symbols: cross terms fall only in lanes that are blended away |
| Pclmul.BarrettExact | src/galois/simd/x86/pclmul.rs:136-166 | the shift-and-xor quotient is exact for all 65536 high halves |
| Pclmul.GfMulPclmul8Correct | src/galois/simd/x86/pclmul.rs:114-169 | each of the eight lanes holds the field product of the matching lanes |
| Pclmul.GfMulSlicePclmul | src/galois/simd/x86/pclmul.rs:173-202 | every symbol of a slice of any length is multiplied |
| Pclmul.GfMuladdPclmul | src/galois/simd/x86/pclmul.rs:205-236 | equals the scalar multiply-add for slices of any lengths |
| Ssse3.LookupHighNibble | src/galois/simd/x86/sse.rs:238-242 | what the 64-bit shift moves in from the byte above is masked away |
| Ssse3.RegisterProduct | src/galois/simd/x86/sse.rs:230-265 | the register holds the product of each of its eight symbols |
| Ssse3.GfMulSliceSsse3 | src/galois/simd/x86/sse.rs:190-275 | a slice of any length is multiplied, zero and one included |
| Ssse3.GfMuladdSsse3 | src/galois/simd/x86/sse.rs:281-362 | equals the scalar multiply-add, as far as both slices reach |
| Scalar.GfMulSlice | src/galois/scalar.rs:11-20 | the in-place loop scales every symbol |
| Scalar.GfMuladd | src/galois/scalar.rs:22-33 | the in-place loop adds the product as far as both slices reach |
| Bytes.BytesToU16 | src/galois/scalar.rs:117-129 | bytes become little-endian symbols |
| Bytes.U16ToBytes | src/galois/scalar.rs:131-145 | symbols become little-endian bytes |
| Bytes.BytesOfSymbols | src/galois/scalar.rs:117-145 | the two conversions are inverse on an even number of bytes |
| Shuffle2x.PrepareShuffle2x | src/galois/simd/x86/avx2.rs:571-600 | the loop lays out every whole chunk and leaves the remainder |
| Shuffle2x.FinishShuffle2x | src/galois/simd/x86/avx2.rs:601-630 | the loop undoes the layout chunk by chunk |
| Shuffle2x.FinishPrepare | src/galois/simd/x86/avx2.rs:571-630 | finishing undoes preparing for every length |
| Shuffle2x.PrepareFinish | src/galois/simd/x86/avx2.rs:571-630 | preparing undoes finishing for every length |
| Shuffle2x.MuladdPrepared | src/galois/simd/x86/avx2.rs:632-677 | multiply-add on prepared rows is the prepared multiply-add, for every length and factor |
| Shuffle2x.GfMuladdNativeShuffle2x | src/galois/simd/x86/avx2.rs:632-677 | the in-place loops compute the multiply-add as far as both slices reach, for any lengths; on prepared rows of the same length, the prepared multiply-add |
| Regions.MuladdBlockRegions | src/galois/region/mod.rs:195-222 | in the plain layout every region size gives the whole accumulation |
| Regions.NativeRegionsAligned | src/galois/region/mod.rs:225-246 | in the shuffle2x layout aligned regions accumulate prepared rows as a whole |
| Regions.AlignmentMatters | src/galois/region/mod.rs:225-246 | the region loop is right on all inputs if and only if no region boundary splits a chunk of 16 symbols |
| NativeLoops.NativeBatch | src/galois/simd/x86/avx2.rs:686-821 | a batch of sources, skipping zero coefficients, chunk by chunk and then the remainder, is the sum of the batch |
| NativeLoops.MuladdBlockRegionsShuffle2x | src/galois/region/mod.rs:225-246 | the loops over regions, destinations and source batches compute the region function, for every region size |
| Neon.ByteProductIsMul | src/galois/arm.rs:211-259 | a byte product needs no reduction |
| Neon.Karatsuba | src/galois/arm.rs:211-259 | three byte products make the product of two symbols |
| Neon.NoCarry | src/galois/arm.rs:261-337 | no product of two bytes reaches x^15 |
| Neon.TopBitClear | src/galois/arm.rs:261-337 | the top bit of a product is clear, which the reduction needs |
| Neon.ReductionExact | src/galois/arm.rs:261-337 | the byte-split reduction folds x^16 away for every high half with a clear top bit |
| Neon.SymbolProduct | src/galois/arm.rs:211-337 | Karatsuba followed by the reduction is the field product, lane by lane |
| Neon.MulPlanesProduct | src/galois/arm.rs:379-416 | sixteen symbols, de-interleaved, multiplied, reduced and interleaved again, are scaled |
| NeonLoops.GfMulSliceNeon | src/galois/arm.rs:354-433 | a slice of any length is multiplied |
| NeonLoops.GfMuladdNeon | src/galois/arm.rs:435-513 | equals the scalar multiply-add for slices of any lengths |
| NeonLoops.GfMuladdMultiNeon | src/galois/arm.rs:515-637 | many sources into one destination equal the whole accumulation |
| NeonLoops.GfMuladdColumnNeon | src/galois/arm.rs:639-753 | one source into up to eight destinations equals the scalar multiply-adds |
| LittleEndian.ReadBack | src/writer.rs:92-124 | numbers that fit their field are read back |
| LittleEndian.FromBytesInjective | src/parser.rs:556-571 | different IDs are different numbers |
| FileIds.CmpFileIdPar2 | src/parser.rs:556-571 | comparing byte 15 first is comparing little-endian numbers, hence a total order |
| FileIds.SortPermuted | src/parser.rs:575-603 | sorting distinct keys gives the same list from any order |
| FileIds.RankKeyCompares | src/parser.rs:575-603 | the two-level comparison by rank and then ID is one total order |
| FileIds.OrderAgreement | src/parser.rs:575-603 | the numbering order of create, the Main packet's list and the loader's list from any order of packets are the same |
| FileIds.ReorderedExactly | src/parser.rs:575-603 | whatever files were found and whatever the Main packet lists: reordering loses and adds no file, listed files come before unlisted ones and by their place in the list, unlisted ones by ID |
| Packets.TypeRoundTrip | src/parser.rs:40-60 | the five packet types are told apart |
| Packets.PadToAlignment | src/writer.rs:75-89 | zeros are added up to a multiple of four |
| Packets.BuildMainPacketBody | src/writer.rs:142-173 | the body is block size, count and IDs in canonical order, or an error when the count does not fit |
| Packets.BuildIfscBody | src/writer.rs:223-244 | the body is the file ID and 20 bytes for each block |
| Packets.ReadIds | src/parser.rs:646-676 | the loop reads the IDs of a Main body, as many as are counted and there |
| Packets.ReadChecksums | src/parser.rs:751-791 | the loop reads the whole 20-byte entries of a checksum body |
| Packets.MainReadBack | src/parser.rs:646-676 | a padded Main body is parsed to block size and ordered IDs |
| Packets.FileDescReadBack | src/parser.rs:679-724 | a padded file description is parsed to the same description, for names without zero bytes |
| Packets.IfscReadBack | src/parser.rs:751-791 | a checksum body is parsed to the same checksums |
| Packets.CutIfscParsed | src/parser.rs:751-791 | a checksum body that is cut inside an entry is parsed without an error, as the list of the entries before it |
| Layouts.NumberOfBytes | src/writer.rs:92-124 | a number on file is its bytes, lowest first |
| Layouts.PacketWritten | src/writer.rs:92-263 | byte by byte, what is written: header with magic, length, MD5 of everything from the set ID on, set ID and type name at their positions; Main: block size at 0..8, count at 8..12, IDs from 12; file description: ID at 0..16, MD5 at 16..32, MD5 of the first 16 KiB at 32..48, length at 48..56, name and a zero; checksums: ID at 0..16, then MD5 and CRC32 at 16 + 20 i; recovery: exponent at 0..4, then the data; zeros up to a multiple of four |
| Layouts.MainParsed | src/parser.rs:646-676 | any bytes as a Main body: refused exactly below 8 bytes, otherwise block size at 0..8 and as many IDs from 12 on as the count at 8..12 says and the body has |
| Layouts.FileDescParsed | src/parser.rs:679-724 | any bytes parse to a file description if and only if they have its layout; refused exactly below 56 bytes |
| Layouts.IfscParsed | src/parser.rs:751-791 | any bytes parse to checksums if and only if they have their layout; refused exactly below 16 bytes |
| Scanner.ScanLoop | src/parser.rs:205-383 | the packet loop computes the scan, whose meaning on arbitrary bytes is `ScanFacts.ScanSound`, `ScanMixed` and `BrokenSkipped`; the position grows on every input |
| Scanner.PacketScanned | src/parser.rs:205-383 | a written packet is one step that takes what was written |
| Scanner.GarbageSkipped | src/parser.rs:230-235 | bytes that contain no magic, even across their end, are passed over |
| Scanner.ScanWritten | src/parser.rs:205-383 | the scan of packets with garbage in between visits exactly the packets and takes each once |
| ScanFacts.ScanSound | src/parser.rs:205-383 | whatever a file holds: every file, checksum list, block size and file order taken from it stands at its layout positions in a packet of the right type whose MD5 is right, every recovery block in a recovery packet with room for it, the list of files has each file of the map once, and the set ID stands in a header |
| ScanFacts.CorruptSkipped | src/parser.rs:322-332 | a packet other than a recovery packet whose stored MD5 is not that of set ID, type and body is passed over as a whole, and files, list, checksums, order, block size and recovery blocks stay as they were |
| ScanFacts.BrokenSkipped | src/parser.rs:248-283 | a header with an impossible length, or of a recovery packet too short for its exponent, is passed over byte by byte, so that the next packet is found |
| ScanFacts.RecoveryUnchecked | src/parser.rs:270-303 | a recovery packet is taken, put off or passed over by its length and the block size alone, whatever its MD5 |
| ScanFacts.ScanMixed | src/parser.rs:205-383 | among written packets, corrupted packets and other bytes, in any order, the scan visits exactly the packets and takes nothing but a set ID from the corrupted ones |
| ScanFacts.GoodOnesTaken | src/parser.rs:205-383 | what is taken from such a file is what its good packets alone would give |
| ScanFacts.RepeatedDescriptions | src/parser.rs:351-365 | of a file described more than once the map has the last description, the list the first one and only once |
| ScanFacts.RepeatedMetadata | src/parser.rs:338-375 | the last block size and the last checksums of a file count, and the first list of files |
| Archive.ParseVolumeFile | src/parser.rs:793-884 | the loop collects the recovery packets of a volume |
| Archive.Load | src/parser.rs:181-547 | each error exactly when its condition holds, in order; what is loaded stands in intact packets of the index file, and every recovery block in a recovery packet of the index or of a volume whose first 64 bytes are a header with the set ID of the index; that is the ID in the first header of the index |
| Archive.FirstHeaderTaken | src/parser.rs:230-240 | the set ID of an index file is that of its first header, whatever follows |
| Archive.EarlyOrLate | src/parser.rs:270-303 | every recovery block is before or after the first Main packet |
| Archive.RecoveriesLoaded | src/parser.rs:407-431 | each recovery block is found once with its exponent and data, whether before or after the Main packet |
| Creation.SplitIntoVolumes | src/volumes.rs:90-208 | no recovery block is lost, repeated or moved; volumes hold exactly 1, 2, 4, ..., 512 and then 1024 blocks, only the last may be short, and name their exponents |
| Creation.WriteFile | src/creator.rs:490-524 | creator, Main, descriptions, checksums and recovery packets, in order, each with its layout byte by byte, under one set ID |
| Creation.SetIdOfMain | src/writer.rs:65-72 | the set ID is the MD5 of the body of the Main packet as it is written |
| Loading.VolumeScanWritten | src/parser.rs:793-884 | the recovery blocks of a written volume, with garbage in between, are found and read back |
| Loading.FileScanned | src/parser.rs:205-431 | a created file is scanned to its block size, files, checksums, order and recovery blocks |
| Loading.CreatedArchiveLoads | src/parser.rs:181-547 | an index file with volumes of the set in any order, and files of other sets or of anything else among them, loads to the metadata written, the files in numbering order, and exactly the recovery blocks of index and volumes, each once |
| Loading.OtherArchiveForeign | src/parser.rs:462-471 | the files of another archive count as foreign if and only if its set ID is another one |
| Loading.AnyVolumesLoad | src/parser.rs:181-547 | whatever the volume files hold, the metadata is that of the index file, its recovery blocks come first, and every recovery block found has a 32-bit exponent |
| Loading.MapsFind | src/parser.rs:351-372 | every file is found under its ID, and its checksums if it has any |
| Creator.CutBlock | src/creator.rs:384-395 | block b of a file, byte by byte, and zeros from the end of the file on |
| Creator.GlobalBlock | src/creator.rs:376-420 | the running block number is the number that the repair gives the block |
| Creator.EncodeFile | src/creator.rs:381-443 | each block of the file is submitted under its global number, and its checksums listed |
| Creator.CreateParity | src/creator.rs:303-448 | the recovery blocks are the encoding of all padded blocks in numbering order, and every file has its checksums; refused exactly if data blocks, recovery blocks or their sum exceed 65535 |
| BlockNumbering.NumberBlocks | src/repair.rs:498-511 | every file gets its extent, and the total is the sum |
| BlockNumbering.HoldsOnce | src/repair.rs:498-511 | no block belongs to two files |
| BlockNumbering.PlaceOfLocal | src/repair.rs:712-718 | block local of file i is numbered start + local, and leads back to it |
| BlockNumbering.BuildBlockToFile | src/repair.rs:712-718 | the reverse map, built in any order of files, has exactly the blocks below the total, each at its place |
| BlockNumbering.ListDamage | src/repair.rs:536-559 | all blocks of missing files, listed or all blocks of damaged files |
| BlockNumbering.DamagedOrGood | src/repair.rs:697-703 | damaged and good blocks together are all blocks, each once |
| RepairChunks.ChunkSize | src/repair.rs:644-677 | the chunk size is even, at least two and no larger than the block |
| RepairChunks.ChunkSizeBounds | src/repair.rs:644-677 | a block of at most 4096 bytes is one chunk, larger ones have chunks of at least 4096 bytes, and a minimum asked for is respected up to one byte, for any CPU count and ideal size |
| RepairChunks.ChunkOfByte | src/repair.rs:268-269 | every byte of a block is in exactly one chunk |
| RepairChunks.CopyOriginalIntoTemp | src/repair.rs:85-110 | as much of the original as fits is copied, the rest of the temp is unchanged |
| Disk.SetupTemps | src/repair.rs:764-806 | temps are created at their paths, missing files first, and seeded from what the damaged files hold at that moment; fails exactly if a damaged file cannot be opened then |
| Disk.SetUpOnlyTemps | src/repair.rs:764-806 | creating the temps changes no other path, whatever the names are |
| Disk.ReadsKept | src/repair.rs:820-827 | if no temp lies on a file of the set, the files are read as they were before the temps were created |
| Disk.SetUpSeeds | src/repair.rs:764-806 | if moreover no two temps coincide, every missing and damaged file has a temp of its length, seeded from what the file held |
| Disk.ClashedRead | src/repair.rs:748-827 | if the temp of a missing file lies on another file of the set, that file is read as zeros, whatever it held |
| Disk.WriteChunks | src/repair.rs:983-1011 | the seek-and-write loop applies the writes to the temps at their paths, in order, cut off at the file length, and touches no other path |
| Disk.WritesView | src/repair.rs:983-1011 | if no two temps coincide, writing through paths is writing to the temps by file ID |
| Disk.CleanExactly | src/creator.rs:119-124 | the names of a set are clear for every possible damage if and only if they are all different and none is the temp name of another |
| Rebuild.ReaderReads | src/repair.rs:274-402 | if every bad block is listed, the chunks read are slices of the pristine blocks and of the recovery blocks |
| Rebuild.WritesRight | src/repair.rs:983-1011 | pristine writes make every byte they cover right, whatever was there, and spoil none |
| Rebuild.DamagedByteCovered | src/repair.rs:983-1011 | every byte of a damaged block is covered by a chunk of it |
| Rebuild.SeedRight | src/repair.rs:780-799 | the bytes of undamaged blocks are right in the seeded temp |
| Repair.ProcessChunk | src/repair.rs:252-441 | for a repairable job the chunk writes are the pristine bytes of the damaged blocks, in order |
| Repair.ReconstructChunks | src/repair.rs:979-1011 | the results of all chunks together are all writes that are needed |
| Repair.SalvageableTransforms | src/repair.rs:845-870 | the transform of a salvageable job is found without a harmful swap if and only if the job is regular, and not found if and only if it is singular |
| Repair.ConsecutiveRegular | src/repair.rs:584-604 | for consecutive exponents a job is regular if and only if no two damaged blocks are equal modulo 32768, and singular otherwise |
| Repair.RepeatedExponentFails | src/repair.rs:584-604 | an exponent that occurs twice among the lowest ones that are used makes the transform fail |
| Repair.RepairFiles | src/repair.rs:472-1041 | from any disk: a salvageable job whose exponents, any exponents, are regular and whose temps lie apart ends with a pristine temp for exactly the missing and damaged files; singular exponents are refused; nothing but temps ever changes; too many blocks are reported exactly if data blocks, recovery blocks or their sum exceed 65535; nothing to do without damage; block size, too few recovery blocks and repeated exponents are refused |
| Repair.AlignedLayout | src/galois/region/mod.rs:50-61 | a region size that is a multiple of 16 symbols fits every block and chunk size |
| CreateRepair.LowestChosen | src/repair.rs:584-604 | if the lowest m exponents found, in any order and with anything above them, are s, s + 1, ..., then exactly these are used |
| CreateRepair.CreatedIsSalvageable | src/repair.rs:472-604 | create, lose blocks, keep at least as many recovery blocks, of which those with the lowest exponents are as created: the job is salvageable, whatever the others hold |
| CreateRepair.LowestRepairable | src/repair.rs:584-604 | if the lowest exponents found are consecutive, the job is repairable if and only if no two damaged blocks are equal modulo 32768, hence always up to 32768 blocks |
| Verification.VerifyFileBlocks | src/verify.rs:548-654 | batched reading and checking returns, in increasing order, exactly the blocks that fail the simple check, for every batch size and every limit on what one read returns; only cancellation stops it, and a set flag does by the time four MiB have been read |
| Verification.VerifyReconstructedFile | src/verify.rs:525-743 | with the checksums of all blocks, accepted if and only if it is the pristine file, collisions of a block with the one it stands for set aside; without checksums, if and only if it is the pristine file, unless the MD5s of the two collide; a wrong length and, without checksums, a wrong MD5 are refused |
| Verification.AcceptedIsPristine | src/verify.rs:525-539 | with the full list of checksums a file is accepted if and only if it is the pristine file, unless one of its blocks collides in both checksums with the very block it stands for |
| Verification.AcceptedPrefix | src/verify.rs:548-654 | with the checksums of the first k blocks exactly the files of the right length that agree with the pristine file on those blocks are accepted |
| Verification.FullListNeeded | src/verify.rs:548-571 | a list of the first k checksums identifies the file if and only if k is the number of its blocks |
| Verification.ShortListAccepts | src/verify.rs:548-571 | for every shorter list, the file with its last byte changed is accepted, whatever the checksums are |
| FileChecks.VerifyFiles | src/verify.rs:87-514 | exact, for whatever files the set was made from and whatever the disk holds, collisions set aside: missing are the files not there, damaged those that differ, and a block is listed if and only if its file is missing, or differs and the block differs, or no block does or its checksums are lost |
| FileChecks.FindingsAreRight | src/verify.rs:398-470 | the same of the findings as a function of disk and file set, where each file may have its checksums or have lost them |
| FileChecks.WrongBlocksListed | src/repair.rs:547-558 | in a file of the right length with checksums exactly the blocks that differ are listed |
| FileChecks.OkIsPristine | src/verify.rs:116-160 | a file passes if and only if it is the pristine file, with or without block checksums |
| FileChecks.UnlistedUndamaged | src/repair.rs:536-559 | every block that the findings do not list is intact on the disk, for anything the disk may hold |
| FileChecks.ListedOnce | src/repair.rs:536-559 | no block is listed twice, and only blocks of the set are listed |
| CommitProtocol.RunIsSafe | src/repair.rs:736-1125 | without clashes, in every state of every run each final path holds verified content if it counts as replaced and its old content otherwise, the files to keep hold theirs, and nothing but temps and final paths changes |
| CommitProtocol.RunEnds | src/repair.rs:1038-1125 | aborted means nothing replaced, committed means everything replaced by verified content, a failed rename splits the files exactly at that rename |
| CommitProtocol.NoAbortAfterRenaming | src/repair.rs:1098-1125 | once renaming has begun the run cannot end as cancelled |
| CommitProtocol.CanCancel | src/repair.rs:804-1094 | at each moment at which the flag is looked at, in every run, a cancel can end it with no temp left and everything else as it was; without clashes, as it was in the beginning |
| CommitProtocol.CanFailRename | src/repair.rs:1098-1125 | any rename may fail, and then the temps from it on can be removed and nothing else changes |
| CommitProtocol.SafeExactly | src/repair.rs:748-762 | over all names of the set: every state of every run from every file system is safe if and only if no name is the temp name of a file to replace, and each final name differs from every other name or nothing at all passes verification |
| CommitProtocol.SafeForAllContents | src/repair.rs:748-762 | for names alone, of files to replace and to keep: safe whatever verification accepts if and only if no names clash |
| CommitProtocol.TempClashUnsafe | src/repair.rs:736-806 | a name of the set, replaced or kept, that is the temp name of a file to replace: from every file system a run leads to an unsafe state |
| CommitProtocol.KeptFileLost | src/repair.rs:60-78 | "x" to replace beside "x.par2tmp" to keep: whatever is verified and whatever the file system holds, a run overwrites the kept file |
| CommitProtocol.NameClashUnsafe | src/repair.rs:1098-1125 | a final name that is also another name of the set, replaced or kept: from every file system that does not hold the new contents already, a run leads to an unsafe state |
| CommitProtocol.PathsSafeExactly | src/repair.rs:736-1125 | path by path, duplicates allowed: in all runs every final path holds its old or an accepted content, and all other files theirs, if and only if no name of the set is the temp name of a file to replace |
| CommitProtocol.CanCommit | src/repair.rs:736-1125 | without clashes, contents that pass verification can be committed from any file system, so the safety results are not empty |
| CommitProtocol.InstallsWhatWasWritten | src/repair.rs:1038-1125 | a run that commits leaves at every final path exactly what its temp held when the writes were done |
| Workers.RangesApart | src/repair.rs:899-914 | the ranges of two threads have no chunk in common |
| Workers.WrittenOnce | src/repair.rs:891-970 | in every interleaving no result cell is written twice |
| Workers.FinishedWithoutCancel | src/repair.rs:972-988 | if no worker saw the flag, every cell is filled exactly once when all are done, so "was not processed" cannot happen |
| Workers.StoresAfterCancel | src/repair.rs:933-956 | once the flag is set, a worker stores at most the chunk it has already begun, and one that ends before the end of its range reports the cancel |
| Workers.CancelIsReal | src/repair.rs:933-941 | a cancel is reported only if the flag was set |
| Workers.NoDeadlock | src/repair.rs:907-970 | a worker that is not done can always move |
| EndToEnd.CreateAndLoad | src/creator.rs:261-536 | create, write index and volumes, let anything happen to the volumes, load: the file set describes the pristine files, with all checksums; if what is left are volumes, lost or copied, and files of other sets, every recovery block found is one that was created |
| EndToEnd.VerifiedIsRepairable | src/repair.rs:472-604 | what the verification of any disk finds, together with enough recovery blocks, makes the job repairable |
| EndToEnd.ConsecutiveEnough | src/repair.rs:584-604 | if all recovery blocks found are created ones and their lowest exponents consecutive, enough is left if and only if no two damaged blocks are equal modulo 32768 |
| EndToEnd.PristineCommits | src/repair.rs:1038-1125 | pristine temps beside right files, with clear names: the commit succeeds in some run from the disk as it is, every committing run leaves every file of the set pristine at its path, and every state of every run is safe |
| EndToEnd.ClearExactly | src/repair.rs:736-806 | the commit of a set has no clash, over replaced and kept files, if and only if the names are clear |
| EndToEnd.CreateLoseRepair | src/repair.rs:472-1125 | create, let anything happen to volumes and disk, load, verify, repair: exactly what differs is found; if enough is left and the names are clear, the commit can succeed, every committing run leaves every file of the set, replaced or kept, pristine at its path, and no run harms a kept file |

## Left out

- CommitProtocol.RunIsSafe: does not say that temps are gone after an abort, because removing them is best effort in the source (`CommitProtocol.CanCancel` says that they can be); a temp whose `set_len` fails before it is registered stays behind as well.
- CommitProtocol.NoAbortAfterRenaming: renames are modelled in the order of the file list; the source goes through a hash map in some order, which the list stands for.
- Repair.RepairFiles: takes the chunks one after the other, without cancellation and without write errors; interleavings are in `Workers`, cancellation and errors in `CommitProtocol`, verification of the temps in `Verification`.
- ChunkReconstruction.StreamData: for region sizes that split a chunk of the shuffle2x layout it only says when the chunk fails, not what the wrong bytes are; `Regions.AlignmentMatters` is the exact condition.
- ChunkReconstruction.ReconstructStreamingChunk: the same.
- FileChecks.VerifyFiles: without files under other names, cancellation and read errors; the order of the hash map and the order in which the parallel checks end are parameters.
- EndToEnd.CreateLoseRepair: a file without bytes that is missing is reported but not created when nothing else is damaged, as for `Repair.RepairFiles`; the index file is intact.
- Disk.SetupTemps: paths are compared as byte strings below one base directory, so that links, case-insensitive file systems and other spellings of a path are not seen; the archive files are kept apart from the files of the set.
- Repair.RepairFiles: a missing file without bytes has no blocks, so with no other damage the source returns before it would create the file; the outcome is then `NothingDamaged`.
- Rebuild.ReaderReads: a chunk read is complete or ends at the end of the file; the source asks the system once per chunk and fills up with zeros.
- Streaming.StreamingEncoder.ProcessBlock: a block longer than the block size makes the source panic, which is a precondition here.
- Constants.GeneratePar2Constants: for counts up to 2147450880, where the 32-bit counter of the source ends; the source is called with at most 65535.
- GaloisTables.Tables.GfPow: a usize of 64 bits.
- Regions.MuladdBlockRegions: destinations are rows of a matrix value, so that two destinations cannot share memory; likewise for accumulators, temps and encoder buffers.
- Creation.SplitIntoVolumes: volume file names and their padding; the Single scheme without recovery blocks, on which the source indexes an empty list.
- Archive.Load: file names are byte sequences (the source replaces invalid UTF-8).
- Creator.CreateParity: file hashes and IDs are computed elsewhere; the number of recovery blocks is a parameter, because the source gets it from a floating-point percentage; files do not change while they are read.
- MD5 and CRC32 themselves (`src/hash`).
- `src/galois/streaming.rs`: not used by create or repair.
- Converting AVX2 multiply and multiply-add, the 256-bit PCLMUL forms, the region forms of the x86 strategies other than shuffle2x, SSE2 loops and the nibble-table NEON slice: the same tables, products and loops as in the forms that are modelled.
- Run-time dispatch between SIMD strategies, buffer pools, thread pools, CPU detection, progress and message callbacks, binaries.
- Choosing a block size (`calculate_block_size`), finding renamed files by content in the second pass of `src/verify.rs`, and reporting (`src/info.rs`).
