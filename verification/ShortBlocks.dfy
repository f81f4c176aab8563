/**
 Short blocks and the streaming encoder (`process_block`, src/par2_rs.rs).  A short block is
 copied to the start of a buffer that is used again and again, and in the shuffle2x layout only
 that start is laid out.  `ShortBlockExactly` says when the recovery blocks are nevertheless
 those of the block padded with zeros; `StaleTailRun` and `UnalignedRun` are runs where they
 are not.
 */
module ShortBlocks {
  import opened GaloisField
  import opened Primitive
  import opened GaloisTables
  import opened LinearAlgebra
  import opened Vandermonde
  import opened Constants
  import opened Scalar
  import opened Bytes
  import opened NibbleTables
  import opened Shuffle2x
  import opened Regions
  import opened Encoding
  import opened Reconstruction
  import opened ChunkReconstruction
  import opened Streaming

  function Padded(block: Row, w: nat): (r: Row)
    requires |block| <= w
    ensures |r| == w
  {
    block + ZeroRow(w - |block|)
  }

  /** The buffer holds zeros from n on. */
  predicate ZeroFrom(buffer: Row, n: nat) {
    forall k :: n <= k < |buffer| ==> buffer[k] == 0
  }

  /** The block ends inside a chunk that the layout of the whole buffer takes apart. */
  predicate CutsChunk(shuffle: bool, n: nat, w: nat) {
    shuffle && n % 16 != 0 && n / 16 < w / 16
  }

  /**
   The 32 bytes of a chunk are those of its first symbols in the shuffle2x layout: their low bytes
   first, their high bytes from byte 16 on, zeros elsewhere.
   */
  predicate ReadsAsLaidOut(raw: Chunk, n: nat)
    requires n <= 16
  {
    forall j :: 0 <= j < 16 ==>
      && ByteOf(raw, j) == (if j < n then LoByte(raw[j]) else 0)
      && ByteOf(raw, j + 16) == (if j < n then HiByte(raw[j]) else 0)
  }

  function ByteOf(raw: Chunk, j: nat): Byte
    requires j < 32
  {
    ToBytes(raw)[j]
  }

  /**
   What makes a short block count as padded with zeros: zeros in the rest of the buffer or, where
   a chunk is cut, a chunk that happens to read as laid out, and zeros after it.
   */
  predicate FillsUp(shuffle: bool, block: Row, buffer: Row)
    requires |block| <= |buffer|
  {
    var n := |block|;
    if CutsChunk(shuffle, n, |buffer|) then
      var q := n / 16;
      ReadsAsLaidOut(block[16 * q..] + buffer[n..16 * q + 16], n - 16 * q) && ZeroFrom(buffer, 16 * q + 16)
    else ZeroFrom(buffer, n)
  }

  // ----- the row that is submitted

  /** A chunk of zeros is its own layout. */
  lemma ZeroChunk()
    ensures PrepareChunk(ZeroRow(16)) == ZeroRow(16)
  {
    hide PrepareChunk;
    ZeroBytes();
    PrepareChunkBytes(ZeroRow(16));
    assert Planar(ZeroRow(16)) == ToBytes(ZeroRow(16));
    SymbolsOfBytes(PrepareChunk(ZeroRow(16)));
    SymbolsOfBytes(ZeroRow(16));
  }

  lemma ZeroBytes()
    ensures LoByte(0) == 0 && HiByte(0) == 0
  {
  }

  /** The chunk in which the block ends reads as laid out exactly when it is the layout of the padded chunk. */
  lemma CutChunk(raw: Chunk, n: nat)
    requires n <= 16
    ensures ReadsAsLaidOut(raw, n) <==> raw == PrepareChunk(Padded(raw[..n], 16))
  {
    hide PrepareChunk, ToBytes, ToSymbols, LoByte, HiByte, ByteOf;
    ZeroBytes();
    var c: Chunk := Padded(raw[..n], 16);
    PrepareChunkBytes(c);
    SymbolsOfBytes(raw);
    SymbolsOfBytes(PrepareChunk(c));
    PlanarBytes(raw, c);
    forall j | 0 <= j < 16
      ensures LoByte(c[j]) == (if j < n then LoByte(raw[j]) else 0)
              && HiByte(c[j]) == (if j < n then HiByte(raw[j]) else 0)
    {
      assert c[j] == if j < n then raw[j] else 0;
    }
    if BytesAre(raw, c) {
      forall j | 0 <= j < 16
        ensures ByteOf(raw, j) == (if j < n then LoByte(raw[j]) else 0)
                && ByteOf(raw, j + 16) == (if j < n then HiByte(raw[j]) else 0)
      {
        assert ByteOf(raw, j) == LoByte(c[j]) && ByteOf(raw, j + 16) == HiByte(c[j]);
      }
    }
  }

  predicate BytesAre(raw: Chunk, c: Chunk) {
    forall j :: 0 <= j < 16 ==> ByteOf(raw, j) == LoByte(c[j]) && ByteOf(raw, j + 16) == HiByte(c[j])
  }

  lemma PlanarBytes(raw: Chunk, c: Chunk)
    ensures ToBytes(raw) == Planar(c) <==> BytesAre(raw, c)
  {
    hide ToBytes, LoByte, HiByte;
    if BytesAre(raw, c) {
      forall k | 0 <= k < 32
        ensures ToBytes(raw)[k] == Planar(c)[k]
      {
        var j := if k < 16 then k else k - 16;
        assert ByteOf(raw, j) == LoByte(c[j]) && ByteOf(raw, j + 16) == HiByte(c[j]);
      }
    }
  }

  /** Chunk i of the padded block. */
  lemma PaddedChunk(block: Row, w: nat, i: nat)
    requires |block| <= w && i < w / 16
    ensures i < |block| / 16 ==> ChunkAt(Padded(block, w), i) == ChunkAt(block, i)
    ensures i == |block| / 16 ==> ChunkAt(Padded(block, w), i) == Padded(block[16 * i..], 16)
    ensures i > |block| / 16 ==> ChunkAt(Padded(block, w), i) == ZeroRow(16)
  {
  }

  /** The layout of the padded block and the buffer agree on the whole chunks of the block. */
  lemma AgreesBelow(block: Row, buffer: Row, i: nat)
    requires |block| <= |buffer| && i < |block| / 16
    ensures ChunkAt(Prepare(Padded(block, |buffer|)), i) == ChunkAt(Buffered(true, block, buffer), i)
  {
    hide PrepareChunk, Prepare, Padded;
    PaddedChunk(block, |buffer|, i);
    ChunkOfPrepare(Padded(block, |buffer|), i);
    ChunkOfPrepare(block, i);
    assert ChunkAt(Buffered(true, block, buffer), i) == ChunkAt(Prepare(block), i);
  }

  /** Past the chunk in which the block ends, the layout of the padded block is zero. */
  lemma ZeroBeyond(block: Row, w: nat, k: nat)
    requires |block| <= k < w && (k >= 16 * (w / 16) || k / 16 > |block| / 16 || |block| % 16 == 0)
    ensures Prepare(Padded(block, w))[k] == 0
  {
    hide PrepareChunk;
    var i := k / 16;
    if i < w / 16 {
      hide Prepare;
      PaddedChunk(block, w, i);
      assert i == |block| / 16 ==> Padded(block[16 * i..], 16) == ZeroRow(16);
      ChunkOfPrepare(Padded(block, w), i);
      ZeroChunk();
      assert ChunkAt(Prepare(Padded(block, w)), i)[k - 16 * i] == Prepare(Padded(block, w))[k];
    }
  }

  /** The rest of a row after its whole chunks is not laid out. */
  lemma RestAsIs(row: Row, k: nat)
    requires 16 * (|row| / 16) <= k < |row|
    ensures Prepare(row)[k] == row[k]
  {
    hide PrepareChunk;
  }

  /** At a symbol of the block itself, outside a chunk that is cut. */
  lemma AgreesAt(block: Row, buffer: Row, k: nat)
    requires |block| <= |buffer| && k < |block|
    requires k / 16 < |block| / 16 || |block| / 16 >= |buffer| / 16
    ensures Prepare(Padded(block, |buffer|))[k] == Buffered(true, block, buffer)[k]
  {
    hide PrepareChunk, Prepare;
    var i := k / 16;
    if i < |block| / 16 {
      AgreesBelow(block, buffer, i);
      hide Padded, Buffered;
      assert ChunkAt(Prepare(Padded(block, |buffer|)), i)[k - 16 * i] == Prepare(Padded(block, |buffer|))[k];
      assert ChunkAt(Buffered(true, block, buffer), i)[k - 16 * i] == Buffered(true, block, buffer)[k];
    } else {
      RestAsIs(Padded(block, |buffer|), k);
      RestAsIs(block, k);
    }
  }

  /** No chunk is cut: the buffer is the layout of the padded block exactly when its rest is zero. */
  lemma UncutExactly(block: Row, buffer: Row)
    requires |block| <= |buffer| && !CutsChunk(true, |block|, |buffer|)
    ensures Buffered(true, block, buffer) == Prepare(Padded(block, |buffer|)) <==> ZeroFrom(buffer, |block|)
  {
    hide Prepare, Padded;
    var (n, w) := (|block|, |buffer|);
    var (b, p) := (Buffered(true, block, buffer), Prepare(Padded(block, w)));
    forall k | 0 <= k < n
      ensures b[k] == p[k]
    {
      AgreesAt(block, buffer, k);
    }
    forall k | n <= k < w
      ensures p[k] == 0 && b[k] == buffer[k]
    {
      ZeroBeyond(block, w, k);
    }
  }

  /** A chunk is cut: that chunk must read as laid out, and the rest after it be zero. */
  lemma CutExactly(block: Row, buffer: Row)
    requires |block| <= |buffer| && CutsChunk(true, |block|, |buffer|)
    ensures Buffered(true, block, buffer) == Prepare(Padded(block, |buffer|)) <==> FillsUp(true, block, buffer)
  {
    hide Prepare, Padded, PrepareChunk, ReadsAsLaidOut;
    var (n, w, q) := (|block|, |buffer|, |block| / 16);
    var (b, p) := (Buffered(true, block, buffer), Prepare(Padded(block, w)));
    var raw := block[16 * q..] + buffer[n..16 * q + 16];
    forall k | 0 <= k < 16 * q
      ensures b[k] == p[k]
    {
      AgreesAt(block, buffer, k);
    }
    forall k | 16 * q + 16 <= k < w
      ensures p[k] == 0 && b[k] == buffer[k]
    {
      ZeroBeyond(block, w, k);
    }
    RawChunk(block, buffer);
    PaddedChunk(block, w, q);
    ChunkOfPrepare(Padded(block, w), q);
    assert raw[..n - 16 * q] == block[16 * q..];
    CutChunk(raw, n - 16 * q);
    ThreeParts(b, p, 16 * q, 16 * q + 16);
    assert p[16 * q..16 * q + 16] == PrepareChunk(Padded(raw[..n - 16 * q], 16));
    SuffixZero(b, p, buffer, 16 * q + 16);
  }

  lemma SuffixZero(b: Row, p: Row, buffer: Row, y: nat)
    requires |b| == |p| == |buffer| && y <= |b| && forall k :: y <= k < |b| ==> p[k] == 0 && b[k] == buffer[k]
    ensures b[y..] == p[y..] <==> ZeroFrom(buffer, y)
  {
    var (u, v) := (b[y..], p[y..]);
    if u == v {
      forall k | y <= k < |b|
        ensures buffer[k] == 0
      {
        assert u[k - y] == v[k - y];
      }
    }
  }

  lemma ThreeParts(b: Row, p: Row, x: nat, y: nat)
    requires |b| == |p| && x <= y <= |b| && forall k :: 0 <= k < x ==> b[k] == p[k]
    ensures b == p <==> b[x..y] == p[x..y] && b[y..] == p[y..]
  {
    assert b[..x] == p[..x];
    assert b == b[..x] + b[x..y] + b[y..] && p == p[..x] + p[x..y] + p[y..];
  }

  lemma RawChunk(block: Row, buffer: Row)
    requires |block| <= |buffer| && CutsChunk(true, |block|, |buffer|)
    ensures var q := |block| / 16;
            Buffered(true, block, buffer)[16 * q..16 * q + 16] == block[16 * q..] + buffer[|block|..16 * q + 16]
  {
    hide Prepare;
    var (n, q) := (|block|, |block| / 16);
    forall k | 16 * q <= k < n
      ensures Prepare(block)[k] == block[k]
    {
      RestAsIs(block, k);
    }
    assert Prepare(block)[16 * q..] == block[16 * q..];
  }

  /** What is submitted for a short block is the block padded with zeros exactly when it fills up. */
  lemma EffectiveIsPadded(shuffle: bool, block: Row, buffer: Row)
    requires |block| <= |buffer|
    ensures Effective(shuffle, block, buffer) == Padded(block, |buffer|) <==> FillsUp(shuffle, block, buffer)
  {
    hide FillsUp, Finish, Prepare, Buffered, Padded;
    var (b, p) := (Buffered(shuffle, block, buffer), Padded(block, |buffer|));
    LayUnlay(shuffle, b);
    LayUnlay(shuffle, p);
    if !shuffle {
      PlainExactly(block, buffer);
    } else if CutsChunk(true, |block|, |buffer|) {
      CutExactly(block, buffer);
    } else {
      UncutExactly(block, buffer);
      UncutFills(block, buffer);
    }
  }

  lemma UncutFills(block: Row, buffer: Row)
    requires |block| <= |buffer| && !CutsChunk(true, |block|, |buffer|)
    ensures FillsUp(true, block, buffer) <==> ZeroFrom(buffer, |block|)
  {
  }

  lemma PlainExactly(block: Row, buffer: Row)
    requires |block| <= |buffer|
    ensures Buffered(false, block, buffer) == Padded(block, |buffer|) <==> FillsUp(false, block, buffer)
  {
    var (b, p) := (Buffered(false, block, buffer), Padded(block, |buffer|));
    if ZeroFrom(buffer, |block|) {
      assert b == p;
    }
    if b == p {
      forall k | |block| <= k < |buffer|
        ensures buffer[k] == 0
      {
        assert b[k] == p[k];
      }
    }
  }

  // ----- the sums

  /** Different rows for a block give different sums, for every exponent. */
  lemma SumTellsApart(constants: Row, subs: seq<Submission>, i: nat, row: Row, other: Row, e: nat, w: nat)
    requires Submissions(subs, |constants|, w) && i < |constants| && |row| == |other| == w && constants[i] != 0
    ensures SubmittedSum(constants, subs + [Submission(i, row)], e, w)
            == SubmittedSum(constants, subs + [Submission(i, other)], e, w)
            <==> row == other
  {
    hide Mul, Add, Pow;
    var (a, b) := (subs + [Submission(i, row)], subs + [Submission(i, other)]);
    assert a[..|subs|] == subs && b[..|subs|] == subs;
    var (sum, c) := (SubmittedSum(constants, subs, e, w), Pow(constants[i], e));
    PowNonzero(constants[i], e);
    if MulAdd(sum, row, c) == MulAdd(sum, other, c) {
      forall k | 0 <= k < w
        ensures row[k] == other[k]
      {
        assert MulAdd(sum, row, c)[k] == MulAdd(sum, other, c)[k];
        AddSame(sum[k], Mul(row[k], c), Mul(other[k], c));
        MulCancel(row[k], other[k], c);
      }
    }
  }

  lemma AddSame(a: Symbol, b: Symbol, c: Symbol)
    requires Add(a, b) == Add(a, c)
    ensures b == c
  {
    hide Add;
    AddComm(a, b);
    AddComm(a, c);
    AddCancel(b, a);
    AddCancel(c, a);
  }

  /**
   After a short block every recovery block holds the sum for the block padded with zeros, exactly
   when the block fills up.  If it does not, every recovery block is wrong.
   */
  lemma ShortBlockExactly(n: nat, subs: seq<Submission>, i: nat, shuffle: bool, block: Row, buffer: Row, e: nat)
    requires Submissions(subs, n, |buffer|) && i < n && |block| <= |buffer|
    ensures var (c, w) := (FirstConstants(n), |buffer|);
            SubmittedSum(c, subs + [Submission(i, Effective(shuffle, block, buffer))], e, w)
            == SubmittedSum(c, subs + [Submission(i, Padded(block, w))], e, w)
            <==> FillsUp(shuffle, block, buffer)
  {
    hide SubmittedSum, Effective, Padded, FillsUp, Constant;
    ConstantNonzero(i);
    EffectiveIsPadded(shuffle, block, buffer);
    SumTellsApart(FirstConstants(n), subs, i, Effective(shuffle, block, buffer), Padded(block, |buffer|), e, |buffer|);
  }

  // ----- two runs

  /**
   All blocks but the last are submitted as they are, the last one short: recovery block 0 is not
   that of the padded blocks.
   */
  lemma WrongRecovery(blocks: seq<seq<Byte>>, before: seq<Submission>, shuffle: bool, block: Row, buffer: Row,
                      r: Recovery)
    requires |blocks| > 0 && |block| <= |buffer| && Uniform(blocks, 2 * |buffer|)
    requires IndicesBelow(Consecutive(0, |blocks| - 1), |blocks|)
    requires before == InSubmissionOrder(AllSymbols(blocks), Consecutive(0, |blocks| - 1))
    requires AllSymbols(blocks)[|blocks| - 1] == Padded(block, |buffer|) && !FillsUp(shuffle, block, buffer)
    requires Submissions(before, |blocks|, |buffer|)
    requires var last := Submission(|blocks| - 1, Effective(shuffle, block, buffer));
             r == Recovery(0, ToBytes(SubmittedSum(FirstConstants(|blocks|), before + [last], 0, |buffer|)))
    ensures r != Encoded(FirstConstants(|blocks|), blocks, 1, 2 * |buffer|)[0]
  {
    hide FillsUp, Effective, Padded, ToBytes, ToSymbols, SubmittedSum, RecoveryRow, FirstConstants, AllSymbols,
         InSubmissionOrder, Consecutive;
    var (n, w, c, rows) := (|blocks|, |buffer|, FirstConstants(|blocks|), AllSymbols(blocks));
    ShortBlockExactly(n, before, n - 1, shuffle, block, buffer, 0);
    NextSubmission(rows, n - 1);
    AllSubmitted(rows);
    SubmittedOnce(c, rows, Consecutive(0, n), 0, w);
    var row := SubmittedSum(c, before + [Submission(n - 1, Effective(shuffle, block, buffer))], 0, w);
    SymbolsOfBytes(row);
    SymbolsOfBytes(RecoveryRow(c, 0, rows, w));
  }

  /** Sixteen blocks of two ones, and a block of a one and a zero. */
  function StaleExample(): (blocks: seq<seq<Byte>>)
    ensures |blocks| == 17 && Uniform(blocks, 4)
  {
    seq(17, i => if i < 16 then [1, 0, 1, 0] else [1, 0, 0, 0])
  }

  lemma StaleRows()
    ensures forall i :: 0 <= i < 16 ==> AllSymbols(StaleExample())[i] == [1, 1]
    ensures AllSymbols(StaleExample())[16] == [1, 0] == Padded([1], 2) && !FillsUp(false, [1], [1, 1])
  {
    JoinedOnes();
    hide Join;
    var ones: Row := [1, 1];
    assert ones[1] != 0;
  }

  lemma JoinedOnes()
    ensures Join(1, 0) == 1 && Join(0, 0) == 0
  {
  }

  /**
   Plain layout: the buffers are used again after sixteen blocks, and the seventeenth block, short
   of its last symbol, gets the last symbol of the first.
   */
  method StaleTailRun(t: Tables, mul128: seq<Lut>) returns (r: seq<Recovery>)
    requires t.Valid() && IsMul128(mul128)
    ensures |r| == 1 && r != Encoded(FirstConstants(17), StaleExample(), 1, 4)
  {
    hide FillsUp, Effective, Padded, ToBytes, ToSymbols, SubmittedSum, RecoveryRow, FirstConstants, StaleExample,
         AllSymbols, InSubmissionOrder, Consecutive, IsMul128, Tables.Valid, IsCoeffMatrix, Encoded;
    var ones: Row := [1, 1];
    var one: Row := [1];
    ghost var rows := AllSymbols(StaleExample());
    StaleRows();
    AllSubmitted(rows);
    NothingSubmitted(rows);
    var constants := GeneratePar2Constants(t, 17);
    var encoder := new StreamingEncoder(t, mul128, constants, 1, 4, 4, false, 1);
    for i := 0 to 16
      invariant encoder.Valid() && fresh(encoder) && |encoder.recoveryData| == 1
      invariant |encoder.batchIndices| == if i < 16 then i else 0
      invariant forall k :: 0 <= k < i ==> encoder.batchBuffers[k] == ones
      invariant IndicesBelow(Consecutive(0, i), 17) && encoder.submitted == InSubmissionOrder(rows, Consecutive(0, i))
    {
      NextSubmission(rows, i);
      PlainBuffer(ones, encoder.batchBuffers[|encoder.batchIndices|]);
      encoder.ProcessBlock(i, ones);
    }
    ghost var before := encoder.submitted;
    encoder.ProcessBlock(16, one);
    r := encoder.Finalize();
    WrongRecovery(StaleExample(), before, false, one, ones, r[0]);
  }

  lemma PlainBuffer(block: Row, buffer: Row)
    requires |block| == |buffer|
    ensures Buffered(false, block, buffer) == block
  {
  }

  /** One block: a symbol whose low byte is zero and whose high byte is one, and fifteen zeros. */
  function UnalignedExample(): (blocks: seq<seq<Byte>>)
    ensures |blocks| == 1 && Uniform(blocks, 32)
  {
    [[0, 1] + seq(30, _ => 0)]
  }

  lemma UnalignedRows()
    ensures AllSymbols(UnalignedExample())[0] == Padded([0x100], 16) && !FillsUp(true, [0x100], ZeroRow(16))
  {
    JoinedHigh();
    hide Join;
    assert AllSymbols(UnalignedExample())[0] == Padded([0x100], 16);
    var raw: Chunk := [0x100] + ZeroRow(16)[1..];
    assert ByteOf(raw, 1) == HiByte(raw[0]);
    assert [0x100][0..] + ZeroRow(16)[1..16] == raw;
    assert !ReadsAsLaidOut(raw, 1);
  }

  lemma JoinedHigh()
    ensures Join(0, 1) == 0x100 && Join(0, 0) == 0 && HiByte(0x100) == 1
  {
  }

  /**
   shuffle2x layout: the very first block, of one symbol, is not laid out with the rest of its
   buffer, which is zero.
   */
  method UnalignedRun(t: Tables, mul128: seq<Lut>) returns (r: seq<Recovery>)
    requires t.Valid() && IsMul128(mul128)
    ensures |r| == 1 && r != Encoded(FirstConstants(1), UnalignedExample(), 1, 32)
  {
    hide FillsUp, Effective, Padded, ToBytes, ToSymbols, SubmittedSum, RecoveryRow, FirstConstants,
         UnalignedExample, AllSymbols, InSubmissionOrder, Consecutive, IsMul128, Tables.Valid, IsCoeffMatrix,
         Encoded, Buffered;
    var block: Row := [0x100];
    ghost var rows := AllSymbols(UnalignedExample());
    UnalignedRows();
    NothingSubmitted(rows);
    var constants := GeneratePar2Constants(t, 1);
    var encoder := new StreamingEncoder(t, mul128, constants, 1, 32, 32, true, 1);
    encoder.ProcessBlock(0, block);
    r := encoder.Finalize();
    WrongRecovery(UnalignedExample(), [], true, block, ZeroRow(16), r[0]);
  }
}
