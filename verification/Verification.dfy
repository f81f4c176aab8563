/**
 Block checks (src/verify.rs): files are read in batches, each block is compared by CRC32
 and then MD5.  Both are uninterpreted functions.
 */
module Verification {
  import opened Options
  import opened Bytes
  import opened LittleEndian
  import opened FileIds
  import opened Packets
  import opened Constants
  import opened BlockNumbering
  import opened RepairChunks

  type Crc32 = seq<Byte> -> nat

  const MAX_BATCH_MEMORY: nat := 64 * 1024 * 1024
  const CANCEL_CHECK_BYTES: nat := 4 * 1024 * 1024

  function BlocksPerBatch(blockSize: nat): (n: nat)
    requires blockSize > 0
    ensures 1 <= n <= 64
  {
    var n := MAX_BATCH_MEMORY / blockSize;
    if n < 1 then 1 else if n > 64 then 64 else n
  }

  /** Block i, padded with zeros, has the expected checksums. */
  predicate BlockGood(md5: Md5, crc: Crc32, content: seq<Byte>, blockSize: nat, i: nat, expected: SliceChecksum) {
    var block := ReadAt(content, i * blockSize, blockSize);
    crc(block) == expected.crc32 && md5(block) == expected.md5
  }

  /** The simple check: all blocks below n that are not good, in order. */
  function BadBlocks(md5: Md5, crc: Crc32, content: seq<Byte>, sums: seq<SliceChecksum>, blockSize: nat,
                     n: nat): (r: seq<nat>)
    requires n <= |sums|
    ensures forall i: nat :: i in r <==> i < n && !BlockGood(md5, crc, content, blockSize, i, sums[i])
    ensures forall a :: 0 <= a < |r| ==> r[a] < n
    ensures forall a, b :: 0 <= a < b < |r| ==> r[a] < r[b]
  {
    if n == 0 then []
    else
      var before := BadBlocks(md5, crc, content, sums, blockSize, n - 1);
      if BlockGood(md5, crc, content, blockSize, n - 1, sums[n - 1]) then before else before + [n - 1]
  }

  lemma BadNext(md5: Md5, crc: Crc32, content: seq<Byte>, sums: seq<SliceChecksum>, blockSize: nat, n: nat,
                block: seq<Byte>)
    requires n < |sums| && block == ReadAt(content, n * blockSize, blockSize)
    ensures BadBlocks(md5, crc, content, sums, blockSize, n + 1)
         == BadBlocks(md5, crc, content, sums, blockSize, n)
            + if crc(block) == sums[n].crc32 && md5(block) == sums[n].md5 then [] else [n]
  {
    hide ReadAt;
  }

  lemma BatchBlock(content: seq<Byte>, start: nat, count: nat, blockSize: nat, k: nat)
    requires k < count
    ensures k * blockSize + blockSize <= count * blockSize
    ensures ReadAt(content, start * blockSize, count * blockSize)[k * blockSize..k * blockSize + blockSize]
         == ReadAt(content, (start + k) * blockSize, blockSize)
  {
    MulLess(k, count, blockSize);
    assert (start + k) * blockSize == start * blockSize + k * blockSize;
    ReadPart(content, start * blockSize, count * blockSize, k * blockSize, blockSize);
  }

  /** Reads a batch with as many reads as it takes; what is missing is filled with zeros. */
  method ReadBatch(content: seq<Byte>, at: nat, bytesToRead: nat, readLimit: nat)
    returns (batch: seq<Byte>, bytesRead: nat)
    requires readLimit > 0
    ensures batch == ReadAt(content, at, bytesToRead)
    ensures bytesRead == if at >= |content| then 0 else Least(|content| - at, bytesToRead)
  {
    var buffer := new Byte[bytesToRead](_ => 0);
    bytesRead := 0;
    while bytesRead < bytesToRead
      invariant bytesRead <= if at >= |content| then 0 else Least(|content| - at, bytesToRead)
      invariant forall k :: 0 <= k < bytesRead ==> at + k < |content| && buffer[k] == content[at + k]
      invariant forall k :: bytesRead <= k < bytesToRead ==> buffer[k] == 0
    {
      var available := if at + bytesRead < |content| then |content| - (at + bytesRead) else 0;
      var readNow := Least(Least(available, bytesToRead - bytesRead), readLimit);
      if readNow == 0 {
        break;
      }
      for i := 0 to readNow
        invariant forall k :: 0 <= k < bytesRead + i ==> at + k < |content| && buffer[k] == content[at + k]
        invariant forall k :: bytesRead + i <= k < bytesToRead ==> buffer[k] == 0
      {
        buffer[bytesRead + i] := content[at + bytesRead + i];
      }
      bytesRead := bytesRead + readNow;
    }
    batch := buffer[..];
  }

  /** The blocks of one batch; the MD5 is computed only when the CRC matches. */
  method CheckBatch(md5: Md5, crc: Crc32, ghost content: seq<Byte>, batch: seq<Byte>, sums: seq<SliceChecksum>,
                    blockSize: nat, start: nat, end: nat)
    returns (bad: seq<nat>)
    requires start <= end <= |sums| && batch == ReadAt(content, start * blockSize, (end - start) * blockSize)
    ensures BadBlocks(md5, crc, content, sums, blockSize, start) + bad
            == BadBlocks(md5, crc, content, sums, blockSize, end)
  {
    hide ReadAt, BadBlocks;
    bad := [];
    for k := 0 to end - start
      invariant BadBlocks(md5, crc, content, sums, blockSize, start) + bad
                == BadBlocks(md5, crc, content, sums, blockSize, start + k)
    {
      BatchBlock(content, start, end - start, blockSize, k);
      var block := batch[k * blockSize..k * blockSize + blockSize];
      BadNext(md5, crc, content, sums, blockSize, start + k, block);
      var expected := sums[start + k];
      if crc(block) != expected.crc32 {
        bad := bad + [start + k];
      } else if md5(block) != expected.md5 {
        bad := bad + [start + k];
      }
    }
  }

  /**
   verify_file_blocks: the batched check finds what the simple check finds.  None means that
   it was cancelled; `cancelled` answers the n-th look at the flag.  The flag is looked at by the time
   four MiB have been read.
   */
  method VerifyFileBlocks(md5: Md5, crc: Crc32, content: seq<Byte>, sums: seq<SliceChecksum>, blockSize: nat,
                          readLimit: nat, cancelled: nat -> bool) returns (r: Option<seq<nat>>)
    requires blockSize > 0 && readLimit > 0
    ensures r.Some? ==> r.value == BadBlocks(md5, crc, content, sums, blockSize, |sums|)
    ensures (forall k :: !cancelled(k)) ==> r.Some?
    ensures cancelled(1) && Least(|content|, |sums| * blockSize) >= CANCEL_CHECK_BYTES ==> r.None?
  {
    hide BadBlocks, ReadAt;
    var perBatch := BlocksPerBatch(blockSize);
    var bad: seq<nat> := [];
    var sinceCheck, looks := 0, 0;
    var start := 0;
    NoneBad(md5, crc, content, sums, blockSize);
    while start < |sums|
      invariant start <= |sums| && bad == BadBlocks(md5, crc, content, sums, blockSize, start)
      invariant looks == 0 ==> sinceCheck == Least(|content|, start * blockSize) < CANCEL_CHECK_BYTES
      invariant looks > 0 ==> !cancelled(1)
    {
      if sinceCheck >= CANCEL_CHECK_BYTES {
        looks := looks + 1;
        if cancelled(looks) {
          return None;
        }
      }
      var end := Least(start + perBatch, |sums|);
      NatProduct(end - start, blockSize);
      NatProduct(start, blockSize);
      assert start * blockSize + (end - start) * blockSize == end * blockSize;
      var batch, bytesRead := ReadBatch(content, start * blockSize, (end - start) * blockSize, readLimit);
      sinceCheck := sinceCheck + bytesRead;
      if sinceCheck >= CANCEL_CHECK_BYTES {
        sinceCheck := 0;
        looks := looks + 1;
        if cancelled(looks) {
          return None;
        }
      }
      var more := CheckBatch(md5, crc, content, batch, sums, blockSize, start, end);
      bad := bad + more;
      start := end;
    }
    return Some(bad);
  }

  lemma NatProduct(a: nat, b: nat)
    ensures a * b >= 0
  {
  }

  lemma NoneBad(md5: Md5, crc: Crc32, content: seq<Byte>, sums: seq<SliceChecksum>, blockSize: nat)
    ensures BadBlocks(md5, crc, content, sums, blockSize, 0) == []
  {
  }

  // ----- whole files

  /** verify_reconstructed_file: length, then block checksums, or the hashes of the file without them. */
  predicate Accepted(md5: Md5, crc: Crc32, content: seq<Byte>, info: FileInfo, sums: Option<seq<SliceChecksum>>,
                     blockSize: nat) {
    && |content| == info.length
    && match sums
       case Some(list) => forall i :: 0 <= i < |list| ==> BlockGood(md5, crc, content, blockSize, i, list[i])
       case None =>
         && (info.length >= 16384 ==> md5(content[..Least(16384, |content|)]) == info.hash16k)
         && md5(content) == info.hash
  }

  /** The checksums of a file's blocks, as `create` computes them. */
  function BlockChecksums(md5: Md5, crc: Crc32, content: seq<Byte>, blockSize: nat): (r: seq<SliceChecksum>)
    requires blockSize > 0
    ensures |r| == BlocksIn(|content|, blockSize)
  {
    seq(BlocksIn(|content|, blockSize), i requires 0 <= i =>
      var block := ReadAt(content, i * blockSize, blockSize);
      SliceChecksum(md5(block), crc(block)))
  }

  /** Two blocks that the checksums do not tell apart. */
  predicate Collide(md5: Md5, crc: Crc32, a: seq<Byte>, b: seq<Byte>) {
    a != b && crc(a) == crc(b) && md5(a) == md5(b)
  }

  /** None of the first k blocks of one file collides with the same block of the other. */
  predicate NoCollisions(md5: Md5, crc: Crc32, content: seq<Byte>, pristine: seq<Byte>, blockSize: nat, k: nat) {
    forall i: nat :: i < k ==>
      !Collide(md5, crc, ReadAt(content, i * blockSize, blockSize), ReadAt(pristine, i * blockSize, blockSize))
  }

  /** The bytes that k blocks cover. */
  function CoveredBytes(length: nat, blockSize: nat, k: nat): (n: nat)
    ensures n <= length
  {
    NatProduct(k, blockSize);
    Least(k * blockSize, length)
  }

  /** With the checksums of the first k blocks, exactly the files that agree with the right one so far are accepted. */
  lemma AcceptedPrefix(md5: Md5, crc: Crc32, content: seq<Byte>, pristine: seq<Byte>, info: FileInfo,
                       blockSize: nat, k: nat)
    requires blockSize > 0 && |pristine| == info.length && k <= BlocksIn(|pristine|, blockSize)
    requires NoCollisions(md5, crc, content, pristine, blockSize, k)
    ensures Accepted(md5, crc, content, info, Some(BlockChecksums(md5, crc, pristine, blockSize)[..k]), blockSize)
            <==> (var n := CoveredBytes(|pristine|, blockSize, k);
                  |content| == |pristine| && content[..n] == pristine[..n])
  {
    hide NoCollisions, ReadAt, BlockChecksums, BlockGood, CoveredBytes, BlocksIn;
    var sums := BlockChecksums(md5, crc, pristine, blockSize)[..k];
    var n := CoveredBytes(|pristine|, blockSize, k);
    if |content| == |pristine| {
      if forall i :: 0 <= i < k ==> BlockGood(md5, crc, content, blockSize, i, sums[i]) {
        forall x | 0 <= x < n
          ensures content[x] == pristine[x]
        {
          AcceptedByte(md5, crc, content, pristine, blockSize, k, x);
        }
        assert content[..n] == pristine[..n];
      }
      if content[..n] == pristine[..n] {
        forall i | 0 <= i < k
          ensures BlockGood(md5, crc, content, blockSize, i, sums[i])
        {
          SamePrefixGood(md5, crc, content, pristine, blockSize, k, i);
        }
      }
    }
  }

  lemma AcceptedByte(md5: Md5, crc: Crc32, content: seq<Byte>, pristine: seq<Byte>, blockSize: nat, k: nat, x: nat)
    requires blockSize > 0 && |pristine| == |content| && k <= BlocksIn(|pristine|, blockSize)
    requires x < CoveredBytes(|pristine|, blockSize, k)
    requires NoCollisions(md5, crc, content, pristine, blockSize, k)
    requires var sums := BlockChecksums(md5, crc, pristine, blockSize);
             forall i :: 0 <= i < k ==> BlockGood(md5, crc, content, blockSize, i, sums[i])
    ensures content[x] == pristine[x]
  {
    hide NoCollisions, ReadAt, BlockChecksums, BlockGood, BlocksIn;
    var i := x / blockSize;
    QuotientBounds(x, blockSize);
    QuotientBelow(x, blockSize, k, i);
    AcceptedBlock(md5, crc, content, pristine, blockSize, k, i);
    SameByte(content, pristine, i * blockSize, blockSize, x);
  }

  lemma QuotientBelow(x: nat, c: nat, k: nat, i: nat)
    requires i * c <= x < k * c
    ensures i < k
  {
    if i >= k {
      assert i * c == k * c + (i - k) * c;
      NatProduct(i - k, c);
    }
  }

  lemma AcceptedBlock(md5: Md5, crc: Crc32, content: seq<Byte>, pristine: seq<Byte>, blockSize: nat, k: nat, i: nat)
    requires blockSize > 0 && i < k <= BlocksIn(|pristine|, blockSize)
    requires NoCollisions(md5, crc, content, pristine, blockSize, k)
    requires BlockGood(md5, crc, content, blockSize, i, BlockChecksums(md5, crc, pristine, blockSize)[i])
    ensures ReadAt(content, i * blockSize, blockSize) == ReadAt(pristine, i * blockSize, blockSize)
  {
    hide ReadAt;
    var (a, b) := (ReadAt(content, i * blockSize, blockSize), ReadAt(pristine, i * blockSize, blockSize));
    assert !Collide(md5, crc, a, b);
  }

  lemma SameByte(a: seq<Byte>, b: seq<Byte>, base: nat, blockSize: nat, x: nat)
    requires |a| == |b| && base <= x < base + blockSize && x < |a|
             && ReadAt(a, base, blockSize) == ReadAt(b, base, blockSize)
    ensures a[x] == b[x]
  {
    assert ReadAt(a, base, blockSize)[x - base] == ReadAt(b, base, blockSize)[x - base];
  }

  /** A block inside the common prefix is good. */
  lemma SamePrefixGood(md5: Md5, crc: Crc32, content: seq<Byte>, pristine: seq<Byte>, blockSize: nat, k: nat, i: nat)
    requires blockSize > 0 && |pristine| == |content| && i < k <= BlocksIn(|pristine|, blockSize)
    requires var n := CoveredBytes(|pristine|, blockSize, k); content[..n] == pristine[..n]
    ensures BlockGood(md5, crc, content, blockSize, i, BlockChecksums(md5, crc, pristine, blockSize)[i])
  {
    hide BlocksIn, ReadAt;
    MulLess(i, k, blockSize);
    ReadPrefix(content, pristine, CoveredBytes(|pristine|, blockSize, k), i * blockSize, blockSize);
  }

  lemma ReadPrefix(a: seq<Byte>, b: seq<Byte>, n: nat, o: nat, size: nat)
    requires |a| == |b| && n <= |a| && a[..n] == b[..n] && (n == |a| || o + size <= n)
    ensures ReadAt(a, o, size) == ReadAt(b, o, size)
  {
    forall x | 0 <= x < size
      ensures ReadAt(a, o, size)[x] == ReadAt(b, o, size)[x]
    {
      if o + x < |a| {
        assert a[..n][o + x] == b[..n][o + x];
      }
    }
  }

  /** The blocks of a file cover it, and no fewer blocks do. */
  lemma BlocksCover(length: nat, blockSize: nat, k: nat)
    requires blockSize > 0 && k <= BlocksIn(length, blockSize)
    ensures CoveredBytes(length, blockSize, k) == length <==> k == BlocksIn(length, blockSize)
  {
    CeilBounds(length, blockSize);
    if k < BlocksIn(length, blockSize) {
      MulLess(k, BlocksIn(length, blockSize), blockSize);
    }
  }

  /** With the full list of checksums, only the right content is accepted, and it is. */
  lemma AcceptedIsPristine(md5: Md5, crc: Crc32, content: seq<Byte>, pristine: seq<Byte>, info: FileInfo,
                           blockSize: nat)
    requires blockSize > 0 && |pristine| == info.length
    requires NoCollisions(md5, crc, content, pristine, blockSize, BlocksIn(|pristine|, blockSize))
    ensures Accepted(md5, crc, content, info, Some(BlockChecksums(md5, crc, pristine, blockSize)), blockSize) <==>
              content == pristine
  {
    hide BlockChecksums, BlocksIn, CoveredBytes, Accepted, NoCollisions;
    var k := BlocksIn(|pristine|, blockSize);
    AcceptedPrefix(md5, crc, content, pristine, info, blockSize, k);
    BlocksCover(|pristine|, blockSize, k);
    assert BlockChecksums(md5, crc, pristine, blockSize)[..k] == BlockChecksums(md5, crc, pristine, blockSize);
    assert pristine[..|pristine|] == pristine && content[..|content|] == content;
  }

  /** The right content is accepted with any list of its checksums. */
  lemma PristineAccepted(md5: Md5, crc: Crc32, pristine: seq<Byte>, info: FileInfo, blockSize: nat, k: nat)
    requires blockSize > 0 && |pristine| == info.length && k <= BlocksIn(|pristine|, blockSize)
    ensures Accepted(md5, crc, pristine, info, Some(BlockChecksums(md5, crc, pristine, blockSize)[..k]), blockSize)
  {
    hide BlockChecksums, BlocksIn, CoveredBytes, Accepted;
    AcceptedPrefix(md5, crc, pristine, pristine, info, blockSize, k);
  }

  /** Only the right content is accepted: every other one is refused or collides in a block that is checked. */
  ghost predicate OnlyPristineAccepted(md5: Md5, crc: Crc32, pristine: seq<Byte>, info: FileInfo, blockSize: nat,
                                       k: nat)
    requires blockSize > 0 && k <= BlocksIn(|pristine|, blockSize)
  {
    forall content: seq<Byte> ::
      && NoCollisions(md5, crc, content, pristine, blockSize, k)
      && Accepted(md5, crc, content, info, Some(BlockChecksums(md5, crc, pristine, blockSize)[..k]), blockSize)
      ==> content == pristine
  }

  /** A list of checksums identifies the file exactly when no block is missing from it. */
  lemma FullListNeeded(md5: Md5, crc: Crc32, pristine: seq<Byte>, info: FileInfo, blockSize: nat, k: nat)
    requires blockSize > 0 && |pristine| == info.length && k <= BlocksIn(|pristine|, blockSize)
    ensures OnlyPristineAccepted(md5, crc, pristine, info, blockSize, k) <==> k == BlocksIn(|pristine|, blockSize)
  {
    hide BlockChecksums, BlocksIn, CoveredBytes, Accepted, NoCollisions;
    BlocksCover(|pristine|, blockSize, k);
    if k == BlocksIn(|pristine|, blockSize) {
      assert BlockChecksums(md5, crc, pristine, blockSize)[..k] == BlockChecksums(md5, crc, pristine, blockSize);
      forall content: seq<Byte> | NoCollisions(md5, crc, content, pristine, blockSize, k)
        ensures Accepted(md5, crc, content, info, Some(BlockChecksums(md5, crc, pristine, blockSize)[..k]), blockSize)
                ==> content == pristine
      {
        AcceptedIsPristine(md5, crc, content, pristine, info, blockSize);
      }
    } else {
      var content := ShortListAccepts(md5, crc, pristine, info, blockSize, k);
    }
  }

  /** A list that leaves out the last block accepts the file with its last byte changed, whatever the checksums. */
  lemma ShortListAccepts(md5: Md5, crc: Crc32, pristine: seq<Byte>, info: FileInfo, blockSize: nat, k: nat)
    returns (content: seq<Byte>)
    requires blockSize > 0 && |pristine| == info.length && k < BlocksIn(|pristine|, blockSize)
    ensures content != pristine && NoCollisions(md5, crc, content, pristine, blockSize, k)
    ensures Accepted(md5, crc, content, info, Some(BlockChecksums(md5, crc, pristine, blockSize)[..k]), blockSize)
  {
    hide BlockChecksums, BlocksIn, CoveredBytes, Accepted;
    BlocksCover(|pristine|, blockSize, k);
    var n := CoveredBytes(|pristine|, blockSize, k);
    var last := |pristine| - 1;
    content := pristine[last := OtherByte(pristine[last])];
    assert content[last] != pristine[last];
    assert content[..n] == pristine[..n];
    forall i: nat | i < k
      ensures ReadAt(content, i * blockSize, blockSize) == ReadAt(pristine, i * blockSize, blockSize)
    {
      CoveredBlock(|pristine|, blockSize, k, i);
      ReadPrefix(content, pristine, n, i * blockSize, blockSize);
    }
    AcceptedPrefix(md5, crc, content, pristine, info, blockSize, k);
  }

  function OtherByte(b: Byte): (c: Byte)
    ensures c != b
  {
    if b == 0 then 1 else 0
  }

  lemma CoveredBlock(length: nat, blockSize: nat, k: nat, i: nat)
    requires i < k
    ensures var n := CoveredBytes(length, blockSize, k); n == length || i * blockSize + blockSize <= n
  {
    MulLess(i, k, blockSize);
  }

  // ----- the check of a whole file

  /** The description of a file says what `create` found: its length and the MD5 of it and of its first 16 KiB. */
  predicate InfoOf(md5: Md5, pristine: seq<Byte>, info: FileInfo) {
    && info.length == |pristine| && info.hash == md5(pristine)
    && info.hash16k == md5(if |pristine| <= 16384 then pristine else pristine[..16384])
  }

  /** Two different contents with the same MD5. */
  predicate SameMd5(md5: Md5, a: seq<Byte>, b: seq<Byte>) {
    a != b && md5(a) == md5(b)
  }

  /** Without block checksums, exactly the right content is accepted, collisions of MD5 set aside. */
  lemma UnsummedIsPristine(md5: Md5, crc: Crc32, content: seq<Byte>, pristine: seq<Byte>, info: FileInfo,
                           blockSize: nat)
    requires InfoOf(md5, pristine, info) && !SameMd5(md5, content, pristine)
    ensures Accepted(md5, crc, content, info, None, blockSize) <==> content == pristine
  {
    if |pristine| == 16384 {
      assert pristine[..16384] == pristine;
    }
  }

  /**
   verify_reconstructed_file.  Without block checksums, a content is accepted exactly if it is the right
   one, unless their MD5s collide; with the checksums of all blocks, exactly if it is, collisions of
   blocks set aside.
   */
  method VerifyReconstructedFile(md5: Md5, crc: Crc32, content: seq<Byte>, info: FileInfo,
                                 sums: Option<seq<SliceChecksum>>, blockSize: nat, readLimit: nat) returns (ok: bool)
    requires blockSize > 0 && readLimit > 0
    ensures ok == Accepted(md5, crc, content, info, sums, blockSize)
    ensures |content| != info.length ==> !ok
    ensures sums == None && md5(content) != info.hash ==> !ok
    ensures sums == None ==>
              (ok <==> |content| == info.length && md5(content) == info.hash
                       && (info.length >= 16384 ==> md5(content[..16384]) == info.hash16k))
    ensures forall pristine: seq<Byte> ::
              sums == None && InfoOf(md5, pristine, info) && !SameMd5(md5, content, pristine)
              ==> (ok <==> content == pristine)
    ensures forall pristine: seq<Byte> ::
              sums == Some(BlockChecksums(md5, crc, pristine, blockSize)) && |pristine| == info.length
              && NoCollisions(md5, crc, content, pristine, blockSize, BlocksIn(|pristine|, blockSize))
              ==> (ok <==> content == pristine)
  {
    hide BlockGood, BlockChecksums, NoCollisions, BlocksIn, InfoOf, SameMd5;
    forall pristine: seq<Byte> |
      && |pristine| == info.length
      && NoCollisions(md5, crc, content, pristine, blockSize, BlocksIn(|pristine|, blockSize))
      ensures Accepted(md5, crc, content, info, Some(BlockChecksums(md5, crc, pristine, blockSize)), blockSize) <==>
              content == pristine
    {
      AcceptedIsPristine(md5, crc, content, pristine, info, blockSize);
    }
    forall pristine: seq<Byte> | InfoOf(md5, pristine, info) && !SameMd5(md5, content, pristine)
      ensures Accepted(md5, crc, content, info, None, blockSize) <==> content == pristine
    {
      UnsummedIsPristine(md5, crc, content, pristine, info, blockSize);
    }
    if |content| != info.length {
      return false;
    }
    match sums
    case Some(list) =>
      var bad := VerifyFileBlocks(md5, crc, content, list, blockSize, readLimit, _ => false);
      assert bad.value == [] ==> forall i: nat :: i < |list| ==> i !in bad.value;
      if bad.value != [] {
        assert bad.value[0] in bad.value;
      }
      return bad.value == [];
    case None =>
      if info.length < 16384 {
        return md5(content) == info.hash;
      }
      if md5(content[..Least(16384, |content|)]) != info.hash16k {
        return false;
      }
      return md5(content) == info.hash;
  }
}
