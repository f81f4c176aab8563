/**
 What the reads and writes of a repair amount to (src/repair.rs): chunk by chunk, writing the
 chunks of the damaged blocks over what survives of a file gives back the pristine file.
 */
module Rebuild {
  import opened Options
  import opened Bytes
  import opened FileIds
  import opened Constants
  import opened Encoding
  import opened Reconstruction
  import opened ChunkReconstruction
  import opened RoundTrip
  import opened BlockNumbering
  import opened RepairChunks

  type Contents = map<Id, seq<Byte>>

  /** The undamaged content of every file. */
  predicate IsPristine(pristine: Contents, infos: seq<FileInfo>) {
    forall i :: 0 <= i < |infos| ==> infos[i].id in pristine && |pristine[infos[i].id]| == infos[i].length
  }

  /** A block of a file, padded with zeros. */
  function BlockAt(contents: Contents, p: Place, blockSize: nat): (r: seq<Byte>)
    requires p.id in contents
    ensures |r| == blockSize
  {
    ReadAt(contents[p.id], p.local * blockSize, blockSize)
  }

  /** All data blocks of the file set. */
  ghost function DataBlocks(infos: seq<FileInfo>, blockSize: nat, pristine: Contents): (r: seq<seq<Byte>>)
    requires blockSize > 0 && IsPristine(pristine, infos)
    ensures |r| == TotalBlocks(infos, blockSize) && Uniform(r, blockSize)
    ensures forall b :: 0 <= b < |r| ==>
              PlaceOfBlock(infos, blockSize, b).id in pristine
                && r[b] == BlockAt(pristine, PlaceOfBlock(infos, blockSize, b), blockSize)
  {
    seq(TotalBlocks(infos, blockSize), b requires 0 <= b < TotalBlocks(infos, blockSize) =>
      ghost var i := FileOf(infos, blockSize, b, |infos|);
      BlockAt(pristine, PlaceOfBlock(infos, blockSize, b), blockSize))
  }

  // ----- reading chunks

  /** The callback of process_chunk: a data block from its file, a recovery block from its packet. */
  function ReadChunk(blocks: map<nat, Place>, disk: Contents, recoveries: seq<Recovery>, total: nat,
                     blockSize: nat, b: nat, o: nat, z: nat)
    : (r: Option<seq<Byte>>)
    ensures r.Some? ==> |r.value| == z
  {
    if b < total then
      if b in blocks && blocks[b].id in disk then Some(ReadAt(disk[blocks[b].id], blocks[b].local * blockSize + o, z))
         else None
    else if b - total < |recoveries| then Some(ReadAt(recoveries[b - total].data, o, z))
    else None
  }

  function ChunkReader(blocks: map<nat, Place>, disk: Contents, recoveries: seq<Recovery>, total: nat,
                       blockSize: nat, o: nat, z: nat): Reader {
    (b: nat) => ReadChunk(blocks, disk, recoveries, total, blockSize, b, o, z)
  }

  lemma ReaderLength(blocks: map<nat, Place>, disk: Contents, recoveries: seq<Recovery>, total: nat,
                     blockSize: nat, o: nat, z: nat)
    ensures ReadsChunks(ChunkReader(blocks, disk, recoveries, total, blockSize, o, z), z)
  {
  }

  /** The block of the disk is the pristine block. */
  ghost predicate Undamaged(infos: seq<FileInfo>, blockSize: nat, pristine: Contents, disk: Contents, b: nat)
    requires blockSize > 0 && IsPristine(pristine, infos) && b < TotalBlocks(infos, blockSize)
  {
    var p := PlaceOfBlock(infos, blockSize, b);
    p.id in disk && BlockAt(disk, p, blockSize) == DataBlocks(infos, blockSize, pristine)[b]
  }

  /** With every bad block listed, the chunks read are slices of the pristine blocks. */
  lemma ReaderReads(infos: seq<FileInfo>, blockSize: nat, pristine: Contents, disk: Contents, blocks: map<nat, Place>,
                    recoveries: seq<Recovery>, d: Damage, o: nat, z: nat)
    requires blockSize > 0 && IsPristine(pristine, infos) && IsBlockMap(blocks, infos, blockSize)
    requires Recoverable(DataBlocks(infos, blockSize, pristine), blockSize, recoveries, d) && o + z <= blockSize
    requires forall j :: 0 <= j < |d.present| ==>
               d.present[j] < TotalBlocks(infos, blockSize) && Undamaged(infos, blockSize, pristine, disk, d.present[j])
    ensures ReadsSlices(ChunkReader(blocks, disk, recoveries, TotalBlocks(infos, blockSize), blockSize, o, z),
                        DataBlocks(infos, blockSize, pristine), recoveries, d, o, z)
  {
    hide DataBlocks, PlaceOfBlock, TotalBlocks, ChunkReader, Undamaged, Recoverable;
    var data := DataBlocks(infos, blockSize, pristine);
    var total := TotalBlocks(infos, blockSize);
    var read := ChunkReader(blocks, disk, recoveries, total, blockSize, o, z);
    RecoverableParts(data, blockSize, recoveries, d);
    forall j | 0 <= j < |d.present|
      ensures read(d.present[j]) == Some(data[d.present[j]][o..o + z])
    {
      ReadData(infos, blockSize, pristine, disk, blocks, recoveries, d.present[j], o, z);
    }
    forall i | 0 <= i < |d.missing|
      ensures read(d.presentRecovery[i]) == Some(recoveries[d.presentRecovery[i] - |data|].data[o..o + z])
    {
      ReadRecoveryData(disk, blocks, recoveries, total, blockSize, d.presentRecovery[i], o, z);
    }
  }

  lemma RecoverableParts(data: seq<seq<Byte>>, blockSize: nat, recoveries: seq<Recovery>, d: Damage)
    requires Recoverable(data, blockSize, recoveries, d)
    ensures |d.missing| <= |d.presentRecovery|
    ensures forall i :: 0 <= i < |d.missing| ==> |data| <= d.presentRecovery[i] < |data| + |recoveries|
    ensures forall i :: 0 <= i < |recoveries| ==> |recoveries[i].data| == blockSize
  {
    forall i | 0 <= i < |recoveries|
      ensures |recoveries[i].data| == blockSize
    {
      assert Genuine(data, blockSize, recoveries[i]);
    }
  }

  lemma ReadData(infos: seq<FileInfo>, blockSize: nat, pristine: Contents, disk: Contents, blocks: map<nat, Place>,
                 recoveries: seq<Recovery>, b: nat, o: nat, z: nat)
    requires blockSize > 0 && IsPristine(pristine, infos) && IsBlockMap(blocks, infos, blockSize) && o + z <= blockSize
    requires b < TotalBlocks(infos, blockSize) && Undamaged(infos, blockSize, pristine, disk, b)
    ensures ChunkReader(blocks, disk, recoveries, TotalBlocks(infos, blockSize), blockSize, o, z)(b)
         == Some(DataBlocks(infos, blockSize, pristine)[b][o..o + z])
  {
    UndamagedBlock(infos, blockSize, pristine, disk, b);
    hide DataBlocks, PlaceOfBlock, TotalBlocks, ReadAt, IsPristine, Undamaged, BlockAt;
    var p := PlaceOfBlock(infos, blockSize, b);
    var base := p.local * blockSize;
    ReadPart(disk[p.id], base, blockSize, o, z);
  }

  /** An undamaged block, spelled out. */
  lemma UndamagedBlock(infos: seq<FileInfo>, blockSize: nat, pristine: Contents, disk: Contents, b: nat)
    requires blockSize > 0 && IsPristine(pristine, infos)
    requires b < TotalBlocks(infos, blockSize) && Undamaged(infos, blockSize, pristine, disk, b)
    ensures var p := PlaceOfBlock(infos, blockSize, b);
            && p.id in disk && p.id in pristine
            && ReadAt(disk[p.id], p.local * blockSize, blockSize)
               == ReadAt(pristine[p.id], p.local * blockSize, blockSize)
            && DataBlocks(infos, blockSize, pristine)[b] == ReadAt(disk[p.id], p.local * blockSize, blockSize)
  {
    hide PlaceOfBlock, TotalBlocks, ReadAt;
  }

  lemma ReadRecoveryData(disk: Contents, blocks: map<nat, Place>, recoveries: seq<Recovery>, total: nat,
                         blockSize: nat, b: nat, o: nat, z: nat)
    requires total <= b < total + |recoveries| && o + z <= |recoveries[b - total].data|
    ensures ChunkReader(blocks, disk, recoveries, total, blockSize, o, z)(b)
            == Some(recoveries[b - total].data[o..o + z])
  {
    hide ReadAt;
    ReadInside(recoveries[b - total].data, o, z);
  }

  // ----- writing chunks

  predicate Right(temps: Contents, pristine: Contents, id: Id, x: nat) {
    && id in temps && id in pristine && x < |temps[id]| && x < |pristine[id]|
    && temps[id][x] == pristine[id][x]
  }

  /** The chunk at o of block b, as it should be. */
  ghost predicate PristineWrite(w: ChunkWrite, infos: seq<FileInfo>, blockSize: nat, pristine: Contents)
    requires blockSize > 0 && IsPristine(pristine, infos)
  {
    && w.block < TotalBlocks(infos, blockSize) && w.offset + |w.data| <= blockSize
    && w.data == DataBlocks(infos, blockSize, pristine)[w.block][w.offset..w.offset + |w.data|]
  }

  predicate CoversByte(w: ChunkWrite, p: Place, blockSize: nat, id: Id, x: nat) {
    p.id == id && p.local * blockSize + w.offset <= x < p.local * blockSize + w.offset + |w.data|
  }

  /** A pristine write makes the bytes it covers right, and leaves right bytes right. */
  lemma WriteRight(temps: Contents, infos: seq<FileInfo>, blockSize: nat, pristine: Contents, blocks: map<nat, Place>,
                   lengths: map<Id, nat>, w: ChunkWrite, id: Id, x: nat)
    requires blockSize > 0 && IsPristine(pristine, infos) && IsBlockMap(blocks, infos, blockSize)
    requires Sized(temps, lengths) && id in temps && id in lengths && id in pristine
             && x < lengths[id] == |pristine[id]|
    requires PristineWrite(w, infos, blockSize, pristine)
    requires CoversByte(w, PlaceOfBlock(infos, blockSize, w.block), blockSize, id, x) || Right(temps, pristine, id, x)
    ensures Right(ApplyWrite(temps, blocks, lengths, blockSize, w), pristine, id, x)
  {
    hide DataBlocks, PlaceOfBlock, TotalBlocks;
    var p := PlaceOfBlock(infos, blockSize, w.block);
    assert blocks[w.block] == p;
    var at := p.local * blockSize + w.offset;
    if CoversByte(w, p, blockSize, id, x) {
      assert w.data[x - at] == DataBlocks(infos, blockSize, pristine)[w.block][w.offset + (x - at)];
    } else if p.id == id && at <= x {
      assert x >= at + |w.data|;
    }
  }

  /** Some write covers the byte. */
  ghost predicate Covered(ws: seq<ChunkWrite>, infos: seq<FileInfo>, blockSize: nat, id: Id, x: nat)
    requires blockSize > 0
  {
    exists k :: 0 <= k < |ws| && ws[k].block < TotalBlocks(infos, blockSize)
                && CoversByte(ws[k], PlaceOfBlock(infos, blockSize, ws[k].block), blockSize, id, x)
  }

  lemma {:induction false} WritesRight(temps: Contents, infos: seq<FileInfo>, blockSize: nat, pristine: Contents,
                                       blocks: map<nat, Place>, lengths: map<Id, nat>, ws: seq<ChunkWrite>,
                                       id: Id, x: nat)
    requires blockSize > 0 && IsPristine(pristine, infos) && IsBlockMap(blocks, infos, blockSize)
    requires Sized(temps, lengths) && id in temps && id in lengths && id in pristine
             && x < lengths[id] == |pristine[id]|
    requires forall k :: 0 <= k < |ws| ==> PristineWrite(ws[k], infos, blockSize, pristine)
    requires Covered(ws, infos, blockSize, id, x) || Right(temps, pristine, id, x)
    ensures Right(ApplyWrites(temps, blocks, lengths, blockSize, ws), pristine, id, x)
    decreases |ws|
  {
    hide PristineWrite, CoversByte, ApplyWrite, Right, PlaceOfBlock, TotalBlocks, IsPristine, IsBlockMap, Sized;
    if ws != [] {
      var n := |ws| - 1;
      var p := PlaceOfBlock(infos, blockSize, BlockBelow(ws[n], infos, blockSize, pristine));
      var before := ApplyWrites(temps, blocks, lengths, blockSize, ws[..n]);
      if !CoversByte(ws[n], p, blockSize, id, x) {
        WritesRight(temps, infos, blockSize, pristine, blocks, lengths, ws[..n], id, x);
      }
      WriteRight(before, infos, blockSize, pristine, blocks, lengths, ws[n], id, x);
    }
  }

  ghost function BlockBelow(w: ChunkWrite, infos: seq<FileInfo>, blockSize: nat, pristine: Contents): (b: nat)
    requires blockSize > 0 && IsPristine(pristine, infos) && PristineWrite(w, infos, blockSize, pristine)
    ensures b == w.block < TotalBlocks(infos, blockSize)
  {
    w.block
  }

  // ----- all chunks of all damaged blocks

  /** What chunk k writes: its part of every damaged block. */
  ghost function WritesOf(damaged: seq<nat>, data: seq<seq<Byte>>, blockSize: nat, chunk: nat,
                          k: nat): (r: seq<ChunkWrite>)
    requires IndicesBelow(damaged, |data|) && Uniform(data, blockSize) && k * chunk < blockSize
    ensures |r| == |damaged|
  {
    var z := ChunkLength(blockSize, chunk, k);
    seq(|damaged|, j requires 0 <= j < |damaged| =>
      ChunkWrite(damaged[j], k * chunk, data[damaged[j]][k * chunk..k * chunk + z]))
  }

  ghost function AllWrites(damaged: seq<nat>, data: seq<seq<Byte>>, blockSize: nat, chunk: nat, n: nat): seq<ChunkWrite>
    requires IndicesBelow(damaged, |data|) && Uniform(data, blockSize) && chunk > 0 && n <= NumChunks(blockSize, chunk)
  {
    if n == 0 then []
    else
      ChunkInside(blockSize, chunk, n - 1);
      AllWrites(damaged, data, blockSize, chunk, n - 1) + WritesOf(damaged, data, blockSize, chunk, n - 1)
  }

  lemma {:induction false} AllWritesPristine(damaged: seq<nat>, infos: seq<FileInfo>, blockSize: nat,
                                             pristine: Contents, chunk: nat, n: nat)
    requires blockSize > 0 && IsPristine(pristine, infos) && IndicesBelow(damaged, TotalBlocks(infos, blockSize))
    requires chunk > 0 && n <= NumChunks(blockSize, chunk)
    ensures forall w :: w in AllWrites(damaged, DataBlocks(infos, blockSize, pristine), blockSize, chunk, n) ==>
              PristineWrite(w, infos, blockSize, pristine)
  {
    hide DataBlocks, TotalBlocks, NumChunks, ChunkLength;
    if n > 0 {
      AllWritesPristine(damaged, infos, blockSize, pristine, chunk, n - 1);
      ChunkInside(blockSize, chunk, n - 1);
    }
  }

  /** Chunk k of damaged block j is among the writes. */
  lemma {:induction false} WriteAmong(damaged: seq<nat>, data: seq<seq<Byte>>, blockSize: nat, chunk: nat, n: nat,
                                      k: nat, j: nat)
    requires IndicesBelow(damaged, |data|) && Uniform(data, blockSize) && chunk > 0
             && k < n <= NumChunks(blockSize, chunk)
    requires j < |damaged| && k * chunk < blockSize
    ensures WritesOf(damaged, data, blockSize, chunk, k)[j] in AllWrites(damaged, data, blockSize, chunk, n)
    decreases n
  {
    hide WritesOf, NumChunks;
    if k < n - 1 {
      WriteAmong(damaged, data, blockSize, chunk, n - 1, k, j);
    } else {
      assert WritesOf(damaged, data, blockSize, chunk, k)[j] in WritesOf(damaged, data, blockSize, chunk, k);
    }
  }

  /** The block of the byte at x of file i. */
  lemma ByteInBlock(infos: seq<FileInfo>, blockSize: nat, i: nat, x: nat)
    requires blockSize > 0 && i < |infos| && x < infos[i].length
    ensures var b := StartOf(infos, blockSize, i) + x / blockSize;
            b < TotalBlocks(infos, blockSize) && PlaceOfBlock(infos, blockSize, b) == Place(infos[i].id, x / blockSize)
    ensures x == x / blockSize * blockSize + x % blockSize
  {
    hide StartOf, PlaceOfBlock, TotalBlocks;
    QuotientBounds(x, blockSize);
    EnoughChunks(infos[i].length, blockSize, x, x / blockSize);
    PlaceOfLocal(infos, blockSize, i, x / blockSize);
    assert x == blockSize * (x / blockSize) + x % blockSize;
  }

  /** Every byte of a damaged block is covered. */
  lemma DamagedByteCovered(damaged: seq<nat>, infos: seq<FileInfo>, blockSize: nat, pristine: Contents,
                           chunk: nat, i: nat, x: nat)
    requires blockSize > 0 && IsPristine(pristine, infos) && IndicesBelow(damaged, TotalBlocks(infos, blockSize))
             && chunk > 0
    requires i < |infos| && x < infos[i].length && StartOf(infos, blockSize, i) + x / blockSize in damaged
    ensures Covered(AllWrites(damaged, DataBlocks(infos, blockSize, pristine), blockSize, chunk,
                              NumChunks(blockSize, chunk)),
                    infos, blockSize, infos[i].id, x)
  {
    hide DataBlocks, TotalBlocks, NumChunks, AllWrites, PlaceOfBlock, StartOf, ChunkLength;
    var data := DataBlocks(infos, blockSize, pristine);
    ByteInBlock(infos, blockSize, i, x);
    var b := StartOf(infos, blockSize, i) + x / blockSize;
    var j :| 0 <= j < |damaged| && damaged[j] == b;
    var off := x % blockSize;
    var k := off / chunk;
    ChunkOfByte(blockSize, chunk, off, k);
    ChunkInside(blockSize, chunk, k);
    WriteAmong(damaged, data, blockSize, chunk, NumChunks(blockSize, chunk), k, j);
    var w := WritesOf(damaged, data, blockSize, chunk, k)[j];
    assert CoversByte(w, PlaceOfBlock(infos, blockSize, w.block), blockSize, infos[i].id, x);
  }

  /** A byte of an undamaged block is right in the seeded temp. */
  lemma SeedRight(infos: seq<FileInfo>, blockSize: nat, pristine: Contents, disk: Contents, i: nat, x: nat, b: nat)
    requires blockSize > 0 && IsPristine(pristine, infos) && i < |infos| && x < infos[i].length
    requires b == StartOf(infos, blockSize, i) + x / blockSize
    requires b < TotalBlocks(infos, blockSize) && Undamaged(infos, blockSize, pristine, disk, b)
    ensures infos[i].id in disk && ReadAt(disk[infos[i].id], 0, infos[i].length)[x] == pristine[infos[i].id][x]
  {
    hide *;
    UndamagedBlock(infos, blockSize, pristine, disk, b);
    ByteInBlock(infos, blockSize, i, x);
    PristineLength(pristine, infos, i);
    var p := PlaceOfBlock(infos, blockSize, b);
    SeedByte(disk[p.id], pristine[p.id], p.local * blockSize, blockSize, x % blockSize, x);
  }

  lemma PristineLength(pristine: Contents, infos: seq<FileInfo>, i: nat)
    requires IsPristine(pristine, infos) && i < |infos|
    ensures infos[i].id in pristine && |pristine[infos[i].id]| == infos[i].length
  {
  }

  lemma SeedByte(content: seq<Byte>, whole: seq<Byte>, base: nat, blockSize: nat, off: nat, x: nat)
    requires ReadAt(content, base, blockSize) == ReadAt(whole, base, blockSize)
    requires off < blockSize && x == base + off < |whole|
    ensures ReadAt(content, 0, |whole|)[x] == whole[x]
  {
    assert ReadAt(content, base, blockSize)[off] == ReadAt(whole, base, blockSize)[off];
  }
}
