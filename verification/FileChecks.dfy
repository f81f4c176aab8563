/**
 Which files are missing or damaged, and which of their blocks (`verify_files_with_messages`,
 src/verify.rs), and that these findings are what a repair needs: every block that is not
 listed is intact, no block is listed twice, and none is listed without need (`FindingsAreRight`).
 */
module FileChecks {
  import opened Options
  import opened Bytes
  import opened FileIds
  import opened Packets
  import opened Vandermonde
  import opened Constants
  import opened Reconstruction
  import opened BlockNumbering
  import opened RepairChunks
  import opened Rebuild
  import opened Verification
  import opened Repair

  /** What was loaded, as far as verification uses it. */
  datatype FileSet = FileSet(blockSize: nat, files: map<Id, FileInfo>, sums: map<Id, seq<SliceChecksum>>)

  function SumsOf(fs: FileSet, id: Id): Option<seq<SliceChecksum>> {
    if id in fs.sums then Some(fs.sums[id]) else None
  }

  predicate FileOk(md5: Md5, crc: Crc32, fs: FileSet, disk: Contents, id: Id) {
    id in disk && id in fs.files && Accepted(md5, crc, disk[id], fs.files[id], SumsOf(fs, id), fs.blockSize)
  }

  function MissingFiles(disk: Contents, keys: seq<Id>): (r: seq<Id>)
    ensures forall id :: id in r <==> id in keys && id !in disk
    ensures Distinct(keys) ==> Distinct(r)
  {
    if keys == [] then []
    else
      var n := |keys| - 1;
      assert keys == keys[..n] + [keys[n]];
      MissingFiles(disk, keys[..n]) + if keys[n] in disk then [] else [keys[n]]
  }

  function DamagedFiles(md5: Md5, crc: Crc32, fs: FileSet, disk: Contents, finished: seq<Id>): (r: seq<Id>)
    ensures forall id :: id in r <==> id in finished && id in disk && !FileOk(md5, crc, fs, disk, id)
    ensures Distinct(finished) ==> Distinct(r)
  {
    if finished == [] then []
    else
      var n := |finished| - 1;
      assert finished == finished[..n] + [finished[n]];
      DamagedFiles(md5, crc, fs, disk, finished[..n])
      + if finished[n] in disk && !FileOk(md5, crc, fs, disk, finished[n]) then [finished[n]] else []
  }

  /** The blocks of a damaged file that fail their checksums. */
  function BadOf(md5: Md5, crc: Crc32, fs: FileSet, disk: Contents, id: Id): seq<nat>
    requires id in disk && id in fs.sums
  {
    BadBlocks(md5, crc, disk[id], fs.sums[id], fs.blockSize, |fs.sums[id]|)
  }

  predicate HasBadBlocks(md5: Md5, crc: Crc32, fs: FileSet, disk: Contents, id: Id) {
    id in disk && id in fs.sums && BadOf(md5, crc, fs, disk, id) != []
  }

  /** Only a damaged file with checksums, and with a block that fails them, has its blocks listed. */
  function BlockDamages(md5: Md5, crc: Crc32, fs: FileSet, disk: Contents, damaged: seq<Id>): map<Id, seq<nat>> {
    map id | id in damaged && HasBadBlocks(md5, crc, fs, disk, id) :: BadOf(md5, crc, fs, disk, id)
  }

  function FindingsOf(md5: Md5, crc: Crc32, fs: FileSet, disk: Contents, keys: seq<Id>, finished: seq<Id>): Findings {
    var damaged := DamagedFiles(md5, crc, fs, disk, finished);
    Findings(MissingFiles(disk, keys), damaged, BlockDamages(md5, crc, fs, disk, damaged))
  }

  lemma DamagedNext(md5: Md5, crc: Crc32, fs: FileSet, disk: Contents, finished: seq<Id>, i: nat)
    requires i < |finished|
    ensures DamagedFiles(md5, crc, fs, disk, finished[..i + 1])
         == DamagedFiles(md5, crc, fs, disk, finished[..i])
            + if finished[i] in disk && !FileOk(md5, crc, fs, disk, finished[i]) then [finished[i]] else []
  {
    hide FileOk;
    assert finished[..i + 1][..i] == finished[..i];
  }

  /** The first pass: files that are there but do not verify. */
  method FindDamaged(md5: Md5, crc: Crc32, fs: FileSet, disk: Contents, finished: seq<Id>, readLimit: nat)
    returns (damaged: seq<Id>)
    requires fs.blockSize > 0 && readLimit > 0 && forall id :: id in finished ==> id in fs.files
    ensures damaged == DamagedFiles(md5, crc, fs, disk, finished)
  {
    hide Accepted, DamagedFiles;
    damaged := [];
    NothingDamagedYet(md5, crc, fs, disk);
    for i := 0 to |finished|
      invariant damaged == DamagedFiles(md5, crc, fs, disk, finished[..i])
    {
      DamagedNext(md5, crc, fs, disk, finished, i);
      var id := finished[i];
      assert id in finished;
      if id in disk {
        var ok := VerifyReconstructedFile(md5, crc, disk[id], fs.files[id], SumsOf(fs, id), fs.blockSize, readLimit);
        if !ok {
          damaged := damaged + [id];
        }
      }
    }
    assert finished[..|finished|] == finished;
  }

  lemma NothingDamagedYet(md5: Md5, crc: Crc32, fs: FileSet, disk: Contents)
    ensures DamagedFiles(md5, crc, fs, disk, []) == [] && BlockDamages(md5, crc, fs, disk, []) == map[]
  {
  }

  /** The third pass: files that are not there. */
  method FindMissing(disk: Contents, keys: seq<Id>) returns (missing: seq<Id>)
    ensures missing == MissingFiles(disk, keys)
  {
    missing := [];
    for i := 0 to |keys|
      invariant missing == MissingFiles(disk, keys[..i])
    {
      assert keys[..i + 1][..i] == keys[..i];
      if keys[i] !in disk {
        missing := missing + [keys[i]];
      }
    }
    assert keys[..|keys|] == keys;
  }

  lemma DamagesNext(md5: Md5, crc: Crc32, fs: FileSet, disk: Contents, damaged: seq<Id>, i: nat)
    requires i < |damaged|
    ensures BlockDamages(md5, crc, fs, disk, damaged[..i + 1])
         == if HasBadBlocks(md5, crc, fs, disk, damaged[i])
            then BlockDamages(md5, crc, fs, disk, damaged[..i])[damaged[i] := BadOf(md5, crc, fs, disk, damaged[i])]
            else BlockDamages(md5, crc, fs, disk, damaged[..i])
  {
    hide BadOf;
    assert damaged[..i + 1] == damaged[..i] + [damaged[i]];
  }

  /** The fourth pass: the bad blocks of damaged files with checksums. */
  method FindBadBlocks(md5: Md5, crc: Crc32, fs: FileSet, disk: Contents, damaged: seq<Id>, readLimit: nat)
    returns (damages: map<Id, seq<nat>>)
    requires fs.blockSize > 0 && readLimit > 0 && forall id :: id in damaged ==> id in disk
    ensures damages == BlockDamages(md5, crc, fs, disk, damaged)
  {
    hide BadBlocks, BlockDamages;
    NothingDamagedYet(md5, crc, fs, disk);
    damages := map[];
    for i := 0 to |damaged|
      invariant damages == BlockDamages(md5, crc, fs, disk, damaged[..i])
    {
      DamagesNext(md5, crc, fs, disk, damaged, i);
      var id := damaged[i];
      assert id in damaged;
      if id in fs.sums {
        var bad := VerifyFileBlocks(md5, crc, disk[id], fs.sums[id], fs.blockSize, readLimit, _ => false);
        if bad.value != [] {
          damages := damages[id := bad.value];
        }
      }
    }
    assert damaged[..|damaged|] == damaged;
  }

  // ----- what the findings are good for

  /** The file set was made from these files; the checksums of some of them may be lost. */
  ghost predicate Describes(md5: Md5, crc: Crc32, fs: FileSet, infos: seq<FileInfo>, pristine: Contents) {
    && fs.blockSize > 0 && DistinctFiles(infos) && IsPristine(pristine, infos)
    && (forall id :: id in fs.files ==> exists i :: 0 <= i < |infos| && infos[i].id == id)
    && (forall i :: 0 <= i < |infos| ==>
          && infos[i].id in fs.files && fs.files[infos[i].id] == infos[i]
          && if infos[i].id in fs.sums then
               fs.sums[infos[i].id] == BlockChecksums(md5, crc, pristine[infos[i].id], fs.blockSize)
             else InfoOf(md5, pristine[infos[i].id], infos[i]))
  }

  /** The checksums of all files are known. */
  predicate AllSummed(fs: FileSet, infos: seq<FileInfo>) {
    forall i :: 0 <= i < |infos| ==> infos[i].id in fs.sums
  }

  /**
   No block on the disk collides with the block that should be there, and no file without checksums
   with the file that should be there.
   */
  ghost predicate NoDiskCollisions(md5: Md5, crc: Crc32, fs: FileSet, infos: seq<FileInfo>, pristine: Contents,
                                   disk: Contents)
    requires fs.blockSize > 0 && IsPristine(pristine, infos)
  {
    forall i :: 0 <= i < |infos| && infos[i].id in disk ==>
      if infos[i].id in fs.sums then
        NoCollisions(md5, crc, disk[infos[i].id], pristine[infos[i].id], fs.blockSize,
                     BlocksIn(infos[i].length, fs.blockSize))
      else !SameMd5(md5, disk[infos[i].id], pristine[infos[i].id])
  }

  /** No block on the disk collides with the block that should be there. */
  ghost predicate NoBlockCollisions(md5: Md5, crc: Crc32, blockSize: nat, infos: seq<FileInfo>, pristine: Contents,
                                    disk: Contents)
    requires blockSize > 0 && IsPristine(pristine, infos)
  {
    forall i :: 0 <= i < |infos| && infos[i].id in disk ==>
      NoCollisions(md5, crc, disk[infos[i].id], pristine[infos[i].id], blockSize, BlocksIn(infos[i].length, blockSize))
  }

  lemma SummedCollisions(md5: Md5, crc: Crc32, fs: FileSet, infos: seq<FileInfo>, pristine: Contents, disk: Contents)
    requires fs.blockSize > 0 && IsPristine(pristine, infos) && AllSummed(fs, infos)
    requires NoBlockCollisions(md5, crc, fs.blockSize, infos, pristine, disk)
    ensures NoDiskCollisions(md5, crc, fs, infos, pristine, disk)
  {
    hide NoCollisions, BlocksIn;
  }

  /** The list has every file once. */
  predicate Enumerates(order: seq<Id>, files: map<Id, FileInfo>) {
    Distinct(order) && (forall id :: id in order ==> id in files) && (forall id :: id in files ==> id in order)
  }

  /** A file passes verification exactly if it is the right one. */
  lemma OkIsPristine(md5: Md5, crc: Crc32, fs: FileSet, infos: seq<FileInfo>, pristine: Contents, disk: Contents,
                     i: nat)
    requires Describes(md5, crc, fs, infos, pristine) && NoDiskCollisions(md5, crc, fs, infos, pristine, disk)
    requires i < |infos|
    ensures var id := infos[i].id; FileOk(md5, crc, fs, disk, id) <==> id in disk && disk[id] == pristine[id]
  {
    hide NoCollisions, BlockChecksums, BlocksIn, Accepted, InfoOf, SameMd5;
    var id := infos[i].id;
    if id in disk {
      if id in fs.sums {
        AcceptedIsPristine(md5, crc, disk[id], pristine[id], infos[i], fs.blockSize);
      } else {
        UnsummedIsPristine(md5, crc, disk[id], pristine[id], infos[i], fs.blockSize);
      }
    }
  }

  /** Block k is as it should be. */
  predicate BlockRight(content: seq<Byte>, pristine: seq<Byte>, blockSize: nat, k: nat) {
    ReadAt(content, k * blockSize, blockSize) == ReadAt(pristine, k * blockSize, blockSize)
  }

  ghost predicate BlocksRight(content: seq<Byte>, pristine: seq<Byte>, blockSize: nat)
    requires blockSize > 0
  {
    forall k: nat :: k < BlocksIn(|pristine|, blockSize) ==> BlockRight(content, pristine, blockSize, k)
  }

  /** The bad blocks of a file are those that are not as they should be. */
  lemma BadIsWrong(md5: Md5, crc: Crc32, fs: FileSet, infos: seq<FileInfo>, pristine: Contents, disk: Contents,
                   i: nat, local: nat)
    requires Describes(md5, crc, fs, infos, pristine) && NoDiskCollisions(md5, crc, fs, infos, pristine, disk)
    requires i < |infos| && infos[i].id in disk && infos[i].id in fs.sums
    ensures var id := infos[i].id;
            local in BadOf(md5, crc, fs, disk, id)
            <==> local < BlocksIn(infos[i].length, fs.blockSize)
                 && !BlockRight(disk[id], pristine[id], fs.blockSize, local)
  {
    hide ReadAt, NoCollisions, BlocksIn;
    var id := infos[i].id;
    var n := BlocksIn(infos[i].length, fs.blockSize);
    if local < n && BlockGood(md5, crc, disk[id], fs.blockSize, local, fs.sums[id][local]) {
      AcceptedBlock(md5, crc, disk[id], pristine[id], fs.blockSize, n, local);
    }
  }

  /** If all blocks of a wrong file are right, its length is not. */
  lemma WrongLength(content: seq<Byte>, pristine: seq<Byte>, blockSize: nat)
    requires blockSize > 0 && content != pristine && BlocksRight(content, pristine, blockSize)
    ensures |content| != |pristine|
  {
    hide ReadAt;
    if |content| == |pristine| {
      forall x | 0 <= x < |content|
        ensures content[x] == pristine[x]
      {
        ByteOfBlock(content, pristine, blockSize, x);
      }
    }
  }

  lemma ByteOfBlock(content: seq<Byte>, pristine: seq<Byte>, blockSize: nat, x: nat)
    requires blockSize > 0 && BlocksRight(content, pristine, blockSize) && x < |content| == |pristine|
    ensures content[x] == pristine[x]
  {
    hide ReadAt, BlocksIn;
    var k := x / blockSize;
    QuotientBounds(x, blockSize);
    BlocksCover(|pristine|, blockSize, BlocksIn(|pristine|, blockSize));
    QuotientBelow(x, blockSize, BlocksIn(|pristine|, blockSize), k);
    assert BlockRight(content, pristine, blockSize, k);
    SameByte(content, pristine, k * blockSize, blockSize, x);
  }

  /** Block local of a damaged file is listed, if it is bad or no block of the file is listed by itself. */
  lemma {:induction false} DamagedListed(extents: map<Id, Extent>, damaged: seq<Id>,
                                         blockDamages: map<Id, seq<nat>>, id: Id, local: nat)
    requires id in damaged && id in extents
    requires if id in blockDamages then local in blockDamages[id] else local < extents[id].count
    ensures extents[id].start + local in DamagedBlocks(extents, damaged, blockDamages)
  {
    var n := |damaged| - 1;
    if damaged[n] == id {
      var r := DamagedBlocksOf(extents, id, blockDamages);
      if id in blockDamages {
        var k :| 0 <= k < |blockDamages[id]| && blockDamages[id][k] == local;
        assert r[k] == extents[id].start + local;
      } else {
        assert r[local] == extents[id].start + local;
      }
      assert extents[id].start + local in r;
    } else {
      assert damaged == damaged[..n] + [damaged[n]];
      DamagedListed(extents, damaged[..n], blockDamages, id, local);
    }
  }

  /** The findings of a verification, and the blocks they list. */
  function Listed(infos: seq<FileInfo>, blockSize: nat, f: Findings): seq<nat>
    requires blockSize > 0
  {
    DamageList(ExtentsOf(infos, blockSize, |infos|), f)
  }

  /** The file of an extent. */
  lemma FileWithExtent(infos: seq<FileInfo>, blockSize: nat, id: Id) returns (i: nat)
    requires blockSize > 0 && DistinctFiles(infos) && id in ExtentsOf(infos, blockSize, |infos|)
    ensures i < |infos| && infos[i].id == id
    ensures ExtentsOf(infos, blockSize, |infos|)[id]
            == Extent(StartOf(infos, blockSize, i), BlocksIn(infos[i].length, blockSize))
  {
    hide StartOf, BlocksIn, ExtentsOf;
    ExtentsAre(infos, blockSize, |infos|);
    i :| 0 <= i < |infos| && infos[i].id == id;
  }

  lemma ExtentOfFile(infos: seq<FileInfo>, blockSize: nat, i: nat)
    requires blockSize > 0 && DistinctFiles(infos) && i < |infos|
    ensures var extents := ExtentsOf(infos, blockSize, |infos|);
            && infos[i].id in extents
            && extents[infos[i].id] == Extent(StartOf(infos, blockSize, i), BlocksIn(infos[i].length, blockSize))
  {
    hide StartOf, BlocksIn, ExtentsOf;
    ExtentsAre(infos, blockSize, |infos|);
  }

  /** Every block that is not listed is intact. */
  lemma UnlistedUndamaged(md5: Md5, crc: Crc32, fs: FileSet, infos: seq<FileInfo>, pristine: Contents, disk: Contents,
                          keys: seq<Id>, finished: seq<Id>, b: nat)
    requires Describes(md5, crc, fs, infos, pristine) && NoDiskCollisions(md5, crc, fs, infos, pristine, disk)
    requires Enumerates(keys, fs.files) && Enumerates(finished, fs.files)
    requires b < TotalBlocks(infos, fs.blockSize)
    requires b !in Listed(infos, fs.blockSize, FindingsOf(md5, crc, fs, disk, keys, finished))
    ensures Undamaged(infos, fs.blockSize, pristine, disk, b)
  {
    hide MissingBlocks, DamagedBlocks, ReadAt, StartOf, BlocksIn, BlockChecksums, NoCollisions, Accepted,
         PlaceOfBlock, BadOf, TotalBlocks, NoDiskCollisions, MissingFiles, DamagedFiles, ExtentsOf, DataBlocks;
    var bs := fs.blockSize;
    var f := FindingsOf(md5, crc, fs, disk, keys, finished);
    var extents := ExtentsOf(infos, bs, |infos|);
    var i, local := BlockOwner(infos, bs, b);
    ExtentOfFile(infos, bs, i);
    var id := infos[i].id;
    if id !in disk {
      MissingListed(extents, f.missing, id, local);
    }
    assert id in disk;
    OkIsPristine(md5, crc, fs, infos, pristine, disk, i);
    if !FileOk(md5, crc, fs, disk, id) {
      assert id in f.damaged;
      if id in f.blockDamages && local !in f.blockDamages[id] {
        BadIsWrong(md5, crc, fs, infos, pristine, disk, i, local);
      } else {
        DamagedListed(extents, f.damaged, f.blockDamages, id, local);
      }
    }
  }

  lemma BlockOwner(infos: seq<FileInfo>, blockSize: nat, b: nat) returns (i: nat, local: nat)
    requires blockSize > 0 && b < TotalBlocks(infos, blockSize)
    ensures i < |infos| && b == StartOf(infos, blockSize, i) + local && local < BlocksIn(infos[i].length, blockSize)
    ensures PlaceOfBlock(infos, blockSize, b) == Place(infos[i].id, local)
  {
    i := FileOf(infos, blockSize, b, |infos|);
    local := b - StartOf(infos, blockSize, i);
  }

  // ----- no block is listed twice

  /** Block b belongs to one of the files. */
  ghost predicate OwnedBy(extents: map<Id, Extent>, ids: seq<Id>, b: nat) {
    exists k :: 0 <= k < |ids| && InExtent(extents, ids[k], b)
  }

  predicate InExtent(extents: map<Id, Extent>, id: Id, b: nat) {
    id in extents && extents[id].start <= b < extents[id].start + extents[id].count
  }

  /** The extents of different files have no block in common. */
  ghost predicate Disjoint(extents: map<Id, Extent>) {
    forall id, other, b: nat :: InExtent(extents, id, b) && InExtent(extents, other, b) ==> id == other
  }

  /** The listed blocks are blocks of their files, each listed once. */
  predicate ListsInside(extents: map<Id, Extent>, damages: map<Id, seq<nat>>) {
    forall id :: id in damages && id in extents ==>
        Distinct(damages[id]) && IndicesBelow(damages[id], extents[id].count)
  }

  /** The blocks of one file. */
  ghost predicate BlocksOf(extents: map<Id, Extent>, id: Id, list: seq<nat>) {
    Distinct(list) && forall b :: b in list ==> InExtent(extents, id, b)
  }

  /** One more file. */
  lemma AppendFile(extents: map<Id, Extent>, ids: seq<Id>, before: seq<nat>, list: seq<nat>)
    requires Disjoint(extents) && ids != [] && Distinct(ids)
    requires var n := |ids| - 1;
             Distinct(before) && (forall b :: b in before ==> OwnedBy(extents, ids[..n], b))
               && BlocksOf(extents, ids[n], list)
    ensures Distinct(before + list) && forall b :: b in before + list ==> OwnedBy(extents, ids, b)
  {
    var n := |ids| - 1;
    forall b | b in before
      ensures OwnedBy(extents, ids, b) && b !in list
    {
      var k :| 0 <= k < n && InExtent(extents, ids[..n][k], b);
      assert InExtent(extents, ids[k], b);
      assert ids[k] != ids[n];
    }
    forall b | b in list
      ensures OwnedBy(extents, ids, b)
    {
      assert InExtent(extents, ids[n], b);
    }
    var all := before + list;
    forall x, y | 0 <= x < y < |all|
      ensures all[x] != all[y]
    {
      if y < |before| {
      } else if x < |before| {
        assert all[x] in before && all[y] in list;
      }
    }
  }

  lemma {:induction false} MissingOnce(extents: map<Id, Extent>, missing: seq<Id>)
    requires Disjoint(extents) && Distinct(missing)
    ensures Distinct(MissingBlocks(extents, missing))
    ensures forall b :: b in MissingBlocks(extents, missing) ==> OwnedBy(extents, missing, b)
  {
    hide Disjoint, OwnedBy;
    if missing != [] {
      var n := |missing| - 1;
      MissingOnce(extents, missing[..n]);
      var list := if missing[n] in extents then Range(extents[missing[n]].start, extents[missing[n]].count) else [];
      AppendFile(extents, missing, MissingBlocks(extents, missing[..n]), list);
    }
  }

  lemma {:induction false} DamagedOnce(extents: map<Id, Extent>, damaged: seq<Id>, damages: map<Id, seq<nat>>)
    requires Disjoint(extents) && Distinct(damaged) && ListsInside(extents, damages)
    ensures Distinct(DamagedBlocks(extents, damaged, damages))
    ensures forall b :: b in DamagedBlocks(extents, damaged, damages) ==> OwnedBy(extents, damaged, b)
  {
    hide Disjoint, OwnedBy;
    if damaged != [] {
      var n := |damaged| - 1;
      DamagedOnce(extents, damaged[..n], damages);
      AppendFile(extents, damaged, DamagedBlocks(extents, damaged[..n], damages),
                 DamagedBlocksOf(extents, damaged[n], damages));
    }
  }

  lemma ExtentsDisjoint(infos: seq<FileInfo>, blockSize: nat)
    requires blockSize > 0 && DistinctFiles(infos)
    ensures Disjoint(ExtentsOf(infos, blockSize, |infos|))
  {
    hide StartOf, BlocksIn, ExtentsOf;
    var extents := ExtentsOf(infos, blockSize, |infos|);
    forall id, other, b: nat | InExtent(extents, id, b) && InExtent(extents, other, b)
      ensures id == other
    {
      var i := FileWithExtent(infos, blockSize, id);
      var j := FileWithExtent(infos, blockSize, other);
      NextStart(infos, blockSize, i);
      NextStart(infos, blockSize, j);
      HoldsOnce(infos, blockSize, i, j, b);
    }
  }

  lemma NextStart(infos: seq<FileInfo>, blockSize: nat, i: nat)
    requires blockSize > 0 && i < |infos|
    ensures StartOf(infos, blockSize, i + 1) == StartOf(infos, blockSize, i) + BlocksIn(infos[i].length, blockSize)
    ensures StartOf(infos, blockSize, i + 1) <= TotalBlocks(infos, blockSize)
  {
    StartsAscend(infos, blockSize, i + 1, |infos|);
  }

  lemma NotShared(extents: map<Id, Extent>, missing: seq<Id>, damaged: seq<Id>, b: nat)
    requires Disjoint(extents) && (forall id :: id in missing ==> id !in damaged) && OwnedBy(extents, missing, b)
    ensures !OwnedBy(extents, damaged, b)
  {
    var k :| 0 <= k < |missing| && InExtent(extents, missing[k], b);
    assert missing[k] in missing;
    forall l | 0 <= l < |damaged|
      ensures !InExtent(extents, damaged[l], b)
    {
      assert damaged[l] in damaged;
    }
  }

  /** Lists of a missing and of a damaged part that share no file. */
  lemma OwnedApart(extents: map<Id, Extent>, missing: seq<Id>, damaged: seq<Id>, a: seq<nat>, d: seq<nat>)
    requires Disjoint(extents) && Distinct(a) && Distinct(d) && forall id :: id in missing ==> id !in damaged
    requires forall b :: b in a ==> OwnedBy(extents, missing, b)
    requires forall b :: b in d ==> OwnedBy(extents, damaged, b)
    ensures Distinct(a + d)
  {
    forall b | b in a
      ensures b !in d
    {
      NotShared(extents, missing, damaged, b);
    }
    var all := a + d;
    forall x, y | 0 <= x < y < |all|
      ensures all[x] != all[y]
    {
      if x < |a| <= y {
        assert all[x] in a && all[y] in d;
      }
    }
  }

  lemma OwnedBelow(infos: seq<FileInfo>, blockSize: nat, ids: seq<Id>, b: nat)
    requires blockSize > 0 && DistinctFiles(infos) && OwnedBy(ExtentsOf(infos, blockSize, |infos|), ids, b)
    ensures b < TotalBlocks(infos, blockSize)
  {
    hide StartOf, BlocksIn, ExtentsOf;
    var extents := ExtentsOf(infos, blockSize, |infos|);
    var k :| 0 <= k < |ids| && InExtent(extents, ids[k], b);
    var i := FileWithExtent(infos, blockSize, ids[k]);
    NextStart(infos, blockSize, i);
  }

  /** No block is listed twice, and all listed blocks exist. */
  lemma ListedOnce(md5: Md5, crc: Crc32, fs: FileSet, infos: seq<FileInfo>, pristine: Contents, disk: Contents,
                   keys: seq<Id>, finished: seq<Id>)
    requires Describes(md5, crc, fs, infos, pristine) && Enumerates(keys, fs.files) && Enumerates(finished, fs.files)
    ensures var list := Listed(infos, fs.blockSize, FindingsOf(md5, crc, fs, disk, keys, finished));
            Distinct(list) && IndicesBelow(list, TotalBlocks(infos, fs.blockSize))
  {
    hide MissingBlocks, DamagedBlocks, StartOf, BlocksIn, BlockChecksums, Accepted, Disjoint, OwnedBy,
         TotalBlocks, DamagedBlocksOf;
    var bs := fs.blockSize;
    var f := FindingsOf(md5, crc, fs, disk, keys, finished);
    var extents := ExtentsOf(infos, bs, |infos|);
    ExtentsDisjoint(infos, bs);
    DamagesInside(md5, crc, fs, infos, pristine, disk, f.damaged);
    MissingOnce(extents, f.missing);
    DamagedOnce(extents, f.damaged, f.blockDamages);
    OwnedApart(extents, f.missing, f.damaged, MissingBlocks(extents, f.missing),
               DamagedBlocks(extents, f.damaged, f.blockDamages));
    var list := Listed(infos, bs, f);
    forall x | 0 <= x < |list|
      ensures list[x] < TotalBlocks(infos, bs)
    {
      assert list[x] in list;
      if list[x] in MissingBlocks(extents, f.missing) {
        OwnedBelow(infos, bs, f.missing, list[x]);
      } else {
        OwnedBelow(infos, bs, f.damaged, list[x]);
      }
    }
  }

  lemma DamagesInside(md5: Md5, crc: Crc32, fs: FileSet, infos: seq<FileInfo>, pristine: Contents, disk: Contents,
                      damaged: seq<Id>)
    requires Describes(md5, crc, fs, infos, pristine)
    ensures ListsInside(ExtentsOf(infos, fs.blockSize, |infos|), BlockDamages(md5, crc, fs, disk, damaged))
  {
    hide StartOf, BlocksIn, BlockGood, ExtentsOf, Accepted, BlockChecksums;
    var extents := ExtentsOf(infos, fs.blockSize, |infos|);
    var damages := BlockDamages(md5, crc, fs, disk, damaged);
    forall id | id in damages && id in extents
      ensures Distinct(damages[id]) && IndicesBelow(damages[id], extents[id].count)
    {
      var i := FileWithExtent(infos, fs.blockSize, id);
    }
  }

  // ----- no other block is listed

  /** The blocks listed for the damaged files are listed for one of them. */
  lemma {:induction false} DamagedFrom(extents: map<Id, Extent>, damaged: seq<Id>, damages: map<Id, seq<nat>>, b: nat)
    returns (id: Id)
    requires b in DamagedBlocks(extents, damaged, damages)
    ensures id in damaged && b in DamagedBlocksOf(extents, id, damages)
  {
    hide DamagedBlocksOf;
    var n := |damaged| - 1;
    if b in DamagedBlocksOf(extents, damaged[n], damages) {
      id := damaged[n];
    } else {
      id := DamagedFrom(extents, damaged[..n], damages, b);
    }
  }

  /**
   Block local of a file should be listed: the file is not there; or it is not the right one, and the
   block is wrong, or the checksums cannot tell which blocks are.
   */
  ghost predicate ShouldList(fs: FileSet, pristine: Contents, disk: Contents, id: Id, local: nat)
    requires fs.blockSize > 0
  {
    id !in disk
    || (id in pristine && disk[id] != pristine[id]
        && (id in fs.sums && !BlocksRight(disk[id], pristine[id], fs.blockSize) ==>
              !BlockRight(disk[id], pristine[id], fs.blockSize, local)))
  }

  /**
   The findings are exact: missing are the files that are not there, damaged those that are there and
   differ, and the blocks listed are those that should be.
   */
  ghost predicate FindingsRight(fs: FileSet, infos: seq<FileInfo>, pristine: Contents, disk: Contents, f: Findings)
    requires fs.blockSize > 0
  {
    && (forall i :: 0 <= i < |infos| ==> var id := infos[i].id;
          && (id in f.missing <==> id !in disk)
          && (id in f.damaged <==> id in disk && id in pristine && disk[id] != pristine[id]))
    && (forall i, local: nat :: 0 <= i < |infos| && local < BlocksIn(infos[i].length, fs.blockSize) ==>
          (StartOf(infos, fs.blockSize, i) + local in Listed(infos, fs.blockSize, f)
           <==> ShouldList(fs, pristine, disk, infos[i].id, local)))
  }

  /** The files that are listed. */
  lemma FilesFound(md5: Md5, crc: Crc32, fs: FileSet, infos: seq<FileInfo>, pristine: Contents, disk: Contents,
                   keys: seq<Id>, finished: seq<Id>, i: nat)
    requires Describes(md5, crc, fs, infos, pristine) && NoDiskCollisions(md5, crc, fs, infos, pristine, disk)
    requires Enumerates(keys, fs.files) && Enumerates(finished, fs.files) && i < |infos|
    ensures var (f, id) := (FindingsOf(md5, crc, fs, disk, keys, finished), infos[i].id);
            && id in pristine && Distinct(f.missing) && Distinct(f.damaged) && (id in f.missing <==> id !in disk)
            && (id in f.damaged <==> id in disk && disk[id] != pristine[id])
            && (id in f.blockDamages <==> id in f.damaged && HasBadBlocks(md5, crc, fs, disk, id))
            && (id in f.blockDamages ==> f.blockDamages[id] == BadOf(md5, crc, fs, disk, id))
  {
    hide BadOf, FileOk, InfoOf, NoDiskCollisions;
    OkIsPristine(md5, crc, fs, infos, pristine, disk, i);
  }

  lemma BadBlocksFound(md5: Md5, crc: Crc32, fs: FileSet, infos: seq<FileInfo>, pristine: Contents, disk: Contents,
                       i: nat)
    requires Describes(md5, crc, fs, infos, pristine) && NoDiskCollisions(md5, crc, fs, infos, pristine, disk)
    requires i < |infos| && infos[i].id in disk
    ensures var id := infos[i].id;
            HasBadBlocks(md5, crc, fs, disk, id)
            <==> id in fs.sums && !BlocksRight(disk[id], pristine[id], fs.blockSize)
  {
    hide BadOf, NoDiskCollisions, BlockChecksums, BlocksIn, InfoOf, BlockRight;
    var id := infos[i].id;
    if id in fs.sums {
      var bad := BadOf(md5, crc, fs, disk, id);
      if bad != [] {
        assert bad[0] in bad;
        BadIsWrong(md5, crc, fs, infos, pristine, disk, i, bad[0]);
      }
      forall k: nat | k < BlocksIn(infos[i].length, fs.blockSize) && bad == []
        ensures BlockRight(disk[id], pristine[id], fs.blockSize, k)
      {
        BadIsWrong(md5, crc, fs, infos, pristine, disk, i, k);
      }
    }
  }

  /** Block local of file i is listed only as a block of that file. */
  lemma ListedFor(infos: seq<FileInfo>, blockSize: nat, f: Findings, i: nat, local: nat)
    requires blockSize > 0 && DistinctFiles(infos) && i < |infos| && local < BlocksIn(infos[i].length, blockSize)
    requires Distinct(f.missing) && Distinct(f.damaged)
    requires ListsInside(ExtentsOf(infos, blockSize, |infos|), f.blockDamages)
    ensures var id := infos[i].id;
            StartOf(infos, blockSize, i) + local in Listed(infos, blockSize, f) <==>
              id in f.missing || (id in f.damaged && (id in f.blockDamages ==> local in f.blockDamages[id]))
  {
    hide StartOf, BlocksIn, ExtentsOf, MissingBlocks, DamagedBlocks;
    var (extents, id) := (ExtentsOf(infos, blockSize, |infos|), infos[i].id);
    var b := StartOf(infos, blockSize, i) + local;
    ExtentOfFile(infos, blockSize, i);
    ExtentsDisjoint(infos, blockSize);
    assert InExtent(extents, id, b);
    if id in f.missing {
      MissingListed(extents, f.missing, id, local);
    } else if id in f.damaged && (id in f.blockDamages ==> local in f.blockDamages[id]) {
      DamagedListed(extents, f.damaged, f.blockDamages, id, local);
    }
    if b in MissingBlocks(extents, f.missing) {
      MissingOnce(extents, f.missing);
      var k :| 0 <= k < |f.missing| && InExtent(extents, f.missing[k], b);
      assert f.missing[k] == id;
    } else if b in DamagedBlocks(extents, f.damaged, f.blockDamages) {
      var other := DamagedFrom(extents, f.damaged, f.blockDamages, b);
      InOwnExtent(extents, other, f.blockDamages, b);
      assert other == id;
    }
  }

  lemma InOwnExtent(extents: map<Id, Extent>, id: Id, damages: map<Id, seq<nat>>, b: nat)
    requires ListsInside(extents, damages) && b in DamagedBlocksOf(extents, id, damages)
    ensures InExtent(extents, id, b)
    ensures id in damages ==> b - extents[id].start in damages[id]
  {
  }

  lemma DescribedParts(md5: Md5, crc: Crc32, fs: FileSet, infos: seq<FileInfo>, pristine: Contents,
                       disk: Contents, keys: seq<Id>, finished: seq<Id>)
    requires Describes(md5, crc, fs, infos, pristine)
    ensures var f := FindingsOf(md5, crc, fs, disk, keys, finished);
            fs.blockSize > 0 && DistinctFiles(infos) && f.blockDamages == BlockDamages(md5, crc, fs, disk, f.damaged)
  {
  }

  lemma ListedRight(md5: Md5, crc: Crc32, fs: FileSet, infos: seq<FileInfo>, pristine: Contents, disk: Contents,
                    keys: seq<Id>, finished: seq<Id>, i: nat, local: nat)
    requires Describes(md5, crc, fs, infos, pristine) && NoDiskCollisions(md5, crc, fs, infos, pristine, disk)
    requires Enumerates(keys, fs.files) && Enumerates(finished, fs.files)
    requires i < |infos| && local < BlocksIn(infos[i].length, fs.blockSize)
    ensures var f := FindingsOf(md5, crc, fs, disk, keys, finished);
            StartOf(infos, fs.blockSize, i) + local in Listed(infos, fs.blockSize, f)
            <==> ShouldList(fs, pristine, disk, infos[i].id, local)
  {
    hide BadOf, FindingsOf, Describes, NoDiskCollisions, Enumerates, BlocksIn, StartOf, ExtentsOf, BlocksRight,
         BlockRight, Listed, ListsInside, HasBadBlocks;
    var f := FindingsOf(md5, crc, fs, disk, keys, finished);
    FilesFound(md5, crc, fs, infos, pristine, disk, keys, finished, i);
    DescribedParts(md5, crc, fs, infos, pristine, disk, keys, finished);
    DamagesInside(md5, crc, fs, infos, pristine, disk, f.damaged);
    ListedFor(infos, fs.blockSize, f, i, local);
    if infos[i].id in disk {
      BadBlocksFound(md5, crc, fs, infos, pristine, disk, i);
      if infos[i].id in fs.sums {
        BadIsWrong(md5, crc, fs, infos, pristine, disk, i, local);
      }
    }
  }

  /** What verification finds is exact. */
  lemma FindingsAreRight(md5: Md5, crc: Crc32, fs: FileSet, infos: seq<FileInfo>, pristine: Contents, disk: Contents,
                         keys: seq<Id>, finished: seq<Id>)
    requires Describes(md5, crc, fs, infos, pristine) && NoDiskCollisions(md5, crc, fs, infos, pristine, disk)
    requires Enumerates(keys, fs.files) && Enumerates(finished, fs.files)
    ensures FindingsRight(fs, infos, pristine, disk, FindingsOf(md5, crc, fs, disk, keys, finished))
  {
    hide FindingsOf, ShouldList, Describes, NoDiskCollisions, Enumerates, BlocksIn, StartOf, Listed;
    var f := FindingsOf(md5, crc, fs, disk, keys, finished);
    DescribedParts(md5, crc, fs, infos, pristine, disk, keys, finished);
    forall i | 0 <= i < |infos|
      ensures infos[i].id in f.missing <==> infos[i].id !in disk
      ensures infos[i].id in f.damaged
              <==> infos[i].id in disk && infos[i].id in pristine && disk[infos[i].id] != pristine[infos[i].id]
    {
      FilesFound(md5, crc, fs, infos, pristine, disk, keys, finished, i);
    }
    forall i, local: nat | 0 <= i < |infos| && local < BlocksIn(infos[i].length, fs.blockSize)
      ensures StartOf(infos, fs.blockSize, i) + local in Listed(infos, fs.blockSize, f)
              <==> ShouldList(fs, pristine, disk, infos[i].id, local)
    {
      ListedRight(md5, crc, fs, infos, pristine, disk, keys, finished, i, local);
    }
  }

  /** In a file of the right length with checksums, exactly the wrong blocks are listed. */
  lemma WrongBlocksListed(fs: FileSet, infos: seq<FileInfo>, pristine: Contents, disk: Contents, f: Findings, i: nat,
                          local: nat)
    requires fs.blockSize > 0 && IsPristine(pristine, infos) && FindingsRight(fs, infos, pristine, disk, f)
    requires i < |infos| && local < BlocksIn(infos[i].length, fs.blockSize)
    requires infos[i].id in disk && |disk[infos[i].id]| == infos[i].length && infos[i].id in fs.sums
    ensures StartOf(infos, fs.blockSize, i) + local in Listed(infos, fs.blockSize, f)
            <==> !BlockRight(disk[infos[i].id], pristine[infos[i].id], fs.blockSize, local)
  {
    hide StartOf, BlocksIn, Listed, BlockRight, BlocksRight;
    var id := infos[i].id;
    if disk[id] != pristine[id] && BlocksRight(disk[id], pristine[id], fs.blockSize) {
      WrongLength(disk[id], pristine[id], fs.blockSize);
    }
    assert ShouldList(fs, pristine, disk, infos[i].id, local)
           <==> StartOf(infos, fs.blockSize, i) + local in Listed(infos, fs.blockSize, f);
    if disk[id] == pristine[id] {
      SameIsRight(pristine[id], fs.blockSize, local);
    }
  }

  lemma SameIsRight(content: seq<Byte>, blockSize: nat, k: nat)
    ensures BlockRight(content, content, blockSize, k)
  {
  }

  /**
   verify_files_with_messages, without files under other names and without cancellation: `keys` is
   the order in which the hash map yields the files, `finished` the order in which the parallel
   checks end.  The findings are exact, for whatever files the file set was made from.
   */
  method VerifyFiles(md5: Md5, crc: Crc32, fs: FileSet, disk: Contents, keys: seq<Id>, finished: seq<Id>,
                     readLimit: nat)
    returns (f: Findings)
    requires fs.blockSize > 0 && readLimit > 0 && forall id :: id in finished ==> id in fs.files
    ensures f == FindingsOf(md5, crc, fs, disk, keys, finished)
    ensures forall infos: seq<FileInfo>, pristine: Contents ::
              Describes(md5, crc, fs, infos, pristine) && NoDiskCollisions(md5, crc, fs, infos, pristine, disk)
              && Enumerates(keys, fs.files) && Enumerates(finished, fs.files)
              ==> FindingsRight(fs, infos, pristine, disk, f)
  {
    hide FileOk, BlockDamages, NoDiskCollisions, Enumerates, FindingsRight, MissingFiles, DamagedFiles, BlockChecksums,
         InfoOf;
    forall infos: seq<FileInfo>, pristine: Contents |
      Describes(md5, crc, fs, infos, pristine) && NoDiskCollisions(md5, crc, fs, infos, pristine, disk)
      && Enumerates(keys, fs.files) && Enumerates(finished, fs.files)
      ensures FindingsRight(fs, infos, pristine, disk, FindingsOf(md5, crc, fs, disk, keys, finished))
    {
      FindingsAreRight(md5, crc, fs, infos, pristine, disk, keys, finished);
    }
    var damaged := FindDamaged(md5, crc, fs, disk, finished, readLimit);
    var missing := FindMissing(disk, keys);
    var damages := FindBadBlocks(md5, crc, fs, disk, damaged, readLimit);
    f := Findings(missing, damaged, damages);
  }
}
