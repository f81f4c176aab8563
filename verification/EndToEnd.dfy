/**
 The whole way: create an archive, lose or damage files and volumes, load what is left, verify,
 repair, and rename the repaired files into place.  `CreateLoseRepair` runs the methods of the
 other modules one after the other; what it ensures is that every file of the set is the original
 one again, at the path of its name, whenever enough recovery blocks are left and no names clash.
 */
module EndToEnd {
  import opened Options
  import opened GaloisTables
  import opened LinearAlgebra
  import opened Vandermonde
  import opened Constants
  import opened Bytes
  import opened LittleEndian
  import opened NibbleTables
  import opened FileSystems
  import opened FileIds
  import opened Packets
  import opened Scanner
  import opened Layouts
  import opened Archive
  import opened Creation
  import opened Loading
  import opened Encoding
  import opened Reconstruction
  import opened RoundTrip
  import opened BlockNumbering
  import opened RepairChunks
  import opened Rebuild
  import opened Verification
  import opened Creator
  import opened Disk
  import opened Repair
  import opened CreateRepair
  import opened FileChecks
  import CommitProtocol

  // ----- what is created

  /** Checksums are 32-bit numbers. */
  ghost predicate IsCrc32(crc: Crc32) {
    forall block: seq<Byte> :: crc(block) < Packets.U32
  }

  /** The set ID of an archive: the MD5 of the body of its Main packet. */
  function SetOf(md5: Md5, blockSize: nat, infos: seq<FileInfo>): Id {
    md5(MainBody(blockSize, Ids(infos)))
  }

  /** Files in numbering order whose descriptions fit their packets. */
  ghost predicate Creatable(md5: Md5, infos: seq<FileInfo>, pristine: Contents, blockSize: nat, creator: seq<Byte>) {
    && DistinctFiles(infos) && IsPristine(pristine, infos) && NumberingOrder(infos) == infos
    && 0 < blockSize < U64 - 128 && blockSize % 4 == 0 && |creator| < Packets.U32 && |infos| < Packets.U32
    && (forall i :: 0 <= i < |infos| ==> Fits(WrittenFileDesc(infos[i])))
    && SetOf(md5, blockSize, infos) != ZeroId()
  }

  /** What goes into the index file: everything in the single-file scheme, otherwise nothing. */
  function IndexBlocks(scheme: VolumeScheme, volumes: seq<Volume>): seq<Recovery>
    requires scheme == Single ==> volumes != []
  {
    if scheme == Single then volumes[0].blocks else []
  }

  function BlocksOf(volumes: seq<Volume>): (r: seq<seq<Recovery>>)
    ensures |r| == |volumes|
  {
    seq(|volumes|, i requires 0 <= i < |volumes| => volumes[i].blocks)
  }

  /** What goes into the volume files. */
  function VolumeBlocks(scheme: VolumeScheme, volumes: seq<Volume>): seq<seq<Recovery>> {
    if scheme == Exponential then BlocksOf(volumes) else []
  }

  lemma {:induction false} FlattenBlocks(volumes: seq<Volume>)
    ensures Flatten(BlocksOf(volumes)) == AllBlocks(volumes)
  {
    if volumes != [] {
      var n := |volumes| - 1;
      FlattenBlocks(volumes[..n]);
      assert BlocksOf(volumes)[..n] == BlocksOf(volumes[..n]);
    }
  }

  ghost predicate AllIn(found: seq<Recovery>, created: seq<Recovery>) {
    forall i :: 0 <= i < |found| ==> found[i] in created
  }

  ghost predicate PartsIn(parts: seq<seq<Recovery>>, created: seq<Recovery>) {
    forall k :: 0 <= k < |parts| ==> AllIn(parts[k], created)
  }

  lemma {:induction false} PartIn(parts: seq<seq<Recovery>>, k: nat)
    requires k < |parts|
    ensures AllIn(parts[k], Flatten(parts))
  {
    var n := |parts| - 1;
    if k < n {
      PartIn(parts[..n], k);
      assert AllIn(parts[..n][k], Flatten(parts[..n]));
      forall i | 0 <= i < |parts[k]|
        ensures parts[k][i] in Flatten(parts)
      {
        assert parts[..n][k][i] in Flatten(parts[..n]);
      }
    }
  }

  lemma {:induction false} FlattenIn(parts: seq<seq<Recovery>>, created: seq<Recovery>)
    requires PartsIn(parts, created)
    ensures AllIn(Flatten(parts), created)
  {
    if parts != [] {
      var n := |parts| - 1;
      FlattenIn(parts[..n], created);
      assert AllIn(parts[n], created);
    }
  }

  /** The metadata of an archive. */
  function MetadataOf(blockSize: nat, infos: seq<FileInfo>, sums: map<Id, seq<SliceChecksum>>,
                      creator: seq<Byte>): Metadata {
    Metadata(blockSize, infos, sums, creator)
  }

  lemma SumsFit(md5: Md5, crc: Crc32, content: seq<Byte>, blockSize: nat, id: Id)
    requires IsCrc32(crc) && blockSize > 0 && BlocksIn(|content|, blockSize) < Packets.U32
    ensures Fits(WrittenIfsc(id, BlockChecksums(md5, crc, content, blockSize)))
  {
    hide BlocksIn, ReadAt;
    var sums := BlockChecksums(md5, crc, content, blockSize);
    forall i | 0 <= i < |sums|
      ensures sums[i].crc32 < Packets.U32
    {
      assert sums[i].crc32 == crc(ReadAt(content, i * blockSize, blockSize));
    }
  }

  /** The metadata that create writes fits its packets. */
  lemma CreatedFits(md5: Md5, crc: Crc32, infos: seq<FileInfo>, pristine: Contents, blockSize: nat, creator: seq<Byte>,
                    sums: map<Id, seq<SliceChecksum>>)
    requires Creatable(md5, infos, pristine, blockSize, creator) && IsCrc32(crc)
    requires TotalBlocks(infos, blockSize) <= MAX_BLOCKS
             && ChecksumsOf(sums, md5, crc, infos, pristine, blockSize, |infos|)
    ensures MetadataFits(MetadataOf(blockSize, infos, sums, creator))
  {
    hide BlocksIn, BlockChecksums, StartOf, TotalBlocks, IsCrc32, Fits, NumberingOrder, ZeroId;
    forall id | id in sums
      ensures Fits(WrittenIfsc(id, sums[id]))
    {
      var i :| 0 <= i < |infos| && infos[i].id == id;
      NextStart(infos, blockSize, i);
      SumsFit(md5, crc, pristine[id], blockSize, id);
    }
  }

  /** Created recovery blocks fit their packets. */
  lemma RecoveriesFitIn(m: Metadata, data: seq<seq<Byte>>, count: nat, found: seq<Recovery>)
    requires m.blockSize % 2 == 0 && Uniform(data, m.blockSize) && count <= Packets.U32
    requires AllIn(found, Encoded(FirstConstants(|data|), data, count, m.blockSize))
    ensures RecoveriesFit(m, found)
  {
    hide RecoveryRow, ToBytes, Uniform, FirstConstants;
    var created := Encoded(FirstConstants(|data|), data, count, m.blockSize);
    forall i | 0 <= i < |found|
      ensures found[i].exponent < Packets.U32 && |found[i].data| == m.blockSize
    {
      var e: nat :| e < count && created[e] == found[i];
    }
  }

  // ----- what is loaded

  function FileSetOf(par2: Par2File): FileSet {
    FileSet(par2.blockSize, par2.files, par2.checksums)
  }

  lemma {:induction false} InfoMapOnly(infos: seq<FileInfo>, id: Id)
    requires id in InfoMap(infos)
    ensures exists i :: 0 <= i < |infos| && infos[i].id == id
  {
    if infos[0].id != id {
      InfoMapOnly(infos[1..], id);
      var j :| 0 <= j < |infos[1..]| && infos[1..][j].id == id;
      assert infos[j + 1].id == id;
    }
  }

  /** What is loaded describes the files. */
  lemma LoadedDescribes(md5: Md5, crc: Crc32, fs: FileSet, infos: seq<FileInfo>, pristine: Contents,
                        sums: map<Id, seq<SliceChecksum>>)
    requires fs.blockSize > 0 && DistinctFiles(infos) && IsPristine(pristine, infos)
    requires ChecksumsOf(sums, md5, crc, infos, pristine, fs.blockSize, |infos|)
    requires fs.files == InfoMap(infos) && fs.sums == ChecksumMap(infos, sums)
    ensures Describes(md5, crc, fs, infos, pristine) && AllSummed(fs, infos)
  {
    hide InfoMap, ChecksumMap, BlockChecksums;
    forall id | id in fs.files
      ensures exists i :: 0 <= i < |infos| && infos[i].id == id
    {
      InfoMapOnly(infos, id);
    }
    forall i | 0 <= i < |infos|
      ensures infos[i].id in fs.files && fs.files[infos[i].id] == infos[i] && infos[i].id in fs.sums
      ensures fs.sums[infos[i].id] == BlockChecksums(md5, crc, pristine[infos[i].id], fs.blockSize)
    {
      MapsFind(infos, sums, i);
    }
  }

  // ----- what is repaired

  /**
   Enough recovery blocks are left: those with the lowest exponents are as they were created, and
   regular.
   */
  ghost predicate EnoughLeft(job: Job, pristine: Contents, count: nat)
    requires job.blockSize > 0 && IsPristine(pristine, job.infos)
  {
    && WithinLimits(TotalBlocks(job.infos, job.blockSize), |job.recoveries|) && Regular(job)
    && FoundAmong(Chosen(job, |Damaged(job)|), DataBlocks(job.infos, job.blockSize, pristine), job.blockSize, count)
  }

  /**
   If all recovery blocks found are created ones and their lowest exponents follow each other, that
   is so exactly when no two damaged blocks share a constant.
   */
  lemma ConsecutiveEnough(job: Job, pristine: Contents, count: nat, s: nat)
    requires job.blockSize > 0 && WithinLimits(TotalBlocks(job.infos, job.blockSize), |job.recoveries|)
    requires |Damaged(job)| <= |job.recoveries| && LowestAre(job.recoveries, s, |Damaged(job)|)
    requires WellPosed(job) && Distinct(Damaged(job)) && IsPristine(pristine, job.infos)
    requires FoundAmong(job.recoveries, DataBlocks(job.infos, job.blockSize, pristine), job.blockSize, count)
    ensures EnoughLeft(job, pristine, count) <==> DistinctResidues(Damaged(job))
    ensures TotalBlocks(job.infos, job.blockSize) <= DISTINCT_CONSTANTS ==> EnoughLeft(job, pristine, count)
  {
    hide DamageList, TotalBlocks, LowestAre, Chosen, DistinctResidues, Regular, Singular, DataBlocks, FoundAmong;
    LowestChosen(job, s, |Damaged(job)|);
    ConsecutiveRegular(job, s);
    ChosenAmong(job, DataBlocks(job.infos, job.blockSize, pristine), count, |Damaged(job)|);
    if TotalBlocks(job.infos, job.blockSize) <= DISTINCT_CONSTANTS {
      SmallResidues(Damaged(job), TotalBlocks(job.infos, job.blockSize));
    }
  }

  lemma DescribesParts(md5: Md5, crc: Crc32, fs: FileSet, infos: seq<FileInfo>, pristine: Contents)
    requires Describes(md5, crc, fs, infos, pristine)
    ensures fs.blockSize > 0 && DistinctFiles(infos) && IsPristine(pristine, infos)
  {
  }

  /** What the verification of the disk found makes the job repairable. */
  lemma VerifiedIsRepairable(md5: Md5, crc: Crc32, fs: FileSet, infos: seq<FileInfo>, pristine: Contents,
                             disk: Contents, keys: seq<Id>, finished: seq<Id>, job: Job, count: nat)
    requires Describes(md5, crc, fs, infos, pristine) && NoDiskCollisions(md5, crc, fs, infos, pristine, disk)
    requires Enumerates(keys, fs.files) && Enumerates(finished, fs.files)
    requires job.blockSize == fs.blockSize && fs.blockSize % 4 == 0 && job.infos == infos
    requires job.findings == FindingsOf(md5, crc, fs, disk, keys, finished)
    requires IsPristine(pristine, infos) && EnoughLeft(job, pristine, count)
    ensures Repairable(job, disk, pristine)
  {
    hide Describes, NoDiskCollisions, Enumerates, FoundAmong, Undamaged, DataBlocks, TotalBlocks, DamageList,
         ExtentsOf, DamagePowers, Chosen, MissingFiles, DamagedFiles, BlockDamages;
    DescribesParts(md5, crc, fs, infos, pristine);
    ListedOnce(md5, crc, fs, infos, pristine, disk, keys, finished);
    forall b: nat | b < TotalBlocks(infos, fs.blockSize) && b !in Damaged(job)
      ensures Undamaged(infos, fs.blockSize, pristine, disk, b)
    {
      UnlistedUndamaged(md5, crc, fs, infos, pristine, disk, keys, finished, b);
    }
    CreatedIsSalvageable(job, disk, pristine, count);
  }

  lemma VerifiedIsWellPosed(md5: Md5, crc: Crc32, fs: FileSet, infos: seq<FileInfo>, pristine: Contents, disk: Contents,
                            keys: seq<Id>, finished: seq<Id>, job: Job)
    requires Describes(md5, crc, fs, infos, pristine) && Enumerates(keys, fs.files) && Enumerates(finished, fs.files)
    requires job.blockSize == fs.blockSize && job.infos == infos
             && job.findings == FindingsOf(md5, crc, fs, disk, keys, finished)
    requires forall i :: 0 <= i < |job.recoveries| ==> job.recoveries[i].exponent < Packets.U32
    ensures WellPosed(job)
  {
    hide TotalBlocks, DamageList, ExtentsOf, FindingsOf, Enumerates;
    ListedOnce(md5, crc, fs, infos, pristine, disk, keys, finished);
  }

  // ----- what is committed

  function PathsOf(names: map<Id, Path>, order: seq<Id>): (r: seq<Path>)
    requires forall i :: 0 <= i < |order| ==> order[i] in names
    ensures |r| == |order|
  {
    seq(|order|, i requires 0 <= i < |order| => names[order[i]])
  }

  /** The names of the files that stay as they are. */
  function KeptNames(names: map<Id, Path>, findings: Findings): set<Path> {
    set id | id in names && !ToReplace(findings, id) :: names[id]
  }

  /** The files to replace, in the order in which the hash map yields them. */
  ghost predicate IsOrder(order: seq<Id>, names: map<Id, Path>, findings: Findings) {
    Distinct(order) && forall id :: id in order <==> id in names && ToReplace(findings, id)
  }

  /** The commit of a set's missing and damaged files, each verified as the source verifies it. */
  ghost function CommitOf(md5: Md5, crc: Crc32, fs: FileSet, names: map<Id, Path>, findings: Findings, order: seq<Id>)
    : CommitProtocol.Job
    requires IsOrder(order, names, findings)
  {
    CommitProtocol.Job(PathsOf(names, order), KeptNames(names, findings), (i: nat, c: Content) =>
      i < |order| && order[i] in fs.files
      && Accepted(md5, crc, c, fs.files[order[i]], SumsOf(fs, order[i]), fs.blockSize))
  }

  /** No names clash, in the sense of the commit protocol, exactly when they are clear. */
  lemma ClearExactly(md5: Md5, crc: Crc32, fs: FileSet, names: map<Id, Path>, findings: Findings, order: seq<Id>)
    requires IsOrder(order, names, findings)
    ensures CommitProtocol.NoClash(CommitOf(md5, crc, fs, names, findings, order)) <==> NamesClear(names, findings)
  {
    hide TempPathFor, ToReplace;
    var job := CommitOf(md5, crc, fs, names, findings, order);
    if NamesClear(names, findings) {
      assert CommitProtocol.NoClash(job);
    } else {
      var a, b :| a in names && b in names && ToReplace(findings, b)
                  && (names[a] == TempPathFor(names[b]) || (a != b && names[a] == names[b]));
      assert b in order;
      var j :| 0 <= j < |order| && order[j] == b;
      assert job.finals[j] == names[b];
      if ToReplace(findings, a) {
        assert a in order;
        var i :| 0 <= i < |order| && order[i] == a;
        assert job.finals[i] == names[a];
      } else {
        assert names[a] in job.kept;
      }
    }
  }

  /** The contents of the temps in that order. */
  function TempContents(temps: Contents, order: seq<Id>): (r: seq<Content>)
    requires forall i :: 0 <= i < |order| ==> order[i] in temps
    ensures |r| == |order|
  {
    seq(|order|, i requires 0 <= i < |order| => temps[order[i]])
  }

  /** A run from disk0 that finds the disk with the temps when everything is written, and ends by committing them. */
  ghost predicate Commits(job: CommitProtocol.Job, disk0: FileSystem, run: seq<CommitProtocol.State>, k: nat,
                          disk: FileSystem)
  {
    && CommitProtocol.IsRun(job, disk0, run) && k < |run| && run[k].phase.LastCheck? && run[k].fs == disk
    && run[|run| - 1].phase.Committed?
  }

  /** Every file of the set is at its path, as it was. */
  ghost predicate AllAtPaths(infos: seq<FileInfo>, pristine: Contents, disk: FileSystem) {
    forall i :: 0 <= i < |infos| ==>
      infos[i].name in disk && infos[i].id in pristine && disk[infos[i].name] == pristine[infos[i].id]
  }

  /**
   The temps can be committed, in any order; every run that does leaves every file of the set as it
   was; and in every state of every run, committing or not, the files to keep are as they were.
   */
  ghost predicate CommitRestores(md5: Md5, crc: Crc32, fs: FileSet, infos: seq<FileInfo>, findings: Findings,
                                 pristine: Contents, disk0: FileSystem, disk: FileSystem)
  {
    var names := NamesOf(infos, |infos|);
    forall order :: IsOrder(order, names, findings) ==>
      var job := CommitOf(md5, crc, fs, names, findings, order);
      && (exists run: seq<CommitProtocol.State>, k: nat :: Commits(job, disk0, run, k, disk))
      && (forall run: seq<CommitProtocol.State>, k: nat ::
            Commits(job, disk0, run, k, disk) ==> AllAtPaths(infos, pristine, run[|run| - 1].fs))
      && (forall run: seq<CommitProtocol.State>, k: nat ::
            CommitProtocol.IsRun(job, disk0, run) && k < |run| ==> CommitProtocol.SafeState(job, disk0, run[k]))
  }

  lemma TempAccepted(md5: Md5, crc: Crc32, fs: FileSet, infos: seq<FileInfo>, pristine: Contents, id: Id)
    requires Describes(md5, crc, fs, infos, pristine) && id in fs.files
    ensures id in pristine && Accepted(md5, crc, pristine[id], fs.files[id], SumsOf(fs, id), fs.blockSize)
  {
    hide Accepted, BlockChecksums, BlocksIn, InfoOf;
    var i :| 0 <= i < |infos| && infos[i].id == id;
    if id in fs.sums {
      PristineAccepted(md5, crc, pristine[id], infos[i], fs.blockSize, BlocksIn(infos[i].length, fs.blockSize));
      var sums := BlockChecksums(md5, crc, pristine[id], fs.blockSize);
      assert sums[..|sums|] == sums;
    } else {
      UnsummedIsPristine(md5, crc, pristine[id], pristine[id], infos[i], fs.blockSize);
    }
  }

  /** The temp of a file in the order is where the commit protocol looks for it. */
  lemma OrderedTemp(job: CommitProtocol.Job, names: map<Id, Path>, findings: Findings, order: seq<Id>,
                    disk: FileSystem, i: nat)
    requires IsOrder(order, names, findings) && i < |order|
    requires TempsThere(disk, TempPaths(names, findings)) && job.finals == PathsOf(names, order)
    ensures var paths := TempPaths(names, findings);
            && order[i] in paths && order[i] in TempsIn(disk, paths)
            && paths[order[i]] == CommitProtocol.Temp(job, i)
            && TempsIn(disk, paths)[order[i]] == disk[CommitProtocol.Temp(job, i)]
  {
    hide TempPathFor, ToReplace;
    assert order[i] in order;
  }

  /** All other paths are as they were. */
  lemma OrderedUntouched(job: CommitProtocol.Job, names: map<Id, Path>, findings: Findings, order: seq<Id>,
                         disk0: FileSystem, disk: FileSystem)
    requires IsOrder(order, names, findings) && job.finals == PathsOf(names, order)
    requires TempsThere(disk, TempPaths(names, findings)) && OnlyTemps(disk0, disk, TempPaths(names, findings))
    ensures CommitProtocol.Untouched(job, disk0, disk)
  {
    hide TempPathFor, ToReplace, TempsIn;
    var paths := TempPaths(names, findings);
    forall p: Path | !CommitProtocol.IsTemp(job, p)
      ensures SameAt(disk0, disk, p)
    {
      forall id | id in paths
        ensures paths[id] != p
      {
        assert id in order;
        var i :| 0 <= i < |order| && order[i] == id;
        OrderedTemp(job, names, findings, order, disk, i);
      }
    }
  }

  /** The disk with pristine temps, as the commit protocol sees it. */
  lemma TempsAccepted(md5: Md5, crc: Crc32, fs: FileSet, infos: seq<FileInfo>, findings: Findings, pristine: Contents,
                      disk0: FileSystem, disk: FileSystem, order: seq<Id>)
    returns (contents: seq<Content>)
    requires Describes(md5, crc, fs, infos, pristine) && IsOrder(order, NamesOf(infos, |infos|), findings)
    requires var paths := TempPaths(NamesOf(infos, |infos|), findings);
             && TempsThere(disk, paths) && OnlyTemps(disk0, disk, paths)
             && forall id :: id in TempsIn(disk, paths) ==> id in pristine && TempsIn(disk, paths)[id] == pristine[id]
    ensures var job := CommitOf(md5, crc, fs, NamesOf(infos, |infos|), findings, order);
            && CommitProtocol.TempsHold(job, disk, contents) && CommitProtocol.AcceptsAll(job, contents)
            && CommitProtocol.Untouched(job, disk0, disk)
    ensures |contents| == |order|
            && forall i :: 0 <= i < |order| ==> order[i] in pristine && contents[i] == pristine[order[i]]
  {
    hide Accepted, TempPathFor, NamesOf, ToReplace, Describes, OnlyTemps, TempsThere, TempsIn, TempPaths, IsOrder;
    var names := NamesOf(infos, |infos|);
    var paths := TempPaths(names, findings);
    var job := CommitOf(md5, crc, fs, names, findings, order);
    OrderedUntouched(job, names, findings, order, disk0, disk);
    forall i | 0 <= i < |order|
      ensures order[i] in TempsIn(disk, paths) && CommitProtocol.Temp(job, i) in disk
      ensures TempsIn(disk, paths)[order[i]] == disk[CommitProtocol.Temp(job, i)]
      ensures order[i] in pristine && job.accepts(i, pristine[order[i]])
    {
      OrderedTemp(job, names, findings, order, disk, i);
      OrderedPath(names, findings, order, disk, i);
      NamedIsDescribed(md5, crc, fs, infos, pristine, order[i]);
      TempAccepted(md5, crc, fs, infos, pristine, order[i]);
    }
    contents := TempContents(TempsIn(disk, paths), order);
  }

  lemma OrderedPath(names: map<Id, Path>, findings: Findings, order: seq<Id>, disk: FileSystem, i: nat)
    requires IsOrder(order, names, findings) && i < |order| && TempsThere(disk, TempPaths(names, findings))
    ensures order[i] in names && TempPathFor(names[order[i]]) in disk
  {
    assert order[i] in order;
    assert order[i] in TempPaths(names, findings);
  }

  lemma NamedIsDescribed(md5: Md5, crc: Crc32, fs: FileSet, infos: seq<FileInfo>, pristine: Contents, id: Id)
    requires Describes(md5, crc, fs, infos, pristine) && id in NamesOf(infos, |infos|)
    ensures id in fs.files
  {
    hide NamesOf, BlockChecksums;
    NamesAre(infos, |infos|);
  }

  /** Pristine temps beside files that are right can be committed, and then everything is right. */
  lemma PristineCommits(md5: Md5, crc: Crc32, fs: FileSet, infos: seq<FileInfo>, findings: Findings,
                        pristine: Contents, disk0: FileSystem, disk: FileSystem)
    requires Describes(md5, crc, fs, infos, pristine) && NamesClear(NamesOf(infos, |infos|), findings)
    requires var paths := TempPaths(NamesOf(infos, |infos|), findings);
             && TempsThere(disk, paths) && OnlyTemps(disk0, disk, paths)
             && forall id :: id in TempsIn(disk, paths) ==> id in pristine && TempsIn(disk, paths)[id] == pristine[id]
    requires KeptRight(infos, findings, pristine, disk0)
    ensures CommitRestores(md5, crc, fs, infos, findings, pristine, disk0, disk)
  {
    hide Describes, NamesClear, KeptRight, TempsThere, OnlyTemps, TempsIn, TempPaths, NamesOf, AllAtPaths,
         CommitProtocol.IsRun, CommitProtocol.SafeState, CommitProtocol.NoClash, CommitProtocol.TempsHold,
         CommitProtocol.AcceptsAll, CommitProtocol.Untouched, IsOrder;
    var names := NamesOf(infos, |infos|);
    forall order | IsOrder(order, names, findings)
      ensures var job := CommitOf(md5, crc, fs, names, findings, order);
              && (exists run: seq<CommitProtocol.State>, k: nat :: Commits(job, disk0, run, k, disk))
              && (forall run: seq<CommitProtocol.State>, k: nat :: Commits(job, disk0, run, k, disk) ==>
                    AllAtPaths(infos, pristine, run[|run| - 1].fs))
              && (forall run: seq<CommitProtocol.State>, k: nat ::
                    CommitProtocol.IsRun(job, disk0, run) && k < |run| ==> CommitProtocol.SafeState(job, disk0, run[k]))
    {
      var job := CommitOf(md5, crc, fs, names, findings, order);
      ClearExactly(md5, crc, fs, names, findings, order);
      var contents := TempsAccepted(md5, crc, fs, infos, findings, pristine, disk0, disk, order);
      SomeCommit(job, disk0, disk, contents);
      DescribesParts(md5, crc, fs, infos, pristine);
      forall run: seq<CommitProtocol.State>, k: nat | Commits(job, disk0, run, k, disk)
        ensures AllAtPaths(infos, pristine, run[|run| - 1].fs)
      {
        CommitRight(md5, crc, fs, infos, findings, pristine, disk0, disk, order, contents, run, k);
      }
      forall run: seq<CommitProtocol.State>, k: nat | CommitProtocol.IsRun(job, disk0, run) && k < |run|
        ensures CommitProtocol.SafeState(job, disk0, run[k])
      {
        CommitProtocol.RunIsSafe(job, disk0, run, k);
      }
    }
  }

  lemma SomeCommit(job: CommitProtocol.Job, disk0: FileSystem, disk: FileSystem, contents: seq<Content>)
    requires CommitProtocol.NoClash(job) && CommitProtocol.AcceptsAll(job, contents)
    requires CommitProtocol.TempsHold(job, disk, contents) && CommitProtocol.Untouched(job, disk0, disk)
    ensures exists run: seq<CommitProtocol.State>, k: nat :: Commits(job, disk0, run, k, disk)
  {
    hide CommitProtocol.IsRun, CommitProtocol.Untouched, CommitProtocol.TempsHold, CommitProtocol.Written,
         CommitProtocol.NoTempClash;
    var run, s, k := CommitProtocol.CanCommit(job, disk0, contents);
    CommitProtocol.WrittenIs(job, disk0, contents, disk);
    CommitProtocol.LastState(job, disk0, run, s);
    assert Commits(job, disk0, run, k, disk);
  }

  /** The files that are not replaced are at their paths, as they were. */
  ghost predicate KeptRight(infos: seq<FileInfo>, findings: Findings, pristine: Contents, disk0: FileSystem) {
    forall i :: 0 <= i < |infos| && !ToReplace(findings, infos[i].id) ==>
      infos[i].name in disk0 && infos[i].id in pristine && disk0[infos[i].name] == pristine[infos[i].id]
  }

  lemma CommitRight(md5: Md5, crc: Crc32, fs: FileSet, infos: seq<FileInfo>, findings: Findings, pristine: Contents,
                    disk0: FileSystem, disk: FileSystem, order: seq<Id>, contents: seq<Content>,
                    run: seq<CommitProtocol.State>, k: nat)
    requires IsOrder(order, NamesOf(infos, |infos|), findings) && KeptRight(infos, findings, pristine, disk0)
    requires DistinctFiles(infos) && IsPristine(pristine, infos)
    requires var job := CommitOf(md5, crc, fs, NamesOf(infos, |infos|), findings, order);
             && CommitProtocol.NoClash(job) && Commits(job, disk0, run, k, disk)
             && CommitProtocol.TempsHold(job, disk, contents)
    requires |contents| == |order|
             && forall i :: 0 <= i < |order| ==> order[i] in pristine && contents[i] == pristine[order[i]]
    ensures AllAtPaths(infos, pristine, run[|run| - 1].fs)
  {
    hide NamesOf, ToReplace, CommitProtocol.IsRun, CommitProtocol.NoClash, CommitProtocol.TempsHold, IsOrder,
         CommitProtocol.SafeState, CommitOf, KeptNames, PathsOf, TempPathFor;
    var names := NamesOf(infos, |infos|);
    var job := CommitOf(md5, crc, fs, names, findings, order);
    var end := run[|run| - 1].fs;
    OrderedJob(md5, crc, fs, names, findings, order);
    NamesAre(infos, |infos|);
    CommitProtocol.InstallsWhatWasWritten(job, disk0, run, k, contents);
    CommitProtocol.RunIsSafe(job, disk0, run, |run| - 1);
    forall i | 0 <= i < |infos|
      ensures infos[i].name in end && infos[i].id in pristine && end[infos[i].name] == pristine[infos[i].id]
    {
      if ToReplace(findings, infos[i].id) {
        var j := PlaceInOrder(order, names, findings, infos[i].id);
        assert job.finals[j] == infos[i].name;
      } else {
        KeptNamed(names, findings, infos[i].id);
        KeptSame(job, disk0, run[|run| - 1], infos[i].name);
      }
    }
  }

  lemma OrderedJob(md5: Md5, crc: Crc32, fs: FileSet, names: map<Id, Path>, findings: Findings, order: seq<Id>)
    requires IsOrder(order, names, findings)
    ensures var job := CommitOf(md5, crc, fs, names, findings, order);
            && job.kept == KeptNames(names, findings) && |job.finals| == |order|
            && forall j :: 0 <= j < |order| ==> order[j] in names && job.finals[j] == names[order[j]]
  {
    forall j | 0 <= j < |order|
      ensures order[j] in names
    {
      assert order[j] in order;
    }
  }

  lemma PlaceInOrder(order: seq<Id>, names: map<Id, Path>, findings: Findings, id: Id) returns (j: nat)
    requires IsOrder(order, names, findings) && id in names && ToReplace(findings, id)
    ensures j < |order| && order[j] == id
  {
    assert id in order;
    j :| 0 <= j < |order| && order[j] == id;
  }

  lemma KeptNamed(names: map<Id, Path>, findings: Findings, id: Id)
    requires id in names && !ToReplace(findings, id)
    ensures names[id] in KeptNames(names, findings)
  {
  }

  lemma KeptSame(job: CommitProtocol.Job, disk0: FileSystem, s: CommitProtocol.State, p: Path)
    requires CommitProtocol.SafeState(job, disk0, s) && p in job.kept
    ensures SameAt(disk0, s.fs, p)
  {
  }

  // ----- the whole way

  /** Every file with bytes in it is at its path as it was. */
  ghost predicate AllThere(infos: seq<FileInfo>, pristine: Contents, disk0: FileSystem) {
    forall i :: 0 <= i < |infos| && infos[i].length > 0 ==> SameFile(infos[i], pristine, disk0)
  }

  predicate SameFile(info: FileInfo, pristine: Contents, disk0: FileSystem) {
    info.name in disk0 && info.id in pristine && disk0[info.name] == pristine[info.id]
  }

  /** What is found on a disk. */
  function FindingsOn(md5: Md5, crc: Crc32, fs: FileSet, infos: seq<FileInfo>, disk0: FileSystem, keys: seq<Id>,
                      finished: seq<Id>): Findings {
    FindingsOf(md5, crc, fs, OnDisk(NamesOf(infos, |infos|), disk0), keys, finished)
  }

  /** Nothing on the disk collides with what should be there. */
  ghost predicate NoCollisionsOn(md5: Md5, crc: Crc32, fs: FileSet, infos: seq<FileInfo>, pristine: Contents,
                                 disk0: FileSystem)
    requires fs.blockSize > 0 && IsPristine(pristine, infos)
  {
    NoDiskCollisions(md5, crc, fs, infos, pristine, OnDisk(NamesOf(infos, |infos|), disk0))
  }

  /** A file that was neither missing nor damaged is right. */
  lemma UnlistedFile(md5: Md5, crc: Crc32, fs: FileSet, infos: seq<FileInfo>, pristine: Contents, disk0: FileSystem,
                     keys: seq<Id>, finished: seq<Id>, i: nat)
    requires Describes(md5, crc, fs, infos, pristine) && NoCollisionsOn(md5, crc, fs, infos, pristine, disk0)
    requires Enumerates(keys, fs.files) && Enumerates(finished, fs.files) && i < |infos|
    requires !ToReplace(FindingsOn(md5, crc, fs, infos, disk0, keys, finished), infos[i].id)
    ensures SameFile(infos[i], pristine, disk0)
  {
    hide Accepted, BlockChecksums, NoDiskCollisions, MissingFiles, DamagedFiles, BlockDamages, NamesOf;
    var disk := OnDisk(NamesOf(infos, |infos|), disk0);
    NamesAre(infos, |infos|);
    assert FileOk(md5, crc, fs, disk, infos[i].id);
    OkIsPristine(md5, crc, fs, infos, pristine, disk, i);
  }

  /** If no block is listed, every file with bytes in it is right. */
  lemma NothingListed(md5: Md5, crc: Crc32, fs: FileSet, infos: seq<FileInfo>, pristine: Contents, disk0: FileSystem,
                      keys: seq<Id>, finished: seq<Id>)
    requires Describes(md5, crc, fs, infos, pristine) && NoCollisionsOn(md5, crc, fs, infos, pristine, disk0)
    requires Enumerates(keys, fs.files) && Enumerates(finished, fs.files)
    requires Listed(infos, fs.blockSize, FindingsOn(md5, crc, fs, infos, disk0, keys, finished)) == []
    ensures AllThere(infos, pristine, disk0)
  {
    hide Describes, NoCollisionsOn, MissingBlocks, DamagedBlocks, ExtentsOf, FileOk, BlocksIn, StartOf,
         MissingFiles, DamagedFiles, BlockDamages, OnDisk, NamesOf, SameFile;
    forall i | 0 <= i < |infos| && infos[i].length > 0
      ensures SameFile(infos[i], pristine, disk0)
    {
      SomeBlockListed(md5, crc, fs, infos, pristine, OnDisk(NamesOf(infos, |infos|), disk0), keys, finished, i);
      UnlistedFile(md5, crc, fs, infos, pristine, disk0, keys, finished, i);
    }
  }

  /** A missing or damaged file with bytes in it has a block listed. */
  lemma SomeBlockListed(md5: Md5, crc: Crc32, fs: FileSet, infos: seq<FileInfo>, pristine: Contents, disk: Contents,
                        keys: seq<Id>, finished: seq<Id>, i: nat)
    requires Describes(md5, crc, fs, infos, pristine) && i < |infos| && infos[i].length > 0
    ensures var f := FindingsOf(md5, crc, fs, disk, keys, finished);
            ToReplace(f, infos[i].id) ==> Listed(infos, fs.blockSize, f) != []
  {
    hide MissingBlocks, DamagedBlocks, ExtentsOf, FileOk, BlocksIn, StartOf, BlockChecksums, MissingFiles,
         DamagedFiles, BadOf;
    var f := FindingsOf(md5, crc, fs, disk, keys, finished);
    var (extents, id) := (ExtentsOf(infos, fs.blockSize, |infos|), infos[i].id);
    ExtentOfFile(infos, fs.blockSize, i);
    LocalBelowCount(infos, fs.blockSize, i, 0);
    ZeroQuotient(fs.blockSize);
    if id in f.missing {
      MissingListed(extents, f.missing, id, 0);
    } else if id in f.damaged {
      if id in f.blockDamages {
        var b := f.blockDamages[id][0];
        DamagedListed(extents, f.damaged, f.blockDamages, id, b);
      } else {
        DamagedListed(extents, f.damaged, f.blockDamages, id, 0);
      }
    }
  }

  lemma ZeroQuotient(c: nat)
    requires c > 0
    ensures 0 / c == 0
  {
  }

  /** What the repair ends with, if enough is left. */
  ghost predicate EndsWell(md5: Md5, crc: Crc32, fs: FileSet, job: Job, pristine: Contents, disk0: FileSystem,
                           r: Outcome) {
    if job.blockSize > 0 && Damaged(job) == [] then r == NothingDamaged && AllThere(job.infos, pristine, disk0)
    else r.Rebuilt? && CommitRestores(md5, crc, fs, job.infos, job.findings, pristine, disk0, r.disk)
  }

  lemma RebuiltIsRight(md5: Md5, crc: Crc32, fs: FileSet, infos: seq<FileInfo>, pristine: Contents, disk0: FileSystem,
                       keys: seq<Id>, finished: seq<Id>, job: Job, disk: FileSystem)
    requires Describes(md5, crc, fs, infos, pristine) && NoCollisionsOn(md5, crc, fs, infos, pristine, disk0)
    requires Enumerates(keys, fs.files) && Enumerates(finished, fs.files) && job.infos == infos
    requires job.findings == FindingsOn(md5, crc, fs, infos, disk0, keys, finished)
    requires NamesClear(Names(job), job.findings)
    requires var paths := TempPaths(Names(job), job.findings);
             && TempsThere(disk, paths) && OnlyTemps(disk0, disk, paths)
             && AllPristine(job, pristine, TempsIn(disk, paths))
    ensures CommitRestores(md5, crc, fs, infos, job.findings, pristine, disk0, disk)
  {
    hide Describes, NoCollisionsOn, Enumerates, CommitRestores, FindingsOn, TempsIn, TempPaths, TempsThere, OnlyTemps,
         NamesClear, NamesOf, ToReplace;
    forall i | 0 <= i < |infos| && !ToReplace(job.findings, infos[i].id)
      ensures SameFile(infos[i], pristine, disk0)
    {
      UnlistedFile(md5, crc, fs, infos, pristine, disk0, keys, finished, i);
    }
    PristineCommits(md5, crc, fs, infos, job.findings, pristine, disk0, disk);
  }

  /** Writes the index file and the volume files. */
  method WriteArchive(md5: Md5, meta: Metadata, own: seq<Recovery>, parts: seq<seq<Recovery>>)
    returns (index: seq<Byte>, files: seq<seq<Byte>>)
    ensures index == ArchiveFile(md5, meta, own) && files == ArchiveFiles(md5, meta, parts)
  {
    hide ArchiveFile;
    index := WriteFile(md5, meta, own);
    files := [];
    for i := 0 to |parts|
      invariant files == ArchiveFiles(md5, meta, parts)[..i]
    {
      var file := WriteFile(md5, meta, parts[i]);
      files := files + [file];
    }
  }

  /** The index file and these volume files together hold all created recovery blocks, in order. */
  ghost predicate HoldAll(md5: Md5, data: seq<seq<Byte>>, blockSize: nat, count: nat, volumes: seq<seq<Byte>>)
    requires Uniform(data, blockSize)
  {
    exists meta: Metadata, own: seq<Recovery>, parts: seq<seq<Recovery>> ::
      volumes == ArchiveFiles(md5, meta, parts)
      && own + Flatten(parts) == Encoded(FirstConstants(|data|), data, count, blockSize)
  }

  /** Every file that is left is one of those that were written, or does not start like a file of the set. */
  predicate OnlyLost(left: seq<seq<Byte>>, written: seq<seq<Byte>>, setId: Id) {
    forall i :: 0 <= i < |left| ==> left[i] in written || !OfSet(left[i], setId)
  }

  /** What such files hold. */
  lemma {:induction false} LeftParts(md5: Md5, meta: Metadata, parts: seq<seq<Recovery>>, left: seq<seq<Byte>>)
    returns (held: seq<Neighbour>)
    requires OnlyLost(left, ArchiveFiles(md5, meta, parts), SetId(md5, meta))
    requires forall i :: 0 <= i < |parts| ==> RecoveriesFit(meta, parts[i])
    ensures left == NeighbourFiles(md5, meta, held)
    ensures forall i :: 0 <= i < |held| ==>
              NeighbourFits(md5, meta, held[i]) && (held[i].Ours? ==> held[i].part in parts)
  {
    hide ArchiveFile, RecoveriesFit, OfSet, SetId;
    held := [];
    for n := 0 to |left|
      invariant |held| == n && forall i :: 0 <= i < n ==>
          && left[i] == NeighbourBytes(md5, meta, held[i])
          && NeighbourFits(md5, meta, held[i]) && (held[i].Ours? ==> held[i].part in parts)
    {
      if left[n] in ArchiveFiles(md5, meta, parts) {
        var k :| 0 <= k < |parts| && ArchiveFiles(md5, meta, parts)[k] == left[n];
        held := held + [Ours(parts[k])];
      } else {
        held := held + [Foreign(left[n])];
      }
    }
  }

  lemma {:induction false} OurPartsIn(held: seq<Neighbour>, parts: seq<seq<Recovery>>, k: nat)
    requires forall i :: 0 <= i < |held| ==> held[i].Ours? ==> held[i].part in parts
    requires k < |OurParts(held)|
    ensures OurParts(held)[k] in parts
    decreases |held|
  {
    var n := |held| - 1;
    assert held[n] in held;
    if k < |OurParts(held[..n])| {
      OurPartsIn(held[..n], parts, k);
    }
  }

  /** If volumes were only lost, every recovery block found is a created one. */
  lemma LostFound(md5: Md5, meta: Metadata, own: seq<Recovery>, parts: seq<seq<Recovery>>, left: seq<seq<Byte>>,
                  par2: Par2File, created: seq<Recovery>)
    requires MetadataFits(meta) && RecoveriesFit(meta, own)
             && forall i :: 0 <= i < |parts| ==> RecoveriesFit(meta, parts[i])
    requires NumberingOrder(meta.infos) == meta.infos && SetId(md5, meta) != ZeroId()
    requires OnlyLost(left, ArchiveFiles(md5, meta, parts), SetId(md5, meta)) && own + Flatten(parts) == created
    requires var index := ArchiveFile(md5, meta, own);
             && LoadFrom(index, Scan(md5, index, 0, Start()), left) == Loaded(par2)
             && forall i :: 0 <= i < |par2.recoveries| ==> par2.recoveries[i].file < |left| + 1
    ensures AllIn(ReadLocated([ArchiveFile(md5, meta, own)] + left, par2.recoveries), created)
  {
    hide MetadataFits, RecoveriesFit, ArchiveFile, ArchiveFiles, SetId, ZeroId, Scan, LoadFrom, NumberingOrder,
         ReadLocated, Start, OnlyLost, NeighbourFiles, NeighbourFits, OurParts;
    var held := LeftParts(md5, meta, parts, left);
    var par2' := CreatedArchiveLoads(md5, meta, own, held);
    var ours := OurParts(held);
    forall k | 0 <= k < |ours|
      ensures AllIn(ours[k], created)
    {
      OurPartsIn(held, parts, k);
      var j :| 0 <= j < |parts| && parts[j] == ours[k];
      PartIn(parts, j);
    }
    FlattenIn(ours, created);
  }

  /**
   Creates the archive, with all volumes; afterwards the volume files may be lost, damaged, copied or
   exchanged.  Loads the index file and what is left.
   */
  method CreateAndLoad(t: Tables, mul128: seq<Lut>, numCpus: nat, shuffle: bool, md5: Md5, crc: Crc32,
                       infos: seq<FileInfo>, pristine: Contents, blockSize: nat, count: nat, creator: seq<Byte>,
                       scheme: VolumeScheme, loss: seq<seq<Byte>> -> seq<seq<Byte>>)
    returns (fs: FileSet, found: seq<Recovery>, written: seq<seq<Byte>>)
    requires t.Valid() && IsMul128(mul128) && numCpus > 0
    requires Creatable(md5, infos, pristine, blockSize, creator) && IsCrc32(crc)
    requires WithinLimits(TotalBlocks(infos, blockSize), count) && (scheme == Single ==> count > 0)
    ensures Describes(md5, crc, fs, infos, pristine) && AllSummed(fs, infos)
    ensures fs.blockSize == blockSize && fs.files == InfoMap(infos)
    ensures HoldAll(md5, DataBlocks(infos, blockSize, pristine), blockSize, count, written)
    ensures OnlyLost(loss(written), written, SetOf(md5, blockSize, infos)) ==>
              FoundAmong(found, DataBlocks(infos, blockSize, pristine), blockSize, count)
    ensures forall i :: 0 <= i < |found| ==> found[i].exponent < Packets.U32
  {
    hide IsMul128, Tables.Valid, DataBlocks, FirstConstants, Encoded, TotalBlocks, ArchiveFile, ArchiveFiles,
         MetadataFits, Describes, ChecksumsOf, AllIn, PartsIn, AllBlocks, IsCrc32, SetId, Scan, Flatten, ReadLocated,
         LoadFrom, InfoMap, ChecksumMap, RecoveriesFit, NumberingOrder, MainBody, Fits, BlockChecksums, ZeroId,
         OnlyLost;
    var parity := CreateParity(t, mul128, md5, crc, infos, pristine, blockSize, count, shuffle, numCpus);
    ghost var data := DataBlocks(infos, blockSize, pristine);
    ghost var created := Encoded(FirstConstants(|data|), data, count, blockSize);
    var sums := parity.value.checksums;
    var meta := MetadataOf(blockSize, infos, sums, creator);
    var volumes := SplitIntoVolumes(parity.value.recoveries, scheme);
    VolumesExist(volumes, scheme, parity.value.recoveries);
    var own, parts := IndexBlocks(scheme, volumes), VolumeBlocks(scheme, volumes);
    AllHeld(scheme, volumes, created);
    CreatedFits(md5, crc, infos, pristine, blockSize, creator, sums);
    HalfBlocks(blockSize);
    PartsOfAll(own, parts, created);
    RecoveriesFitIn(meta, data, count, own);
    PartsFit(meta, data, count, parts);
    SetIdOf(md5, meta);
    var index;
    index, written := WriteArchive(md5, meta, own, parts);
    var left := loss(written);
    var loaded := Load(md5, index, left);
    ghost var par2 := AnyVolumesLoad(md5, meta, own, left);
    NonemptyFile(md5, meta, own);
    fs := FileSetOf(loaded.par2);
    found := ReadLocated([index] + left, loaded.par2.recoveries);
    LoadedDescribes(md5, crc, fs, infos, pristine, sums);
    if OnlyLost(left, written, SetOf(md5, blockSize, infos)) {
      LostFound(md5, meta, own, parts, left, par2, created);
      AmongIsIn(found, data, blockSize, count);
    }
  }

  lemma VolumesExist(volumes: seq<Volume>, scheme: VolumeScheme, recoveries: seq<Recovery>)
    requires AllBlocks(volumes) == recoveries
    ensures recoveries != [] ==> volumes != []
  {
  }

  /** Index and volumes hold everything. */
  lemma AllHeld(scheme: VolumeScheme, volumes: seq<Volume>, created: seq<Recovery>)
    requires AllBlocks(volumes) == created && (scheme == Single ==> |volumes| == 1)
    ensures IndexBlocks(scheme, volumes) + Flatten(VolumeBlocks(scheme, volumes)) == created
  {
    if scheme == Single {
      assert AllBlocks(volumes[..0]) == [];
    } else {
      FlattenBlocks(volumes);
    }
  }

  lemma PartsOfAll(own: seq<Recovery>, parts: seq<seq<Recovery>>, created: seq<Recovery>)
    requires own + Flatten(parts) == created
    ensures AllIn(own, created) && PartsIn(parts, created)
  {
    forall k | 0 <= k < |parts|
      ensures AllIn(parts[k], created)
    {
      PartIn(parts, k);
    }
  }

  lemma PartsFit(meta: Metadata, data: seq<seq<Byte>>, count: nat, parts: seq<seq<Recovery>>)
    requires meta.blockSize % 2 == 0 && Uniform(data, meta.blockSize) && count <= Packets.U32
    requires PartsIn(parts, Encoded(FirstConstants(|data|), data, count, meta.blockSize))
    ensures forall i :: 0 <= i < |parts| ==> RecoveriesFit(meta, parts[i])
  {
    hide AllIn, Encoded, RecoveriesFit, Uniform;
    forall i | 0 <= i < |parts|
      ensures RecoveriesFit(meta, parts[i])
    {
      RecoveriesFitIn(meta, data, count, parts[i]);
    }
  }

  lemma SetIdOf(md5: Md5, meta: Metadata)
    ensures SetId(md5, meta) == md5(MainBody(meta.blockSize, Ids(meta.infos)))
  {
  }

  lemma NonemptyFile(md5: Md5, meta: Metadata, own: seq<Recovery>)
    ensures ArchiveFile(md5, meta, own) != []
  {
    hide WrittenPacket;
  }

  lemma AmongIsIn(found: seq<Recovery>, data: seq<seq<Byte>>, blockSize: nat, count: nat)
    requires Uniform(data, blockSize) && AllIn(found, Encoded(FirstConstants(|data|), data, count, blockSize))
    ensures FoundAmong(found, data, blockSize, count)
  {
    hide Encoded;
  }

  /**
   Create an archive; afterwards the disk may hold anything, and anything may have happened to the
   volume files.  Load what is left, verify the files and repair them.  If enough recovery blocks are
   left and the names do not clash, either nothing needed repair and every file is there, or the disk
   with the temps can be committed, and every run that does leaves every file of the set as it was.
   */
  method CreateLoseRepair(t: Tables, mul128: seq<Lut>, m: Machine, md5: Md5, crc: Crc32, infos: seq<FileInfo>,
                          pristine: Contents, blockSize: nat, count: nat, creator: seq<Byte>,
                          scheme: VolumeScheme, loss: seq<seq<Byte>> -> seq<seq<Byte>>, disk0: FileSystem,
                          keys: seq<Id>, finished: seq<Id>, readLimit: nat)
    returns (fs: FileSet, job: Job, written: seq<seq<Byte>>, r: Outcome)
    requires t.Valid() && IsMul128(mul128) && Sensible(m) && readLimit > 0
    requires Creatable(md5, infos, pristine, blockSize, creator) && IsCrc32(crc)
    requires WithinLimits(TotalBlocks(infos, blockSize), count) && (scheme == Single ==> count > 0)
    requires Enumerates(keys, InfoMap(infos)) && Enumerates(finished, InfoMap(infos))
    requires NoBlockCollisions(md5, crc, blockSize, infos, pristine, OnDisk(NamesOf(infos, |infos|), disk0))
    ensures Describes(md5, crc, fs, infos, pristine) && AllSummed(fs, infos) && fs.blockSize == blockSize
    ensures job.blockSize == blockSize && job.infos == infos
            && job.findings == FindingsOn(md5, crc, fs, infos, disk0, keys, finished)
    ensures FindingsRight(fs, infos, pristine, OnDisk(NamesOf(infos, |infos|), disk0), job.findings)
    ensures HoldAll(md5, DataBlocks(infos, blockSize, pristine), blockSize, count, written)
    ensures OnlyLost(loss(written), written, SetOf(md5, blockSize, infos)) ==>
              FoundAmong(job.recoveries, DataBlocks(infos, blockSize, pristine), blockSize, count)
    ensures EnoughLeft(job, pristine, count) && LayoutFits(m, blockSize, ChunkOf(m, job))
            && NamesClear(Names(job), job.findings) ==>
              EndsWell(md5, crc, fs, job, pristine, disk0, r)
  {
    hide IsMul128, Tables.Valid, DataBlocks, TotalBlocks, Describes, IsCrc32, InfoMap, Enumerates, NoDiskCollisions,
         FoundAmong, FindingsOf, FindingsRight, AllSummed, NoBlockCollisions, EnoughLeft, LayoutFits, EndsWell,
         Creatable, Salvageable, AllPristine, Damaged,
         Regular, Singular, NamesClear, TempsApart, NamesOf, OnDisk, HoldAll, OnlyLost, TempsIn, TempPaths, OnlyTemps,
         TempsThere;
    CreatableParts(md5, infos, pristine, blockSize, creator);
    var found;
    fs, found, written := CreateAndLoad(t, mul128, m.cpus, m.shuffle, md5, crc, infos, pristine, blockSize, count,
                                        creator, scheme, loss);
    FinishedKnown(finished, InfoMap(infos));
    var names := CollectNames(infos);
    var findings := VerifyFiles(md5, crc, fs, OnDisk(names, disk0), keys, finished, readLimit);
    job := Job(blockSize, infos, found, findings);
    SummedCollisions(md5, crc, fs, infos, pristine, OnDisk(names, disk0));
    VerifiedIsWellPosed(md5, crc, fs, infos, pristine, OnDisk(names, disk0), keys, finished, job);
    r := RepairFiles(t, mul128, m, job, disk0, pristine);
    if EnoughLeft(job, pristine, count) && LayoutFits(m, blockSize, ChunkOf(m, job)) && NamesClear(names, findings) {
      VerifiedIsRepairable(md5, crc, fs, infos, pristine, OnDisk(names, disk0), keys, finished, job, count);
      ClearIsApart(names, findings);
      RepairedEndsWell(md5, crc, fs, infos, pristine, disk0, keys, finished, job, r);
    }
  }

  lemma CreatableParts(md5: Md5, infos: seq<FileInfo>, pristine: Contents, blockSize: nat, creator: seq<Byte>)
    requires Creatable(md5, infos, pristine, blockSize, creator)
    ensures IsPristine(pristine, infos) && blockSize > 0 && blockSize % 4 == 0
  {
  }

  lemma FinishedKnown(finished: seq<Id>, files: map<Id, FileInfo>)
    requires Enumerates(finished, files)
    ensures forall id :: id in finished ==> id in files
  {
  }

  lemma RepairedEndsWell(md5: Md5, crc: Crc32, fs: FileSet, infos: seq<FileInfo>, pristine: Contents,
                         disk0: FileSystem, keys: seq<Id>, finished: seq<Id>, job: Job, r: Outcome)
    requires Describes(md5, crc, fs, infos, pristine) && NoCollisionsOn(md5, crc, fs, infos, pristine, disk0)
    requires Enumerates(keys, fs.files) && Enumerates(finished, fs.files)
    requires job.blockSize == fs.blockSize && job.infos == infos
             && job.findings == FindingsOn(md5, crc, fs, infos, disk0, keys, finished)
    requires job.blockSize > 0 && NamesClear(Names(job), job.findings)
    requires if Damaged(job) == [] then r == NothingDamaged
             else r.Rebuilt? && AllPristine(job, pristine, TempsIn(r.disk, r.outputs))
    requires r.Rebuilt? ==>
               r.outputs == TempPaths(Names(job), job.findings) && OnlyTemps(disk0, r.disk, r.outputs)
               && TempsThere(r.disk, r.outputs)
    ensures EndsWell(md5, crc, fs, job, pristine, disk0, r)
  {
    hide Describes, NoCollisionsOn, Enumerates, AllPristine, FindingsOn, AllThere, CommitRestores, DamageList,
         NamesClear, OnlyTemps, TempsThere, TempsIn, TempPaths, NamesOf;
    if Damaged(job) == [] {
      NothingListed(md5, crc, fs, infos, pristine, disk0, keys, finished);
    } else {
      RebuiltIsRight(md5, crc, fs, infos, pristine, disk0, keys, finished, job, r.disk);
    }
  }
}
