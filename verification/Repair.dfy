/**
 A whole repair up to the point where the temp files are complete (`repair_files_with_messages`
 and `process_chunk`, src/repair.rs): numbering, damage lists, chunk loop, reconstruction and
 writing.  When every bad block is listed and the recovery blocks used determine the damaged
 blocks without a swap, every temp file is the pristine file.
 */
module Repair {
  import opened Options
  import opened GaloisTables
  import opened LinearAlgebra
  import opened Elimination
  import opened Vandermonde
  import opened Constants
  import opened Bytes
  import opened FileSystems
  import opened FileIds
  import opened NibbleTables
  import opened Regions
  import opened Encoding
  import opened Reconstruction
  import opened ChunkReconstruction
  import opened Erasures
  import opened LeadingMinors
  import opened RoundTrip
  import opened BlockNumbering
  import opened RepairChunks
  import opened Rebuild
  import opened Disk

  datatype Job = Job(blockSize: nat, infos: seq<FileInfo>, recoveries: seq<Recovery>, findings: Findings)

  /** What depends on the machine and the environment. */
  datatype Machine = Machine(cpus: nat, ideal: nat, minChunk: Option<nat>, shuffle: bool, regionU16s: nat)

  datatype RepairError =
    BadBlockSize | TooManyBlocks | InsufficientRecovery | OriginalUnreadable | CodecFailed(error: Error)
    | WrongChunkCount

  /** A completed repair leaves the disk with the temps, and says where they are. */
  datatype Outcome =
    NothingDamaged | Rebuilt(disk: FileSystem, outputs: map<Id, Path>) | Refused(error: RepairError)

  predicate Sensible(m: Machine) {
    m.cpus > 0 && m.ideal > 0 && m.regionU16s > 0
  }

  // ----- the parts of a job

  function ExponentKey(r: Recovery): nat {
    r.exponent
  }

  /** The blocks to reconstruct. */
  function Damaged(job: Job): seq<nat>
    requires job.blockSize > 0
  {
    DamageList(ExtentsOf(job.infos, job.blockSize, |job.infos|), job.findings)
  }

  /** The recovery blocks with the lowest exponents, as many as are needed. */
  function Chosen(job: Job, m: nat): (r: seq<Recovery>)
    requires m <= |job.recoveries|
    ensures |r| == m
  {
    SortAscends(job.recoveries, ExponentKey);
    SameLength(SortBy(job.recoveries, ExponentKey), job.recoveries);
    SortBy(job.recoveries, ExponentKey)[..m]
  }

  function LengthsOf(infos: seq<FileInfo>, n: nat): map<Id, nat>
    requires n <= |infos|
  {
    if n == 0 then map[] else LengthsOf(infos, n - 1)[infos[n - 1].id := infos[n - 1].length]
  }

  /** What the source's callers guarantee: listed blocks exist, and exponents are 32-bit. */
  predicate WellPosed(job: Job) {
    && DistinctFiles(job.infos)
    && (job.blockSize > 0 ==> IndicesBelow(Damaged(job), TotalBlocks(job.infos, job.blockSize)))
    && forall i :: 0 <= i < |job.recoveries| ==> job.recoveries[i].exponent < Reconstruction.U32
  }

  /** Enough recovery blocks are there, those that are used are genuine, and what is not listed as damaged is intact. */
  ghost predicate Salvageable(job: Job, disk: Contents, pristine: Contents)
  {
    && job.blockSize > 0 && job.blockSize % 4 == 0 && IsPristine(pristine, job.infos)
    && var total := TotalBlocks(job.infos, job.blockSize);
    && var damaged := Damaged(job);
    && var data := DataBlocks(job.infos, job.blockSize, pristine);
    && WithinLimits(total, |job.recoveries|)
    && Distinct(damaged) && |damaged| <= |job.recoveries|
    && (forall i :: 0 <= i < |damaged| ==> Genuine(data, job.blockSize, Chosen(job, |damaged|)[i]))
    && (forall b: nat :: b < total && b !in damaged ==> Undamaged(job.infos, job.blockSize, pristine, disk, b))
    && (forall i :: 0 <= i < |job.findings.damaged| ==> job.findings.damaged[i] in disk)
  }

  function DamageOf(damaged: seq<nat>, total: nat): Damage {
    Damage(damaged, GoodBelow(damaged, total), Range(total, |damaged|))
  }

  ghost predicate HasPowers(job: Job) {
    job.blockSize > 0 && |Damaged(job)| <= |job.recoveries|
    && IndicesBelow(Damaged(job), TotalBlocks(job.infos, job.blockSize))
  }

  /** The constants of the damaged blocks to the exponents of the recovery blocks that are used. */
  ghost function DamagePowers(job: Job): (a: Matrix)
    requires HasPowers(job)
    ensures IsMatrix(a, |a|, |a|)
  {
    PowerMatrix(Select(FirstConstants(TotalBlocks(job.infos, job.blockSize)), Damaged(job)),
                Exponents(Chosen(job, |Damaged(job)|)))
  }

  /** The exponents that are left determine the damaged blocks, without a swap that does harm. */
  ghost predicate Regular(job: Job) {
    HasPowers(job)
    && Restorable(DamagePowers(job), GoodBelow(Damaged(job), TotalBlocks(job.infos, job.blockSize)))
  }

  /** The exponents that are left do not determine the damaged blocks. */
  ghost predicate Singular(job: Job) {
    HasPowers(job) && !Nonsingular(DamagePowers(job))
  }

  /** The loss can be made good. */
  ghost predicate Repairable(job: Job, disk: Contents, pristine: Contents) {
    Salvageable(job, disk, pristine) && Regular(job)
  }

  /** Consecutive exponents: regular, and not singular, exactly when no two damaged blocks have the same constant. */
  lemma ConsecutiveRegular(job: Job, s: nat)
    requires HasPowers(job) && Exponents(Chosen(job, |Damaged(job)|)) == Consecutive(s, |Damaged(job)|)
    ensures Regular(job) <==> DistinctResidues(Damaged(job))
    ensures Singular(job) <==> !DistinctResidues(Damaged(job))
  {
    hide Restorable, Nonsingular, DistinctResidues, Damaged, Chosen, TotalBlocks, GoodBelow, PowerMatrix;
    var total := TotalBlocks(job.infos, job.blockSize);
    ConsecutiveRestorable(total, Damaged(job), s, GoodBelow(Damaged(job), total));
  }

  // ----- lengths and temps

  lemma {:induction false} LengthsAre(infos: seq<FileInfo>, n: nat)
    requires n <= |infos| && DistinctFiles(infos)
    ensures forall i :: 0 <= i < n ==> infos[i].id in LengthsOf(infos, n)
                                       && LengthsOf(infos, n)[infos[i].id] == infos[i].length
    ensures forall id :: id in LengthsOf(infos, n) ==> exists i :: 0 <= i < n && infos[i].id == id
  {
    if n > 0 {
      LengthsAre(infos, n - 1);
    }
  }

  method CollectLengths(infos: seq<FileInfo>) returns (lengths: map<Id, nat>)
    ensures lengths == LengthsOf(infos, |infos|)
  {
    lengths := map[];
    for i := 0 to |infos|
      invariant lengths == LengthsOf(infos, i)
    {
      lengths := lengths[infos[i].id := infos[i].length];
    }
  }

  lemma {:induction false} SameKeys(infos: seq<FileInfo>, n: nat)
    requires n <= |infos|
    ensures LengthsOf(infos, n).Keys == NamesOf(infos, n).Keys
  {
    if n > 0 {
      SameKeys(infos, n - 1);
    }
  }

  lemma ChosenAre(job: Job, m: nat)
    requires m <= |job.recoveries|
    ensures forall i :: 0 <= i < m ==> Chosen(job, m)[i] in job.recoveries
  {
    SortAscends(job.recoveries, ExponentKey);
    var sorted := SortBy(job.recoveries, ExponentKey);
    SameLength(sorted, job.recoveries);
    forall i | 0 <= i < m
      ensures Chosen(job, m)[i] in job.recoveries
    {
      assert sorted[i] in multiset(sorted);
      assert sorted[i] in multiset(job.recoveries);
    }
  }

  /** A salvageable job is recoverable in the sense of the codec. */
  lemma SalvageableIsRecoverable(job: Job, disk: Contents, pristine: Contents)
    requires WellPosed(job) && Salvageable(job, disk, pristine) && Damaged(job) != []
    ensures var damaged := Damaged(job);
            var total := TotalBlocks(job.infos, job.blockSize);
            Recoverable(DataBlocks(job.infos, job.blockSize, pristine), job.blockSize, Chosen(job, |damaged|),
                        DamageOf(damaged, total))
  {
    hide DataBlocks, Genuine, Chosen, Damaged, TotalBlocks, Undamaged, Partition, GoodBelow;
    var damaged := Damaged(job);
    DamagedOrGood(damaged, TotalBlocks(job.infos, job.blockSize));
    ChosenAre(job, |damaged|);
  }

  // ----- the data a salvageable job works with

  /** The transform of a salvageable job: found unless the job is singular, and harmless exactly when it is regular. */
  lemma SalvageableTransforms(job: Job, disk: Contents, pristine: Contents) returns (r: Result<ReconstructionTransform>)
    requires WellPosed(job) && Salvageable(job, disk, pristine) && Damaged(job) != []
    ensures var damaged := Damaged(job);
            var total := TotalBlocks(job.infos, job.blockSize);
            var data := DataBlocks(job.infos, job.blockSize, pristine);
            var d := DamageOf(damaged, total);
            && Recoverable(data, job.blockSize, Chosen(job, |damaged|), d)
            && TransformFor(data, job.blockSize, Chosen(job, |damaged|), d) == r
            && (r.Ok? && (InOrder(r.value.record.order) || d.present == []) <==> Regular(job))
    ensures Singular(job) <==> r == Err(SingularMatrix)
    ensures r.Err? ==> r == Err(SingularMatrix)
  {
    hide DataBlocks, Genuine, Chosen, Damaged, TotalBlocks, Undamaged, Recoverable, TransformFor, GoodBelow,
         Nonsingular, Restorable, PowerMatrix, InOrder;
    var damaged := Damaged(job);
    var total := TotalBlocks(job.infos, job.blockSize);
    var data := DataBlocks(job.infos, job.blockSize, pristine);
    var d := DamageOf(damaged, total);
    SalvageableIsRecoverable(job, disk, pristine);
    var exponents := Exponents(Chosen(job, |damaged|));
    assert UsedExponents(total, Range(total, |damaged|), exponents, |damaged|) == exponents;
    assert UsedPowers(total, Chosen(job, |damaged|), d) == DamagePowers(job);
    TransformExactly(data, job.blockSize, Chosen(job, |damaged|), d);
    r := TransformFor(data, job.blockSize, Chosen(job, |damaged|), d);
  }

  /** Every chunk of a salvageable job comes out as the pristine chunks. */
  lemma SalvageableChunk(job: Job, disk: Contents, pristine: Contents, blocks: map<nat, Place>,
                         tr: ReconstructionTransform, o: nat, z: nat)
    requires WellPosed(job) && Salvageable(job, disk, pristine) && Damaged(job) != []
    requires IsBlockMap(blocks, job.infos, job.blockSize)
    requires o % 2 == 0 && z % 2 == 0 && o + z <= job.blockSize
    requires var d := DamageOf(Damaged(job), TotalBlocks(job.infos, job.blockSize));
             && (var data := DataBlocks(job.infos, job.blockSize, pristine);
                 && Recoverable(data, job.blockSize, Chosen(job, |Damaged(job)|), d)
                 && TransformFor(data, job.blockSize, Chosen(job, |Damaged(job)|), d) == Ok(tr))
             && (InOrder(tr.record.order) || d.present == [])
    ensures var damaged := Damaged(job);
            var total := TotalBlocks(job.infos, job.blockSize);
            var read := ChunkReader(blocks, disk, Chosen(job, |damaged|), total, job.blockSize, o, z);
            && WellFormed(tr.record, |damaged|) && IsMatrix(tr.coeffs, |damaged|, |GoodBelow(damaged, total)|)
            && ChunkResult(tr, damaged, GoodBelow(damaged, total), Range(total, |damaged|), read, z)
               == Ok(Originals(DataBlocks(job.infos, job.blockSize, pristine), job.blockSize, damaged, o, z))
  {
    hide DataBlocks, Genuine, Chosen, Damaged, TotalBlocks, Undamaged, Recoverable, TransformFor, ChunkReader,
         ChunkResult, ReadsSlices, WellFormed, GoodBelow;
    var damaged := Damaged(job);
    var total := TotalBlocks(job.infos, job.blockSize);
    var data := DataBlocks(job.infos, job.blockSize, pristine);
    var d := DamageOf(damaged, total);
    GoodAreUndamaged(job, disk, pristine);
    ReaderReads(job.infos, job.blockSize, pristine, disk, blocks, Chosen(job, |damaged|), d, o, z);
    ChunkRestored(data, job.blockSize, Chosen(job, |damaged|), d, tr,
                  ChunkReader(blocks, disk, Chosen(job, |damaged|), total, job.blockSize, o, z), o, z);
  }

  lemma GoodAreUndamaged(job: Job, disk: Contents, pristine: Contents)
    requires WellPosed(job) && Salvageable(job, disk, pristine)
    ensures var good := GoodBelow(Damaged(job), TotalBlocks(job.infos, job.blockSize));
            forall j :: 0 <= j < |good| ==>
              good[j] < TotalBlocks(job.infos, job.blockSize)
                && Undamaged(job.infos, job.blockSize, pristine, disk, good[j])
  {
    hide DataBlocks, Genuine, Chosen, Damaged, TotalBlocks, Undamaged, GoodBelow;
    var good := GoodBelow(Damaged(job), TotalBlocks(job.infos, job.blockSize));
    forall j | 0 <= j < |good|
      ensures good[j] < TotalBlocks(job.infos, job.blockSize) && good[j] !in Damaged(job)
    {
      assert good[j] in good;
    }
  }

  // ----- the temps after all writes

  /** All blocks of a missing file are listed. */
  lemma {:induction false} MissingListed(extents: map<Id, Extent>, missing: seq<Id>, id: Id, local: nat)
    requires id in missing && id in extents && local < extents[id].count
    ensures extents[id].start + local in MissingBlocks(extents, missing)
  {
    var n := |missing| - 1;
    if missing[n] == id {
      var r := Range(extents[id].start, extents[id].count);
      assert r[local] == extents[id].start + local;
      assert r[local] in r;
    } else {
      assert missing == missing[..n] + [missing[n]];
      MissingListed(extents, missing[..n], id, local);
    }
  }

  lemma {:induction false} ExtentsAre(infos: seq<FileInfo>, blockSize: nat, n: nat)
    requires blockSize > 0 && n <= |infos| && DistinctFiles(infos)
    ensures IsExtents(ExtentsOf(infos, blockSize, n), infos, blockSize, n)
  {
    hide StartOf, BlocksIn, IsExtents;
    if n == 0 {
      NoExtents(infos, blockSize);
    } else {
      ExtentsAre(infos, blockSize, n - 1);
      ExtentsNext(ExtentsOf(infos, blockSize, n - 1), infos, blockSize, n - 1, ExtentsOf(infos, blockSize, n));
    }
  }

  lemma LocalBelowCount(infos: seq<FileInfo>, blockSize: nat, i: nat, x: nat)
    requires blockSize > 0 && i < |infos| && x < infos[i].length
    ensures x / blockSize < BlocksIn(infos[i].length, blockSize)
  {
    QuotientBounds(x, blockSize);
    EnoughChunks(infos[i].length, blockSize, x, x / blockSize);
  }

  /** The block of a byte of a missing file is listed as damaged. */
  lemma MissingByteDamaged(job: Job, i: nat, x: nat)
    requires job.blockSize > 0 && DistinctFiles(job.infos) && i < |job.infos| && x < job.infos[i].length
    requires job.infos[i].id in job.findings.missing
    ensures StartOf(job.infos, job.blockSize, i) + x / job.blockSize in Damaged(job)
  {
    hide StartOf, BlocksIn, MissingBlocks, DamagedBlocks;
    ExtentsAre(job.infos, job.blockSize, |job.infos|);
    LocalBelowCount(job.infos, job.blockSize, i, x);
    MissingListed(ExtentsOf(job.infos, job.blockSize, |job.infos|), job.findings.missing, job.infos[i].id,
                  x / job.blockSize);
  }

  /** A byte of a temp, after all chunks are written. */
  lemma RebuiltByte(job: Job, disk: Contents, pristine: Contents, blocks: map<nat, Place>, lengths: map<Id, nat>,
                    temps: Contents, chunk: nat, ws: seq<ChunkWrite>, i: nat, x: nat)
    requires WellPosed(job) && Salvageable(job, disk, pristine) && IsBlockMap(blocks, job.infos, job.blockSize)
             && chunk > 0
    requires Sized(temps, lengths) && Seeded(temps, lengths, disk, job.findings.missing, job.findings.damaged)
    requires ws == AllWrites(Damaged(job), DataBlocks(job.infos, job.blockSize, pristine), job.blockSize,
                             chunk, NumChunks(job.blockSize, chunk))
    requires i < |job.infos| && job.infos[i].id in temps && lengths[job.infos[i].id] == job.infos[i].length
             && x < job.infos[i].length
    ensures Right(ApplyWrites(temps, blocks, lengths, job.blockSize, ws), pristine, job.infos[i].id, x)
  {
    hide DataBlocks, Genuine, Chosen, Damaged, TotalBlocks, Undamaged, AllWrites, PlaceOfBlock, StartOf,
         NumChunks, IsBlockMap, PristineWrite, Covered, ReadAt, ApplyWrites;
    var (bs, infos) := (job.blockSize, job.infos);
    var id := infos[i].id;
    var b := StartOf(infos, bs, i) + x / bs;
    ByteInBlock(infos, bs, i, x);
    AllWritesPristine(Damaged(job), infos, bs, pristine, chunk, NumChunks(bs, chunk));
    if b in Damaged(job) {
      DamagedByteCovered(Damaged(job), infos, bs, pristine, chunk, i, x);
    } else {
      if id in job.findings.missing {
        MissingByteDamaged(job, i, x);
      }
      assert id in job.findings.damaged;
      SeedRight(infos, bs, pristine, disk, i, x, b);
    }
    WritesRight(temps, infos, bs, pristine, blocks, lengths, ws, id, x);
  }

  /** Every temp ends as the pristine file. */
  lemma RebuiltTemps(job: Job, disk: Contents, pristine: Contents, blocks: map<nat, Place>, temps: Contents,
                     chunk: nat, ws: seq<ChunkWrite>)
    requires WellPosed(job) && Salvageable(job, disk, pristine) && IsBlockMap(blocks, job.infos, job.blockSize)
             && chunk > 0
    requires Seeded(temps, LengthsOf(job.infos, |job.infos|), disk, job.findings.missing, job.findings.damaged)
    requires ws == AllWrites(Damaged(job), DataBlocks(job.infos, job.blockSize, pristine), job.blockSize,
                             chunk, NumChunks(job.blockSize, chunk))
    ensures var lengths := LengthsOf(job.infos, |job.infos|);
            && Sized(temps, lengths)
            && var r := ApplyWrites(temps, blocks, lengths, job.blockSize, ws);
               forall id :: id in temps ==> id in r && id in pristine && r[id] == pristine[id]
  {
    hide DataBlocks, Salvageable, AllWrites, NumChunks, IsBlockMap, ApplyWrites, LengthsOf, Damaged;
    var lengths := LengthsOf(job.infos, |job.infos|);
    LengthsAre(job.infos, |job.infos|);
    var r := ApplyWrites(temps, blocks, lengths, job.blockSize, ws);
    forall id | id in temps
      ensures id in pristine && r[id] == pristine[id]
    {
      var i :| 0 <= i < |job.infos| && job.infos[i].id == id;
      PristineOf(job, disk, pristine, i);
      forall x | 0 <= x < |pristine[id]|
        ensures r[id][x] == pristine[id][x]
      {
        RebuiltByte(job, disk, pristine, blocks, lengths, temps, chunk, ws, i, x);
      }
    }
  }

  lemma PristineOf(job: Job, disk: Contents, pristine: Contents, i: nat)
    requires WellPosed(job) && Salvageable(job, disk, pristine) && i < |job.infos|
    ensures job.infos[i].id in pristine && |pristine[job.infos[i].id]| == job.infos[i].length
  {
    hide DataBlocks, Genuine, Chosen, Damaged, TotalBlocks, Undamaged;
  }

  // ----- the repair

  function Names(job: Job): map<Id, Path> {
    NamesOf(job.infos, |job.infos|)
  }

  /** What a repaired job leaves: a pristine temp for every missing and damaged file of the set. */
  ghost predicate AllPristine(job: Job, pristine: Contents, temps: Contents) {
    && (forall i :: 0 <= i < |job.infos| ==>
          (job.infos[i].id in temps <==> job.infos[i].id in job.findings.missing
                                         || job.infos[i].id in job.findings.damaged))
    && (forall id :: id in temps ==> id in pristine && temps[id] == pristine[id])
  }

  /** What process_chunk returns: the chunks paired with the damaged blocks, in order. */
  function PairUp(damaged: seq<nat>, o: nat, out: seq<Restored>): (r: seq<ChunkWrite>)
    requires |out| == |damaged|
    ensures |r| == |damaged|
  {
    seq(|damaged|, j requires 0 <= j < |damaged| => ChunkWrite(damaged[j], o, out[j].data))
  }

  lemma PairedOriginals(damaged: seq<nat>, data: seq<seq<Byte>>, blockSize: nat, chunk: nat, k: nat)
    requires IndicesBelow(damaged, |data|) && Uniform(data, blockSize) && k * chunk < blockSize
    requires k * chunk + ChunkLength(blockSize, chunk, k) <= blockSize
    ensures PairUp(damaged, k * chunk, Originals(data, blockSize, damaged, k * chunk, ChunkLength(blockSize, chunk, k)))
         == WritesOf(damaged, data, blockSize, chunk, k)
  {
  }

  /**
   No region boundary falls inside a chunk of the layout: the exact condition of
   `Regions.AlignmentMatters`, chunk by chunk.
   */
  predicate LayoutFits(m: Machine, blockSize: nat, chunk: nat)
    requires chunk > 0
  {
    forall k: nat :: k < NumChunks(blockSize, chunk) ==> ChunkFits(m, blockSize, chunk, k)
  }

  predicate ChunkFits(m: Machine, blockSize: nat, chunk: nat, k: nat)
    requires chunk > 0 && k < NumChunks(blockSize, chunk)
  {
    ChunkInside(blockSize, chunk, k);
    LayoutClean(m.shuffle, ChunkLength(blockSize, chunk, k) / 2, m.regionU16s)
  }

  /** The conditions under which the chunks are known to come out right. */
  ghost predicate ReadyFor(m: Machine, job: Job, disk: Contents, pristine: Contents, tr: ReconstructionTransform,
                           chunk: nat)
    requires job.blockSize > 0 && chunk > 0
  {
    && WellPosed(job) && Salvageable(job, disk, pristine) && Damaged(job) != [] && LayoutFits(m, job.blockSize, chunk)
    && var damaged := Damaged(job);
    && var data := DataBlocks(job.infos, job.blockSize, pristine);
    && var d := DamageOf(damaged, TotalBlocks(job.infos, job.blockSize));
    && Recoverable(data, job.blockSize, Chosen(job, |damaged|), d)
    && TransformFor(data, job.blockSize, Chosen(job, |damaged|), d) == Ok(tr)
    && (InOrder(tr.record.order) || d.present == [])
  }

  /** What the repair has prepared before the chunk loop. */
  ghost predicate Prepared(job: Job, blocks: map<nat, Place>, chosen: seq<Recovery>, damaged: seq<nat>,
                           good: seq<nat>, total: nat, tr: ReconstructionTransform)
  {
    && job.blockSize > 0 && job.blockSize % 4 == 0
    && damaged == Damaged(job) && total == TotalBlocks(job.infos, job.blockSize) && IndicesBelow(damaged, total)
    && good == GoodBelow(damaged, total) && IsBlockMap(blocks, job.infos, job.blockSize)
    && |damaged| <= |job.recoveries| && chosen == Chosen(job, |damaged|)
    && WellFormed(tr.record, |damaged|) && IsMatrix(tr.coeffs, |damaged|, |good|)
  }

  ghost function ChunkWrites(job: Job, pristine: Contents, chunk: nat, k: nat): seq<ChunkWrite>
    requires job.blockSize > 0 && IsPristine(pristine, job.infos)
    requires IndicesBelow(Damaged(job), TotalBlocks(job.infos, job.blockSize)) && k * chunk < job.blockSize
  {
    WritesOf(Damaged(job), DataBlocks(job.infos, job.blockSize, pristine), job.blockSize, chunk, k)
  }

  ghost function WritesUpTo(job: Job, pristine: Contents, chunk: nat, n: nat): seq<ChunkWrite>
    requires job.blockSize > 0 && IsPristine(pristine, job.infos)
    requires IndicesBelow(Damaged(job), TotalBlocks(job.infos, job.blockSize)) && chunk > 0
             && n <= NumChunks(job.blockSize, chunk)
  {
    AllWrites(Damaged(job), DataBlocks(job.infos, job.blockSize, pristine), job.blockSize, chunk, n)
  }

  lemma WritesNext(job: Job, pristine: Contents, chunk: nat, k: nat)
    requires job.blockSize > 0 && IsPristine(pristine, job.infos)
    requires IndicesBelow(Damaged(job), TotalBlocks(job.infos, job.blockSize)) && chunk > 0
             && k < NumChunks(job.blockSize, chunk)
    ensures k * chunk < job.blockSize
    ensures WritesUpTo(job, pristine, chunk, 0) == []
    ensures WritesUpTo(job, pristine, chunk, k + 1) == WritesUpTo(job, pristine, chunk, k)
            + ChunkWrites(job, pristine, chunk, k)
  {
    ChunkInside(job.blockSize, chunk, k);
    hide NumChunks, DataBlocks, WritesOf, Damaged;
  }

  lemma NoWrites(job: Job, pristine: Contents, chunk: nat)
    requires job.blockSize > 0 && IsPristine(pristine, job.infos)
    requires IndicesBelow(Damaged(job), TotalBlocks(job.infos, job.blockSize)) && chunk > 0
    ensures WritesUpTo(job, pristine, chunk, 0) == []
  {
    hide DataBlocks, Damaged;
  }

  lemma ReadyParts(m: Machine, job: Job, disk: Contents, pristine: Contents, tr: ReconstructionTransform, chunk: nat)
    requires job.blockSize > 0 && chunk > 0 && ReadyFor(m, job, disk, pristine, tr, chunk)
    ensures IsPristine(pristine, job.infos) && IndicesBelow(Damaged(job), TotalBlocks(job.infos, job.blockSize))
  {
    hide DataBlocks, Damaged, Recoverable, TransformFor, Chosen, Undamaged, Genuine;
  }

  /** What reconstruct_streaming_chunk promises of a chunk. */
  ghost predicate ChunkOutcome(m: Machine, damaged: seq<nat>, good: seq<nat>, total: nat, tr: ReconstructionTransform,
                               read: Reader, z: nat, out: Result<seq<Restored>>)
  {
    && WellFormed(tr.record, |damaged|) && IsMatrix(tr.coeffs, |damaged|, |good|)
    && (LayoutClean(m.shuffle, z / 2, m.regionU16s) ==>
          out == ChunkResult(tr, damaged, good, Range(total, |damaged|), read, z))
  }

  /** The chunk came out as the chunks of the pristine blocks. */
  ghost predicate CameOut(job: Job, pristine: Contents, damaged: seq<nat>, chunk: nat, k: nat,
                          out: Result<seq<Restored>>) {
    && job.blockSize > 0 && IsPristine(pristine, job.infos)
    && IndicesBelow(Damaged(job), TotalBlocks(job.infos, job.blockSize)) && k * chunk < job.blockSize
    && out.Ok? && |out.value| == |damaged|
    && PairUp(damaged, k * chunk, out.value) == ChunkWrites(job, pristine, chunk, k)
  }

  /** The result of one chunk for a job that is ready. */
  lemma ChunkComesOut(m: Machine, job: Job, disk: Contents, pristine: Contents, blocks: map<nat, Place>,
                      chosen: seq<Recovery>, damaged: seq<nat>, good: seq<nat>, total: nat,
                      tr: ReconstructionTransform, chunk: nat, k: nat, o: nat, z: nat, out: Result<seq<Restored>>)
    requires Prepared(job, blocks, chosen, damaged, good, total, tr) && chunk > 0
             && ReadyFor(m, job, disk, pristine, tr, chunk)
    requires chunk > 0 && chunk % 2 == 0 && k < NumChunks(job.blockSize, chunk)
    requires o == k * chunk && o < job.blockSize && z == ChunkLength(job.blockSize, chunk, k)
    requires ChunkOutcome(m, damaged, good, total, tr, ChunkReader(blocks, disk, chosen, total, job.blockSize, o, z),
                          z, out)
    ensures CameOut(job, pristine, damaged, chunk, k, out)
  {
    hide DataBlocks, Salvageable, Recoverable, TransformFor, ChunkResult, ChunkReader, Damaged, GoodBelow, TotalBlocks,
         Chosen, WellFormed, WritesOf, PairUp, NumChunks, ChunkLength, Originals, IsBlockMap;
    ReadyParts(m, job, disk, pristine, tr, chunk);
    ChunkInside(job.blockSize, chunk, k);
    EvenChunk(job.blockSize, chunk, k);
    var data := DataBlocks(job.infos, job.blockSize, pristine);
    SalvageableChunk(job, disk, pristine, blocks, tr, o, z);
    PairedOriginals(damaged, data, job.blockSize, chunk, k);
    assert ChunkFits(m, job.blockSize, chunk, k);
    OriginalsLength(data, job.blockSize, damaged, o, z);
  }

  /** process_chunk */
  method ProcessChunk(t: Tables, mul128: seq<Lut>, m: Machine, job: Job, disk: Contents, blocks: map<nat, Place>,
                      chosen: seq<Recovery>, damaged: seq<nat>, good: seq<nat>, total: nat,
                      tr: ReconstructionTransform, chunk: nat, k: nat, ghost pristine: Contents)
    returns (r: Result<seq<ChunkWrite>>)
    requires t.Valid() && IsMul128(mul128) && Sensible(m) && Prepared(job, blocks, chosen, damaged, good, total, tr)
    requires chunk > 0 && chunk % 2 == 0 && k < NumChunks(job.blockSize, chunk) && k * chunk < job.blockSize
    ensures ReadyFor(m, job, disk, pristine, tr, chunk) ==>
              IsPristine(pristine, job.infos) && r == Ok(ChunkWrites(job, pristine, chunk, k))
  {
    hide IsMul128, Tables.Valid, DataBlocks, ReadyFor, ChunkResult, ChunkReader, Damaged, GoodBelow, TotalBlocks,
         Chosen, WellFormed, ChunkWrites, PairUp, NumChunks, ChunkLength, IsBlockMap, LayoutClean;
    EvenChunk(job.blockSize, chunk, k);
    var z := ChunkLength(job.blockSize, chunk, k);
    var read := ChunkReader(blocks, disk, chosen, total, job.blockSize, k * chunk, z);
    ReaderLength(blocks, disk, chosen, total, job.blockSize, k * chunk, z);
    var out := ReconstructStreamingChunk(t, mul128, m.shuffle, m.regionU16s, tr, damaged, good,
                                         Range(total, |damaged|), read, z);
    if ReadyFor(m, job, disk, pristine, tr, chunk) {
      ChunkComesOut(m, job, disk, pristine, blocks, chosen, damaged, good, total, tr, chunk, k, k * chunk, z, out);
    }
    match out {
      case Err(e) =>
        return Err(e);
      case Ok(restored) =>
        if |restored| != |damaged| {
          return Err(ReadFailed);
        }
        return Ok(PairUp(damaged, k * chunk, restored));
    }
  }

  /** The results of all chunks, as writes. */
  method ReconstructChunks(t: Tables, mul128: seq<Lut>, m: Machine, job: Job, disk: Contents,
                           blocks: map<nat, Place>, chosen: seq<Recovery>, damaged: seq<nat>, good: seq<nat>,
                           total: nat, tr: ReconstructionTransform, chunk: nat, ghost pristine: Contents)
    returns (r: Result<seq<ChunkWrite>>)
    requires t.Valid() && IsMul128(mul128) && Sensible(m) && Prepared(job, blocks, chosen, damaged, good, total, tr)
    requires chunk > 0 && chunk % 2 == 0
    ensures ReadyFor(m, job, disk, pristine, tr, chunk) ==>
              IsPristine(pristine, job.infos)
              && r == Ok(WritesUpTo(job, pristine, chunk, NumChunks(job.blockSize, chunk)))
  {
    hide IsMul128, Tables.Valid, ReadyFor, Damaged, NumChunks, ChunkWrites, WritesUpTo;
    ghost var ready := ReadyFor(m, job, disk, pristine, tr, chunk);
    if ready {
      ReadyParts(m, job, disk, pristine, tr, chunk);
      NoWrites(job, pristine, chunk);
    }
    var ws: seq<ChunkWrite> := [];
    for k := 0 to NumChunks(job.blockSize, chunk)
      invariant ready ==> ws == WritesUpTo(job, pristine, chunk, k)
    {
      ChunkInside(job.blockSize, chunk, k);
      if ready {
        WritesNext(job, pristine, chunk, k);
      }
      var out := ProcessChunk(t, mul128, m, job, disk, blocks, chosen, damaged, good, total, tr, chunk, k, pristine);
      if out.Err? {
        return out;
      }
      ws := ws + out.value;
    }
    return Ok(ws);
  }

  /** A region size that is a multiple of 16 symbols always fits. */
  lemma AlignedLayout(m: Machine, blockSize: nat, chunk: nat)
    requires chunk > 0 && (m.shuffle ==> m.regionU16s % 16 == 0)
    ensures LayoutFits(m, blockSize, chunk)
  {
    hide NumChunks, ChunkLength;
    forall k: nat | k < NumChunks(blockSize, chunk)
      ensures ChunkFits(m, blockSize, chunk, k)
    {
      ChunkInside(blockSize, chunk, k);
    }
  }

  lemma OriginalsLength(data: seq<seq<Byte>>, blockSize: nat, damaged: seq<nat>, o: nat, z: nat)
    requires IndicesBelow(damaged, |data|) && Uniform(data, blockSize) && o + z <= blockSize
    ensures |Originals(data, blockSize, damaged, o, z)| == |damaged|
  {
  }

  /** Two recovery blocks of the same exponent, as from two copies of a volume. */
  ghost predicate RepeatsExponent(recoveries: seq<Recovery>) {
    exists i, j :: 0 <= i < j < |recoveries| && recoveries[i].exponent == recoveries[j].exponent
  }

  /** If two of the recovery blocks that are used have the same exponent, no transform is found. */
  lemma RepeatedExponentFails(job: Job, damaged: seq<nat>, total: nat, transform: Result<ReconstructionTransform>)
    requires 0 < |damaged| <= |job.recoveries| && IndicesBelow(damaged, total)
             && IndicesBelow(GoodBelow(damaged, total), total)
    requires transform == TransformResult(FirstConstants(total), damaged, GoodBelow(damaged, total),
                                          Range(total, |damaged|),
                                          Exponents(Chosen(job, |damaged|)))
    ensures RepeatsExponent(Chosen(job, |damaged|)) ==> transform == Err(SingularMatrix)
  {
    hide TransformOf, Chosen, GoodBelow, Constant;
    var chosen := Chosen(job, |damaged|);
    if i, j :| 0 <= i < j < |chosen| && chosen[i].exponent == chosen[j].exponent {
      var used := UsedExponents(total, Range(total, |damaged|), Exponents(chosen), |damaged|);
      var a := PowerMatrix(Select(FirstConstants(total), damaged), used);
      assert used[i] == used[j] && a[i] == a[j];
      if TransformOf(a).Some? {
        RowsDiffer(a, i, j);
      }
    }
  }

  function ChunkOf(m: Machine, job: Job): (c: nat)
    requires Sensible(m)
    ensures c > 0 && c % 2 == 0
  {
    ChunkSize(job.blockSize, m.cpus, m.ideal, m.minChunk)
  }

  /** repair_files_with_messages, up to the complete temps. */
  method RepairFiles(t: Tables, mul128: seq<Lut>, m: Machine, job: Job, fs0: FileSystem, ghost pristine: Contents)
    returns (r: Outcome)
    requires t.Valid() && IsMul128(mul128) && Sensible(m) && WellPosed(job)
    ensures Salvageable(job, OnDisk(Names(job), fs0), pristine) && LayoutFits(m, job.blockSize, ChunkOf(m, job)) ==>
              if Damaged(job) == [] then r == NothingDamaged
              else
                && (Regular(job) && TempsApart(Names(job), job.findings) ==>
                      r.Rebuilt? && AllPristine(job, pristine, TempsIn(r.disk, r.outputs)))
                && (Singular(job) ==> r == Refused(CodecFailed(SingularMatrix)))
    ensures r.Rebuilt? ==>
              r.outputs == TempPaths(Names(job), job.findings) && OnlyTemps(fs0, r.disk, r.outputs)
              && TempsThere(r.disk, r.outputs)
    ensures job.blockSize == 0 || job.blockSize % 4 != 0 ==> r == Refused(BadBlockSize)
    ensures job.blockSize > 0 && job.blockSize % 4 == 0 ==>
              var total := TotalBlocks(job.infos, job.blockSize);
              && (r == Refused(TooManyBlocks)
                  <==> total > 65535 || |job.recoveries| > 65535 || total + |job.recoveries| > 65535)
              && (WithinLimits(total, |job.recoveries|) && Damaged(job) == [] ==> r == NothingDamaged)
              && (WithinLimits(total, |job.recoveries|) && |Damaged(job)| > |job.recoveries| ==>
                    r == Refused(InsufficientRecovery))
              && (WithinLimits(total, |job.recoveries|) && 0 < |Damaged(job)| <= |job.recoveries|
                  && RepeatsExponent(Chosen(job, |Damaged(job)|)) ==>
                    r == Refused(OriginalUnreadable) || r == Refused(CodecFailed(SingularMatrix)))
  {
    hide IsMul128, Tables.Valid, Salvageable, Regular, Singular, LayoutFits, Damaged, TotalBlocks, Chosen,
         WellFormed, GoodBelow, LengthsOf, NamesOf, IsBlockMap, IsExtents, AllPristine, ReadyFor, WritesUpTo, Seeded,
         ApplyWrites, FirstConstants, NumChunks, SetUp, WriteTemps, OnlyTemps, TempPaths, OnDisk, TempsIn, TempsApart,
         TempsThere;
    var blockSize := job.blockSize;
    ghost var disk := OnDisk(Names(job), fs0);
    SalvageableBasics(job, disk, pristine);
    if blockSize == 0 || blockSize % 4 != 0 {
      return Refused(BadBlockSize);
    }
    var extents, total := NumberBlocks(job.infos, blockSize);
    if !WithinLimits(total, |job.recoveries|) {
      return Refused(TooManyBlocks);
    }
    var damaged := ListDamage(extents, job.findings);
    DamagedIs(job, extents, damaged);
    if damaged == [] {
      return NothingDamaged;
    }
    if |damaged| > |job.recoveries| {
      return Refused(InsufficientRecovery);
    }
    var chosen := Chosen(job, |damaged|);
    var constants := GeneratePar2Constants(t, total);
    var chunk := ChunkOf(m, job);
    var good := ListGood(damaged, total);
    var blocks := BuildBlockToFile(extents, job.infos, blockSize);
    var lengths := CollectLengths(job.infos);
    var names := CollectNames(job.infos);
    SameKeys(job.infos, |job.infos|);
    var created, outputs := SetupTemps(fs0, names, lengths, job.findings);
    TempsReady(job, fs0, created);
    if created.None? {
      return Refused(OriginalUnreadable);
    }
    var fs := created.value;
    // what the files hold while blocks are read from them, now that the temps exist
    var inputs := OnDisk(names, fs);
    var exponents := Exponents(chosen);
    ChosenSmall(job, |damaged|);
    var transform := ComputeReconstructionTransform(t, constants, damaged, good, Range(total, |damaged|), exponents);
    ghost var ready := Salvageable(job, disk, pristine) && LayoutFits(m, job.blockSize, chunk);
    if ready {
      TransformReady(m, job, disk, pristine, chunk, transform);
    }
    RepeatedExponentFails(job, damaged, total, transform);
    if transform.Err? {
      return Refused(CodecFailed(transform.error));
    }
    var ws := ReconstructChunks(t, mul128, m, job, inputs, blocks, chosen, damaged, good, total, transform.value,
                                chunk, pristine);
    if ws.Err? {
      return Refused(CodecFailed(ws.error));
    }
    var rebuilt := WriteChunks(fs, outputs, blocks, lengths, blockSize, ws.value);
    OnlyTempsAgain(fs0, fs, rebuilt, outputs);
    if ready && Regular(job) && TempsApart(names, job.findings) {
      AllRebuilt(job, fs0, fs, pristine, blocks, chunk, ws.value);
    }
    return Rebuilt(rebuilt, outputs);
  }

  /** The temps can be created if the damaged files are there; then nothing but temps changed. */
  lemma TempsReady(job: Job, fs0: FileSystem, r: Option<FileSystem>)
    requires r == SetUp(fs0, Names(job), LengthsOf(job.infos, |job.infos|), job.findings)
    ensures var outputs := TempPaths(Names(job), job.findings);
            && (r.Some? ==> OnlyTemps(fs0, r.value, outputs) && TempsThere(r.value, outputs))
            && ((forall i :: 0 <= i < |job.findings.damaged| ==>
                   job.findings.damaged[i] in OnDisk(Names(job), fs0)) ==> r.Some?)
            && (r.Some? && TempsApart(Names(job), job.findings) ==>
                  OnDisk(Names(job), r.value) == OnDisk(Names(job), fs0))
  {
    hide SetUp, TempPaths, LengthsOf, NamesOf, TempsApart, OnlyTemps, TempsThere, OnDisk;
    var (names, lengths) := (Names(job), LengthsOf(job.infos, |job.infos|));
    SameKeys(job.infos, |job.infos|);
    if forall i :: 0 <= i < |job.findings.damaged| ==> job.findings.damaged[i] in OnDisk(names, fs0) {
      SetUpSucceeds(fs0, names, lengths, job.findings);
    }
    if r.Some? {
      SetUpOnlyTemps(fs0, names, lengths, job.findings);
      SetUpThere(fs0, names, lengths, job.findings);
      if TempsApart(names, job.findings) {
        ReadsKept(fs0, r.value, names, job.findings);
      }
    }
  }

  lemma OnlyTempsAgain(fs: FileSystem, fs': FileSystem, fs'': FileSystem, outputs: map<Id, Path>)
    requires OnlyTemps(fs, fs', outputs) && OnlyTemps(fs', fs'', outputs)
    ensures OnlyTemps(fs, fs'', outputs)
  {
    forall p: Path | p !in outputs.Values
      ensures SameAt(fs, fs'', p)
    {
      assert SameAt(fs, fs', p) && SameAt(fs', fs'', p);
    }
  }

  lemma SalvageableBasics(job: Job, disk: Contents, pristine: Contents)
    ensures Salvageable(job, disk, pristine) ==>
              && job.blockSize > 0 && job.blockSize % 4 == 0 && IsPristine(pristine, job.infos)
              && WithinLimits(TotalBlocks(job.infos, job.blockSize), |job.recoveries|)
                 && |Damaged(job)| <= |job.recoveries|
              && (forall i :: 0 <= i < |job.findings.damaged| ==> job.findings.damaged[i] in disk)
  {
    hide DataBlocks, Damaged, Chosen, Undamaged, Genuine, TotalBlocks;
  }

  lemma DamagedIs(job: Job, extents: map<Id, Extent>, damaged: seq<nat>)
    requires job.blockSize > 0 && extents == ExtentsOf(job.infos, job.blockSize, |job.infos|)
             && damaged == DamageList(extents, job.findings)
    ensures damaged == Damaged(job)
  {
    hide DamageList;
  }

  lemma ChosenSmall(job: Job, m: nat)
    requires WellPosed(job) && m <= |job.recoveries|
    ensures forall i :: 0 <= i < m ==> Exponents(Chosen(job, m))[i] < Reconstruction.U32
  {
    hide Damaged, Chosen;
    ChosenAre(job, m);
  }

  /** For a regular job the transform is found and the chunk loop is ready; for a singular one it is not found. */
  lemma TransformReady(m: Machine, job: Job, disk: Contents, pristine: Contents, chunk: nat,
                       transform: Result<ReconstructionTransform>)
    requires WellPosed(job) && Salvageable(job, disk, pristine) && chunk > 0 && LayoutFits(m, job.blockSize, chunk)
    requires job.blockSize > 0 && Damaged(job) != [] && |Damaged(job)| <= |job.recoveries|
    requires var damaged := Damaged(job);
             var total := TotalBlocks(job.infos, job.blockSize);
             var constants := FirstConstants(total);
             && |constants| == total && IndicesBelow(damaged, total) && IndicesBelow(GoodBelow(damaged, total), total)
             && transform == TransformResult(constants, damaged, GoodBelow(damaged, total), Range(total, |damaged|),
                                             Exponents(Chosen(job, |damaged|)))
    ensures Regular(job) ==> transform.Ok? && ReadyFor(m, job, disk, pristine, transform.value, chunk)
    ensures Singular(job) ==> transform == Err(SingularMatrix)
  {
    hide DataBlocks, Genuine, Chosen, Damaged, TotalBlocks, Undamaged, Recoverable, TransformResult, GoodBelow,
         FirstConstants, Salvageable, Regular, Singular, InOrder;
    SalvageableBasics(job, disk, pristine);
    var r := SalvageableTransforms(job, disk, pristine);
  }

  lemma AllRebuilt(job: Job, fs0: FileSystem, fs: FileSystem, pristine: Contents, blocks: map<nat, Place>,
                   chunk: nat, ws: seq<ChunkWrite>)
    requires WellPosed(job) && Salvageable(job, OnDisk(Names(job), fs0), pristine) && job.blockSize > 0
             && IsBlockMap(blocks, job.infos, job.blockSize) && chunk > 0
    requires TempsApart(Names(job), job.findings)
    requires SetUp(fs0, Names(job), LengthsOf(job.infos, |job.infos|), job.findings) == Some(fs)
    requires TempsThere(fs, TempPaths(Names(job), job.findings)) && IsPristine(pristine, job.infos)
    requires IndicesBelow(Damaged(job), TotalBlocks(job.infos, job.blockSize))
    requires ws == WritesUpTo(job, pristine, chunk, NumChunks(job.blockSize, chunk))
    ensures var outputs := TempPaths(Names(job), job.findings);
            var rebuilt := WriteTemps(fs, outputs, blocks, LengthsOf(job.infos, |job.infos|), job.blockSize, ws);
            AllPristine(job, pristine, TempsIn(rebuilt, outputs))
  {
    hide DataBlocks, Salvageable, AllWrites, NumChunks, IsBlockMap, ApplyWrites, WriteTemps, LengthsOf, NamesOf,
         Damaged, TotalBlocks, ReadAt, TempPaths, SetUp, OnDisk, TempsIn, Injective;
    var (names, lengths) := (Names(job), LengthsOf(job.infos, |job.infos|));
    var outputs := TempPaths(names, job.findings);
    SameKeys(job.infos, |job.infos|);
    LengthsAre(job.infos, |job.infos|);
    SetUpSeeds(fs0, names, lengths, job.findings);
    RebuiltTemps(job, OnDisk(names, fs0), pristine, blocks, TempsIn(fs, outputs), chunk, ws);
    WritesView(fs, outputs, blocks, lengths, job.blockSize, ws);
  }
}
