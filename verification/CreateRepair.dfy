/**
 The archive as a whole: recovery blocks made by `encode` (or the streaming encoder) from
 undamaged files let a repair rebuild those files.  Any of the recovery blocks may be found,
 in any order.  What counts is that the lowest exponents found, as many as there are damaged
 blocks, are regular (`Repair.Regular`); if they follow each other, they are.
 */
module CreateRepair {
  import opened GaloisTables
  import opened LinearAlgebra
  import opened Vandermonde
  import opened Constants
  import opened Bytes
  import opened NibbleTables
  import opened FileIds
  import opened Encoding
  import opened Reconstruction
  import opened RoundTrip
  import opened BlockNumbering
  import opened Rebuild
  import opened Repair

  /** Every recovery block found is one of those created. */
  ghost predicate FoundAmong(found: seq<Recovery>, data: seq<seq<Byte>>, blockSize: nat, count: nat)
    requires Uniform(data, blockSize)
  {
    forall i :: 0 <= i < |found| ==> found[i] in Encoded(FirstConstants(|data|), data, count, blockSize)
  }

  /** The lowest exponents found are s up to s + m - 1, and no exponent is found twice. */
  ghost predicate LowestAre(found: seq<Recovery>, s: nat, m: nat) {
    && DistinctKeys(found, ExponentKey)
    && (forall i :: 0 <= i < |found| ==> found[i].exponent >= s)
    && (forall e: nat :: s <= e < s + m ==> HasExponent(found, e))
  }

  ghost predicate HasExponent(found: seq<Recovery>, e: nat) {
    exists i :: 0 <= i < |found| && found[i].exponent == e
  }

  /** What is used is among what was found. */
  lemma ChosenAmong(job: Job, data: seq<seq<Byte>>, count: nat, m: nat)
    requires Uniform(data, job.blockSize) && m <= |job.recoveries|
    requires FoundAmong(job.recoveries, data, job.blockSize, count)
    ensures FoundAmong(Chosen(job, m), data, job.blockSize, count)
  {
    hide Chosen, Encoded;
    ChosenAre(job, m);
  }

  lemma FoundGenuine(found: seq<Recovery>, data: seq<seq<Byte>>, blockSize: nat, count: nat)
    requires Uniform(data, blockSize) && blockSize % 2 == 0 && FoundAmong(found, data, blockSize, count)
    ensures forall i :: 0 <= i < |found| ==> Genuine(data, blockSize, found[i])
  {
    hide Genuine, Uniform, Encoded, FirstConstants;
    var created := Encoded(FirstConstants(|data|), data, count, blockSize);
    forall i | 0 <= i < |found|
      ensures Genuine(data, blockSize, found[i])
    {
      assert found[i] in created;
      var e: nat :| e < |created| && created[e] == found[i];
      EncodedGenuine(data, count, blockSize, e);
    }
  }

  /** A sorted list of different exponents, none below s, that has s up to s + k has s + k at place k. */
  lemma {:induction false} SortedAt(sorted: seq<Recovery>, s: nat, m: nat, k: nat)
    requires Ascending(sorted, ExponentKey) && LowestAre(sorted, s, m) && k < m
    ensures k < |sorted| && sorted[k].exponent == s + k
  {
    if k > 0 {
      SortedAt(sorted, s, m, k - 1);
    }
    assert HasExponent(sorted, s + k);
    var p :| 0 <= p < |sorted| && sorted[p].exponent == s + k;
    if k > 0 {
      LargerIsLater(sorted, p, k - 1);
      LargerIsLater(sorted, k - 1, k);
      assert ExponentKey(sorted[k - 1]) != ExponentKey(sorted[k]);
    }
    LargerIsLater(sorted, k, p);
  }

  lemma LargerIsLater(sorted: seq<Recovery>, i: nat, j: nat)
    requires Ascending(sorted, ExponentKey) && i < |sorted| && j < |sorted|
    ensures sorted[i].exponent > sorted[j].exponent ==> i > j
  {
    assert i < j ==> ExponentKey(sorted[i]) <= ExponentKey(sorted[j]);
  }

  /** Sorting keeps what the lowest exponents are. */
  lemma SortedLowest(found: seq<Recovery>, sorted: seq<Recovery>, s: nat, m: nat)
    requires LowestAre(found, s, m) && multiset(found) == multiset(sorted)
    ensures LowestAre(sorted, s, m)
  {
    PermutedKeys(found, sorted, ExponentKey);
    forall i | 0 <= i < |sorted|
      ensures sorted[i].exponent >= s
    {
      assert sorted[i] in multiset(found);
    }
    forall e: nat | s <= e < s + m
      ensures HasExponent(sorted, e)
    {
      assert HasExponent(found, e);
      var i :| 0 <= i < |found| && found[i].exponent == e;
      assert found[i] in multiset(sorted);
    }
  }

  /** The repair then uses the exponents s up to s + m - 1, whatever else was found. */
  lemma LowestChosen(job: Job, s: nat, m: nat)
    requires m <= |job.recoveries| && LowestAre(job.recoveries, s, m)
    ensures Exponents(Chosen(job, m)) == Consecutive(s, m)
  {
    hide LowestAre;
    var sorted := SortBy(job.recoveries, ExponentKey);
    SortAscends(job.recoveries, ExponentKey);
    SortedLowest(job.recoveries, sorted, s, m);
    forall k | 0 <= k < m
      ensures Exponents(Chosen(job, m))[k] == Consecutive(s, m)[k]
    {
      SortedAt(sorted, s, m, k);
    }
  }

  /** Enough blocks were found, those that are used as they were created, and what is not listed is intact. */
  ghost predicate EnoughFound(job: Job, disk: Contents, pristine: Contents, count: nat)
    requires job.blockSize > 0 && IsPristine(pristine, job.infos)
  {
    && var total := TotalBlocks(job.infos, job.blockSize);
    && var damaged := Damaged(job);
    && WithinLimits(total, |job.recoveries|)
    && Distinct(damaged) && |damaged| <= |job.recoveries|
    && FoundAmong(Chosen(job, |damaged|), DataBlocks(job.infos, job.blockSize, pristine), job.blockSize, count)
    && (forall b: nat :: b < total && b !in damaged ==> Undamaged(job.infos, job.blockSize, pristine, disk, b))
    && (forall i :: 0 <= i < |job.findings.damaged| ==> job.findings.damaged[i] in disk)
  }

  /**
   Create, lose some blocks, keep at least as many recovery blocks, any of them: the job is
   salvageable, whatever the recovery blocks that are not used hold.
   */
  lemma CreatedIsSalvageable(job: Job, disk: Contents, pristine: Contents, count: nat)
    requires job.blockSize > 0 && job.blockSize % 4 == 0 && IsPristine(pristine, job.infos)
    requires EnoughFound(job, disk, pristine, count)
    ensures Salvageable(job, disk, pristine)
  {
    hide DataBlocks, Undamaged, Damaged, Genuine, TotalBlocks, FoundAmong, Chosen;
    var data := DataBlocks(job.infos, job.blockSize, pristine);
    FoundGenuine(Chosen(job, |Damaged(job)|), data, job.blockSize, count);
  }

  /**
   If the lowest exponents found are without a gap, the job is repairable exactly when no two
   damaged blocks share a constant, which is always so with up to 32768 blocks.
   */
  lemma LowestRepairable(job: Job, disk: Contents, pristine: Contents, s: nat)
    requires WellPosed(job) && Salvageable(job, disk, pristine) && |Damaged(job)| <= |job.recoveries|
    requires LowestAre(job.recoveries, s, |Damaged(job)|)
    ensures Repairable(job, disk, pristine) <==> DistinctResidues(Damaged(job))
    ensures TotalBlocks(job.infos, job.blockSize) <= DISTINCT_CONSTANTS ==> DistinctResidues(Damaged(job))
  {
    hide DataBlocks, Undamaged, Damaged, Genuine, TotalBlocks, LowestAre, Chosen, DistinctResidues, Regular, Singular;
    LowestChosen(job, s, |Damaged(job)|);
    ConsecutiveRegular(job, s);
    if TotalBlocks(job.infos, job.blockSize) <= DISTINCT_CONSTANTS {
      SmallResidues(Damaged(job), TotalBlocks(job.infos, job.blockSize));
    }
  }
}
