/**
 Numbering of the data blocks over the files, and the lists of damaged and good blocks
 (`repair_files_with_messages`, src/repair.rs).
 */
module BlockNumbering {
  import opened Options
  import opened Bytes
  import opened FileIds
  import opened Vandermonde
  import opened Reconstruction
  import opened Erasures

  const MAX_BLOCKS: nat := 65535

  /** Where the blocks of a file are. */
  datatype Extent = Extent(start: nat, count: nat)

  /** A block as its file's ID and its number in the file. */
  datatype Place = Place(id: Id, local: nat)

  function BlocksIn(length: nat, blockSize: nat): (n: nat)
    requires blockSize > 0
  {
    (length + blockSize - 1) / blockSize
  }

  /** The number of blocks in the first i files. */
  function StartOf(infos: seq<FileInfo>, blockSize: nat, i: nat): nat
    requires blockSize > 0 && i <= |infos|
  {
    if i == 0 then 0 else StartOf(infos, blockSize, i - 1) + BlocksIn(infos[i - 1].length, blockSize)
  }

  function TotalBlocks(infos: seq<FileInfo>, blockSize: nat): nat
    requires blockSize > 0
  {
    StartOf(infos, blockSize, |infos|)
  }

  predicate Holds(infos: seq<FileInfo>, blockSize: nat, i: nat, b: nat)
    requires blockSize > 0 && i < |infos|
  {
    StartOf(infos, blockSize, i) <= b < StartOf(infos, blockSize, i + 1)
  }

  lemma {:induction false} StartsAscend(infos: seq<FileInfo>, blockSize: nat, i: nat, j: nat)
    requires blockSize > 0 && i <= j <= |infos|
    ensures StartOf(infos, blockSize, i) <= StartOf(infos, blockSize, j)
    decreases j
  {
    hide BlocksIn;
    if i < j {
      StartsAscend(infos, blockSize, i, j - 1);
    }
  }

  /** No block belongs to two files. */
  lemma HoldsOnce(infos: seq<FileInfo>, blockSize: nat, i: nat, j: nat, b: nat)
    requires blockSize > 0 && i < |infos| && j < |infos|
    requires Holds(infos, blockSize, i, b) && Holds(infos, blockSize, j, b)
    ensures i == j
  {
    hide StartOf;
    if i < j {
      StartsAscend(infos, blockSize, i + 1, j);
    } else if j < i {
      StartsAscend(infos, blockSize, j + 1, i);
    }
  }

  /** The file a block belongs to: every block below the total has one. */
  function FileOf(infos: seq<FileInfo>, blockSize: nat, b: nat, n: nat): (i: nat)
    requires blockSize > 0 && n <= |infos| && b < StartOf(infos, blockSize, n)
    ensures i < n && Holds(infos, blockSize, i, b)
  {
    if b >= StartOf(infos, blockSize, n - 1) then n - 1 else FileOf(infos, blockSize, b, n - 1)
  }

  function PlaceOfBlock(infos: seq<FileInfo>, blockSize: nat, b: nat): Place
    requires blockSize > 0 && b < TotalBlocks(infos, blockSize)
  {
    var i := FileOf(infos, blockSize, b, |infos|);
    Place(infos[i].id, b - StartOf(infos, blockSize, i))
  }

  predicate DistinctFiles(infos: seq<FileInfo>) {
    forall i, j :: 0 <= i < j < |infos| ==> infos[i].id != infos[j].id
  }

  /** The map holds the extent of every file, and nothing else. */
  ghost predicate IsExtents(extents: map<Id, Extent>, infos: seq<FileInfo>, blockSize: nat, n: nat)
    requires blockSize > 0 && n <= |infos|
  {
    && (forall i :: 0 <= i < n ==>
          && infos[i].id in extents
          && extents[infos[i].id] == Extent(StartOf(infos, blockSize, i), BlocksIn(infos[i].length, blockSize)))
    && (forall id :: id in extents ==> exists i :: 0 <= i < n && infos[i].id == id)
  }

  /** The map as the loop builds it. */
  function ExtentsOf(infos: seq<FileInfo>, blockSize: nat, n: nat): map<Id, Extent>
    requires blockSize > 0 && n <= |infos|
  {
    if n == 0 then map[]
    else
      var extent := Extent(StartOf(infos, blockSize, n - 1), BlocksIn(infos[n - 1].length, blockSize));
      ExtentsOf(infos, blockSize, n - 1)[infos[n - 1].id := extent]
  }

  lemma ExtentsNext(extents: map<Id, Extent>, infos: seq<FileInfo>, blockSize: nat, i: nat, extents': map<Id, Extent>)
    requires blockSize > 0 && i < |infos| && DistinctFiles(infos) && IsExtents(extents, infos, blockSize, i)
    requires extents' == extents[infos[i].id := Extent(StartOf(infos, blockSize, i),
                                                       BlocksIn(infos[i].length, blockSize))]
    ensures IsExtents(extents', infos, blockSize, i + 1)
  {
    hide BlocksIn, StartOf;
    forall k | 0 <= k < i + 1
      ensures infos[k].id in extents'
      ensures extents'[infos[k].id] == Extent(StartOf(infos, blockSize, k), BlocksIn(infos[k].length, blockSize))
    {
      assert k < i ==> infos[k].id != infos[i].id;
    }
  }

  /** The first loop of the repair. */
  method NumberBlocks(infos: seq<FileInfo>, blockSize: nat) returns (extents: map<Id, Extent>, total: nat)
    requires blockSize > 0 && DistinctFiles(infos)
    ensures IsExtents(extents, infos, blockSize, |infos|) && total == TotalBlocks(infos, blockSize)
    ensures extents == ExtentsOf(infos, blockSize, |infos|)
  {
    hide BlocksIn, IsExtents;
    extents, total := map[], 0;
    NoExtents(infos, blockSize);
    for i := 0 to |infos|
      invariant IsExtents(extents, infos, blockSize, i) && total == StartOf(infos, blockSize, i)
      invariant extents == ExtentsOf(infos, blockSize, i)
    {
      var count := BlocksIn(infos[i].length, blockSize);
      ExtentsNext(extents, infos, blockSize, i, extents[infos[i].id := Extent(total, count)]);
      extents := extents[infos[i].id := Extent(total, count)];
      total := total + count;
    }
  }

  lemma NoExtents(infos: seq<FileInfo>, blockSize: nat)
    requires blockSize > 0
    ensures IsExtents(map[], infos, blockSize, 0)
  {
  }

  /** The limits on the block counts. */
  predicate WithinLimits(total: nat, recoveries: nat) {
    total <= MAX_BLOCKS && recoveries <= MAX_BLOCKS && total + recoveries <= MAX_BLOCKS
  }

  // ----- from block to file

  /** Every block below the total is mapped to its place. */
  ghost predicate IsBlockMap(blocks: map<nat, Place>, infos: seq<FileInfo>, blockSize: nat)
    requires blockSize > 0
  {
    && (forall b: nat :: b < TotalBlocks(infos, blockSize) ==>
          b in blocks && blocks[b] == PlaceOfBlock(infos, blockSize, b))
    && (forall b: nat :: b in blocks ==> b < TotalBlocks(infos, blockSize))
  }

  /** Block local of file i. */
  lemma PlaceOfLocal(infos: seq<FileInfo>, blockSize: nat, i: nat, local: nat)
    requires blockSize > 0 && i < |infos| && local < BlocksIn(infos[i].length, blockSize)
    ensures var b := StartOf(infos, blockSize, i) + local;
            b < TotalBlocks(infos, blockSize) && PlaceOfBlock(infos, blockSize, b) == Place(infos[i].id, local)
  {
    var b := StartOf(infos, blockSize, i) + local;
    assert StartOf(infos, blockSize, i + 1) == StartOf(infos, blockSize, i) + BlocksIn(infos[i].length, blockSize);
    StartsAscend(infos, blockSize, i + 1, |infos|);
    hide StartOf;
    HoldsOnce(infos, blockSize, i, FileOf(infos, blockSize, b, |infos|), b);
  }

  lemma BlockIsLocal(infos: seq<FileInfo>, blockSize: nat, b: nat)
    requires blockSize > 0 && b < TotalBlocks(infos, blockSize)
    ensures var i := FileOf(infos, blockSize, b, |infos|);
            b - StartOf(infos, blockSize, i) < BlocksIn(infos[i].length, blockSize)
  {
    hide BlocksIn;
  }

  /** The first n blocks of an extent are in the map. */
  ghost predicate Covers(blocks: map<nat, Place>, e: Extent, n: nat) {
    forall b: nat :: e.start <= b < e.start + n ==> b in blocks
  }

  /** All entries are right. */
  ghost predicate OnlyPlaces(blocks: map<nat, Place>, infos: seq<FileInfo>, blockSize: nat)
    requires blockSize > 0
  {
    forall b: nat :: b in blocks ==> b < TotalBlocks(infos, blockSize) && blocks[b] == PlaceOfBlock(infos, blockSize, b)
  }

  /** The reverse map, built file by file in no particular order. */
  method BuildBlockToFile(extents: map<Id, Extent>, ghost infos: seq<FileInfo>, ghost blockSize: nat)
    returns (blocks: map<nat, Place>)
    requires blockSize > 0 && IsExtents(extents, infos, blockSize, |infos|)
    ensures IsBlockMap(blocks, infos, blockSize)
  {
    hide BlocksIn, StartOf, PlaceOfBlock, OnlyPlaces, Covers;
    blocks := map[];
    NothingMapped(infos, blockSize);
    var ids := extents.Keys;
    ghost var done: set<Id> := {};
    while ids != {}
      invariant ids + done == extents.Keys
      invariant OnlyPlaces(blocks, infos, blockSize)
      invariant forall id :: id in done ==> Covers(blocks, extents[id], extents[id].count)
      decreases |ids|
    {
      var id :| id in ids;
      var e := extents[id];
      ghost var i :| 0 <= i < |infos| && infos[i].id == id;
      CoversNothing(blocks, e);
      for local := 0 to e.count
        invariant OnlyPlaces(blocks, infos, blockSize)
        invariant forall id' :: id' in done ==> Covers(blocks, extents[id'], extents[id'].count)
        invariant Covers(blocks, e, local)
      {
        MapOne(blocks, infos, blockSize, i, local, extents, done);
        blocks := blocks[e.start + local := Place(id, local)];
      }
      ids := ids - {id};
      done := done + {id};
    }
    AllMapped(blocks, extents, infos, blockSize);
  }

  lemma NothingMapped(infos: seq<FileInfo>, blockSize: nat)
    requires blockSize > 0
    ensures OnlyPlaces(map[], infos, blockSize)
  {
  }

  lemma CoversNothing(blocks: map<nat, Place>, e: Extent)
    ensures Covers(blocks, e, 0)
  {
  }

  lemma MapOne(blocks: map<nat, Place>, infos: seq<FileInfo>, blockSize: nat, i: nat, local: nat,
               extents: map<Id, Extent>, done: set<Id>)
    requires blockSize > 0 && i < |infos| && IsExtents(extents, infos, blockSize, |infos|) && done <= extents.Keys
    requires local < extents[infos[i].id].count && OnlyPlaces(blocks, infos, blockSize)
             && Covers(blocks, extents[infos[i].id], local)
    requires forall id :: id in done ==> Covers(blocks, extents[id], extents[id].count)
    ensures var blocks' := blocks[extents[infos[i].id].start + local := Place(infos[i].id, local)];
            && OnlyPlaces(blocks', infos, blockSize) && Covers(blocks', extents[infos[i].id], local + 1)
            && (forall id :: id in done ==> Covers(blocks', extents[id], extents[id].count))
  {
    hide BlocksIn, StartOf, PlaceOfBlock;
    PlaceOfLocal(infos, blockSize, i, local);
  }

  lemma AllMapped(blocks: map<nat, Place>, extents: map<Id, Extent>, infos: seq<FileInfo>, blockSize: nat)
    requires blockSize > 0 && IsExtents(extents, infos, blockSize, |infos|) && OnlyPlaces(blocks, infos, blockSize)
    requires forall id :: id in extents ==> Covers(blocks, extents[id], extents[id].count)
    ensures IsBlockMap(blocks, infos, blockSize)
  {
    hide BlocksIn, StartOf, PlaceOfBlock;
    forall b: nat | b < TotalBlocks(infos, blockSize)
      ensures b in blocks
    {
      BlockIsLocal(infos, blockSize, b);
      var i := FileOf(infos, blockSize, b, |infos|);
      var e := extents[infos[i].id];
      assert Covers(blocks, e, e.count);
    }
  }

  // ----- damaged and good blocks

  function Range(start: nat, count: nat): (r: seq<nat>)
    ensures |r| == count && forall k :: 0 <= k < count ==> r[k] == start + k
  {
    seq(count, k requires 0 <= k => start + k)
  }

  function Shifted(start: nat, locals: seq<nat>): (r: seq<nat>)
    ensures |r| == |locals| && forall k :: 0 <= k < |locals| ==> r[k] == start + locals[k]
  {
    seq(|locals|, k requires 0 <= k < |locals| => start + locals[k])
  }

  /** What verification found. */
  datatype Findings = Findings(missing: seq<Id>, damaged: seq<Id>, blockDamages: map<Id, seq<nat>>)

  function MissingBlocks(extents: map<Id, Extent>, missing: seq<Id>): seq<nat> {
    if missing == [] then []
    else
      var n := |missing| - 1;
      MissingBlocks(extents, missing[..n])
      + if missing[n] in extents then Range(extents[missing[n]].start, extents[missing[n]].count) else []
  }

  /** The listed blocks of a damaged file, or all its blocks when none are listed. */
  function DamagedBlocksOf(extents: map<Id, Extent>, id: Id, blockDamages: map<Id, seq<nat>>): seq<nat> {
    if id !in extents then []
    else if id in blockDamages then Shifted(extents[id].start, blockDamages[id])
    else Range(extents[id].start, extents[id].count)
  }

  function DamagedBlocks(extents: map<Id, Extent>, damaged: seq<Id>, blockDamages: map<Id, seq<nat>>): seq<nat> {
    if damaged == [] then []
    else
      var n := |damaged| - 1;
      DamagedBlocks(extents, damaged[..n], blockDamages) + DamagedBlocksOf(extents, damaged[n], blockDamages)
  }

  /** damaged_block_indices: missing files first. */
  function DamageList(extents: map<Id, Extent>, f: Findings): seq<nat> {
    MissingBlocks(extents, f.missing) + DamagedBlocks(extents, f.damaged, f.blockDamages)
  }

  lemma NoBlocks(extents: map<Id, Extent>, blockDamages: map<Id, seq<nat>>)
    ensures MissingBlocks(extents, []) == [] && DamagedBlocks(extents, [], blockDamages) == []
  {
  }

  lemma MissingNext(extents: map<Id, Extent>, missing: seq<Id>, i: nat)
    requires i < |missing|
    ensures MissingBlocks(extents, missing[..i + 1])
         == MissingBlocks(extents, missing[..i])
            + if missing[i] in extents then Range(extents[missing[i]].start, extents[missing[i]].count) else []
  {
    hide Range;
    assert missing[..i + 1][..i] == missing[..i];
  }

  lemma DamagedNext(extents: map<Id, Extent>, damaged: seq<Id>, blockDamages: map<Id, seq<nat>>, i: nat)
    requires i < |damaged|
    ensures DamagedBlocks(extents, damaged[..i + 1], blockDamages)
         == DamagedBlocks(extents, damaged[..i], blockDamages) + DamagedBlocksOf(extents, damaged[i], blockDamages)
  {
    hide DamagedBlocksOf;
    assert damaged[..i + 1][..i] == damaged[..i];
  }

  method ListDamage(extents: map<Id, Extent>, f: Findings) returns (r: seq<nat>)
    ensures r == DamageList(extents, f)
  {
    hide Range, Shifted, MissingBlocks, DamagedBlocks;
    r := [];
    NoBlocks(extents, f.blockDamages);
    for i := 0 to |f.missing|
      invariant r == MissingBlocks(extents, f.missing[..i])
    {
      MissingNext(extents, f.missing, i);
      var id := f.missing[i];
      if id in extents {
        r := r + Range(extents[id].start, extents[id].count);
      }
    }
    assert f.missing[..|f.missing|] == f.missing;
    ghost var before := r;
    for i := 0 to |f.damaged|
      invariant r == before + DamagedBlocks(extents, f.damaged[..i], f.blockDamages)
    {
      DamagedNext(extents, f.damaged, f.blockDamages, i);
      var id := f.damaged[i];
      if id in extents {
        if id in f.blockDamages {
          r := r + Shifted(extents[id].start, f.blockDamages[id]);
        } else {
          r := r + Range(extents[id].start, extents[id].count);
        }
      }
    }
    assert f.damaged[..|f.damaged|] == f.damaged;
  }

  /** The blocks below n that are not damaged, in order. */
  function GoodBelow(damaged: seq<nat>, n: nat): (r: seq<nat>)
    ensures forall b: nat :: b in r <==> b < n && b !in damaged
    ensures IndicesBelow(r, n) && Distinct(r)
  {
    if n == 0 then [] else GoodBelow(damaged, n - 1) + if n - 1 in damaged then [] else [n - 1]
  }

  method ListGood(damaged: seq<nat>, total: nat) returns (good: seq<nat>)
    ensures good == GoodBelow(damaged, total)
  {
    good := [];
    for b := 0 to total
      invariant good == GoodBelow(damaged, b)
    {
      if b !in damaged {
        good := good + [b];
      }
    }
  }

  /** Damaged and good blocks together are all blocks, each once. */
  lemma DamagedOrGood(damaged: seq<nat>, total: nat)
    requires Distinct(damaged) && IndicesBelow(damaged, total)
    ensures Partition(damaged, GoodBelow(damaged, total), total)
  {
    hide GoodBelow;
    var good := GoodBelow(damaged, total);
    DisjointDistinct(damaged, good);
    forall b: nat | b < total
      ensures b in damaged + good
    {
      assert b in damaged || b in good;
    }
    hide Distinct;
    CoveringLength(damaged + good, total);
  }

  /** A list that holds every number below n once has n entries. */
  lemma CoveringLength(s: seq<nat>, n: nat)
    requires Distinct(s) && IndicesBelow(s, n) && forall b: nat :: b < n ==> b in s
    ensures |s| == n
  {
    hide Distinct;
    assert Elements(s) == Below(n);
  }

  lemma DisjointDistinct(a: seq<nat>, b: seq<nat>)
    requires Distinct(a) && Distinct(b) && forall x: nat :: x in a ==> x !in b
    ensures Distinct(a + b)
  {
    var all := a + b;
    forall i, j | 0 <= i < j < |all|
      ensures all[i] != all[j]
    {
      assert i < |a| ==> all[i] in a;
      assert j >= |a| ==> all[j] == b[j - |a|] && b[j - |a|] in b;
      assert i >= |a| ==> all[i] == b[i - |a|];
    }
  }
}
