/**
 The files of a set on the disk (src/repair.rs): each at the path of its name, and the temp files
 beside them, which are created and written through paths.  If no temp lies on a file of the set
 and no two temps on each other, the disk is what the temps keyed by file ID say.
 */
module Disk {
  import opened Options
  import opened Bytes
  import opened FileSystems
  import opened FileIds
  import opened BlockNumbering
  import opened RepairChunks
  import opened Rebuild

  // ----- names

  function NamesOf(infos: seq<FileInfo>, n: nat): map<Id, Path>
    requires n <= |infos|
  {
    if n == 0 then map[] else NamesOf(infos, n - 1)[infos[n - 1].id := infos[n - 1].name]
  }

  lemma {:induction false} NamesAre(infos: seq<FileInfo>, n: nat)
    requires n <= |infos| && DistinctFiles(infos)
    ensures forall i :: 0 <= i < n ==> infos[i].id in NamesOf(infos, n)
                                       && NamesOf(infos, n)[infos[i].id] == infos[i].name
    ensures forall id :: id in NamesOf(infos, n) ==> exists i :: 0 <= i < n && infos[i].id == id
  {
    if n > 0 {
      NamesAre(infos, n - 1);
    }
  }

  method CollectNames(infos: seq<FileInfo>) returns (names: map<Id, Path>)
    ensures names == NamesOf(infos, |infos|)
  {
    names := map[];
    for i := 0 to |infos|
      invariant names == NamesOf(infos, i)
    {
      names := names[infos[i].id := infos[i].name];
    }
  }

  /** The files that are there, each under its name. */
  function OnDisk(names: map<Id, Path>, fs: FileSystem): Contents {
    map id | id in names && names[id] in fs :: fs[names[id]]
  }

  predicate ToReplace(findings: Findings, id: Id) {
    id in findings.missing || id in findings.damaged
  }

  /** Where the temps of the missing and damaged files are. */
  function TempPaths(names: map<Id, Path>, findings: Findings): map<Id, Path> {
    map id | id in names && ToReplace(findings, id) :: TempPathFor(names[id])
  }

  /** The temps, by file ID. */
  function TempsIn(fs: FileSystem, outputs: map<Id, Path>): Contents {
    map id | id in outputs && outputs[id] in fs :: fs[outputs[id]]
  }

  /** Different files have different temps. */
  predicate Injective(outputs: map<Id, Path>) {
    forall a, b :: a in outputs && b in outputs && a != b ==> outputs[a] != outputs[b]
  }

  /** No temp lies on a file of the set, and no two temps on each other. */
  predicate TempsApart(names: map<Id, Path>, findings: Findings) {
    var outputs := TempPaths(names, findings);
    && Injective(outputs)
    && forall a, b :: a in names && b in outputs ==> names[a] != outputs[b]
  }

  /**
   No file of the set has the name of the temp of a file to replace, and the name of a file to
   replace is that of no other file.
   */
  predicate NamesClear(names: map<Id, Path>, findings: Findings) {
    forall a, b :: a in names && b in names && ToReplace(findings, b) ==>
      names[a] != TempPathFor(names[b]) && (a != b ==> names[a] != names[b])
  }

  lemma ClearIsApart(names: map<Id, Path>, findings: Findings)
    requires NamesClear(names, findings)
    ensures TempsApart(names, findings)
  {
    hide TempPathFor;
    var paths := TempPaths(names, findings);
    forall a, b | a in paths && b in paths && a != b
      ensures paths[a] != paths[b]
    {
      TempInjective(names[a], names[b]);
    }
  }

  /** All names are different, and none is the temp name of another. */
  predicate CleanNames(names: map<Id, Path>) {
    forall a, b :: a in names && b in names ==> names[a] != TempPathFor(names[b]) && (a != b ==> names[a] != names[b])
  }

  /** What create could check: the names are clear whatever is missing or damaged later. */
  lemma CleanExactly(names: map<Id, Path>)
    ensures CleanNames(names) <==> forall findings :: NamesClear(names, findings)
  {
    hide TempPathFor;
    if forall findings :: NamesClear(names, findings) {
      forall a, b | a in names && b in names
        ensures names[a] != TempPathFor(names[b]) && (a != b ==> names[a] != names[b])
      {
        var findings := Findings([b], [], map[]);
        assert NamesClear(names, findings) && ToReplace(findings, b);
      }
    }
  }

  /** Apart from the temps, the disk is as it was. */
  ghost predicate OnlyTemps(fs: FileSystem, fs': FileSystem, outputs: map<Id, Path>) {
    forall p: Path :: p !in outputs.Values ==> SameAt(fs, fs', p)
  }

  // ----- creating the temps

  function MissingTemps(fs: FileSystem, names: map<Id, Path>, lengths: map<Id, nat>, missing: seq<Id>): FileSystem {
    if missing == [] then fs
    else
      var n := |missing| - 1;
      var before := MissingTemps(fs, names, lengths, missing[..n]);
      var id := missing[n];
      if id in names && id in lengths then before[TempPathFor(names[id]) := ReadAt([], 0, lengths[id])] else before
  }

  /** A damaged file is opened, then its temp created and seeded with what survives; None if it cannot be opened. */
  function DamagedTemps(fs: FileSystem, names: map<Id, Path>, lengths: map<Id, nat>, damaged: seq<Id>)
    : Option<FileSystem>
  {
    if damaged == [] then Some(fs)
    else
      var n := |damaged| - 1;
      var id := damaged[n];
      match DamagedTemps(fs, names, lengths, damaged[..n])
      case None => None
      case Some(before) =>
        if id !in names || id !in lengths then Some(before)
        else if names[id] !in before then None
        else Some(before[TempPathFor(names[id]) := ReadAt(before[names[id]], 0, lengths[id])])
  }

  /** The disk after the temps have been created: missing files first, then damaged ones. */
  function SetUp(fs: FileSystem, names: map<Id, Path>, lengths: map<Id, nat>, findings: Findings): Option<FileSystem> {
    DamagedTemps(MissingTemps(fs, names, lengths, findings.missing), names, lengths, findings.damaged)
  }

  lemma TempPathsNext(names: map<Id, Path>, missing: seq<Id>, damaged: seq<Id>, d: map<Id, seq<nat>>, id: Id)
    ensures var now := TempPaths(names, Findings(missing, damaged, d));
            var next := if id in names then now[id := TempPathFor(names[id])] else now;
            && TempPaths(names, Findings(missing + [id], damaged, d)) == next
            && TempPaths(names, Findings(missing, damaged + [id], d)) == next
  {
    assert forall x :: x in missing + [id] <==> x in missing || x == id;
    assert forall x :: x in damaged + [id] <==> x in damaged || x == id;
  }

  lemma MissingNext(fs: FileSystem, names: map<Id, Path>, lengths: map<Id, nat>, before: seq<Id>, id: Id)
    requires names.Keys == lengths.Keys
    ensures var fs' := MissingTemps(fs, names, lengths, before);
            MissingTemps(fs, names, lengths, before + [id])
            == if id in names then fs'[TempPathFor(names[id]) := ReadAt([], 0, lengths[id])] else fs'
  {
    hide ReadAt, TempPathFor;
    assert (before + [id])[..|before|] == before;
  }

  lemma DamagedNext(fs: FileSystem, names: map<Id, Path>, lengths: map<Id, nat>, before: seq<Id>, id: Id,
                    fs': FileSystem)
    requires names.Keys == lengths.Keys && DamagedTemps(fs, names, lengths, before) == Some(fs')
    ensures DamagedTemps(fs, names, lengths, before + [id])
            == if id !in names then Some(fs')
               else if names[id] !in fs' then None
               else Some(fs'[TempPathFor(names[id]) := ReadAt(fs'[names[id]], 0, lengths[id])])
  {
    hide ReadAt, TempPathFor;
    assert (before + [id])[..|before|] == before;
  }

  lemma NothingCreated(fs: FileSystem, names: map<Id, Path>, lengths: map<Id, nat>)
    ensures MissingTemps(fs, names, lengths, []) == fs && DamagedTemps(fs, names, lengths, []) == Some(fs)
  {
  }

  /** Creates the temps, and says where they are. */
  method SetupTemps(fs0: FileSystem, names: map<Id, Path>, lengths: map<Id, nat>, findings: Findings)
    returns (r: Option<FileSystem>, outputs: map<Id, Path>)
    requires names.Keys == lengths.Keys
    ensures r == SetUp(fs0, names, lengths, findings)
    ensures r.Some? ==> outputs == TempPaths(names, findings)
  {
    hide ReadAt, TempPaths, TempPathFor, MissingTemps, DamagedTemps;
    var fs := fs0;
    NothingCreated(fs0, names, lengths);
    var (missing, damaged) := (findings.missing, findings.damaged);
    outputs := map[];
    NoTempPaths(names, findings.blockDamages);
    for i := 0 to |missing|
      invariant fs == MissingTemps(fs0, names, lengths, missing[..i])
      invariant outputs == TempPaths(names, Findings(missing[..i], [], findings.blockDamages))
    {
      var id := missing[i];
      assert missing[..i + 1] == missing[..i] + [id];
      TempPathsNext(names, missing[..i], [], findings.blockDamages, id);
      MissingNext(fs0, names, lengths, missing[..i], id);
      if id in names {
        var temp := SeedTemp(None, lengths[id]);
        fs := fs[TempPathFor(names[id]) := temp];
        outputs := outputs[id := TempPathFor(names[id])];
      }
    }
    assert missing[..|missing|] == missing;
    ghost var fs1 := fs;
    NothingCreated(fs1, names, lengths);
    for i := 0 to |damaged|
      invariant Some(fs) == DamagedTemps(fs1, names, lengths, damaged[..i])
      invariant outputs == TempPaths(names, Findings(missing, damaged[..i], findings.blockDamages))
    {
      var id := damaged[i];
      assert damaged[..i + 1] == damaged[..i] + [id];
      TempPathsNext(names, missing, damaged[..i], findings.blockDamages, id);
      DamagedNext(fs1, names, lengths, damaged[..i], id, fs);
      if id in names {
        if names[id] !in fs {
          NoneStays(fs1, names, lengths, damaged, i + 1);
          return None, outputs;
        }
        var temp := SeedTemp(Some(fs[names[id]]), lengths[id]);
        fs := fs[TempPathFor(names[id]) := temp];
        outputs := outputs[id := TempPathFor(names[id])];
      }
    }
    assert damaged[..|damaged|] == damaged;
    return Some(fs), outputs;
  }

  lemma NoTempPaths(names: map<Id, Path>, d: map<Id, seq<nat>>)
    ensures TempPaths(names, Findings([], [], d)) == map[]
  {
  }

  lemma {:induction false} NoneStays(fs: FileSystem, names: map<Id, Path>, lengths: map<Id, nat>, damaged: seq<Id>,
                                     n: nat)
    requires n <= |damaged| && DamagedTemps(fs, names, lengths, damaged[..n]).None?
    ensures DamagedTemps(fs, names, lengths, damaged).None?
    decreases |damaged|
  {
    hide ReadAt;
    if n < |damaged| {
      var m := |damaged| - 1;
      assert damaged[..m][..n] == damaged[..n];
      NoneStays(fs, names, lengths, damaged[..m], n);
    } else {
      assert damaged[..n] == damaged;
    }
  }

  // ----- what the temps hold, and that nothing else changed

  lemma {:induction false} MissingAt(fs: FileSystem, names: map<Id, Path>, lengths: map<Id, nat>, missing: seq<Id>,
                                     p: Path)
    requires names.Keys == lengths.Keys
    ensures var fs' := MissingTemps(fs, names, lengths, missing);
            && ((forall id :: id in missing && id in names ==> TempPathFor(names[id]) != p) ==> SameAt(fs, fs', p))
            && (p in fs ==> p in fs')
  {
    hide ReadAt, TempPathFor;
    if missing != [] {
      var n := |missing| - 1;
      MissingAt(fs, names, lengths, missing[..n], p);
      assert missing == missing[..n] + [missing[n]];
    }
  }

  lemma {:induction false} DamagedAt(fs: FileSystem, names: map<Id, Path>, lengths: map<Id, nat>, damaged: seq<Id>,
                                     p: Path)
    requires names.Keys == lengths.Keys && DamagedTemps(fs, names, lengths, damaged).Some?
    ensures var fs' := DamagedTemps(fs, names, lengths, damaged).value;
            && ((forall id :: id in damaged && id in names ==> TempPathFor(names[id]) != p) ==> SameAt(fs, fs', p))
            && (p in fs ==> p in fs')
  {
    hide ReadAt, TempPathFor;
    if damaged != [] {
      var n := |damaged| - 1;
      DamagedAt(fs, names, lengths, damaged[..n], p);
      assert damaged == damaged[..n] + [damaged[n]];
    }
  }

  /** Creating the temps changes nothing else. */
  lemma SetUpOnlyTemps(fs: FileSystem, names: map<Id, Path>, lengths: map<Id, nat>, findings: Findings)
    requires names.Keys == lengths.Keys && SetUp(fs, names, lengths, findings).Some?
    ensures OnlyTemps(fs, SetUp(fs, names, lengths, findings).value, TempPaths(names, findings))
  {
    hide ReadAt, TempPathFor;
    var outputs := TempPaths(names, findings);
    var fs1 := MissingTemps(fs, names, lengths, findings.missing);
    forall p: Path | p !in outputs.Values
      ensures SameAt(fs, SetUp(fs, names, lengths, findings).value, p)
    {
      assert forall id :: id in names && ToReplace(findings, id) ==> id in outputs && outputs[id] in outputs.Values;
      MissingAt(fs, names, lengths, findings.missing, p);
      DamagedAt(fs1, names, lengths, findings.damaged, p);
    }
  }

  /** It succeeds if every damaged file is there. */
  lemma {:induction false} DamagedOpen(fs: FileSystem, names: map<Id, Path>, lengths: map<Id, nat>, damaged: seq<Id>)
    requires names.Keys == lengths.Keys
    requires forall i :: 0 <= i < |damaged| && damaged[i] in names ==> names[damaged[i]] in fs
    ensures DamagedTemps(fs, names, lengths, damaged).Some?
  {
    hide ReadAt, TempPathFor;
    if damaged != [] {
      var n := |damaged| - 1;
      DamagedOpen(fs, names, lengths, damaged[..n]);
      if damaged[n] in names {
        DamagedAt(fs, names, lengths, damaged[..n], names[damaged[n]]);
      }
    }
  }

  lemma SetUpSucceeds(fs: FileSystem, names: map<Id, Path>, lengths: map<Id, nat>, findings: Findings)
    requires names.Keys == lengths.Keys
    requires forall i :: 0 <= i < |findings.damaged| ==> findings.damaged[i] in OnDisk(names, fs)
    ensures SetUp(fs, names, lengths, findings).Some?
  {
    hide ReadAt, TempPathFor;
    var fs1 := MissingTemps(fs, names, lengths, findings.missing);
    forall i | 0 <= i < |findings.damaged| && findings.damaged[i] in names
      ensures names[findings.damaged[i]] in fs1
    {
      MissingAt(fs, names, lengths, findings.missing, names[findings.damaged[i]]);
    }
    DamagedOpen(fs1, names, lengths, findings.damaged);
  }

  /** No temp lies on a file of the set: the files are as they were when they are read. */
  lemma ReadsKept(fs: FileSystem, fs': FileSystem, names: map<Id, Path>, findings: Findings)
    requires TempsApart(names, findings) && OnlyTemps(fs, fs', TempPaths(names, findings))
    ensures OnDisk(names, fs') == OnDisk(names, fs)
  {
    hide TempPathFor, TempPaths;
    var outputs := TempPaths(names, findings);
    forall id | id in names
      ensures SameAt(fs, fs', names[id])
    {
      assert names[id] !in outputs.Values;
    }
  }

  ghost predicate TempIs(fs: FileSystem, p: Path, content: seq<Byte>) {
    p in fs && fs[p] == content
  }

  lemma {:induction false} MissingTempIs(fs: FileSystem, names: map<Id, Path>, lengths: map<Id, nat>,
                                         missing: seq<Id>, id: Id)
    requires names.Keys == lengths.Keys && id in missing && id in names
    requires forall a :: a in missing && a in names && a != id ==> TempPathFor(names[a]) != TempPathFor(names[id])
    ensures TempIs(MissingTemps(fs, names, lengths, missing), TempPathFor(names[id]), ReadAt([], 0, lengths[id]))
  {
    hide ReadAt, TempPathFor;
    var n := |missing| - 1;
    if missing[n] != id {
      assert missing == missing[..n] + [missing[n]];
      MissingTempIs(fs, names, lengths, missing[..n], id);
    }
  }

  lemma {:induction false} DamagedTempIs(fs: FileSystem, names: map<Id, Path>, lengths: map<Id, nat>,
                                         damaged: seq<Id>, id: Id)
    requires names.Keys == lengths.Keys && id in damaged && id in names
    requires DamagedTemps(fs, names, lengths, damaged).Some?
    requires forall a :: a in damaged && a in names && a != id ==> TempPathFor(names[a]) != TempPathFor(names[id])
    requires forall a :: a in damaged && a in names ==> TempPathFor(names[a]) != names[id]
    ensures names[id] in fs
    ensures TempIs(DamagedTemps(fs, names, lengths, damaged).value, TempPathFor(names[id]),
                   ReadAt(fs[names[id]], 0, lengths[id]))
  {
    hide ReadAt, TempPathFor;
    var n := |damaged| - 1;
    assert damaged == damaged[..n] + [damaged[n]];
    if damaged[n] != id {
      DamagedTempIs(fs, names, lengths, damaged[..n], id);
    } else {
      DamagedAt(fs, names, lengths, damaged[..n], names[id]);
    }
  }

  /** The temp of a missing file lies on another file of the set: that file is read as zeros, whatever it held. */
  lemma ClashedRead(fs: FileSystem, names: map<Id, Path>, lengths: map<Id, nat>, a: Id, b: Id)
    requires names.Keys == lengths.Keys && a in names && b in names && names[a] == TempPathFor(names[b])
    ensures var r := SetUp(fs, names, lengths, Findings([b], [], map[]));
            r.Some? && a in OnDisk(names, r.value) && OnDisk(names, r.value)[a] == ReadAt([], 0, lengths[b])
  {
    hide ReadAt, TempPathFor;
    MissingTempIs(fs, names, lengths, [b], b);
  }

  /** A temp for every missing and damaged file, of the right length, seeded with what survives of a damaged one. */
  ghost predicate Seeded(temps: Contents, lengths: map<Id, nat>, disk: Contents, missing: seq<Id>, damaged: seq<Id>) {
    && (forall id :: id in temps <==> id in lengths && (id in missing || id in damaged))
    && (forall id :: id in temps ==> |temps[id]| == lengths[id])
    && (forall id :: id in temps && id in damaged ==> id in disk && temps[id] == ReadAt(disk[id], 0, lengths[id]))
  }

  lemma SeededAt(fs: FileSystem, names: map<Id, Path>, lengths: map<Id, nat>, findings: Findings, id: Id)
    requires names.Keys == lengths.Keys && TempsApart(names, findings) && SetUp(fs, names, lengths, findings).Some?
    requires id in names && ToReplace(findings, id)
    ensures var fs' := SetUp(fs, names, lengths, findings).value;
            var p := TempPathFor(names[id]);
            && p in fs' && |fs'[p]| == lengths[id]
            && (id in findings.damaged ==>
                  id in OnDisk(names, fs) && fs'[p] == ReadAt(OnDisk(names, fs)[id], 0, lengths[id]))
  {
    hide ReadAt, TempPathFor;
    var outputs := TempPaths(names, findings);
    assert forall a :: a in names && ToReplace(findings, a) ==> a in outputs && outputs[a] == TempPathFor(names[a]);
    var fs1 := MissingTemps(fs, names, lengths, findings.missing);
    MissingAt(fs, names, lengths, findings.missing, names[id]);
    if id in findings.damaged {
      DamagedTempIs(fs1, names, lengths, findings.damaged, id);
    } else {
      MissingTempIs(fs, names, lengths, findings.missing, id);
      DamagedAt(fs1, names, lengths, findings.damaged, TempPathFor(names[id]));
    }
  }

  lemma TempPathsAre(names: map<Id, Path>, findings: Findings)
    ensures var outputs := TempPaths(names, findings);
            && (forall id :: id in outputs <==> id in names && ToReplace(findings, id))
            && (forall id :: id in outputs ==> outputs[id] == TempPathFor(names[id]))
  {
  }

  /** The temps are seeded from the files as they were. */
  lemma SetUpSeeds(fs: FileSystem, names: map<Id, Path>, lengths: map<Id, nat>, findings: Findings)
    requires names.Keys == lengths.Keys && TempsApart(names, findings) && SetUp(fs, names, lengths, findings).Some?
    ensures var fs' := SetUp(fs, names, lengths, findings).value;
            var outputs := TempPaths(names, findings);
            && Seeded(TempsIn(fs', outputs), lengths, OnDisk(names, fs), findings.missing, findings.damaged)
            && TempsThere(fs', outputs)
  {
    hide ReadAt, TempPathFor, SetUp, TempsApart, TempPaths, OnDisk;
    var fs' := SetUp(fs, names, lengths, findings).value;
    var outputs := TempPaths(names, findings);
    TempPathsAre(names, findings);
    forall id | id in outputs
      ensures outputs[id] in fs' && |fs'[outputs[id]]| == lengths[id]
      ensures id in findings.damaged ==>
                id in OnDisk(names, fs) && fs'[outputs[id]] == ReadAt(OnDisk(names, fs)[id], 0, lengths[id])
    {
      SeededAt(fs, names, lengths, findings, id);
    }
  }

  /** Every temp is there after they have been created. */
  lemma SetUpThere(fs: FileSystem, names: map<Id, Path>, lengths: map<Id, nat>, findings: Findings)
    requires names.Keys == lengths.Keys && SetUp(fs, names, lengths, findings).Some?
    ensures TempsThere(SetUp(fs, names, lengths, findings).value, TempPaths(names, findings))
  {
    hide ReadAt, TempPathFor;
    var fs1 := MissingTemps(fs, names, lengths, findings.missing);
    forall id | id in names && ToReplace(findings, id)
      ensures TempPathFor(names[id]) in SetUp(fs, names, lengths, findings).value
    {
      if id in findings.missing {
        MissingThere(fs, names, lengths, findings.missing, id);
        DamagedAt(fs1, names, lengths, findings.damaged, TempPathFor(names[id]));
      } else {
        DamagedThere(fs1, names, lengths, findings.damaged, id);
      }
    }
  }

  lemma {:induction false} MissingThere(fs: FileSystem, names: map<Id, Path>, lengths: map<Id, nat>,
                                        missing: seq<Id>, id: Id)
    requires names.Keys == lengths.Keys && id in missing && id in names
    ensures TempPathFor(names[id]) in MissingTemps(fs, names, lengths, missing)
  {
    hide ReadAt, TempPathFor;
    var n := |missing| - 1;
    if missing[n] != id {
      assert missing == missing[..n] + [missing[n]];
      MissingThere(fs, names, lengths, missing[..n], id);
    }
  }

  lemma {:induction false} DamagedThere(fs: FileSystem, names: map<Id, Path>, lengths: map<Id, nat>,
                                        damaged: seq<Id>, id: Id)
    requires names.Keys == lengths.Keys && id in damaged && id in names
    requires DamagedTemps(fs, names, lengths, damaged).Some?
    ensures TempPathFor(names[id]) in DamagedTemps(fs, names, lengths, damaged).value
  {
    hide ReadAt, TempPathFor;
    var n := |damaged| - 1;
    if damaged[n] != id {
      assert damaged == damaged[..n] + [damaged[n]];
      DamagedThere(fs, names, lengths, damaged[..n], id);
    }
  }

  // ----- writing

  /** Writing at an offset: what lies before it is filled with zeros if the file ends there. */
  function WriteAt(content: seq<Byte>, o: nat, data: seq<Byte>): (r: seq<Byte>)
    ensures o + |data| <= |content| ==> r == Overwrite(content, o, data)
  {
    ReadAt(content, 0, o) + data + if o + |data| < |content| then content[o + |data|..] else []
  }

  predicate TempsThere(fs: FileSystem, outputs: map<Id, Path>) {
    forall id :: id in outputs ==> outputs[id] in fs
  }

  /** The write of one chunk to the temp of its file, cut off at the end of the file. */
  function WriteTemp(fs: FileSystem, outputs: map<Id, Path>, blocks: map<nat, Place>, lengths: map<Id, nat>,
                     blockSize: nat, w: ChunkWrite)
    : (r: FileSystem)
    requires TempsThere(fs, outputs)
    ensures TempsThere(r, outputs) && OnlyTemps(fs, r, outputs)
  {
    if w.block !in blocks then fs
    else
      var id := blocks[w.block].id;
      if id !in outputs || id !in lengths then fs
      else
        var at := blocks[w.block].local * blockSize + w.offset;
        var remaining := if at < lengths[id] then lengths[id] - at else 0;
        var n := Least(|w.data|, remaining);
        if n > 0 then fs[outputs[id] := WriteAt(fs[outputs[id]], at, w.data[..n])] else fs
  }

  function WriteTemps(fs: FileSystem, outputs: map<Id, Path>, blocks: map<nat, Place>, lengths: map<Id, nat>,
                      blockSize: nat, ws: seq<ChunkWrite>)
    : (r: FileSystem)
    requires TempsThere(fs, outputs)
    ensures TempsThere(r, outputs) && OnlyTemps(fs, r, outputs)
  {
    if ws == [] then fs
    else
      var n := |ws| - 1;
      WriteTemp(WriteTemps(fs, outputs, blocks, lengths, blockSize, ws[..n]), outputs, blocks, lengths, blockSize,
                ws[n])
  }

  method WriteChunks(fs0: FileSystem, outputs: map<Id, Path>, blocks: map<nat, Place>, lengths: map<Id, nat>,
                     blockSize: nat, ws: seq<ChunkWrite>)
    returns (fs: FileSystem)
    requires TempsThere(fs0, outputs)
    ensures fs == WriteTemps(fs0, outputs, blocks, lengths, blockSize, ws)
  {
    hide WriteTemp, TempsThere;
    fs := fs0;
    for i := 0 to |ws|
      invariant TempsThere(fs, outputs) && fs == WriteTemps(fs0, outputs, blocks, lengths, blockSize, ws[..i])
    {
      assert ws[..i + 1][..i] == ws[..i];
      fs := WriteTemp(fs, outputs, blocks, lengths, blockSize, ws[i]);
    }
    assert ws[..|ws|] == ws;
  }

  lemma WriteView(fs: FileSystem, outputs: map<Id, Path>, blocks: map<nat, Place>, lengths: map<Id, nat>,
                  blockSize: nat, w: ChunkWrite)
    requires TempsThere(fs, outputs) && Injective(outputs) && Sized(TempsIn(fs, outputs), lengths)
    ensures TempsIn(WriteTemp(fs, outputs, blocks, lengths, blockSize, w), outputs)
         == ApplyWrite(TempsIn(fs, outputs), blocks, lengths, blockSize, w)
  {
    hide WriteAt, Overwrite;
  }

  /** With different temps for different files, writing through paths is writing to the temps by ID. */
  lemma {:induction false} WritesView(fs: FileSystem, outputs: map<Id, Path>, blocks: map<nat, Place>,
                                      lengths: map<Id, nat>, blockSize: nat, ws: seq<ChunkWrite>)
    requires TempsThere(fs, outputs) && Injective(outputs) && Sized(TempsIn(fs, outputs), lengths)
    ensures TempsIn(WriteTemps(fs, outputs, blocks, lengths, blockSize, ws), outputs)
         == ApplyWrites(TempsIn(fs, outputs), blocks, lengths, blockSize, ws)
  {
    hide WriteTemp, ApplyWrite, Sized, TempsIn, Injective;
    if ws != [] {
      var n := |ws| - 1;
      WritesView(fs, outputs, blocks, lengths, blockSize, ws[..n]);
      WriteView(WriteTemps(fs, outputs, blocks, lengths, blockSize, ws[..n]), outputs, blocks, lengths, blockSize,
                ws[n]);
    }
  }
}
