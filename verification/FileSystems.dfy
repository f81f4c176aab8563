/**
 File systems as the repair uses them (src/repair.rs): contents at paths, and the temp file that
 goes with a path.  A path is the name of a file below the base directory.
 */
module FileSystems {
  import opened Bytes

  type Path = seq<Byte>

  type Content = seq<Byte>

  type FileSystem = map<Path, Content>

  /** ".par2tmp" */
  const TMP_SUFFIX: seq<Byte> := [0x2E, 0x70, 0x61, 0x72, 0x32, 0x74, 0x6D, 0x70]

  function TempPathFor(p: Path): (t: Path)
    ensures |t| == |p| + |TMP_SUFFIX| && t != p
  {
    p + TMP_SUFFIX
  }

  lemma TempInjective(a: Path, b: Path)
    ensures TempPathFor(a) == TempPathFor(b) ==> a == b
  {
    assert TempPathFor(a)[..|a|] == a;
    assert TempPathFor(b)[..|b|] == b;
  }

  /** The two file systems agree about p. */
  predicate SameAt(fs: FileSystem, fs': FileSystem, p: Path) {
    (p in fs <==> p in fs') && (p in fs ==> fs[p] == fs'[p])
  }
}
