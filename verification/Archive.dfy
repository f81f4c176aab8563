/**
 What `Par2File::load` makes of an index file and its volumes (src/parser.rs).

 `RecoveriesLoaded`: every recovery block of a written stream is found with its exponent and
 data, whether it comes before or after the Main packet.  `Load`: whatever the files hold, what is
 loaded stands in the index file and in the volumes of the same set, and in no others.
 */
module Archive {
  import opened Options
  import opened Bytes
  import opened LittleEndian
  import opened FileIds
  import opened Packets
  import opened Scanner
  import opened Layouts
  import opened ScanFacts
  import opened Encoding

  // ----- loading

  datatype LoadError = EmptyFile | NoMainPacket | BlockSizeMissing | BlockSizeUnaligned

  /** A recovery block and the file it lies in: 0 for the index file, i + 1 for volume i. */
  datatype Located = Located(file: nat, ref: RecoveryRef)

  datatype Par2File = Par2File(
    blockSize: nat,
    files: map<Id, FileInfo>,
    filesInOrder: seq<FileInfo>,
    recoveries: seq<Located>,
    checksums: map<Id, seq<SliceChecksum>>)

  datatype LoadResult = Loaded(par2: Par2File) | LoadFailed(error: LoadError)

  /** The recovery packets of a volume file (`parse_volume_file`); no other packet is looked at. */
  function VolumeScan(file: seq<Byte>, blockSize: nat, pos: nat): seq<RecoveryRef>
    decreases |file| - pos
  {
    if pos + 64 > |file| then []
    else
      var h := HeaderAt(file, pos);
      var length := HeaderLength(h);
      if h[0..8] != Magic() || length < 64 || length > |file| - pos then VolumeScan(file, blockSize, pos + 1)
      else
        var rest := VolumeScan(file, blockSize, Aligned(pos, length));
        if TypeOf(h[48..64]) == RecoveryType && length >= 68 then
          [RecoveryRef(FromBytes(file[pos + 64..pos + 68]), pos + 68, blockSize)] + rest
        else rest
  }

  method ParseVolumeFile(file: seq<Byte>, blockSize: nat) returns (r: seq<RecoveryRef>)
    ensures r == VolumeScan(file, blockSize, 0)
  {
    hide TypeOf, FromBytes, Magic;
    r := [];
    var position := 0;
    while position < |file|
      invariant VolumeScan(file, blockSize, 0) == r + VolumeScan(file, blockSize, position)
      decreases |file| - position
    {
      if |file| - position < 64 {
        break;
      }
      var h := HeaderAt(file, position);
      var length := HeaderLength(h);
      if h[0..8] != Magic() || length < 64 || length > |file| - position {
        position := position + 1;
        continue;
      }
      if TypeOf(h[48..64]) == RecoveryType && length >= 68 {
        r := r + [RecoveryRef(FromBytes(file[position + 64..position + 68]), position + 68, blockSize)];
      }
      position := Aligned(position, length);
    }
  }

  /** The recovery packets that came before the block size was known. */
  function DeferredRefs(file: seq<Byte>, deferred: seq<Deferred>, blockSize: nat): seq<RecoveryRef> {
    if deferred == [] then []
    else
      var d := deferred[0];
      var rest := DeferredRefs(file, deferred[1..], blockSize);
      if d.length < 68 || d.position + 68 > |file| then rest
      else [RecoveryRef(FromBytes(file[d.position + 64..d.position + 68]), d.position + 68, blockSize)] + rest
  }

  function LocatedIn(file: nat, refs: seq<RecoveryRef>): (r: seq<Located>)
    ensures |r| == |refs|
  {
    seq(|refs|, i requires 0 <= i < |refs| => Located(file, refs[i]))
  }

  /** A volume belongs to the set if its first packet header says so. */
  predicate SameSet(file: seq<Byte>, setId: Id) {
    |file| >= 64 && HeaderAt(file, 0)[0..8] == Magic() && HeaderAt(file, 0)[32..48] == setId
  }

  function VolumeRefs(volumes: seq<seq<Byte>>, setId: Id, blockSize: nat, n: nat): seq<Located>
    requires n <= |volumes|
  {
    if n == 0 then []
    else
      VolumeRefs(volumes, setId, blockSize, n - 1)
      + if SameSet(volumes[n - 1], setId) then LocatedIn(n, VolumeScan(volumes[n - 1], blockSize, 0)) else []
  }

  function LoadFrom(index: seq<Byte>, st: State, volumes: seq<seq<Byte>>): LoadResult {
    if st.setId == ZeroId() then LoadFailed(NoMainPacket)
    else if st.blockSize == 0 then LoadFailed(BlockSizeMissing)
    else if st.blockSize % 4 != 0 then LoadFailed(BlockSizeUnaligned)
    else
      Loaded(Par2File(
        st.blockSize, st.files, ReorderCanonically(st.filesInOrder, st.mainOrder),
        LocatedIn(0, st.recoveries + DeferredRefs(index, st.deferred, st.blockSize))
        + VolumeRefs(volumes, st.setId, st.blockSize, |volumes|),
        st.checksums))
  }

  /** The file starts with a packet header that carries this set ID. */
  predicate OfSet(file: seq<Byte>, setId: Id) {
    |file| >= 64 && file[0..8] == MagicBytes() && file[32..48] == setId
  }

  /** The first packet header in a file. */
  ghost predicate FirstHeader(file: seq<Byte>, pos: nat) {
    && pos + 64 <= |file| && file[pos..pos + 8] == MagicBytes()
    && forall q: nat :: q < pos ==> EightAt(file, q) != MagicBytes()
  }

  /** A located block lies in the index file or in a volume of the set; its place is read from a recovery packet. */
  predicate LocatedRight(index: seq<Byte>, volumes: seq<seq<Byte>>, setId: Id, blockSize: nat, l: Located) {
    if l.file == 0 then LocatesBlock(index, l.ref)
    else
      && l.file <= |volumes| && OfSet(volumes[l.file - 1], setId)
      && LocatesBlock(volumes[l.file - 1], l.ref) && l.ref.dataLength == blockSize
  }

  predicate AllRight(index: seq<Byte>, volumes: seq<seq<Byte>>, setId: Id, blockSize: nat, located: seq<Located>) {
    forall i :: 0 <= i < |located| ==> LocatedRight(index, volumes, setId, blockSize, located[i])
  }

  /** What is loaded stands in the files; the volumes of other sets are left out. */
  ghost predicate LoadedSound(md5: Md5, index: seq<Byte>, volumes: seq<seq<Byte>>, par2: Par2File, setId: Id) {
    && SetNamed(index, setId) && SizeGiven(md5, index, par2.blockSize) && par2.blockSize % 4 == 0
    && FilesSound(md5, index, par2.files) && SumsSound(md5, index, par2.checksums)
    && FilesListed(md5, index, par2.files, par2.filesInOrder)
    && AllRight(index, volumes, setId, par2.blockSize, par2.recoveries)
  }

  // ----- where everything comes from

  lemma {:induction false} VolumeSound(file: seq<Byte>, blockSize: nat, pos: nat)
    ensures var refs := VolumeScan(file, blockSize, pos);
            RefsSound(file, refs) && forall i :: 0 <= i < |refs| ==> refs[i].dataLength == blockSize
    decreases |file| - pos
  {
    hide TypeOf, FromBytes, Magic, MagicBytes, TypeName;
    if pos + 64 <= |file| {
      var h := HeaderAt(file, pos);
      var length := HeaderLength(h);
      if h[0..8] != Magic() || length < 64 || length > |file| - pos {
        VolumeSound(file, blockSize, pos + 1);
      } else {
        VolumeSound(file, blockSize, Aligned(pos, length));
        if TypeOf(h[48..64]) == RecoveryType {
          HeaderParts(file, pos);
          TypeFound(h[48..64], RecoveryType);
          TypeNameBytes(RecoveryType);
        }
      }
    }
  }

  lemma {:induction false} DeferredRefsSound(file: seq<Byte>, deferred: seq<Deferred>, blockSize: nat)
    requires DeferredSound(file, deferred)
    ensures RefsSound(file, DeferredRefs(file, deferred, blockSize))
  {
    hide FromBytes, MagicBytes, TypeName;
    if deferred != [] {
      assert LocatesPacket(file, deferred[0]);
      DeferredRefsSound(file, deferred[1..], blockSize);
    }
  }

  lemma IndexLocated(index: seq<Byte>, volumes: seq<seq<Byte>>, setId: Id, blockSize: nat, refs: seq<RecoveryRef>)
    requires RefsSound(index, refs)
    ensures AllRight(index, volumes, setId, blockSize, LocatedIn(0, refs))
  {
    hide LocatesBlock, OfSet;
  }

  lemma {:induction false} VolumeRefsRight(index: seq<Byte>, volumes: seq<seq<Byte>>, setId: Id, blockSize: nat, n: nat)
    requires n <= |volumes|
    ensures AllRight(index, volumes, setId, blockSize, VolumeRefs(volumes, setId, blockSize, n))
  {
    hide LocatesBlock, VolumeScan, Magic, MagicBytes;
    if n > 0 {
      VolumeRefsRight(index, volumes, setId, blockSize, n - 1);
      if SameSet(volumes[n - 1], setId) {
        SameSetIs(volumes[n - 1], setId);
        VolumeSound(volumes[n - 1], blockSize, 0);
        var refs := VolumeScan(volumes[n - 1], blockSize, 0);
        assert AllRight(index, volumes, setId, blockSize, LocatedIn(n, refs));
      }
    }
  }

  lemma SameSetIs(file: seq<Byte>, setId: Id)
    ensures SameSet(file, setId) <==> OfSet(file, setId)
  {
    hide Magic, MagicBytes;
    TypeNameBytes(MainType);
    if |file| >= 64 {
      HeaderParts(file, 0);
    }
  }

  lemma {:induction false} SetIdKept(md5: Md5, file: seq<Byte>, pos: nat, st: State)
    requires st.setId != ZeroId()
    ensures Scan(md5, file, pos, st).setId == st.setId
    decreases |file| - pos
  {
    hide Magic, HeaderAt, ZeroId, TypeOf, FromBytes, ParseMain, ParseFileDesc, ParseIfsc;
    if pos < |file| && NextStep(md5, file, pos, st).Some? {
      var step := NextStep(md5, file, pos, st).value;
      SetIdKept(md5, file, step.next, step.st);
    }
  }

  /** The set ID of an archive is that of the first header in its index file. */
  lemma {:induction false} FirstHeaderTaken(md5: Md5, file: seq<Byte>, pos: nat, q: nat)
    requires FirstHeader(file, pos) && SetIdAt(file, pos) != ZeroId() && q <= pos
    ensures Scan(md5, file, q, Start()).setId == SetIdAt(file, pos)
    decreases pos - q
  {
    hide Magic, MagicBytes, HeaderAt, ZeroId, TypeOf, FromBytes, ParseMain, ParseFileDesc, ParseIfsc;
    TypeNameBytes(MainType);
    if q < pos {
      assert EightAt(file, q) == file[q..q + 8];
      StepOverByte(md5, file, q, Start());
      FirstHeaderTaken(md5, file, pos, q + 1);
    } else {
      HeaderParts(file, pos);
      var step := NextStep(md5, file, pos, Start()).value;
      assert step.st.setId == SetIdAt(file, pos);
      SetIdKept(md5, file, step.next, step.st);
    }
  }

  /** What LoadFrom makes of the scan. */
  lemma LoadedIsSound(md5: Md5, index: seq<Byte>, volumes: seq<seq<Byte>>)
    ensures var st := Scan(md5, index, 0, Start());
            var r := LoadFrom(index, st, volumes);
            r.Loaded? ==> LoadedSound(md5, index, volumes, r.par2, st.setId)
  {
    hide Scan, VolumeScan, ReorderCanonically, DeferredRefs, ZeroId, Start, RefsSound, DeferredSound, VolumeRefs,
         LocatedRight, SetNamed, SizeGiven, FilesSound, SumsSound, OrderGiven, FilesListed;
    StartSound(md5, index);
    ScanSound(md5, index, 0, Start());
    var st := Scan(md5, index, 0, Start());
    DeferredRefsSound(index, st.deferred, st.blockSize);
    RefsTogether(index, st.recoveries, DeferredRefs(index, st.deferred, st.blockSize));
    IndexLocated(index, volumes, st.setId, st.blockSize,
                 st.recoveries + DeferredRefs(index, st.deferred, st.blockSize));
    VolumeRefsRight(index, volumes, st.setId, st.blockSize, |volumes|);
    StillListed(md5, index, st.files, st.filesInOrder, st.mainOrder);
  }

  /** Putting the files in order keeps the list a list of the files. */
  lemma StillListed(md5: Md5, index: seq<Byte>, files: map<Id, FileInfo>, list: seq<FileInfo>, order: seq<Id>)
    requires FilesListed(md5, index, files, list)
    ensures FilesListed(md5, index, files, ReorderCanonically(list, order))
  {
    hide Described, FromBytes, ReorderCanonically;
    ReorderKeeps(list, order);
    PermutedListed(md5, index, files, list, ReorderCanonically(list, order));
  }

  lemma PermutedListed(md5: Md5, index: seq<Byte>, files: map<Id, FileInfo>, list: seq<FileInfo>, r: seq<FileInfo>)
    requires FilesListed(md5, index, files, list) && multiset(r) == multiset(list)
    ensures FilesListed(md5, index, files, r)
  {
    hide Described, InfoKey;
    forall i | 0 <= i < |r|
      ensures r[i].id in files && Described(md5, index, r[i])
    {
      var k := PlaceIn(r, list, i);
    }
    forall id | id in files
      ensures ScanFacts.Listed(r, id)
    {
      var k :| 0 <= k < |list| && list[k].id == id;
      var j := PlaceIn(list, r, k);
      assert r[j].id == id;
    }
    DistinctIds(list);
    PermutedKeys(list, r, InfoKey);
    KeysGiveIds(r);
  }

  lemma PlaceIn(from: seq<FileInfo>, list: seq<FileInfo>, i: nat) returns (k: nat)
    requires i < |from| && multiset(from) == multiset(list)
    ensures k < |list| && list[k] == from[i]
  {
    assert from[i] in multiset(list);
    k :| k < |list| && list[k] == from[i];
  }

  lemma KeysGiveIds(r: seq<FileInfo>)
    requires DistinctKeys(r, InfoKey)
    ensures forall i, j :: 0 <= i < j < |r| ==> r[i].id != r[j].id
  {
    hide FromBytes;
    forall i, j | 0 <= i < j < |r|
      ensures r[i].id != r[j].id
    {
      assert InfoKey(r[i]) != InfoKey(r[j]);
    }
  }

  lemma ReorderKeeps(list: seq<FileInfo>, order: seq<Id>)
    ensures multiset(ReorderCanonically(list, order)) == multiset(list)
  {
    SortAscends(list, if order == [] then InfoKey else (info: FileInfo) => RankKey(order, info));
  }

  lemma RefsTogether(file: seq<Byte>, a: seq<RecoveryRef>, b: seq<RecoveryRef>)
    requires RefsSound(file, a) && RefsSound(file, b)
    ensures RefsSound(file, a + b)
  {
    hide LocatesBlock;
  }

  /**
   Par2File::load: the index file, and the other .par2 files of its directory.  Only an empty file is
   refused as empty; the other errors are those of the scan.
   */
  method Load(md5: Md5, index: seq<Byte>, volumes: seq<seq<Byte>>) returns (r: LoadResult)
    ensures r == if index == [] then LoadFailed(EmptyFile) else LoadFrom(index, Scan(md5, index, 0, Start()), volumes)
    ensures var st := Scan(md5, index, 0, Start());
            && (r.Loaded? <==> index != [] && st.setId != ZeroId() && st.blockSize > 0 && st.blockSize % 4 == 0)
            && (r == LoadFailed(EmptyFile) <==> index == [])
            && (r == LoadFailed(NoMainPacket) <==> index != [] && st.setId == ZeroId())
            && (r == LoadFailed(BlockSizeMissing) <==> index != [] && st.setId != ZeroId() && st.blockSize == 0)
            && (r.Loaded? ==> LoadedSound(md5, index, volumes, r.par2, st.setId))
    ensures forall pos: nat :: FirstHeader(index, pos) && SetIdAt(index, pos) != ZeroId() ==>
              Scan(md5, index, 0, Start()).setId == SetIdAt(index, pos)
  {
    hide Scan, VolumeScan, ReorderCanonically, DeferredRefs, ZeroId, Start, LoadedSound;
    LoadedIsSound(md5, index, volumes);
    forall pos: nat | FirstHeader(index, pos) && SetIdAt(index, pos) != ZeroId()
      ensures Scan(md5, index, 0, Start()).setId == SetIdAt(index, pos)
    {
      FirstHeaderTaken(md5, index, pos, 0);
    }
    if index == [] {
      return LoadFailed(EmptyFile);
    }
    var st := ScanLoop(md5, index);
    if st.setId == ZeroId() {
      return LoadFailed(NoMainPacket);
    }
    if st.blockSize == 0 {
      return LoadFailed(BlockSizeMissing);
    }
    if st.blockSize % 4 != 0 {
      return LoadFailed(BlockSizeUnaligned);
    }
    var recoveries := LocatedIn(0, st.recoveries + DeferredRefs(index, st.deferred, st.blockSize));
    ghost var own := recoveries;
    for i := 0 to |volumes|
      invariant recoveries == own + VolumeRefs(volumes, st.setId, st.blockSize, i)
    {
      if SameSet(volumes[i], st.setId) {
        var refs := ParseVolumeFile(volumes[i], st.blockSize);
        recoveries := recoveries + LocatedIn(i + 1, refs);
      }
    }
    return Loaded(Par2File(st.blockSize, st.files, ReorderCanonically(st.filesInOrder, st.mainOrder),
                           recoveries, st.checksums));
  }

  // ----- exponents, whatever the files hold

  predicate Exponents32(refs: seq<RecoveryRef>) {
    forall i :: 0 <= i < |refs| ==> refs[i].exponent < Packets.U32
  }

  lemma {:induction false} ScannedExponents(file: seq<Byte>, blockSize: nat, pos: nat)
    ensures Exponents32(VolumeScan(file, blockSize, pos))
    decreases |file| - pos
  {
    hide TypeOf, FromBytes, Magic, Power256;
    if pos + 64 <= |file| {
      var h := HeaderAt(file, pos);
      var length := HeaderLength(h);
      if h[0..8] != Magic() || length < 64 || length > |file| - pos {
        ScannedExponents(file, blockSize, pos + 1);
      } else {
        ScannedExponents(file, blockSize, Aligned(pos, length));
        if length >= 68 {
          FromBytesBound(file[pos + 64..pos + 68]);
          PowersOf256();
          assert FromBytes(file[pos + 64..pos + 68]) < Packets.U32;
        }
      }
    }
  }

  predicate LocatedBelow(located: seq<Located>, n: nat) {
    forall i :: 0 <= i < |located| ==> located[i].file < n && located[i].ref.exponent < Packets.U32
  }

  lemma {:induction false} VolumesLocated(volumes: seq<seq<Byte>>, setId: Id, blockSize: nat, n: nat)
    requires n <= |volumes|
    ensures LocatedBelow(VolumeRefs(volumes, setId, blockSize, n), |volumes| + 1)
  {
    hide VolumeScan, SameSet;
    if n > 0 {
      VolumesLocated(volumes, setId, blockSize, n - 1);
      ScannedExponents(volumes[n - 1], blockSize, 0);
      var refs := VolumeScan(volumes[n - 1], blockSize, 0);
      assert LocatedBelow(LocatedIn(n, refs), |volumes| + 1);
    }
  }

  // ----- reading the located blocks

  /** The recovery block at a place in a file, as far as the file reaches. */
  function ReadRef(file: seq<Byte>, ref: RecoveryRef): Recovery {
    var end := ref.dataOffset + ref.dataLength;
    Recovery(ref.exponent,
             if end <= |file| then file[ref.dataOffset..end]
             else if ref.dataOffset <= |file| then file[ref.dataOffset..] else [])
  }

  function ReadRefs(file: seq<Byte>, refs: seq<RecoveryRef>): (r: seq<Recovery>)
    ensures |r| == |refs|
  {
    seq(|refs|, i requires 0 <= i < |refs| => ReadRef(file, refs[i]))
  }

  lemma ReadRefsSplit(file: seq<Byte>, a: seq<RecoveryRef>, b: seq<RecoveryRef>)
    ensures ReadRefs(file, a + b) == ReadRefs(file, a) + ReadRefs(file, b)
  {
  }

  lemma {:induction false} DeferredSplit(file: seq<Byte>, a: seq<Deferred>, b: seq<Deferred>, blockSize: nat)
    ensures DeferredRefs(file, a + b, blockSize) == DeferredRefs(file, a, blockSize) + DeferredRefs(file, b, blockSize)
  {
    hide FromBytes;
    if a == [] {
      assert a + b == b;
    } else {
      DeferredSplit(file, a[1..], b, blockSize);
      assert (a + b)[1..] == a[1..] + b;
    }
  }

  // ----- recovery packets of a stream

  function Own(w: Written): seq<Recovery> {
    match w
    case WrittenRecovery(exponent, data) => [Recovery(exponent, data)]
    case _ => []
  }

  /** The recovery blocks in a stream. */
  function Recoveries(segments: seq<Segment>): seq<Recovery> {
    if segments == [] then []
    else Own(segments[0].packet) + Recoveries(segments[1..])
  }

  /** Those before the first Main packet. */
  function Early(segments: seq<Segment>): seq<Recovery> {
    if segments == [] || segments[0].packet.WrittenMain? then []
    else Own(segments[0].packet) + Early(segments[1..])
  }

  function Late(segments: seq<Segment>): seq<Recovery> {
    if segments == [] then []
    else if segments[0].packet.WrittenMain? then Recoveries(segments[1..])
    else Late(segments[1..])
  }

  /** Every recovery block is an early one or a late one. */
  lemma {:induction false} EarlyOrLate(segments: seq<Segment>)
    ensures Early(segments) + Late(segments) == Recoveries(segments)
  {
    if segments != [] {
      EarlyOrLate(segments[1..]);
    }
  }

  /** All Main packets give this block size, and recovery data has it. */
  predicate Consistent(segments: seq<Segment>, blockSize: nat) {
    forall i :: 0 <= i < |segments| ==>
      && (segments[i].packet.WrittenMain? ==> segments[i].packet.blockSize == blockSize)
      && (segments[i].packet.WrittenRecovery? ==> |segments[i].packet.data| == blockSize)
      && Fits(segments[i].packet)
  }

  lemma RecoveryReadBack(md5: Md5, file: seq<Byte>, pre: seq<Byte>, setId: Id, w: Written, post: seq<Byte>)
    requires Fits(w) && w.WrittenRecovery? && file == pre + WrittenPacket(md5, setId, w) + post
    ensures |pre| + 68 + |w.data| <= |file|
    ensures FromBytes(file[|pre| + 64..|pre| + 68]) == w.exponent
    ensures ReadRef(file, RecoveryRef(w.exponent, |pre| + 68, |w.data|)) == Recovery(w.exponent, w.data)
  {
    hide Packet, Pad, ToLittleEndian, FromBytes, Power256, Magic, TypeBytes;
    PowersOf256();
    ReadBack(w.exponent, 4);
    PacketLength(w);
    PacketFields(md5, RecoveryType, setId, WrittenBody(w));
    var p := WrittenPacket(md5, setId, w);
    var body := Pad(WrittenBody(w));
    assert p[64..] == body && body[..|w.data| + 4] == WrittenBody(w);
    assert file[|pre| + 64..|pre| + |p|] == body;
    assert file[|pre| + 64..|pre| + 68] == body[..4] == WrittenBody(w)[..4];
    assert file[|pre| + 68..|pre| + 68 + |w.data|] == body[4..4 + |w.data|] == WrittenBody(w)[4..];
  }

  lemma LateStep(md5: Md5, file: seq<Byte>, at: seq<Byte>, setId: Id, w: Written, post: seq<Byte>, st: State,
                 blockSize: nat)
    requires file == at + WrittenPacket(md5, setId, w) + post && Fits(w)
    requires w.WrittenMain? ==> w.blockSize == blockSize
    requires w.WrittenRecovery? ==> |w.data| == blockSize
    requires st.blockSize == blockSize > 0
    ensures var st' := Taken(st, setId, w, |at|);
            && st'.blockSize == blockSize && st'.deferred == st.deferred
            && ReadRefs(file, st'.recoveries) == ReadRefs(file, st.recoveries) + Own(w)
  {
    hide WrittenPacket, MainOrder, Fits, ZeroId, ReadRef;
    if w.WrittenRecovery? {
      RecoveryReadBack(md5, file, at, setId, w, post);
      var ref := RecoveryRef(w.exponent, |at| + 68, blockSize);
      ReadRefsSplit(file, st.recoveries, [ref]);
      assert ReadRefs(file, [ref]) == [Recovery(w.exponent, w.data)];
    }
  }

  lemma EarlyStep(md5: Md5, file: seq<Byte>, at: seq<Byte>, setId: Id, w: Written, post: seq<Byte>, st: State,
                  blockSize: nat)
    requires file == at + WrittenPacket(md5, setId, w) + post && Fits(w) && !w.WrittenMain?
    requires w.WrittenRecovery? ==> |w.data| == blockSize
    requires st.blockSize == 0
    ensures var st' := Taken(st, setId, w, |at|);
            && st'.blockSize == 0 && st'.recoveries == st.recoveries
            && ReadRefs(file, DeferredRefs(file, st'.deferred, blockSize))
               == ReadRefs(file, DeferredRefs(file, st.deferred, blockSize)) + Own(w)
  {
    hide WrittenPacket, MainOrder, Fits, ZeroId, ReadRef, FromBytes;
    if w.WrittenRecovery? {
      RecoveryReadBack(md5, file, at, setId, w, post);
      var d := Deferred(|at|, 64 + |Pad(RecoveryBody(w.exponent, w.data))|);
      DeferredSplit(file, st.deferred, [d], blockSize);
      var ref := RecoveryRef(w.exponent, |at| + 68, blockSize);
      OneDeferred(file, d, w, blockSize);
      ReadRefsSplit(file, DeferredRefs(file, st.deferred, blockSize), [ref]);
      assert ReadRefs(file, [ref]) == [Recovery(w.exponent, w.data)];
    }
  }

  lemma OneDeferred(file: seq<Byte>, d: Deferred, w: Written, blockSize: nat)
    requires Fits(w) && w.WrittenRecovery? && d.length == 64 + |Pad(RecoveryBody(w.exponent, w.data))|
    requires d.position + 68 <= |file| && FromBytes(file[d.position + 64..d.position + 68]) == w.exponent
    ensures DeferredRefs(file, [d], blockSize) == [RecoveryRef(w.exponent, d.position + 68, blockSize)]
  {
    hide FromBytes, Pad, Fits;
    assert [d][1..] == [];
    PacketLength(w);
  }

  lemma ConsistentTail(segments: seq<Segment>, blockSize: nat)
    requires Consistent(segments, blockSize) && segments != []
    ensures Consistent(segments[1..], blockSize)
    ensures var w := segments[0].packet;
            && Fits(w) && (w.WrittenMain? ==> w.blockSize == blockSize)
               && (w.WrittenRecovery? ==> |w.data| == blockSize)
  {
    hide Fits;
  }

  /** Once the block size is known, recovery packets are located as they come. */
  lemma {:induction false} LateLocated(md5: Md5, file: seq<Byte>, pre: seq<Byte>, setId: Id,
                                       segments: seq<Segment>, tail: seq<Byte>, st: State, blockSize: nat)
    requires file == pre + Stream(md5, setId, segments, tail)
    requires Consistent(segments, blockSize) && st.blockSize == blockSize > 0
    ensures var r := TakenAll(md5, st, setId, segments, |pre|);
            && r.blockSize == blockSize && r.deferred == st.deferred
            && ReadRefs(file, r.recoveries) == ReadRefs(file, st.recoveries) + Recoveries(segments)
    decreases |segments|
  {
    hide WrittenPacket, Taken, Consistent, Fits, ReadRefs, Own;
    if segments != [] {
      ConsistentTail(segments, blockSize);
      var (g, w) := (segments[0].garbage, segments[0].packet);
      var p := WrittenPacket(md5, setId, w);
      var at := pre + g;
      var post := Stream(md5, setId, segments[1..], tail);
      assert file == at + p + post;
      assert file == (at + p) + post;
      LateStep(md5, file, at, setId, w, post, st, blockSize);
      LateLocated(md5, file, at + p, setId, segments[1..], tail, Taken(st, setId, w, |at|), blockSize);
    }
  }

  /** The Main packet makes the block size known. */
  lemma MainStep(setId: Id, w: Written, pos: nat, st: State)
    requires w.WrittenMain?
    ensures var st' := Taken(st, setId, w, pos);
            st'.blockSize == w.blockSize && st'.recoveries == st.recoveries && st'.deferred == st.deferred
  {
  }

  /** Before it is known, they are put off; the Main packet ends that. */
  lemma {:induction false} EarlyDeferred(md5: Md5, file: seq<Byte>, pre: seq<Byte>, setId: Id,
                                         segments: seq<Segment>, tail: seq<Byte>, st: State, blockSize: nat)
    requires file == pre + Stream(md5, setId, segments, tail)
    requires Consistent(segments, blockSize) && blockSize > 0 && st.blockSize == 0 && st.recoveries == []
    requires exists i :: 0 <= i < |segments| && segments[i].packet.WrittenMain?
    ensures var r := TakenAll(md5, st, setId, segments, |pre|);
            && r.blockSize == blockSize
            && ReadRefs(file, r.recoveries) == Late(segments)
            && ReadRefs(file, DeferredRefs(file, r.deferred, blockSize))
               == ReadRefs(file, DeferredRefs(file, st.deferred, blockSize)) + Early(segments)
    decreases |segments|
  {
    hide WrittenPacket, Taken, Consistent, Fits, ReadRefs, Own, DeferredRefs;
    ConsistentTail(segments, blockSize);
    var (g, w) := (segments[0].garbage, segments[0].packet);
    var p := WrittenPacket(md5, setId, w);
    var at := pre + g;
    var post := Stream(md5, setId, segments[1..], tail);
    assert file == at + p + post;
    assert file == (at + p) + post;
    var st' := Taken(st, setId, w, |at|);
    if w.WrittenMain? {
      MainStep(setId, w, |at|, st);
      LateLocated(md5, file, at + p, setId, segments[1..], tail, st', blockSize);
      NothingRead(file);
    } else {
      EarlyStep(md5, file, at, setId, w, post, st, blockSize);
      EarlyDeferred(md5, file, at + p, setId, segments[1..], tail, st', blockSize);
    }
  }

  lemma NothingRead(file: seq<Byte>)
    ensures ReadRefs(file, []) == []
  {
  }

  /**
   Every recovery block of a written stream is located once, with its exponent and data,
   whether it comes before or after the Main packet.
   */
  lemma RecoveriesLoaded(md5: Md5, setId: Id, segments: seq<Segment>, tail: seq<Byte>, blockSize: nat)
    requires Consistent(segments, blockSize) && blockSize > 0
    requires exists i :: 0 <= i < |segments| && segments[i].packet.WrittenMain?
    requires NoMagic(tail) && forall i :: 0 <= i < |segments| ==> NoMagic(segments[i].garbage)
    ensures var file := Stream(md5, setId, segments, tail);
            var st := Scan(md5, file, 0, Start());
            && st.blockSize == blockSize
            && ReadRefs(file, st.recoveries + DeferredRefs(file, st.deferred, st.blockSize))
               == Late(segments) + Early(segments)
  {
    hide Scan, TakenAll, NoMagic, Stream, FromBytes, Fits, ReadRef;
    var file := Stream(md5, setId, segments, tail);
    assert file == [] + file;
    ScanWritten(md5, file, [], setId, segments, tail, Start());
    EarlyDeferred(md5, file, [], setId, segments, tail, Start(), blockSize);
    var st := Scan(md5, file, 0, Start());
    ReadRefsSplit(file, st.recoveries, DeferredRefs(file, st.deferred, st.blockSize));
    assert DeferredRefs(file, [], blockSize) == [];
  }
}
