/**
 The packet scan on arbitrary bytes (src/parser.rs).  `ScanSound`: whatever a file holds, all that
 the scan takes from it stands in a packet of the right type, at the positions of its layout, and,
 recovery packets apart, in one whose MD5 is right.  `ScanMixed`: among packets that were written
 and corrupted ones, exactly the good ones are taken.
 */
module ScanFacts {
  import opened Options
  import opened Bytes
  import opened LittleEndian
  import opened FileIds
  import opened Packets
  import opened Scanner
  import opened Layouts

  // ----- where everything comes from

  ghost predicate Described(md5: Md5, file: seq<Byte>, info: FileInfo) {
    exists pos: nat :: IntactAt(md5, file, pos, FileDescType) && FileDescLayout(BodyAt(file, pos), info)
  }

  ghost predicate Checksummed(md5: Md5, file: seq<Byte>, id: Id, sums: seq<SliceChecksum>) {
    exists pos: nat :: IntactAt(md5, file, pos, IfscType) && IfscLayout(BodyAt(file, pos), id, sums)
  }

  ghost predicate SizeGiven(md5: Md5, file: seq<Byte>, blockSize: nat) {
    exists pos: nat :: IntactAt(md5, file, pos, MainType) && |BodyAt(file, pos)| >= 8
                       && NumberAt(BodyAt(file, pos), 0, 8) == blockSize
  }

  ghost predicate OrderGiven(md5: Md5, file: seq<Byte>, ids: seq<Id>) {
    exists pos: nat :: IntactAt(md5, file, pos, MainType) && ListsIds(BodyAt(file, pos), ids)
  }

  predicate ListsIds(b: seq<Byte>, ids: seq<Id>) {
    && |b| >= 12 && |ids| == Fewer(NumberAt(b, 8, 4), (|b| - 12) / 16)
    && forall i :: 0 <= i < |ids| ==> 28 + 16 * i <= |b| && ids[i] == b[12 + 16 * i..28 + 16 * i]
  }

  /** A recovery block is located by the exponent in its packet, which has room for it, and the data right after it. */
  predicate LocatesBlock(file: seq<Byte>, ref: RecoveryRef) {
    && ref.dataOffset >= 68 && PacketAt(file, ref.dataOffset - 68, RecoveryType) && ref.dataOffset <= |file|
    && NumberAt(file, ref.dataOffset - 60, 8) >= 68
    && ref.exponent == NumberAt(file, ref.dataOffset - 4, 4)
  }

  predicate LocatesPacket(file: seq<Byte>, d: Deferred) {
    PacketAt(file, d.position, RecoveryType) && d.length == NumberAt(file, d.position + 8, 8)
  }

  ghost predicate SetNamed(file: seq<Byte>, setId: Id) {
    exists pos: nat :: pos + 64 <= |file| && file[pos..pos + 8] == MagicBytes() && SetIdAt(file, pos) == setId
  }

  function SetIdAt(file: seq<Byte>, pos: nat): Id
    requires pos + 64 <= |file|
  {
    file[pos + 32..pos + 48]
  }

  ghost predicate FilesSound(md5: Md5, file: seq<Byte>, files: map<Id, FileInfo>) {
    forall id :: id in files ==> files[id].id == id && Described(md5, file, files[id])
  }

  ghost predicate SumsSound(md5: Md5, file: seq<Byte>, sums: map<Id, seq<SliceChecksum>>) {
    forall id :: id in sums ==> Checksummed(md5, file, id, sums[id])
  }

  predicate RefsSound(file: seq<Byte>, refs: seq<RecoveryRef>) {
    forall i :: 0 <= i < |refs| ==> LocatesBlock(file, refs[i])
  }

  predicate DeferredSound(file: seq<Byte>, deferred: seq<Deferred>) {
    forall i :: 0 <= i < |deferred| ==> LocatesPacket(file, deferred[i])
  }

  /** The list of files has each file of the map once. */
  ghost predicate FilesListed(md5: Md5, file: seq<Byte>, files: map<Id, FileInfo>, list: seq<FileInfo>) {
    && (forall i :: 0 <= i < |list| ==> list[i].id in files && Described(md5, file, list[i]))
    && (forall i, j :: 0 <= i < j < |list| ==> list[i].id != list[j].id)
    && (forall id :: id in files ==> Listed(list, id))
  }

  /** Everything in the state stands in the file. */
  ghost predicate Sound(md5: Md5, file: seq<Byte>, st: State) {
    && (st.setId != ZeroId() ==> SetNamed(file, st.setId))
    && (st.blockSize != 0 ==> SizeGiven(md5, file, st.blockSize))
    && (st.mainOrder != [] ==> OrderGiven(md5, file, st.mainOrder))
    && FilesSound(md5, file, st.files) && SumsSound(md5, file, st.checksums)
    && FilesListed(md5, file, st.files, st.filesInOrder)
    && RefsSound(file, st.recoveries) && DeferredSound(file, st.deferred)
  }

  ghost predicate Listed(files: seq<FileInfo>, id: Id) {
    exists i :: 0 <= i < |files| && files[i].id == id
  }

  // ----- one packet

  lemma TypeFound(id: Id, t: PacketType)
    requires TypeOf(id) == t && t != UnknownType
    ensures id == TypeName(t)
  {
    TypeNameBytes(t);
  }

  /** The header that the scan looks at is the one in the file. */
  lemma HeaderParts(file: seq<Byte>, pos: nat)
    requires pos + 64 <= |file|
    ensures var h := HeaderAt(file, pos);
            && h[0..8] == file[pos..pos + 8] && HeaderLength(h) == NumberAt(file, pos + 8, 8)
            && h[16..32] == file[pos + 16..pos + 32] && h[32..48] == file[pos + 32..pos + 48]
            && h[48..64] == file[pos + 48..pos + 64]
  {
    hide FromBytes;
    SliceOfSlice(file, pos, 64, 0, 8);
    SliceOfSlice(file, pos, 64, 8, 16);
    SliceOfSlice(file, pos, 64, 16, 32);
    SliceOfSlice(file, pos, 64, 32, 48);
    SliceOfSlice(file, pos, 64, 48, 64);
  }

  lemma SliceOfSlice(file: seq<Byte>, pos: nat, n: nat, i: nat, j: nat)
    requires pos + n <= |file| && i <= j <= n
    ensures file[pos..pos + n][i..j] == file[pos + i..pos + j]
  {
    var part := file[pos..pos + n];
    assert |part[i..j]| == |file[pos + i..pos + j]|;
    forall k | 0 <= k < j - i
      ensures part[i..j][k] == file[pos + i..pos + j][k]
    {
      assert part[i + k] == file[pos + i + k];
    }
  }

  /** What the scan checks before it applies a packet. */
  lemma CheckedIsIntact(md5: Md5, file: seq<Byte>, pos: nat, t: PacketType)
    requires t != UnknownType && pos + 64 <= |file| && HeaderAt(file, pos)[0..8] == Magic()
    requires 64 <= HeaderLength(HeaderAt(file, pos)) <= |file| - pos && TypeOf(HeaderAt(file, pos)[48..64]) == t
    ensures PacketAt(file, pos, t)
    ensures var (h, n) := (HeaderAt(file, pos), HeaderLength(HeaderAt(file, pos)));
            md5(h[32..48] + h[48..64] + file[pos + 64..pos + n]) == h[16..32] <==> IntactAt(md5, file, pos, t)
  {
    hide FromBytes, TypeOf, TypeName, MagicBytes, Magic;
    HeaderParts(file, pos);
    TypeFound(HeaderAt(file, pos)[48..64], t);
    TypeNameBytes(t);
    var n := HeaderLength(HeaderAt(file, pos));
    assert file[pos + 32..pos + n] == file[pos + 32..pos + 48] + file[pos + 48..pos + 64] + file[pos + 64..pos + n];
  }

  lemma MainSound(md5: Md5, file: seq<Byte>, st: State, pos: nat, b: seq<Byte>)
    requires Sound(md5, file, st) && IntactAt(md5, file, pos, MainType) && b == BodyAt(file, pos)
    ensures Sound(md5, file, Apply(st, MainType, b))
  {
    hide FromBytes, IntactAt, ParseMain, ZeroId, FilesSound, SumsSound, FilesListed, RefsSound, DeferredSound, SetNamed;
    MainParsed(b);
    var st' := Apply(st, MainType, b);
    if ParseMain(b).Some? {
      assert SizeGiven(md5, file, st'.blockSize);
      if st.mainOrder == [] && st'.mainOrder != [] {
        assert ListsIds(b, st'.mainOrder);
        assert OrderGiven(md5, file, st'.mainOrder);
      }
    }
  }

  lemma FileDescSound(md5: Md5, file: seq<Byte>, st: State, pos: nat, b: seq<Byte>)
    requires Sound(md5, file, st) && IntactAt(md5, file, pos, FileDescType) && b == BodyAt(file, pos)
    ensures Sound(md5, file, Apply(st, FileDescType, b))
  {
    hide FromBytes, IntactAt, ParseFileDesc, FileDescLayout, ZeroId, FilesListed, SumsSound, RefsSound, DeferredSound,
         SetNamed, SizeGiven, OrderGiven, FilesSound;
    if ParseFileDesc(b).Some? {
      var info := ParseFileDesc(b).value;
      FileDescParsed(b, info);
      assert Described(md5, file, info);
      FileAdded(md5, file, st, info);
    }
  }

  lemma FileAdded(md5: Md5, file: seq<Byte>, st: State, info: FileInfo)
    requires FilesSound(md5, file, st.files) && FilesListed(md5, file, st.files, st.filesInOrder)
    requires Described(md5, file, info)
    ensures var files := st.files[info.id := info];
            && FilesSound(md5, file, files)
            && FilesListed(md5, file, files,
                           if info.id in st.files then st.filesInOrder else st.filesInOrder + [info])
  {
    hide Described;
    var files := st.files[info.id := info];
    var list := if info.id in st.files then st.filesInOrder else st.filesInOrder + [info];
    forall id | id in files
      ensures Listed(list, id)
    {
      if id in st.files {
        assert Listed(st.filesInOrder, id);
        var i :| 0 <= i < |st.filesInOrder| && st.filesInOrder[i].id == id;
        assert list[i].id == id;
      } else {
        assert list[|st.filesInOrder|].id == id;
      }
    }
  }

  lemma IfscSound(md5: Md5, file: seq<Byte>, st: State, pos: nat, b: seq<Byte>)
    requires Sound(md5, file, st) && IntactAt(md5, file, pos, IfscType) && b == BodyAt(file, pos)
    ensures Sound(md5, file, Apply(st, IfscType, b))
  {
    hide FromBytes, IntactAt, ParseIfsc, IfscLayout, ZeroId, FilesListed, FilesSound, RefsSound, DeferredSound,
         SetNamed, SizeGiven, OrderGiven;
    if ParseIfsc(b).Some? {
      var info := ParseIfsc(b).value;
      IfscParsed(b, info.id, info.checksums);
      assert Checksummed(md5, file, info.id, info.checksums);
    }
  }

  lemma RecoverySound(md5: Md5, file: seq<Byte>, st: State, pos: nat)
    requires Sound(md5, file, st) && PacketAt(file, pos, RecoveryType)
    requires HeaderAt(file, pos)[0..8] == Magic() && TypeOf(HeaderAt(file, pos)[48..64]) == RecoveryType
    requires 64 <= HeaderLength(HeaderAt(file, pos)) <= |file| - pos
    ensures Sound(md5, file, PacketStep(md5, file, pos, st).st)
  {
    hide FromBytes, TypeOf, TypeName, MagicBytes, ZeroId, FilesListed, FilesSound, SumsSound, SetNamed, SizeGiven,
         OrderGiven;
    HeaderParts(file, pos);
  }

  /** Every step keeps the state sound. */
  lemma PacketSound(md5: Md5, file: seq<Byte>, pos: nat, st: State)
    requires pos + 64 <= |file| && HeaderAt(file, pos)[0..8] == Magic()
    requires 64 <= HeaderLength(HeaderAt(file, pos)) <= |file| - pos && Sound(md5, file, st)
    ensures Sound(md5, file, PacketStep(md5, file, pos, st).st)
  {
    hide FromBytes, TypeOf, TypeName, MagicBytes, Magic, Sound, Apply, IntactAt, PacketAt;
    var h := HeaderAt(file, pos);
    var t := TypeOf(h[48..64]);
    if t != UnknownType {
      CheckedIsIntact(md5, file, pos, t);
      HeaderParts(file, pos);
    }
    var b := file[pos + 64..pos + HeaderLength(h)];
    match t
    case RecoveryType => RecoverySound(md5, file, st, pos);
    case MainType => if IntactAt(md5, file, pos, t) { MainSound(md5, file, st, pos, b); }
    case FileDescType => if IntactAt(md5, file, pos, t) { FileDescSound(md5, file, st, pos, b); }
    case IfscType => if IntactAt(md5, file, pos, t) { IfscSound(md5, file, st, pos, b); }
    case CreatorType => NothingApplied(st, t, b);
    case UnknownType => NothingApplied(st, t, b);
  }

  lemma NothingApplied(st: State, t: PacketType, body: seq<Byte>)
    requires t == CreatorType || t == UnknownType
    ensures Apply(st, t, body) == st
  {
  }

  lemma SetIdSound(md5: Md5, file: seq<Byte>, pos: nat, st: State)
    requires pos + 64 <= |file| && HeaderAt(file, pos)[0..8] == Magic() && Sound(md5, file, st)
    ensures Sound(md5, file, st.(setId := HeaderAt(file, pos)[32..48]))
  {
    hide FromBytes, ZeroId, Magic, MagicBytes, FilesListed, FilesSound, SumsSound, RefsSound, DeferredSound, SizeGiven,
         OrderGiven;
    HeaderParts(file, pos);
    TypeNameBytes(MainType);
    assert SetIdAt(file, pos) == HeaderAt(file, pos)[32..48];
  }

  /** The whole scan, of any bytes. */
  lemma {:induction false} ScanSound(md5: Md5, file: seq<Byte>, pos: nat, st: State)
    requires Sound(md5, file, st)
    ensures Sound(md5, file, Scan(md5, file, pos, st))
    decreases |file| - pos
  {
    hide Sound, PacketStep, Magic, HeaderLength, HeaderAt, ZeroId;
    if pos < |file| && NextStep(md5, file, pos, st).Some? {
      var step := NextStep(md5, file, pos, st).value;
      var h := HeaderAt(file, pos);
      if h[0..8] == Magic() {
        var st' := if st.setId == ZeroId() then st.(setId := h[32..48]) else st;
        SetIdSound(md5, file, pos, st);
        var length := HeaderLength(h);
        if 64 <= length <= |file| - pos {
          PacketSound(md5, file, pos, st');
        }
      }
      ScanSound(md5, file, step.next, step.st);
    }
  }

  lemma StartSound(md5: Md5, file: seq<Byte>)
    ensures Sound(md5, file, Start())
  {
  }

  // ----- corrupted packets among good ones

  /** The MD5 of a recovery packet is not looked at: whatever it is, the block is located. */
  lemma RecoveryUnchecked(md5: Md5, file: seq<Byte>, pos: nat, st: State)
    requires PacketAt(file, pos, RecoveryType) && st.setId != ZeroId()
    ensures var n := NumberAt(file, pos + 8, 8);
            var next := pos + (n + 3) / 4 * 4;
            NextStep(md5, file, pos, st)
            == Some(if st.blockSize == 0 then Step(next, st.(deferred := st.deferred + [Deferred(pos, n)]))
                    else if n < 68 then Step(pos + 1, st)
                    else
                      var ref := RecoveryRef(NumberAt(file, pos + 64, 4), pos + 68, st.blockSize);
                      Step(next, st.(recoveries := st.recoveries + [ref])))
  {
    hide FromBytes, TypeOf, TypeName, MagicBytes, Magic, ZeroId;
    HeaderParts(file, pos);
    TypeNameBytes(RecoveryType);
    TypeRoundTrip(RecoveryType);
  }

  /** The set ID is taken from the first header, whatever its packet. */
  function WithSetId(st: State, setId: Id): State {
    if st.setId == ZeroId() then st.(setId := setId) else st
  }

  /** A corrupted packet is passed over as a whole, and nothing but the set ID is taken from it. */
  lemma CorruptSkipped(md5: Md5, file: seq<Byte>, pre: seq<Byte>, p: seq<Byte>, post: seq<Byte>, st: State)
    requires file == pre + p + post && IsCorrupt(md5, p)
    ensures NextStep(md5, file, |pre|, st) == Some(Step(|pre| + |p|, WithSetId(st, p[32..48])))
  {
    hide FromBytes, TypeOf, TypeName, MagicBytes, Magic, Apply, ZeroId;
    var pos := |pre|;
    HeaderParts(file, pos);
    TypeNameBytes(RecoveryType);
    assert file[pos..pos + |p|] == p;
    var h := HeaderAt(file, pos);
    assert h == p[..64];
    assert h[0..8] == p[0..8] && h[8..16] == p[8..16] && h[16..32] == p[16..32];
    assert h[32..48] == p[32..48] && h[48..64] == p[48..64];
    assert p[32..] == h[32..48] + h[48..64] + file[pos + 64..pos + |p|];
    if TypeOf(h[48..64]) == RecoveryType {
      TypeFound(h[48..64], RecoveryType);
    }
  }

  /** A header of what cannot be a packet: an impossible length, or too short for the exponent of a recovery packet. */
  predicate IsBroken(g: seq<Byte>, left: nat, blockSize: nat) {
    && |g| >= 64 && g[0..8] == MagicBytes()
    && (|| NumberAt(g, 8, 8) < 64 || NumberAt(g, 8, 8) > left
        || (NumberAt(g, 8, 8) < 68 && g[48..64] == TypeName(RecoveryType) && blockSize > 0))
  }

  /** Of such a packet, one byte is passed over. */
  lemma BrokenStep(md5: Md5, file: seq<Byte>, pos: nat, h: seq<Byte>, st: State)
    requires pos + 64 <= |file| && h == HeaderAt(file, pos) && IsBroken(h, |file| - pos, st.blockSize)
    ensures NextStep(md5, file, pos, st) == Some(Step(pos + 1, WithSetId(st, h[32..48])))
  {
    hide FromBytes, TypeOf, TypeName, MagicBytes, Magic, Apply, ZeroId, HeaderAt;
    TypeNameBytes(RecoveryType);
    TypeRoundTrip(RecoveryType);
  }

  lemma HeaderOfPiece(file: seq<Byte>, pre: seq<Byte>, g: seq<Byte>, rest: seq<Byte>)
    requires file == pre + g + rest && |g| >= 64
    ensures var h := HeaderAt(file, |pre|);
            && h == g[..64] && h[0..8] == g[0..8] && h[8..16] == g[8..16]
            && h[32..48] == g[32..48] && h[48..64] == g[48..64]
  {
    assert HeaderAt(file, |pre|) == g[..64];
  }

  lemma BrokenHeader(g: seq<Byte>, h: seq<Byte>, left: nat, blockSize: nat)
    requires IsBroken(g, left, blockSize) && |h| == 64
    requires h[0..8] == g[0..8] && h[8..16] == g[8..16] && h[48..64] == g[48..64]
    ensures IsBroken(h, left, blockSize)
  {
    hide FromBytes, TypeName, MagicBytes;
  }

  lemma ScanStep(md5: Md5, file: seq<Byte>, pos: nat, st: State, step: Step)
    requires pos < |file| && NextStep(md5, file, pos, st) == Some(step)
    ensures Scan(md5, file, pos, st) == Scan(md5, file, step.next, step.st)
  {
    hide NextStep;
  }

  lemma BrokenFirst(md5: Md5, file: seq<Byte>, pre: seq<Byte>, g: seq<Byte>, rest: seq<Byte>, st: State)
    requires file == pre + g + rest && IsBroken(g, |g| + |rest|, st.blockSize)
    ensures Scan(md5, file, |pre|, st) == Scan(md5, file, |pre| + 1, WithSetId(st, g[32..48]))
  {
    hide NextStep, WithSetId, Scan, NumberAt, HeaderAt;
    var h := HeaderAt(file, |pre|);
    HeaderOfPiece(file, pre, g, rest);
    BrokenHeader(g, h, |g| + |rest|, st.blockSize);
    BrokenStep(md5, file, |pre|, h, st);
    ScanStep(md5, file, |pre|, st, Step(|pre| + 1, WithSetId(st, h[32..48])));
  }

  lemma RestSkipped(md5: Md5, file: seq<Byte>, pre: seq<Byte>, g: seq<Byte>, rest: seq<Byte>, st: State)
    requires file == pre + g + rest && g != [] && NoMagic(g[1..])
    requires rest == [] || (|rest| >= 64 && rest[..8] == MagicBytes())
    ensures Scan(md5, file, |pre| + 1, st) == Scan(md5, file, |pre| + |g|, st)
  {
    hide MagicBytes, Magic, NoMagic, Scan;
    TypeNameBytes(RecoveryType);
    FirstMoves(pre, g, rest);
    GarbageSkipped(md5, file, pre + [g[0]], g[1..], rest, st);
  }

  /** Such a packet is passed over byte by byte, so that the next packet is found. */
  lemma BrokenSkipped(md5: Md5, file: seq<Byte>, pre: seq<Byte>, g: seq<Byte>, rest: seq<Byte>, st: State)
    requires file == pre + g + rest && IsBroken(g, |g| + |rest|, st.blockSize) && NoMagic(g[1..])
    requires rest == [] || (|rest| >= 64 && rest[..8] == MagicBytes())
    ensures Scan(md5, file, |pre|, st) == Scan(md5, file, |pre| + |g|, WithSetId(st, g[32..48]))
  {
    hide MagicBytes, NoMagic, Scan, WithSetId, NumberAt;
    BrokenFirst(md5, file, pre, g, rest, st);
    RestSkipped(md5, file, pre, g, rest, WithSetId(st, g[32..48]));
  }

  datatype Item = Good(w: Written) | Corrupt(bytes: seq<Byte>)

  /** A packet, good or corrupted, after some other bytes. */
  datatype Piece = Piece(garbage: seq<Byte>, item: Item)

  function ItemBytes(md5: Md5, setId: Id, item: Item): seq<Byte> {
    match item
    case Good(w) => WrittenPacket(md5, setId, w)
    case Corrupt(bytes) => bytes
  }

  predicate ItemFits(md5: Md5, item: Item) {
    match item
    case Good(w) => Fits(w)
    case Corrupt(bytes) => IsCorrupt(md5, bytes)
  }

  function MixedStream(md5: Md5, setId: Id, pieces: seq<Piece>, tail: seq<Byte>): seq<Byte> {
    if pieces == [] then tail
    else pieces[0].garbage + ItemBytes(md5, setId, pieces[0].item) + MixedStream(md5, setId, pieces[1..], tail)
  }

  function ItemTaken(st: State, setId: Id, item: Item, pos: nat): State {
    match item
    case Good(w) => Taken(st, setId, w, pos)
    case Corrupt(bytes) => if |bytes| >= 48 then WithSetId(st, bytes[32..48]) else st
  }

  function MixedTaken(md5: Md5, st: State, setId: Id, pieces: seq<Piece>, pos: nat): State
    decreases |pieces|
  {
    if pieces == [] then st
    else
      var at := pos + |pieces[0].garbage|;
      MixedTaken(md5, ItemTaken(st, setId, pieces[0].item, at), setId, pieces[1..],
                 at + |ItemBytes(md5, setId, pieces[0].item)|)
  }

  lemma ItemScanned(md5: Md5, file: seq<Byte>, pre: seq<Byte>, setId: Id, item: Item, post: seq<Byte>, st: State)
    requires ItemFits(md5, item) && file == pre + ItemBytes(md5, setId, item) + post
    ensures var p := ItemBytes(md5, setId, item);
            && |p| >= 64 && p[..8] == Magic()
            && NextStep(md5, file, |pre|, st) == Some(Step(|pre| + |p|, ItemTaken(st, setId, item, |pre|)))
  {
    hide NextStep, WrittenPacket, Taken, Fits, FromBytes, TypeName, WithSetId;
    match item
    case Good(w) =>
      PacketScanned(md5, file, pre, setId, w, post, st);
      StartsWithMagic(md5, setId, w);
    case Corrupt(bytes) =>
      CorruptSkipped(md5, file, pre, bytes, post, st);
      assert bytes[..8] == bytes[0..8];
  }

  /** The scan visits the packets, good and corrupted, and takes the good ones. */
  lemma {:induction false} ScanMixed(md5: Md5, file: seq<Byte>, pre: seq<Byte>, setId: Id, pieces: seq<Piece>,
                                     tail: seq<Byte>, st: State)
    requires file == pre + MixedStream(md5, setId, pieces, tail) && NoMagic(tail)
    requires forall i :: 0 <= i < |pieces| ==> ItemFits(md5, pieces[i].item) && NoMagic(pieces[i].garbage)
    ensures Scan(md5, file, |pre|, st) == MixedTaken(md5, st, setId, pieces, |pre|)
    decreases |pieces|
  {
    hide NoMagic, NextStep, ItemBytes, ItemTaken, ItemFits, Magic;
    if pieces == [] {
      assert file == pre + tail + [];
      GarbageSkipped(md5, file, pre, tail, [], st);
    } else {
      var (g, item) := (pieces[0].garbage, pieces[0].item);
      var p := ItemBytes(md5, setId, item);
      var post := MixedStream(md5, setId, pieces[1..], tail);
      var pre' := pre + g;
      assert file == pre + g + (p + post);
      assert file == pre' + p + post;
      ItemScanned(md5, file, pre', setId, item, post, st);
      assert (p + post)[..8] == p[..8];
      GarbageSkipped(md5, file, pre, g, p + post, st);
      assert file == (pre' + p) + post;
      ScanMixed(md5, file, pre' + p, setId, pieces[1..], tail, ItemTaken(st, setId, item, |pre'|));
    }
  }

  // ----- exactly the good ones

  function GoodOnes(pieces: seq<Piece>): seq<Segment> {
    if pieces == [] then []
    else (if pieces[0].item.Good? then [Segment(pieces[0].garbage, pieces[0].item.w)] else []) + GoodOnes(pieces[1..])
  }

  /** The same metadata, and as many recovery blocks with the same exponents. */
  predicate SameTaken(a: State, b: State) {
    && a.blockSize == b.blockSize && a.files == b.files && a.filesInOrder == b.filesInOrder
    && a.checksums == b.checksums && a.mainOrder == b.mainOrder
    && |a.deferred| == |b.deferred| && |a.recoveries| == |b.recoveries|
    && forall i :: 0 <= i < |a.recoveries| ==> a.recoveries[i].exponent == b.recoveries[i].exponent
  }

  lemma TakenSame(a: State, b: State, setId: Id, w: Written, pos: nat, pos': nat)
    requires SameTaken(a, b)
    ensures SameTaken(Taken(a, setId, w, pos), Taken(b, setId, w, pos'))
  {
    hide MainOrder, ZeroId, Pad, RecoveryBody;
    match w
    case WrittenRecovery(exponent, data) =>
    case _ =>
  }

  lemma CorruptSame(a: State, b: State, setId: Id)
    requires SameTaken(a, b)
    ensures SameTaken(WithSetId(a, setId), b)
  {
    hide ZeroId;
  }

  /** What is taken is what the good packets alone would give. */
  lemma {:induction false} GoodOnesTaken(md5: Md5, a: State, b: State, setId: Id, pieces: seq<Piece>, pos: nat,
                                         pos': nat)
    requires SameTaken(a, b)
    ensures SameTaken(MixedTaken(md5, a, setId, pieces, pos), TakenAll(md5, b, setId, GoodOnes(pieces), pos'))
    decreases |pieces|
  {
    hide Taken, WithSetId, SameTaken, WrittenPacket;
    if pieces != [] {
      var (g, item) := (pieces[0].garbage, pieces[0].item);
      var at := pos + |g|;
      var next := at + |ItemBytes(md5, setId, item)|;
      match item
      case Good(w) =>
        var good := Segment(g, w);
        assert GoodOnes(pieces)[1..] == GoodOnes(pieces[1..]);
        TakenSame(a, b, setId, w, at, pos' + |g|);
        GoodOnesTaken(md5, Taken(a, setId, w, at), Taken(b, setId, w, pos' + |g|), setId, pieces[1..], next,
                      pos' + |g| + |WrittenPacket(md5, setId, w)|);
      case Corrupt(bytes) =>
        if |bytes| >= 48 {
          CorruptSame(a, b, bytes[32..48]);
        }
        assert GoodOnes(pieces) == GoodOnes(pieces[1..]);
        GoodOnesTaken(md5, ItemTaken(a, setId, item, at), b, setId, pieces[1..], next, pos');
    }
  }

  // ----- packets that repeat

  /** What the last file description with this ID says. */
  function LastDescription(segments: seq<Segment>, id: Id): Option<FileInfo> {
    if segments == [] then None
    else
      match LastDescription(segments[1..], id)
      case Some(info) => Some(info)
      case None =>
        var w := segments[0].packet;
        if w.WrittenFileDesc? && w.info.id == id then Some(w.info) else None
  }

  /** What the last checksum packet with this ID says. */
  function LastChecksums(segments: seq<Segment>, id: Id): Option<seq<SliceChecksum>> {
    if segments == [] then None
    else
      match LastChecksums(segments[1..], id)
      case Some(sums) => Some(sums)
      case None =>
        var w := segments[0].packet;
        if w.WrittenIfsc? && w.id == id then Some(w.checksums) else None
  }

  /** The block size in the last Main packet. */
  function LastBlockSize(segments: seq<Segment>): Option<nat> {
    if segments == [] then None
    else
      match LastBlockSize(segments[1..])
      case Some(n) => Some(n)
      case None =>
        var w := segments[0].packet;
        if w.WrittenMain? then Some(w.blockSize) else None
  }

  /** The list of the first Main packet that has one. */
  function FirstOrder(segments: seq<Segment>): seq<Id> {
    if segments == [] then []
    else
      var w := segments[0].packet;
      if w.WrittenMain? && w.ids != [] then MainOrder(w.ids) else FirstOrder(segments[1..])
  }

  /** The first description of each file that is not known yet. */
  function FirstDescriptions(segments: seq<Segment>, known: set<Id>): seq<FileInfo> {
    if segments == [] then []
    else
      var w := segments[0].packet;
      if w.WrittenFileDesc? && w.info.id !in known then
        [w.info] + FirstDescriptions(segments[1..], known + {w.info.id})
      else FirstDescriptions(segments[1..], known)
  }

  lemma OrderTaken(ids: seq<Id>)
    ensures MainOrder(ids) == [] <==> ids == []
  {
    SortedCount(ids);
  }

  lemma DescriptionTaken(st: State, setId: Id, w: Written, at: nat)
    ensures var st' := Taken(st, setId, w, at);
            if w.WrittenFileDesc? then
              && st'.files == st.files[w.info.id := w.info] && st'.files.Keys == st.files.Keys + {w.info.id}
              && st'.filesInOrder == st.filesInOrder + (if w.info.id in st.files then [] else [w.info])
              && (w.info.id in st.files ==> st'.files.Keys == st.files.Keys)
            else st'.files == st.files && st'.filesInOrder == st.filesInOrder
  {
    hide MainOrder, ZeroId, Pad;
  }

  lemma MetadataStep(st: State, setId: Id, w: Written, at: nat)
    ensures var st' := Taken(st, setId, w, at);
            && st'.mainOrder == (if st.mainOrder == [] && w.WrittenMain? && w.ids != [] then MainOrder(w.ids)
                                 else st.mainOrder)
            && st'.blockSize == (if w.WrittenMain? then w.blockSize else st.blockSize)
            && st'.checksums == if w.WrittenIfsc? then st.checksums[w.id := w.checksums] else st.checksums
  {
    hide MainOrder, ZeroId, Pad;
    if w.WrittenMain? {
      OrderTaken(w.ids);
    }
  }

  /** Of a file described more than once, the map has the last description and the list the first. */
  lemma {:induction false} RepeatedDescriptions(md5: Md5, st: State, setId: Id, segments: seq<Segment>, pos: nat,
                                                id: Id)
    ensures var r := TakenAll(md5, st, setId, segments, pos);
            && r.filesInOrder == st.filesInOrder + FirstDescriptions(segments, st.files.Keys)
            && match LastDescription(segments, id)
               case Some(info) => id in r.files && r.files[id] == info
               case None => (id in r.files <==> id in st.files) && (id in st.files ==> r.files[id] == st.files[id])
    decreases |segments|
  {
    hide WrittenPacket, Taken;
    if segments != [] {
      var w := segments[0].packet;
      var at := pos + |segments[0].garbage|;
      DescriptionTaken(st, setId, w, at);
      RepeatedDescriptions(md5, Taken(st, setId, w, at), setId, segments[1..], at + |WrittenPacket(md5, setId, w)|, id);
    }
  }

  /** The last checksums of a file and the last block size count, and the first list of files. */
  lemma {:induction false} RepeatedMetadata(md5: Md5, st: State, setId: Id, segments: seq<Segment>, pos: nat, id: Id)
    ensures var r := TakenAll(md5, st, setId, segments, pos);
            && r.mainOrder == (if st.mainOrder != [] then st.mainOrder else FirstOrder(segments))
            && r.blockSize == (match LastBlockSize(segments) case Some(n) => n case None => st.blockSize)
            && match LastChecksums(segments, id)
               case Some(sums) => id in r.checksums && r.checksums[id] == sums
               case None =>
                 (id in r.checksums <==> id in st.checksums)
                 && (id in st.checksums ==> r.checksums[id] == st.checksums[id])
    decreases |segments|
  {
    hide WrittenPacket, Taken, MainOrder;
    if segments != [] {
      var w := segments[0].packet;
      var at := pos + |segments[0].garbage|;
      MetadataStep(st, setId, w, at);
      if w.WrittenMain? {
        OrderTaken(w.ids);
      }
      RepeatedMetadata(md5, Taken(st, setId, w, at), setId, segments[1..], at + |WrittenPacket(md5, setId, w)|, id);
    }
  }
}
