/** Loading what was created: the round trip of whole archives. */
module Loading {
  import opened Options
  import opened Bytes
  import opened LittleEndian
  import opened FileIds
  import opened Packets
  import opened Scanner
  import opened Layouts
  import opened Archive
  import opened Creation
  import opened Encoding

  // ----- a volume, scanned for recovery packets only

  lemma VolumeStep(md5: Md5, file: seq<Byte>, pre: seq<Byte>, setId: Id, w: Written, post: seq<Byte>, blockSize: nat)
    requires file == pre + WrittenPacket(md5, setId, w) + post && Fits(w)
    ensures var rest := VolumeScan(file, blockSize, |pre| + |WrittenPacket(md5, setId, w)|);
            VolumeScan(file, blockSize, |pre|)
            == if w.WrittenRecovery? then [RecoveryRef(w.exponent, |pre| + 68, blockSize)] + rest else rest
  {
    hide Packet, Pad, WrittenBody, WrittenType, TypeBytes, TypeOf, Magic, FromBytes;
    var p := WrittenPacket(md5, setId, w);
    PacketLength(w);
    PacketFields(md5, WrittenType(w), setId, WrittenBody(w));
    TypeRoundTrip(WrittenType(w));
    var h := HeaderAt(file, |pre|);
    assert h == p[..64];
    assert h[0..8] == p[0..8] && h[8..16] == p[8..16] && h[48..64] == p[48..64];
    assert Aligned(|pre|, |p|) == |pre| + |p|;
    if w.WrittenRecovery? {
      RecoveryReadBack(md5, file, pre, setId, w, post);
      RecoveryTypeOf(w);
    } else {
      OtherType(w);
    }
  }

  lemma RecoveryTypeOf(w: Written)
    requires w.WrittenRecovery?
    ensures WrittenType(w) == RecoveryType
  {
  }

  lemma VolumeStepOver(file: seq<Byte>, pos: nat, blockSize: nat)
    requires pos + 64 <= |file| && file[pos..pos + 8] != Magic()
    ensures VolumeScan(file, blockSize, pos) == VolumeScan(file, blockSize, pos + 1)
  {
    hide Magic, FromBytes, TypeOf;
    assert HeaderAt(file, pos)[0..8] == file[pos..pos + 8];
  }

  lemma VolumeEnd(file: seq<Byte>, pos: nat, blockSize: nat)
    requires pos + 64 > |file|
    ensures VolumeScan(file, blockSize, pos) == []
  {
  }

  lemma {:induction false} VolumeGarbage(file: seq<Byte>, pre: seq<Byte>, g: seq<Byte>, rest: seq<Byte>, blockSize: nat)
    requires file == pre + g + rest && NoMagic(g)
    requires rest == [] || (|rest| >= 64 && rest[..8] == Magic())
    ensures VolumeScan(file, blockSize, |pre|) == VolumeScan(file, blockSize, |pre| + |g|)
    decreases |g|
  {
    hide Magic, NoMagic, VolumeScan;
    if g != [] {
      if |pre| + 64 > |file| {
        VolumeEnd(file, |pre|, blockSize);
        VolumeEnd(file, |pre| + |g|, blockSize);
      } else {
        NotMagicHere(g, rest);
        assert file[|pre|..|pre| + 8] == (g + rest)[0..8];
        VolumeStepOver(file, |pre|, blockSize);
        NoMagicTail(g);
        FirstMoves(pre, g, rest);
        VolumeGarbage(file, pre + [g[0]], g[1..], rest, blockSize);
      }
    }
  }

  /** A volume's scan locates every recovery block of the stream. */
  lemma {:induction false} VolumeScanWritten(md5: Md5, file: seq<Byte>, pre: seq<Byte>, setId: Id,
                                             segments: seq<Segment>, tail: seq<Byte>, blockSize: nat)
    requires file == pre + Stream(md5, setId, segments, tail) && Consistent(segments, blockSize)
    requires NoMagic(tail) && forall i :: 0 <= i < |segments| ==> NoMagic(segments[i].garbage)
    ensures ReadRefs(file, VolumeScan(file, blockSize, |pre|)) == Recoveries(segments)
    decreases |segments|
  {
    hide NoMagic, VolumeScan, WrittenPacket, Fits, Magic, Consistent, ReadRef;
    if segments == [] {
      assert file == pre + tail + [];
      VolumeGarbage(file, pre, tail, [], blockSize);
      VolumeEnd(file, |file|, blockSize);
    } else {
      ConsistentTail(segments, blockSize);
      var (g, w) := (segments[0].garbage, segments[0].packet);
      var p := WrittenPacket(md5, setId, w);
      var post := Stream(md5, setId, segments[1..], tail);
      var rest := p + post;
      assert file == pre + g + rest;
      StartsWithMagic(md5, setId, w);
      assert rest[..8] == p[..8];
      VolumeGarbage(file, pre, g, rest, blockSize);
      var at := pre + g;
      assert file == at + p + post;
      VolumeStep(md5, file, at, setId, w, post, blockSize);
      assert file == (at + p) + post;
      VolumeScanWritten(md5, file, at + p, setId, segments[1..], tail, blockSize);
      if w.WrittenRecovery? {
        RecoveryReadBack(md5, file, at, setId, w, post);
        var ref := RecoveryRef(w.exponent, |at| + 68, blockSize);
        ReadRefsSplit(file, [ref], VolumeScan(file, blockSize, |at + p|));
        assert ReadRefs(file, [ref]) == [Recovery(w.exponent, w.data)];
      }
    }
  }

  // ----- the metadata of an archive

  lemma {:induction false} TakenAllSplit(md5: Md5, st: State, setId: Id, a: seq<Segment>, b: seq<Segment>, pos: nat)
    ensures TakenAll(md5, st, setId, a + b, pos)
         == TakenAll(md5, TakenAll(md5, st, setId, a, pos), setId, b, pos + |Stream(md5, setId, a, [])|)
    decreases |a|
  {
    hide Taken, WrittenPacket;
    if a == [] {
      assert a + b == b;
    } else {
      var at := pos + |a[0].garbage|;
      var end := at + |WrittenPacket(md5, setId, a[0].packet)|;
      assert (a + b)[1..] == a[1..] + b;
      TakenAllSplit(md5, Taken(st, setId, a[0].packet, at), setId, a[1..], b, end);
    }
  }

  predicate DistinctInfos(infos: seq<FileInfo>) {
    forall i, j :: 0 <= i < j < |infos| ==> infos[i].id != infos[j].id
  }

  function InfoMap(infos: seq<FileInfo>): map<Id, FileInfo> {
    if infos == [] then map[] else map[infos[0].id := infos[0]] + InfoMap(infos[1..])
  }

  /** The checksums that were written. */
  function ChecksumMap(infos: seq<FileInfo>, sums: map<Id, seq<SliceChecksum>>): map<Id, seq<SliceChecksum>> {
    if infos == [] then map[]
    else
      (if infos[0].id in sums then map[infos[0].id := sums[infos[0].id]] else map[]) + ChecksumMap(infos[1..], sums)
  }

  /** Each listed file is found under its ID, with its checksums if it has any. */
  lemma {:induction false} MapsFind(infos: seq<FileInfo>, sums: map<Id, seq<SliceChecksum>>, i: nat)
    requires i < |infos| && DistinctInfos(infos)
    ensures infos[i].id in InfoMap(infos) && InfoMap(infos)[infos[i].id] == infos[i]
    ensures infos[i].id in ChecksumMap(infos, sums) <==> infos[i].id in sums
    ensures infos[i].id in sums ==> ChecksumMap(infos, sums)[infos[i].id] == sums[infos[i].id]
  {
    if i > 0 {
      MapsFind(infos[1..], sums, i - 1);
    } else {
      NotInRest(infos[1..], sums, infos[0].id);
    }
  }

  lemma {:induction false} NotInRest(infos: seq<FileInfo>, sums: map<Id, seq<SliceChecksum>>, id: Id)
    requires forall i :: 0 <= i < |infos| ==> infos[i].id != id
    ensures id !in InfoMap(infos) && id !in ChecksumMap(infos, sums)
  {
    if infos != [] {
      NotInRest(infos[1..], sums, id);
    }
  }

  lemma TakenAllCons(md5: Md5, st: State, setId: Id, w: Written, rest: seq<Segment>, pos: nat)
    ensures TakenAll(md5, st, setId, [Plain(w)] + rest, pos)
         == TakenAll(md5, Taken(st, setId, w, pos), setId, rest, pos + |WrittenPacket(md5, setId, w)|)
  {
    hide Taken, WrittenPacket;
    assert ([Plain(w)] + rest)[1..] == rest;
  }

  lemma TakenNone(md5: Md5, st: State, setId: Id, pos: nat)
    ensures TakenAll(md5, st, setId, [], pos) == st
  {
  }

  lemma DescriptionTaken(st: State, setId: Id, info: FileInfo, pos: nat)
    requires setId == st.setId != ZeroId() && info.id !in st.files
    ensures Taken(st, setId, WrittenFileDesc(info), pos)
         == st.(files := st.files + map[info.id := info], filesInOrder := st.filesInOrder + [info])
  {
    hide ZeroId;
    assert st.files[info.id := info] == st.files + map[info.id := info];
  }

  lemma MapAssoc<K, V>(a: map<K, V>, b: map<K, V>, c: map<K, V>)
    ensures (a + b) + c == a + (b + c) && a + map[] == a
  {
  }

  lemma DescriptionsCons(infos: seq<FileInfo>, files: map<Id, FileInfo>) returns (info: FileInfo, rest: seq<FileInfo>)
    requires infos != [] && DistinctInfos(infos) && forall i :: 0 <= i < |infos| ==> infos[i].id !in files
    ensures infos == [info] + rest && |rest| < |infos| && info.id !in files
    ensures Descriptions(infos) == [Plain(WrittenFileDesc(info))] + Descriptions(rest)
    ensures InfoMap(infos) == map[info.id := info] + InfoMap(rest)
    ensures DistinctInfos(rest) && forall i :: 0 <= i < |rest| ==> rest[i].id !in files + map[info.id := info]
  {
    info, rest := infos[0], infos[1..];
    forall i | 0 <= i < |rest|
      ensures rest[i].id !in files + map[info.id := info]
    {
      assert rest[i] == infos[i + 1];
    }
  }

  lemma {:induction false} DescriptionsTaken(md5: Md5, st: State, setId: Id, infos: seq<FileInfo>, pos: nat)
    requires setId == st.setId != ZeroId()
    requires DistinctInfos(infos) && forall i :: 0 <= i < |infos| ==> infos[i].id !in st.files
    ensures TakenAll(md5, st, setId, Descriptions(infos), pos)
         == st.(files := st.files + InfoMap(infos), filesInOrder := st.filesInOrder + infos)
    decreases |infos|
  {
    hide WrittenPacket, ZeroId, Taken, TakenAll, Descriptions, DistinctInfos, InfoMap;
    if infos == [] {
      NoDescriptions(md5, st, setId, pos);
    } else {
      var info, rest := DescriptionsCons(infos, st.files);
      TakenAllCons(md5, st, setId, WrittenFileDesc(info), Descriptions(rest), pos);
      DescriptionTaken(st, setId, info, pos);
      var st' := st.(files := st.files + map[info.id := info], filesInOrder := st.filesInOrder + [info]);
      DescriptionsTaken(md5, st', setId, rest, pos + |WrittenPacket(md5, setId, WrittenFileDesc(info))|);
      MapAssoc(st.files, map[info.id := info], InfoMap(rest));
    }
  }

  lemma NoDescriptions(md5: Md5, st: State, setId: Id, pos: nat)
    ensures TakenAll(md5, st, setId, Descriptions([]), pos)
         == st.(files := st.files + InfoMap([]), filesInOrder := st.filesInOrder + [])
  {
    MapAssoc(st.files, map[], map[]);
    assert Descriptions([]) == [];
  }

  lemma IfscTaken(st: State, setId: Id, id: Id, sums: seq<SliceChecksum>, pos: nat)
    requires setId == st.setId != ZeroId()
    ensures Taken(st, setId, WrittenIfsc(id, sums), pos) == st.(checksums := st.checksums + map[id := sums])
  {
    hide ZeroId;
    assert st.checksums[id := sums] == st.checksums + map[id := sums];
  }

  lemma {:induction false} ChecksumsTaken(md5: Md5, st: State, setId: Id, infos: seq<FileInfo>,
                                          sums: map<Id, seq<SliceChecksum>>, pos: nat)
    requires setId == st.setId != ZeroId()
    ensures TakenAll(md5, st, setId, ChecksumPackets(infos, sums), pos)
         == st.(checksums := st.checksums + ChecksumMap(infos, sums))
    decreases |infos|
  {
    hide WrittenPacket, ZeroId, Taken, TakenAll;
    MapAssoc(st.checksums, map[], map[]);
    if infos == [] {
      TakenNone(md5, st, setId, pos);
    } else {
      var (id, rest) := (infos[0].id, infos[1..]);
      if id in sums {
        var w := WrittenIfsc(id, sums[id]);
        TakenAllCons(md5, st, setId, w, ChecksumPackets(rest, sums), pos);
        IfscTaken(st, setId, id, sums[id], pos);
        var st' := st.(checksums := st.checksums + map[id := sums[id]]);
        ChecksumsTaken(md5, st', setId, rest, sums, pos + |WrittenPacket(md5, setId, w)|);
        MapAssoc(st.checksums, map[id := sums[id]], ChecksumMap(rest, sums));
      } else {
        ChecksumsTaken(md5, st, setId, rest, sums, pos);
        assert ChecksumPackets(infos, sums) == ChecksumPackets(rest, sums);
        MapAssoc(st.checksums, map[], ChecksumMap(rest, sums));
      }
    }
  }

  lemma {:induction false} RecoveriesTaken(md5: Md5, st: State, setId: Id, recoveries: seq<Recovery>, pos: nat)
    requires setId == st.setId != ZeroId() && st.blockSize > 0
    ensures var r := TakenAll(md5, st, setId, RecoveryPackets(recoveries), pos);
            r == st.(recoveries := r.recoveries)
    decreases |recoveries|
  {
    hide WrittenPacket, ZeroId;
    if recoveries != [] {
      var rs := RecoveryPackets(recoveries);
      assert rs[1..] == RecoveryPackets(recoveries[1..]);
      var st' := Taken(st, setId, rs[0].packet, pos);
      RecoveriesTaken(md5, st', setId, recoveries[1..], pos + |WrittenPacket(md5, setId, rs[0].packet)|);
    }
  }

  // ----- whole files

  /** Everything that is written fits its field. */
  predicate MetadataFits(m: Metadata) {
    && 0 < m.blockSize < U64 - 128 && m.blockSize % 4 == 0
    && |m.creator| < U32 && |m.infos| < U32
    && (forall i :: 0 <= i < |m.infos| ==> Fits(WrittenFileDesc(m.infos[i])))
    && (forall id :: id in m.checksums ==> Fits(WrittenIfsc(id, m.checksums[id])))
    && DistinctInfos(m.infos)
  }

  predicate RecoveriesFit(m: Metadata, recoveries: seq<Recovery>) {
    forall i :: 0 <= i < |recoveries| ==> recoveries[i].exponent < U32 && |recoveries[i].data| == m.blockSize
  }

  lemma NoRecoveries()
    ensures Recoveries([]) == []
  {
  }

  lemma RecoveriesStep(a: seq<Segment>)
    requires a != []
    ensures Recoveries(a) == Own(a[0].packet) + Recoveries(a[1..])
  {
  }

  lemma {:induction false} RecoveriesSplit(a: seq<Segment>, b: seq<Segment>)
    ensures Recoveries(a + b) == Recoveries(a) + Recoveries(b)
  {
    hide Own, Recoveries;
    NoRecoveries();
    if a == [] {
      assert a + b == b;
    } else {
      RecoveriesSplit(a[1..], b);
      RecoveriesStep(a);
      RecoveriesStep(a + b);
      assert (a + b)[1..] == a[1..] + b;
      Associative(Own(a[0].packet), Recoveries(a[1..]), Recoveries(b));
    }
  }

  lemma {:induction false} RecoveriesOfDescriptions(infos: seq<FileInfo>)
    ensures Recoveries(Descriptions(infos)) == []
  {
    if infos != [] {
      RecoveriesOfDescriptions(infos[1..]);
      assert Descriptions(infos)[1..] == Descriptions(infos[1..]);
    }
  }

  lemma {:induction false} RecoveriesOfPackets(recoveries: seq<Recovery>)
    ensures Recoveries(RecoveryPackets(recoveries)) == recoveries
  {
    if recoveries != [] {
      RecoveriesOfPackets(recoveries[1..]);
      assert RecoveryPackets(recoveries)[1..] == RecoveryPackets(recoveries[1..]);
      assert recoveries == [recoveries[0]] + recoveries[1..];
    }
  }

  lemma RecoveriesOfOne(w: Written)
    ensures Recoveries([Plain(w)]) == Own(w)
  {
    assert [Plain(w)][1..] == [];
  }

  lemma {:induction false} ChecksumPacketsFit(infos: seq<FileInfo>, sums: map<Id, seq<SliceChecksum>>, blockSize: nat)
    requires forall id :: id in sums ==> Fits(WrittenIfsc(id, sums[id]))
    ensures PlainPackets(ChecksumPackets(infos, sums), blockSize)
    ensures Recoveries(ChecksumPackets(infos, sums)) == []
  {
    hide Recoveries, Fits;
    if infos == [] {
      RecoveriesOfNone();
    } else {
      ChecksumPacketsFit(infos[1..], sums, blockSize);
      if infos[0].id in sums {
        var w := WrittenIfsc(infos[0].id, sums[infos[0].id]);
        RecoveriesOfOne(w);
        RecoveriesSplit([Plain(w)], ChecksumPackets(infos[1..], sums));
      } else {
        assert ChecksumPackets(infos, sums) == ChecksumPackets(infos[1..], sums);
      }
    }
  }

  lemma RecoveriesOfNone()
    ensures Recoveries([]) == []
  {
  }

  /** Consistent packets without other bytes in between. */
  predicate PlainPackets(segments: seq<Segment>, blockSize: nat) {
    Consistent(segments, blockSize) && forall i :: 0 <= i < |segments| ==> segments[i].garbage == []
  }

  lemma PlainSplit(a: seq<Segment>, b: seq<Segment>, blockSize: nat)
    requires PlainPackets(a, blockSize) && PlainPackets(b, blockSize)
    ensures PlainPackets(a + b, blockSize)
  {
    hide Fits;
    forall i | 0 <= i < |a + b|
      ensures (a + b)[i] == if i < |a| then a[i] else b[i - |a|]
    {
    }
  }

  lemma PlainParts(m: Metadata, recoveries: seq<Recovery>)
    requires MetadataFits(m) && RecoveriesFit(m, recoveries)
    ensures PlainPackets([Plain(WrittenCreator(m.creator)), Plain(WrittenMain(m.blockSize, Ids(m.infos)))], m.blockSize)
    ensures PlainPackets(Descriptions(m.infos), m.blockSize) && PlainPackets(RecoveryPackets(recoveries), m.blockSize)
  {
  }

  /** The packets of a file fit, and its recovery blocks are those given. */
  lemma FilePacketsFit(m: Metadata, recoveries: seq<Recovery>)
    requires MetadataFits(m) && RecoveriesFit(m, recoveries)
    ensures var segments := FilePackets(m, recoveries);
            && PlainPackets(segments, m.blockSize) && Recoveries(segments) == recoveries
            && |segments| >= 2 && segments[0].packet == WrittenCreator(m.creator)
            && segments[1].packet == WrittenMain(m.blockSize, Ids(m.infos))
  {
    hide PlainPackets, Recoveries, Fits, Descriptions, RecoveryPackets, ChecksumPackets;
    var (w, v) := (WrittenCreator(m.creator), WrittenMain(m.blockSize, Ids(m.infos)));
    var head := [Plain(w), Plain(v)];
    var (ds, cs, rs) := (Descriptions(m.infos), ChecksumPackets(m.infos, m.checksums), RecoveryPackets(recoveries));
    PlainParts(m, recoveries);
    ChecksumPacketsFit(m.infos, m.checksums, m.blockSize);
    PlainSplit(head, ds, m.blockSize);
    PlainSplit(head + ds, cs, m.blockSize);
    PlainSplit(head + ds + cs, rs, m.blockSize);
    RecoveriesOfDescriptions(m.infos);
    RecoveriesOfPackets(recoveries);
    RecoveriesOfOne(w);
    RecoveriesOfOne(v);
    assert [Plain(w)] + [Plain(v)] == head;
    RecoveriesSplit([Plain(w)], [Plain(v)]);
    RecoveriesSplit(head, ds);
    RecoveriesSplit(head + ds, cs);
    RecoveriesSplit(head + ds + cs, rs);
  }

  lemma EmptyNoMagic()
    ensures NoMagic([])
  {
  }

  lemma HeadTaken(md5: Md5, m: Metadata, setId: Id) returns (st: State, pos: nat)
    requires setId != ZeroId()
    ensures st == State(setId, m.blockSize, map[], [], [], map[], MainOrder(Ids(m.infos)), [])
    ensures pos == |Stream(md5, setId, [Plain(WrittenCreator(m.creator)),
                                        Plain(WrittenMain(m.blockSize, Ids(m.infos)))], [])|
    ensures TakenAll(md5, Start(), setId, [Plain(WrittenCreator(m.creator)),
                                           Plain(WrittenMain(m.blockSize, Ids(m.infos)))], 0) == st
  {
    hide WrittenPacket, MainOrder;
    var (w, v) := (WrittenCreator(m.creator), WrittenMain(m.blockSize, Ids(m.infos)));
    pos := |Stream(md5, setId, [Plain(w), Plain(v)], [])|;
    var end := 0 + |WrittenPacket(md5, setId, w)|;
    assert [Plain(w)] + [Plain(v)] == [Plain(w), Plain(v)] && [Plain(v)] + [] == [Plain(v)];
    TakenAllCons(md5, Start(), setId, w, [Plain(v)], 0);
    TakenAllCons(md5, Taken(Start(), setId, w, 0), setId, v, [], end);
    st := Taken(Taken(Start(), setId, w, 0), setId, v, end);
    TakenNone(md5, st, setId, end + |WrittenPacket(md5, setId, v)|);
  }

  /** What the scan of a created file ends with. */
  lemma FileScanned(md5: Md5, m: Metadata, recoveries: seq<Recovery>)
    requires MetadataFits(m) && RecoveriesFit(m, recoveries) && SetId(md5, m) != ZeroId()
    ensures var file := ArchiveFile(md5, m, recoveries);
            var st := Scan(md5, file, 0, Start());
            && st == State(SetId(md5, m), m.blockSize, InfoMap(m.infos), m.infos, st.recoveries,
                           ChecksumMap(m.infos, m.checksums), MainOrder(Ids(m.infos)), [])
            && ReadRefs(file, st.recoveries) == recoveries
  {
    hide Scan, Stream, TakenAll, WrittenPacket, MainOrder, Consistent, Recoveries, Early, Late, FilePackets,
         InfoMap, ChecksumMap, ZeroId, SetId, Fits, NoMagic, Ids, RecoveriesFit;
    var setId := SetId(md5, m);
    var segments := FilePackets(m, recoveries);
    var file := ArchiveFile(md5, m, recoveries);
    FilePacketsFit(m, recoveries);
    EmptyNoMagic();
    assert segments[1].packet.WrittenMain?;
    RecoveriesLoaded(md5, setId, segments, [], m.blockSize);
    AllLate(segments, m);
    assert file == [] + file;
    ConsistentFits(segments, m.blockSize);
    ScanWritten(md5, file, [], setId, segments, [], Start());
    var st := MetadataTaken(md5, m, recoveries, setId);
    NoDeferred(file, m.blockSize);
    assert st.recoveries + [] == st.recoveries;
  }

  lemma NoDeferred(file: seq<Byte>, blockSize: nat)
    ensures DeferredRefs(file, [], blockSize) == []
  {
  }

  lemma ConsistentFits(segments: seq<Segment>, blockSize: nat)
    requires Consistent(segments, blockSize)
    ensures forall i :: 0 <= i < |segments| ==> Fits(segments[i].packet)
  {
    hide Fits;
  }

  /** The Main packet is the second one, after the creator packet. */
  lemma AllLate(segments: seq<Segment>, m: Metadata)
    requires |segments| >= 2 && segments[0].packet == WrittenCreator(m.creator) && segments[1].packet.WrittenMain?
    ensures Late(segments) + Early(segments) == Recoveries(segments)
  {
    assert segments[1..][0] == segments[1];
    assert Early(segments[1..]) == [] && Early(segments) == [];
    EarlyOrLate(segments);
  }

  lemma MetadataTaken(md5: Md5, m: Metadata, recoveries: seq<Recovery>, setId: Id) returns (st: State)
    requires setId != ZeroId() && m.blockSize > 0 && DistinctInfos(m.infos)
    ensures st == TakenAll(md5, Start(), setId, FilePackets(m, recoveries), 0)
    ensures st == State(setId, m.blockSize, InfoMap(m.infos), m.infos, st.recoveries,
                        ChecksumMap(m.infos, m.checksums), MainOrder(Ids(m.infos)), [])
  {
    hide TakenAll, Stream, InfoMap, ChecksumMap, MainOrder, ZeroId, Descriptions, ChecksumPackets, RecoveryPackets, Ids;
    var head := [Plain(WrittenCreator(m.creator)), Plain(WrittenMain(m.blockSize, Ids(m.infos)))];
    var (ds, cs, rs) := (Descriptions(m.infos), ChecksumPackets(m.infos, m.checksums), RecoveryPackets(recoveries));
    var st0, pos := HeadTaken(md5, m, setId);
    TakenAllSplit(md5, Start(), setId, head + ds + cs, rs, 0);
    TakenAllSplit(md5, Start(), setId, head + ds, cs, 0);
    TakenAllSplit(md5, Start(), setId, head, ds, 0);
    DescriptionsTaken(md5, st0, setId, m.infos, pos);
    MapAssoc(map[], InfoMap(m.infos), map[]);
    assert map[] + InfoMap(m.infos) == InfoMap(m.infos) && [] + m.infos == m.infos;
    var st1 := st0.(files := InfoMap(m.infos), filesInOrder := m.infos);
    var pos1 := |Stream(md5, setId, head + ds, [])|;
    ChecksumsTaken(md5, st1, setId, m.infos, m.checksums, pos1);
    assert map[] + ChecksumMap(m.infos, m.checksums) == ChecksumMap(m.infos, m.checksums);
    var st2 := st1.(checksums := ChecksumMap(m.infos, m.checksums));
    RecoveriesTaken(md5, st2, setId, recoveries, |Stream(md5, setId, head + ds + cs, [])|);
    st := TakenAll(md5, Start(), setId, FilePackets(m, recoveries), 0);
  }

  // ----- the round trip

  /** The recovery blocks of the volumes, one volume after the other. */
  function Flatten(parts: seq<seq<Recovery>>): seq<Recovery> {
    if parts == [] then [] else Flatten(parts[..|parts| - 1]) + parts[|parts| - 1]
  }

  function ArchiveFiles(md5: Md5, m: Metadata, parts: seq<seq<Recovery>>): (r: seq<seq<Byte>>)
    ensures |r| == |parts|
  {
    seq(|parts|, i requires 0 <= i < |parts| => ArchiveFile(md5, m, parts[i]))
  }

  /** A .par2 file beside the index file: a volume of the set, or a file of anything else. */
  datatype Neighbour = Ours(part: seq<Recovery>) | Foreign(bytes: seq<Byte>)

  function NeighbourBytes(md5: Md5, m: Metadata, n: Neighbour): seq<Byte> {
    match n
    case Ours(part) => ArchiveFile(md5, m, part)
    case Foreign(bytes) => bytes
  }

  function NeighbourFiles(md5: Md5, m: Metadata, list: seq<Neighbour>): (r: seq<seq<Byte>>)
    ensures |r| == |list|
  {
    seq(|list|, i requires 0 <= i < |list| => NeighbourBytes(md5, m, list[i]))
  }

  /** Volumes are of the set; the other files do not start with a header that carries its ID. */
  predicate NeighbourFits(md5: Md5, m: Metadata, n: Neighbour) {
    match n
    case Ours(part) => RecoveriesFit(m, part)
    case Foreign(bytes) => !OfSet(bytes, SetId(md5, m))
  }

  function OurParts(list: seq<Neighbour>): seq<seq<Recovery>> {
    if list == [] then []
    else OurParts(list[..|list| - 1]) + match list[|list| - 1]
                                        case Ours(part) => [part]
                                        case Foreign(_) => []
  }

  /** What the located blocks read as. */
  function ReadLocated(files: seq<seq<Byte>>, located: seq<Located>): (r: seq<Recovery>)
    requires forall i :: 0 <= i < |located| ==> located[i].file < |files|
    ensures |r| == |located|
  {
    seq(|located|, i requires 0 <= i < |located| => ReadRef(files[located[i].file], located[i].ref))
  }

  lemma ReadLocatedSplit(files: seq<seq<Byte>>, a: seq<Located>, b: seq<Located>)
    requires forall i :: 0 <= i < |a| ==> a[i].file < |files|
    requires forall i :: 0 <= i < |b| ==> b[i].file < |files|
    ensures forall i :: 0 <= i < |a + b| ==> (a + b)[i].file < |files|
    ensures ReadLocated(files, a + b) == ReadLocated(files, a) + ReadLocated(files, b)
  {
    hide ReadRef;
  }

  lemma ReadLocatedIn(files: seq<seq<Byte>>, k: nat, refs: seq<RecoveryRef>)
    requires k < |files|
    ensures ReadLocated(files, LocatedIn(k, refs)) == ReadRefs(files[k], refs)
  {
    hide ReadRef;
  }

  /** A created volume carries the set's ID in its first header. */
  lemma SameSetFile(md5: Md5, m: Metadata, recoveries: seq<Recovery>)
    requires MetadataFits(m)
    ensures SameSet(ArchiveFile(md5, m, recoveries), SetId(md5, m))
  {
    hide Packet, WrittenType, WrittenBody, TypeBytes, Magic, SetId, Pad;
    var segments := FilePackets(m, recoveries);
    var setId := SetId(md5, m);
    var w := WrittenCreator(m.creator);
    var file := ArchiveFile(md5, m, recoveries);
    var p := WrittenPacket(md5, setId, w);
    assert segments[0] == Plain(w);
    var rest := Stream(md5, setId, segments[1..], []);
    assert file == [] + p + rest == p + rest;
    PacketLength(w);
    PacketFields(md5, WrittenType(w), setId, WrittenBody(w));
    assert HeaderAt(file, 0) == p[..64];
    assert p[..64][0..8] == p[0..8] && p[..64][32..48] == p[32..48];
  }

  lemma VolumeLoaded(md5: Md5, m: Metadata, recoveries: seq<Recovery>)
    requires MetadataFits(m) && RecoveriesFit(m, recoveries)
    ensures var file := ArchiveFile(md5, m, recoveries);
            ReadRefs(file, VolumeScan(file, m.blockSize, 0)) == recoveries
  {
    hide Stream, VolumeScan, Consistent, Recoveries, NoMagic, FilePackets, MetadataFits, RecoveriesFit, ReadRefs, SetId;
    FilePacketsFit(m, recoveries);
    EmptyNoMagic();
    var file := ArchiveFile(md5, m, recoveries);
    assert file == [] + file;
    VolumeScanWritten(md5, file, [], SetId(md5, m), FilePackets(m, recoveries), [], m.blockSize);
  }

  lemma {:induction false} VolumesLoaded(md5: Md5, m: Metadata, index: seq<Byte>, list: seq<Neighbour>, n: nat)
    requires MetadataFits(m) && n <= |list| && forall i :: 0 <= i < |list| ==> NeighbourFits(md5, m, list[i])
    ensures var volumes := NeighbourFiles(md5, m, list);
            var located := VolumeRefs(volumes, SetId(md5, m), m.blockSize, n);
            && (forall i :: 0 <= i < |located| ==> located[i].file < |volumes| + 1)
            && ReadLocated([index] + volumes, located) == Flatten(OurParts(list[..n]))
    decreases n
  {
    hide MetadataFits, RecoveriesFit, ArchiveFile, SameSet, VolumeScan, ReadRefs, SetId, ReadRef, OfSet;
    var volumes := NeighbourFiles(md5, m, list);
    if n > 0 {
      VolumesLoaded(md5, m, index, list, n - 1);
      var files := [index] + volumes;
      assert files[n] == volumes[n - 1] && list[..n][..n - 1] == list[..n - 1];
      SameSetIs(volumes[n - 1], SetId(md5, m));
      match list[n - 1]
      case Ours(part) =>
        SameSetFile(md5, m, part);
        VolumeLoaded(md5, m, part);
        var refs := VolumeScan(volumes[n - 1], m.blockSize, 0);
        ReadLocatedIn(files, n, refs);
        ReadLocatedSplit(files, VolumeRefs(volumes, SetId(md5, m), m.blockSize, n - 1), LocatedIn(n, refs));
        var before := OurParts(list[..n - 1]);
        assert OurParts(list[..n]) == before + [part];
        assert (before + [part])[..|before|] == before;
      case Foreign(bytes) =>
        assert OurParts(list[..n]) == OurParts(list[..n - 1]);
    }
  }

  /**
   Loading a created index file with created volumes, in any order of the volumes, and with any files
   of other sets or of anything else among them: the metadata is as given, the files come in numbering
   order, and the recovery blocks read as those of the index file followed by those of the volumes of
   the set, none lost, none twice, and none from another file.
   */
  lemma CreatedArchiveLoads(md5: Md5, m: Metadata, own: seq<Recovery>, list: seq<Neighbour>)
    returns (par2: Par2File)
    requires MetadataFits(m) && RecoveriesFit(m, own)
    requires forall i :: 0 <= i < |list| ==> NeighbourFits(md5, m, list[i])
    requires NumberingOrder(m.infos) == m.infos && SetId(md5, m) != ZeroId()
    ensures var (index, volumes) := (ArchiveFile(md5, m, own), NeighbourFiles(md5, m, list));
            && LoadFrom(index, Scan(md5, index, 0, Start()), volumes) == Loaded(par2)
            && (forall i :: 0 <= i < |par2.recoveries| ==> par2.recoveries[i].file < |volumes| + 1)
            && ReadLocated([index] + volumes, par2.recoveries) == own + Flatten(OurParts(list))
    ensures par2.blockSize == m.blockSize && par2.filesInOrder == m.infos
    ensures par2.files == InfoMap(m.infos) && par2.checksums == ChecksumMap(m.infos, m.checksums)
  {
    hide RecoveriesFit, ArchiveFile, NeighbourFiles, NeighbourFits, SameSet, VolumeScan, ReadRefs, SetId, ReadRef, Scan,
         VolumeRefs, ReorderCanonically, NumberingOrder, MainOrder, InfoMap, ChecksumMap, ZeroId, Fits, Ids, OurParts;
    var (index, volumes) := (ArchiveFile(md5, m, own), NeighbourFiles(md5, m, list));
    FileScanned(md5, m, own);
    VolumesLoaded(md5, m, index, list, |list|);
    assert list[..|list|] == list;
    OrderAgreement(m.infos, m.infos);
    var st := Scan(md5, index, 0, Start());
    NoDeferred(index, m.blockSize);
    assert st.recoveries + [] == st.recoveries;
    par2 := LoadFrom(index, st, volumes).par2;
    ReadLocatedIn([index] + volumes, 0, st.recoveries);
    ReadLocatedSplit([index] + volumes, LocatedIn(0, st.recoveries),
                     VolumeRefs(volumes, st.setId, st.blockSize, |volumes|));
  }

  /** The files of an archive with another set ID are foreign. */
  lemma OtherArchiveForeign(md5: Md5, m: Metadata, other: Metadata, recoveries: seq<Recovery>)
    requires MetadataFits(other)
    ensures NeighbourFits(md5, m, Foreign(ArchiveFile(md5, other, recoveries))) <==> SetId(md5, m) != SetId(md5, other)
  {
    hide ArchiveFile, MetadataFits, SetId;
    SameSetFile(md5, other, recoveries);
    SameSetIs(ArchiveFile(md5, other, recoveries), SetId(md5, other));
  }

  /**
   Whatever the volume files hold: the metadata is that of the index file, the recovery blocks of the
   index file come first, and every recovery block found has a 32-bit exponent.
   */
  lemma AnyVolumesLoad(md5: Md5, m: Metadata, own: seq<Recovery>, left: seq<seq<Byte>>) returns (par2: Par2File)
    requires MetadataFits(m) && RecoveriesFit(m, own)
    requires NumberingOrder(m.infos) == m.infos && SetId(md5, m) != ZeroId()
    ensures var index := ArchiveFile(md5, m, own);
            && LoadFrom(index, Scan(md5, index, 0, Start()), left) == Loaded(par2)
            && (forall i :: 0 <= i < |par2.recoveries| ==> par2.recoveries[i].file < |left| + 1)
            && own <= ReadLocated([index] + left, par2.recoveries)
            && forall i :: 0 <= i < |par2.recoveries| ==>
                 ReadLocated([index] + left, par2.recoveries)[i].exponent < U32
    ensures par2.blockSize == m.blockSize && par2.filesInOrder == m.infos
    ensures par2.files == InfoMap(m.infos) && par2.checksums == ChecksumMap(m.infos, m.checksums)
  {
    hide ArchiveFile, SameSet, VolumeScan, ReadRefs, SetId, ReadRef, Scan, Fits,
         VolumeRefs, ReorderCanonically, NumberingOrder, MainOrder, InfoMap, ChecksumMap, ZeroId, Ids;
    var index := ArchiveFile(md5, m, own);
    FileScanned(md5, m, own);
    OrderAgreement(m.infos, m.infos);
    var st := Scan(md5, index, 0, Start());
    NoDeferred(index, m.blockSize);
    assert st.recoveries + [] == st.recoveries;
    par2 := LoadFrom(index, st, left).par2;
    var files := [index] + left;
    var located := VolumeRefs(left, st.setId, st.blockSize, |left|);
    VolumesLocated(left, st.setId, st.blockSize, |left|);
    ReadLocatedIn(files, 0, st.recoveries);
    ReadLocatedSplit(files, LocatedIn(0, st.recoveries), located);
    var found := ReadLocated(files, par2.recoveries);
    assert found == own + ReadLocated(files, located);
    forall i | 0 <= i < |found|
      ensures found[i].exponent < U32
    {
      if i < |own| {
        assert found[i] == own[i];
      } else {
        ExponentRead(files, located, i - |own|);
      }
    }
  }

  lemma ExponentRead(files: seq<seq<Byte>>, located: seq<Located>, i: nat)
    requires i < |located| && forall k :: 0 <= k < |located| ==> located[k].file < |files|
    ensures ReadLocated(files, located)[i].exponent == located[i].ref.exponent
  {
  }
}
