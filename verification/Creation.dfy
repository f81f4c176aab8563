/**
 What `create` writes (src/creator.rs, src/volumes.rs): the recovery blocks split over
 volumes, and an index file and volume files that all repeat the metadata.

 `SplitIntoVolumes` loses and repeats no recovery block; `WriteFile` writes the packets of
 one file in order, each byte by byte as the standard lays it out.
 */
module Creation {
  import opened Options
  import opened Bytes
  import opened LittleEndian
  import opened FileIds
  import opened Packets
  import opened Scanner
  import opened Layouts
  import opened Archive
  import opened Encoding
  import opened Constants
  import opened Vandermonde
  import opened GaloisTables

  // ----- splitting into volumes

  datatype VolumeScheme = Single | Exponential

  datatype Volume = Volume(exponentStart: nat, exponentEnd: nat, blocks: seq<Recovery>)

  const MAX_PER_VOLUME: nat := 1024

  function AllBlocks(volumes: seq<Volume>): seq<Recovery> {
    if volumes == [] then [] else AllBlocks(volumes[..|volumes| - 1]) + volumes[|volumes| - 1].blocks
  }

  /** How many blocks volume i holds when it is full: 1, 2, 4 and so on up to 1024. */
  function Target(i: nat): (n: nat)
    ensures 0 < n <= MAX_PER_VOLUME
  {
    if i == 0 then 1 else if 2 * Target(i - 1) < MAX_PER_VOLUME then 2 * Target(i - 1) else MAX_PER_VOLUME
  }

  /** The exponents named by a volume are those of its first and last block. */
  predicate NamesItsBlocks(v: Volume) {
    v.blocks != [] && v.exponentStart == v.blocks[0].exponent && v.exponentEnd == v.blocks[|v.blocks| - 1].exponent
  }

  /** Every volume is full except perhaps the last. */
  predicate ExponentialSizes(volumes: seq<Volume>) {
    && (forall i :: 0 <= i < |volumes| ==> NamesItsBlocks(volumes[i]) && |volumes[i].blocks| <= Target(i))
    && (forall i :: 0 <= i < |volumes| - 1 ==> |volumes[i].blocks| == Target(i))
  }

  function Doubled(i: nat): (n: nat)
    ensures n > 0
  {
    if i == 0 then 1 else 2 * Doubled(i - 1)
  }

  function FullSize(i: nat): nat {
    if i <= 10 then Doubled(i) else 1024
  }

  /** 1, 2, 4 and so on up to 1024, and 1024 from then on; only the last volume may hold fewer. */
  predicate SizesDouble(volumes: seq<Volume>) {
    forall i :: 0 <= i < |volumes| ==>
      |volumes[i].blocks| <= FullSize(i) && (i < |volumes| - 1 ==> |volumes[i].blocks| == FullSize(i))
  }

  lemma {:induction false} TargetIs(i: nat)
    ensures Target(i) == FullSize(i)
  {
    if i > 0 {
      TargetIs(i - 1);
    }
    if i >= 10 {
      assert Doubled(5) == 32;
      assert Doubled(9) == 512;
    }
  }

  lemma SizesAre(volumes: seq<Volume>)
    requires ExponentialSizes(volumes)
    ensures SizesDouble(volumes)
  {
    hide Target, FullSize, NamesItsBlocks;
    forall i | 0 <= i < |volumes|
      ensures Target(i) == FullSize(i)
    {
      TargetIs(i);
    }
  }

  lemma AllBlocksPush(volumes: seq<Volume>, v: Volume)
    ensures AllBlocks(volumes + [v]) == AllBlocks(volumes) + v.blocks
  {
    assert (volumes + [v])[..|volumes|] == volumes;
  }

  lemma NamesPush(start: nat, end: nat, blocks: seq<Recovery>, r: Recovery)
    requires blocks != [] ==> NamesItsBlocks(Volume(start, end, blocks))
    ensures NamesItsBlocks(Volume(if blocks == [] then r.exponent else start, r.exponent, blocks + [r]))
  {
  }

  /** split_into_volumes */
  method SplitIntoVolumes(recoveries: seq<Recovery>, scheme: VolumeScheme) returns (volumes: seq<Volume>)
    ensures AllBlocks(volumes) == recoveries
    ensures scheme == Exponential ==> ExponentialSizes(volumes)
    ensures scheme == Exponential ==> SizesDouble(volumes)
    ensures scheme == Single && recoveries != [] ==>
              |volumes| == 1 && volumes[0].exponentStart == 0
                && volumes[0].exponentEnd == recoveries[|recoveries| - 1].exponent
  {
    hide Target, AllBlocks, NamesItsBlocks, SizesDouble;
    NoBlocks();
    volumes := [];
    if recoveries == [] {
      return;
    }
    if scheme == Single {
      volumes := [Volume(0, recoveries[|recoveries| - 1].exponent, recoveries)];
      AllBlocksPush([], volumes[0]);
      assert [] + volumes == volumes;
      return;
    }
    var targetCount := 1;
    var current: seq<Recovery> := [];
    var volumeStart, volumeEnd := 0, 0;
    FirstTarget();
    for k := 0 to |recoveries|
      invariant AllBlocks(volumes) + current == recoveries[..k]
      invariant targetCount == Target(|volumes|) && |current| < targetCount
      invariant forall i :: 0 <= i < |volumes| ==> NamesItsBlocks(volumes[i]) && |volumes[i].blocks| == Target(i)
      invariant current != [] ==> NamesItsBlocks(Volume(volumeStart, volumeEnd, current))
    {
      NamesPush(volumeStart, volumeEnd, current, recoveries[k]);
      if |current| == 0 {
        volumeStart := recoveries[k].exponent;
      }
      current := current + [recoveries[k]];
      volumeEnd := recoveries[k].exponent;
      assert recoveries[..k + 1] == recoveries[..k] + [recoveries[k]];
      if |current| >= targetCount {
        NextTarget(|volumes|);
        var volume := Volume(volumeStart, volumeEnd, current);
        AllBlocksPush(volumes, volume);
        volumes := volumes + [volume];
        current := [];
        targetCount := if targetCount * 2 < MAX_PER_VOLUME then targetCount * 2 else MAX_PER_VOLUME;
      }
    }
    assert recoveries[..|recoveries|] == recoveries;
    if current != [] {
      var volume := Volume(volumeStart, volumeEnd, current);
      AllBlocksPush(volumes, volume);
      volumes := volumes + [volume];
    }
    SizesAre(volumes);
  }

  lemma NoBlocks()
    ensures AllBlocks([]) == [] && SizesDouble([])
  {
  }

  lemma FirstTarget()
    ensures Target(0) == 1
  {
  }

  lemma NextTarget(i: nat)
    ensures Target(i + 1) == if Target(i) * 2 < MAX_PER_VOLUME then Target(i) * 2 else MAX_PER_VOLUME
  {
  }

  // ----- the files

  /** What all files of an archive repeat. */
  datatype Metadata = Metadata(blockSize: nat, infos: seq<FileInfo>, checksums: map<Id, seq<SliceChecksum>>,
                               creator: seq<Byte>)

  function Plain(w: Written): Segment {
    Segment([], w)
  }

  function Descriptions(infos: seq<FileInfo>): (r: seq<Segment>)
    ensures |r| == |infos|
  {
    seq(|infos|, i requires 0 <= i < |infos| => Plain(WrittenFileDesc(infos[i])))
  }

  /** A checksum packet for every file that has checksums. */
  function ChecksumPackets(infos: seq<FileInfo>, sums: map<Id, seq<SliceChecksum>>): seq<Segment> {
    if infos == [] then []
    else
      (if infos[0].id in sums then [Plain(WrittenIfsc(infos[0].id, sums[infos[0].id]))] else [])
      + ChecksumPackets(infos[1..], sums)
  }

  function RecoveryPackets(recoveries: seq<Recovery>): (r: seq<Segment>)
    ensures |r| == |recoveries|
  {
    seq(|recoveries|, i requires 0 <= i < |recoveries| =>
      Plain(WrittenRecovery(recoveries[i].exponent, recoveries[i].data)))
  }

  /** The packets of one file, in the order they are written. */
  function FilePackets(m: Metadata, recoveries: seq<Recovery>): seq<Segment> {
    [Plain(WrittenCreator(m.creator)), Plain(WrittenMain(m.blockSize, Ids(m.infos)))]
    + Descriptions(m.infos) + ChecksumPackets(m.infos, m.checksums) + RecoveryPackets(recoveries)
  }

  /** compute_recovery_set_id */
  function SetId(md5: Md5, m: Metadata): Id {
    md5(MainBody(m.blockSize, Ids(m.infos)))
  }

  function ArchiveFile(md5: Md5, m: Metadata, recoveries: seq<Recovery>): seq<Byte> {
    Stream(md5, SetId(md5, m), FilePackets(m, recoveries), [])
  }

  lemma {:induction false} StreamSplit(md5: Md5, setId: Id, a: seq<Segment>, b: seq<Segment>)
    ensures Stream(md5, setId, a + b, []) == Stream(md5, setId, a, []) + Stream(md5, setId, b, [])
  {
    hide WrittenPacket;
    if a == [] {
      assert a + b == b;
    } else {
      StreamSplit(md5, setId, a[1..], b);
      assert (a + b)[1..] == a[1..] + b;
    }
  }

  lemma StreamOne(md5: Md5, setId: Id, w: Written)
    ensures Stream(md5, setId, [Plain(w)], []) == WrittenPacket(md5, setId, w)
  {
    hide WrittenPacket;
    assert [Plain(w)][1..] == [];
  }

  /** Writes one packet after what is already there. */
  method Append(md5: Md5, setId: Id, out: seq<Byte>, w: Written, ghost before: seq<Segment>) returns (r: seq<Byte>)
    requires out == Stream(md5, setId, before, [])
    ensures r == Stream(md5, setId, before + [Plain(w)], [])
  {
    hide Packet, Stream, WrittenType, WrittenBody;
    StreamSplit(md5, setId, before, [Plain(w)]);
    StreamOne(md5, setId, w);
    r := out + Packet(md5, WrittenType(w), setId, WrittenBody(w));
  }

  lemma ChecksumPacketsNext(infos: seq<FileInfo>, sums: map<Id, seq<SliceChecksum>>, i: nat)
    requires i < |infos|
    ensures ChecksumPackets(infos[..i + 1], sums) == ChecksumPackets(infos[..i], sums)
            + if infos[i].id in sums then [Plain(WrittenIfsc(infos[i].id, sums[infos[i].id]))] else []
    decreases i
  {
    if i == 0 {
      assert infos[..1][1..] == [] && infos[..0] == [];
    } else {
      ChecksumPacketsNext(infos[1..], sums, i - 1);
      assert infos[..i + 1][1..] == infos[1..][..i] && infos[..i][1..] == infos[1..][..i - 1];
    }
  }

  /** The bytes are those of these packets, one after the other, each in its layout. */
  predicate Emits(md5: Md5, out: seq<Byte>, setId: Id, packets: seq<Segment>)
    decreases |packets|
  {
    if packets == [] then out == []
    else
      |out| >= 64
      && var n := NumberAt(out, 8, 8);
      && n <= |out| && PacketLayout(md5, out[..n], setId, packets[0].packet)
      && Emits(md5, out[n..], setId, packets[1..])
  }

  predicate AllFit(packets: seq<Segment>) {
    forall i :: 0 <= i < |packets| ==> Fits(packets[i].packet) && packets[i].garbage == []
  }

  lemma {:induction false} StreamEmits(md5: Md5, setId: Id, packets: seq<Segment>)
    requires AllFit(packets)
    ensures Emits(md5, Stream(md5, setId, packets, []), setId, packets)
    decreases |packets|
  {
    hide WrittenPacket, PacketLayout, FromBytes, Fits;
    if packets != [] {
      var p := WrittenPacket(md5, setId, packets[0].packet);
      var rest := Stream(md5, setId, packets[1..], []);
      var out := Stream(md5, setId, packets, []);
      assert out == p + rest;
      StreamEmits(md5, setId, packets[1..]);
      PacketWritten(md5, setId, packets[0].packet);
      LengthAt(md5, p, setId, packets[0].packet);
      assert out[8..16] == p[8..16] && out[..|p|] == p && out[|p|..] == rest;
    }
  }

  lemma LengthAt(md5: Md5, p: seq<Byte>, setId: Id, w: Written)
    requires PacketLayout(md5, p, setId, w)
    ensures |p| >= 64 && NumberAt(p, 8, 8) == |p|
  {
    hide MainLayout, FileDescLayout, IfscLayout, RecoveryLayout, FromBytes;
  }

  /** The set ID is the MD5 of the body of the Main packet as it is written. */
  lemma SetIdOfMain(md5: Md5, m: Metadata, setId: Id)
    ensures var p := WrittenPacket(md5, setId, WrittenMain(m.blockSize, Ids(m.infos)));
            SetId(md5, m) == md5(p[64..])
  {
    hide Packet, MainBody;
    var body := MainBody(m.blockSize, Ids(m.infos));
    MainAligned(m.blockSize, Ids(m.infos));
    PaddingKeeps(body);
    PacketTail(md5, MainType, setId, body);
  }

  lemma MainAligned(blockSize: nat, ids: seq<Id>)
    ensures |MainBody(blockSize, ids)| % 4 == 0
  {
    hide ToLittleEndian, MainOrder;
    SortedCount(ids);
    FourTimes(3 + 4 * |ids|);
    assert |MainBody(blockSize, ids)| == 4 * (3 + 4 * |ids|);
  }

  lemma FourTimes(n: nat)
    ensures 4 * n % 4 == 0
  {
  }

  lemma PacketTail(md5: Md5, t: PacketType, setId: Id, body: seq<Byte>)
    requires t != UnknownType
    ensures Packet(md5, t, setId, body)[64..] == Pad(body)
  {
    hide ToLittleEndian, Magic, TypeBytes, Pad;
  }

  /** The writing loops of create for one file. */
  method WriteFile(md5: Md5, m: Metadata, recoveries: seq<Recovery>) returns (out: seq<Byte>)
    ensures out == ArchiveFile(md5, m, recoveries)
    ensures AllFit(FilePackets(m, recoveries)) ==> Emits(md5, out, SetId(md5, m), FilePackets(m, recoveries))
  {
    if AllFit(FilePackets(m, recoveries)) {
      StreamEmits(md5, SetId(md5, m), FilePackets(m, recoveries));
    }
    out := WritePackets(md5, m, recoveries);
  }

  method WritePackets(md5: Md5, m: Metadata, recoveries: seq<Recovery>) returns (out: seq<Byte>)
    ensures out == ArchiveFile(md5, m, recoveries)
  {
    hide Stream, SetId;
    var setId := SetId(md5, m);
    EmptyStream(md5, setId);
    ghost var written: seq<Segment> := [];
    out := [];
    out := Append(md5, setId, out, WrittenCreator(m.creator), written);
    written := written + [Plain(WrittenCreator(m.creator))];
    out := Append(md5, setId, out, WrittenMain(m.blockSize, Ids(m.infos)), written);
    written := written + [Plain(WrittenMain(m.blockSize, Ids(m.infos)))];
    ghost var head := written;
    for i := 0 to |m.infos|
      invariant written == head + Descriptions(m.infos[..i]) && out == Stream(md5, setId, written, [])
    {
      out := Append(md5, setId, out, WrittenFileDesc(m.infos[i]), written);
      written := written + [Plain(WrittenFileDesc(m.infos[i]))];
      assert Descriptions(m.infos[..i + 1]) == Descriptions(m.infos[..i]) + [Plain(WrittenFileDesc(m.infos[i]))];
    }
    assert m.infos[..|m.infos|] == m.infos;
    head := written;
    for i := 0 to |m.infos|
      invariant written == head + ChecksumPackets(m.infos[..i], m.checksums) && out == Stream(md5, setId, written, [])
    {
      ChecksumPacketsNext(m.infos, m.checksums, i);
      if m.infos[i].id in m.checksums {
        out := Append(md5, setId, out, WrittenIfsc(m.infos[i].id, m.checksums[m.infos[i].id]), written);
        written := written + [Plain(WrittenIfsc(m.infos[i].id, m.checksums[m.infos[i].id]))];
      }
    }
    head := written;
    for i := 0 to |recoveries|
      invariant written == head + RecoveryPackets(recoveries[..i]) && out == Stream(md5, setId, written, [])
    {
      out := Append(md5, setId, out, WrittenRecovery(recoveries[i].exponent, recoveries[i].data), written);
      written := written + [Plain(WrittenRecovery(recoveries[i].exponent, recoveries[i].data))];
      assert RecoveryPackets(recoveries[..i + 1])
          == RecoveryPackets(recoveries[..i]) + [Plain(WrittenRecovery(recoveries[i].exponent, recoveries[i].data))];
    }
    assert recoveries[..|recoveries|] == recoveries;
    assert written == FilePackets(m, recoveries);
  }

  lemma EmptyStream(md5: Md5, setId: Id)
    ensures Stream(md5, setId, [], []) == []
  {
  }
}
