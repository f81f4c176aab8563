/**
 The bytes of packets, position by position, as the Parity Volume Set Specification 2.0 lays
 them out ("Packet Header", "Main packet", "File Description packet", "Input File Slice Checksum
 packet", "Recovery Slice packet").  What the writer writes (src/writer.rs) has these layouts, and
 the parsers (src/parser.rs) read arbitrary bytes at the same positions.
 */
module Layouts {
  import opened Options
  import opened Bytes
  import opened LittleEndian
  import opened FileIds
  import opened Packets
  import opened Scanner

  /** The little-endian number of k bytes at pos. */
  function NumberAt(bytes: seq<Byte>, pos: nat, k: nat): nat
    requires pos + k <= |bytes|
  {
    FromBytes(bytes[pos..pos + k])
  }

  /** The lowest byte comes first, and a byte counts as its value. */
  lemma NumberOfBytes(bytes: seq<Byte>)
    ensures FromBytes(bytes) == if bytes == [] then 0 else bytes[0] as nat + 0x100 * FromBytes(bytes[1..])
  {
    if bytes != [] {
      EightBits();
      BitsAre(bytes[0], 8);
    }
  }

  lemma EightBits()
    ensures Power2(8) == 0x100
  {
  }

  lemma HalfAsNumber(b: Byte)
    ensures b as nat == 2 * ((b >> 1) as nat) + if b & 1 == 1 then 1 else 0
  {
  }

  lemma {:induction false} BitsAre(b: Byte, k: nat)
    requires (b as nat) < Power2(k)
    ensures ValueBits(b, k) == b as nat
  {
    HalfAsNumber(b);
    if k > 0 {
      BitsAre(b >> 1, k - 1);
    }
  }

  /** "PAR2", a zero, "PKT" */
  function MagicBytes(): seq<Byte> {
    [0x50, 0x41, 0x52, 0x32, 0x00, 0x50, 0x4B, 0x54]
  }

  /** "PAR 2.0", a zero, and the name of the type */
  function TypeName(t: PacketType): seq<Byte>
    requires t != UnknownType
  {
    [0x50, 0x41, 0x52, 0x20, 0x32, 0x2E, 0x30, 0x00]
    + match t
      case MainType => [0x4D, 0x61, 0x69, 0x6E, 0x00, 0x00, 0x00, 0x00]      // Main
      case FileDescType => [0x46, 0x69, 0x6C, 0x65, 0x44, 0x65, 0x73, 0x63]  // FileDesc
      case IfscType => [0x49, 0x46, 0x53, 0x43, 0x00, 0x00, 0x00, 0x00]      // IFSC
      case RecoveryType => [0x52, 0x65, 0x63, 0x76, 0x53, 0x6C, 0x69, 0x63]  // RecvSlic
      case CreatorType => [0x43, 0x72, 0x65, 0x61, 0x74, 0x6F, 0x72, 0x00]   // Creator
  }

  /** Magic, length, MD5 of everything from the set ID on, set ID, type. */
  predicate HeaderLayout(md5: Md5, p: seq<Byte>, setId: Id, t: PacketType)
    requires t != UnknownType
  {
    && |p| >= 64 && |p| % 4 == 0
    && p[0..8] == MagicBytes() && NumberAt(p, 8, 8) == |p|
    && p[16..32] == md5(p[32..]) && p[32..48] == setId && p[48..64] == TypeName(t)
  }

  /** Block size, number of files, and their IDs. */
  predicate MainLayout(b: seq<Byte>, blockSize: nat, ids: seq<Id>) {
    && |b| >= 12 + 16 * |ids| && NumberAt(b, 0, 8) == blockSize && NumberAt(b, 8, 4) == |ids|
    && forall i :: 0 <= i < |ids| ==> b[12 + 16 * i..28 + 16 * i] == ids[i]
  }

  /** ID, MD5 of the file, MD5 of its first 16 KiB, length, and the name up to a zero byte or the end. */
  predicate FileDescLayout(b: seq<Byte>, info: FileInfo) {
    && |b| >= 56 + |info.name|
    && b[0..16] == info.id && b[16..32] == info.hash && b[32..48] == info.hash16k && NumberAt(b, 48, 8) == info.length
    && b[56..56 + |info.name|] == info.name && 0 !in info.name
    && (|b| > 56 + |info.name| ==> b[56 + |info.name|] == 0)
  }

  /** ID of the file, and 20 bytes for each block: MD5, then CRC32. */
  predicate IfscLayout(b: seq<Byte>, id: Id, sums: seq<SliceChecksum>) {
    && |b| >= 16 && b[0..16] == id && |sums| == (|b| - 16) / 20
    && forall i :: 0 <= i < |sums| ==> ChecksumAt(b, 16 + 20 * i, sums[i])
  }

  predicate ChecksumAt(b: seq<Byte>, at: nat, sum: SliceChecksum) {
    at + 20 <= |b| && b[at..at + 16] == sum.md5 && NumberAt(b, at + 16, 4) == sum.crc32
  }

  /** Exponent, then the data. */
  predicate RecoveryLayout(b: seq<Byte>, exponent: nat, data: seq<Byte>) {
    |b| >= 4 + |data| && NumberAt(b, 0, 4) == exponent && b[4..4 + |data|] == data
  }

  /** After n bytes only zeros follow, fewer than four. */
  predicate PaddedFrom(b: seq<Byte>, n: nat) {
    n <= |b| < n + 4 && forall i :: n <= i < |b| ==> b[i] == 0
  }

  // ----- what is written

  /** The bytes of one written packet. */
  predicate PacketLayout(md5: Md5, p: seq<Byte>, setId: Id, w: Written) {
    && HeaderLayout(md5, p, setId, WrittenType(w))
    && var b := p[64..];
    match w
    case WrittenMain(blockSize, ids) => MainLayout(b, blockSize, MainOrder(ids)) && |b| == 12 + 16 * |ids|
    case WrittenFileDesc(info) => FileDescLayout(b, info) && |b| > 56 + |info.name| && PaddedFrom(b, 57 + |info.name|)
    case WrittenIfsc(id, sums) => IfscLayout(b, id, sums) && |b| == 16 + 20 * |sums|
    case WrittenRecovery(exponent, data) => RecoveryLayout(b, exponent, data) && PaddedFrom(b, 4 + |data|)
    case WrittenCreator(text) => |b| >= |text| && b[..|text|] == text && PaddedFrom(b, |text|)
  }

  lemma TypeNameBytes(t: PacketType)
    requires t != UnknownType
    ensures TypeName(t) == TypeBytes(t) && MagicBytes() == Magic()
  {
  }

  lemma {:induction false} ConcatAt(ids: seq<Id>, i: nat)
    requires i < |ids|
    ensures 16 * i + 16 <= |Concat(ids)| && Concat(ids)[16 * i..16 * i + 16] == ids[i]
  {
    if i > 0 {
      ConcatAt(ids[1..], i - 1);
      assert Concat(ids)[16..] == Concat(ids[1..]);
      assert Concat(ids)[16 * i..16 * i + 16] == Concat(ids[1..])[16 * (i - 1)..16 * (i - 1) + 16];
    }
  }

  lemma {:induction false} ConcatChecksumsAt(sums: seq<SliceChecksum>, i: nat)
    requires i < |sums| && forall k :: 0 <= k < |sums| ==> sums[k].crc32 < Packets.U32
    ensures ChecksumAt(ConcatChecksums(sums), 20 * i, sums[i])
  {
    hide FromBytes, ToLittleEndian, Power256;
    var all := ConcatChecksums(sums);
    var first := sums[0].md5 + ToLittleEndian(sums[0].crc32, 4);
    assert all == first + ConcatChecksums(sums[1..]);
    if i > 0 {
      ConcatChecksumsAt(sums[1..], i - 1);
      var at := 20 * (i - 1);
      assert all[20 * i..20 * i + 16] == ConcatChecksums(sums[1..])[at..at + 16];
      assert all[20 * i + 16..20 * i + 20] == ConcatChecksums(sums[1..])[at + 16..at + 20];
    } else {
      PowersOf256();
      ReadBack(sums[0].crc32, 4);
      assert all[0..16] == sums[0].md5 && all[16..20] == ToLittleEndian(sums[0].crc32, 4);
    }
  }

  lemma MainWritten(blockSize: nat, ids: seq<Id>)
    requires blockSize < Packets.U64 && |ids| < Packets.U32
    ensures MainLayout(MainBody(blockSize, ids), blockSize, MainOrder(ids))
    ensures |MainBody(blockSize, ids)| == 12 + 16 * |ids|
  {
    hide FromBytes, ToLittleEndian, Power256, MainOrder;
    PowersOf256();
    SortedCount(ids);
    ReadBack(blockSize, 8);
    ReadBack(|ids|, 4);
    var (b, sorted) := (MainBody(blockSize, ids), MainOrder(ids));
    assert b[0..8] == ToLittleEndian(blockSize, 8) && b[8..12] == ToLittleEndian(|ids|, 4);
    assert b[12..] == Concat(sorted);
    forall i | 0 <= i < |sorted|
      ensures b[12 + 16 * i..28 + 16 * i] == sorted[i]
    {
      ConcatAt(sorted, i);
      assert b[12 + 16 * i..28 + 16 * i] == Concat(sorted)[16 * i..16 * i + 16];
    }
  }

  lemma FileDescWritten(info: FileInfo)
    requires info.length < Packets.U64 && 0 !in info.name
    ensures FileDescLayout(FileDescBody(info), info) && |FileDescBody(info)| == 57 + |info.name|
  {
    hide FromBytes, ToLittleEndian, Power256;
    PowersOf256();
    ReadBack(info.length, 8);
    var b := FileDescBody(info);
    assert b[0..16] == info.id && b[16..32] == info.hash && b[32..48] == info.hash16k;
    assert b[48..56] == ToLittleEndian(info.length, 8) && b[56..56 + |info.name|] == info.name;
  }

  lemma IfscWritten(id: Id, sums: seq<SliceChecksum>)
    requires forall k :: 0 <= k < |sums| ==> sums[k].crc32 < Packets.U32
    ensures IfscLayout(IfscBody(id, sums), id, sums) && |IfscBody(id, sums)| == 16 + 20 * |sums|
  {
    hide FromBytes;
    var (b, all) := (IfscBody(id, sums), ConcatChecksums(sums));
    assert b[16..] == all;
    forall i | 0 <= i < |sums|
      ensures ChecksumAt(b, 16 + 20 * i, sums[i])
    {
      ConcatChecksumsAt(sums, i);
      assert b[16 + 20 * i..16 + 20 * i + 16] == all[20 * i..20 * i + 16];
      assert b[16 + 20 * i + 16..16 + 20 * i + 20] == all[20 * i + 16..20 * i + 20];
    }
  }

  lemma RecoveryWritten(exponent: nat, data: seq<Byte>)
    requires exponent < Packets.U32
    ensures RecoveryLayout(RecoveryBody(exponent, data), exponent, data) && |RecoveryBody(exponent, data)| == 4 + |data|
  {
    hide FromBytes, ToLittleEndian, Power256;
    PowersOf256();
    ReadBack(exponent, 4);
    assert RecoveryBody(exponent, data)[0..4] == ToLittleEndian(exponent, 4);
  }

  /** Padding keeps the layout of the body. */
  lemma PaddingKeeps(body: seq<Byte>)
    ensures PaddedFrom(Pad(body), |body|) && Pad(body)[..|body|] == body
    ensures |body| % 4 == 0 ==> Pad(body) == body
  {
  }

  lemma PrefixParts(b: seq<Byte>, r: seq<Byte>)
    requires |r| >= |b| && r[..|b|] == b
    ensures forall i, j :: 0 <= i <= j <= |b| ==> r[i..j] == b[i..j]
  {
    assert forall k :: 0 <= k < |b| ==> r[k] == r[..|b|][k];
  }

  lemma PaddedFileDesc(b: seq<Byte>, r: seq<Byte>, info: FileInfo)
    requires FileDescLayout(b, info) && |b| == 57 + |info.name| && |r| >= |b| && r[..|b|] == b
    ensures FileDescLayout(r, info)
  {
    hide FromBytes;
    PrefixParts(b, r);
    assert r[56 + |info.name|] == r[..|b|][56 + |info.name|];
  }

  lemma PaddedRecovery(b: seq<Byte>, r: seq<Byte>, exponent: nat, data: seq<Byte>)
    requires RecoveryLayout(b, exponent, data) && |r| >= |b| && r[..|b|] == b
    ensures RecoveryLayout(r, exponent, data)
  {
    hide FromBytes;
    PrefixParts(b, r);
  }

  lemma HeaderWritten(md5: Md5, setId: Id, w: Written)
    requires Fits(w)
    ensures var p := WrittenPacket(md5, setId, w);
            HeaderLayout(md5, p, setId, WrittenType(w)) && p[64..] == Pad(WrittenBody(w))
  {
    hide Packet, Pad, FromBytes, TypeBytes, TypeName, Magic, MagicBytes, WrittenBody;
    var (p, t) := (WrittenPacket(md5, setId, w), WrittenType(w));
    PacketLength(w);
    PacketFields(md5, t, setId, WrittenBody(w));
    TypeNameBytes(t);
    assert p[32..] == p[32..48] + p[48..64] + p[64..];
  }

  /** Every packet that is written has its layout. */
  lemma PacketWritten(md5: Md5, setId: Id, w: Written)
    requires Fits(w)
    ensures PacketLayout(md5, WrittenPacket(md5, setId, w), setId, w)
  {
    hide HeaderLayout, MainLayout, FileDescLayout, IfscLayout, RecoveryLayout, Pad, PaddedFrom, WrittenPacket,
         MainBody, FileDescBody, IfscBody, RecoveryBody, MainOrder, WrittenType;
    HeaderWritten(md5, setId, w);
    HeaderReaches(md5, WrittenPacket(md5, setId, w), setId, WrittenType(w));
    PaddingKeeps(WrittenBody(w));
    match w
    case WrittenMain(blockSize, ids) => MainWritten(blockSize, ids);
    case WrittenFileDesc(info) =>
      FileDescWritten(info);
      PaddedFileDesc(FileDescBody(info), Pad(FileDescBody(info)), info);
    case WrittenIfsc(id, sums) => IfscWritten(id, sums);
    case WrittenRecovery(exponent, data) =>
      RecoveryWritten(exponent, data);
      PaddedRecovery(RecoveryBody(exponent, data), Pad(RecoveryBody(exponent, data)), exponent, data);
    case WrittenCreator(text) =>
  }

  lemma HeaderReaches(md5: Md5, p: seq<Byte>, setId: Id, t: PacketType)
    requires t != UnknownType && HeaderLayout(md5, p, setId, t)
    ensures |p| >= 64
  {
  }

  // ----- what is parsed, from arbitrary bytes

  lemma {:induction false} IdsFromAt(b: seq<Byte>, off: nat, count: nat, i: nat)
    requires off <= |b|
    ensures |IdsFrom(b, off, count)| == Fewer(count, (|b| - off) / 16)
    ensures i < |IdsFrom(b, off, count)| ==>
              off + 16 * i + 16 <= |b| && IdsFrom(b, off, count)[i] == b[off + 16 * i..off + 16 * i + 16]
    decreases count
  {
    if count > 0 && off + 16 <= |b| {
      IdsFromAt(b, off + 16, count - 1, if i > 0 then i - 1 else 0);
      assert |b| - off == (|b| - (off + 16)) + 16;
    }
  }

  function Fewer(a: nat, b: nat): (m: nat)
    ensures m <= a && m <= b && (m == a || m == b)
  {
    if a < b then a else b
  }

  /** A Main body: the block size at 0, the count at 8, and as many IDs from 12 on as are counted and there. */
  lemma MainParsed(b: seq<Byte>)
    ensures ParseMain(b).Some? <==> |b| >= 8
    ensures ParseMain(b).Some? ==>
              var info := ParseMain(b).value;
              && info.blockSize == NumberAt(b, 0, 8)
              && |info.ids| == (if |b| < 12 then 0 else Fewer(NumberAt(b, 8, 4), (|b| - 12) / 16))
              && forall i :: 0 <= i < |info.ids| ==>
                   28 + 16 * i <= |b| && info.ids[i] == b[12 + 16 * i..28 + 16 * i]
  {
    hide FromBytes, IdsFrom;
    if |b| >= 12 {
      var count := NumberAt(b, 8, 4);
      IdsFromAt(b, 12, count, 0);
      assert b[..8] == b[0..8];
      forall i | 0 <= i < |IdsFrom(b, 12, count)|
        ensures 28 + 16 * i <= |b| && IdsFrom(b, 12, count)[i] == b[12 + 16 * i..28 + 16 * i]
      {
        IdsFromAt(b, 12, count, i);
      }
    } else if |b| >= 8 {
      assert b[..8] == b[0..8];
    }
  }

  lemma {:induction false} UntilZeroIs(bytes: seq<Byte>, name: seq<Byte>)
    ensures UntilZero(bytes) == name <==>
              |bytes| >= |name| && bytes[..|name|] == name && 0 !in name && (|bytes| > |name| ==> bytes[|name|] == 0)
  {
    if bytes != [] && bytes[0] != 0 {
      if name != [] {
        UntilZeroIs(bytes[1..], name[1..]);
        assert name == [name[0]] + name[1..];
        if |bytes| >= |name| {
          assert bytes[..|name|] == [bytes[0]] + bytes[1..][..|name| - 1];
        }
      }
    }
  }

  /** A file description is read exactly where the layout has it. */
  lemma FileDescParsed(b: seq<Byte>, info: FileInfo)
    ensures ParseFileDesc(b) == Some(info) <==> FileDescLayout(b, info)
    ensures ParseFileDesc(b).Some? <==> |b| >= 56
  {
    hide FromBytes, UntilZero;
    if |b| >= 56 {
      UntilZeroIs(b[56..], info.name);
      if |b| >= 56 + |info.name| {
        assert b[56..][..|info.name|] == b[56..56 + |info.name|];
      }
    }
  }

  lemma {:induction false} ChecksumsFromAt(b: seq<Byte>, off: nat, i: nat)
    requires off <= |b|
    ensures |ChecksumsFrom(b, off)| == (|b| - off) / 20
    ensures i < |ChecksumsFrom(b, off)| ==> ChecksumAt(b, off + 20 * i, ChecksumsFrom(b, off)[i])
    decreases |b| - off
  {
    hide FromBytes;
    ChecksumCount(b, off);
    if off + 20 <= |b| {
      ChecksumsFromAt(b, off + 20, if i > 0 then i - 1 else 0);
    }
  }

  /** A checksum body is read exactly where the layout has it. */
  lemma IfscParsed(b: seq<Byte>, id: Id, sums: seq<SliceChecksum>)
    ensures ParseIfsc(b) == Some(IfscInfo(id, sums)) <==> IfscLayout(b, id, sums)
    ensures ParseIfsc(b).Some? <==> |b| >= 16
  {
    hide FromBytes, ChecksumsFrom;
    if |b| >= 16 {
      assert b[..16] == b[0..16];
      var found := ChecksumsFrom(b, 16);
      ChecksumsFromAt(b, 16, 0);
      forall i | 0 <= i < |found|
        ensures ChecksumAt(b, 16 + 20 * i, found[i])
      {
        ChecksumsFromAt(b, 16, i);
      }
      if IfscLayout(b, id, sums) {
        forall i | 0 <= i < |found|
          ensures found[i] == sums[i]
        {
          assert ChecksumAt(b, 16 + 20 * i, found[i]) && ChecksumAt(b, 16 + 20 * i, sums[i]);
        }
        assert found == sums;
      }
    }
  }

  // ----- packets in a file

  /** A packet header of this type at pos, whose length the file has. */
  predicate PacketAt(file: seq<Byte>, pos: nat, t: PacketType)
    requires t != UnknownType
  {
    && pos + 64 <= |file| && file[pos..pos + 8] == MagicBytes()
    && 64 <= NumberAt(file, pos + 8, 8) <= |file| - pos && file[pos + 48..pos + 64] == TypeName(t)
  }

  function BodyAt(file: seq<Byte>, pos: nat): (b: seq<Byte>)
    requires pos + 64 <= |file| && 64 <= NumberAt(file, pos + 8, 8) <= |file| - pos
  {
    file[pos + 64..pos + NumberAt(file, pos + 8, 8)]
  }

  /** Its MD5 is right. */
  predicate IntactAt(md5: Md5, file: seq<Byte>, pos: nat, t: PacketType)
    requires t != UnknownType
  {
    PacketAt(file, pos, t) && md5(file[pos + 32..pos + NumberAt(file, pos + 8, 8)]) == file[pos + 16..pos + 32]
  }

  /** A packet of another type than recovery whose MD5 is wrong. */
  predicate IsCorrupt(md5: Md5, p: seq<Byte>) {
    && |p| >= 64 && |p| % 4 == 0 && p[0..8] == MagicBytes() && NumberAt(p, 8, 8) == |p|
    && p[48..64] != TypeName(RecoveryType) && md5(p[32..]) != p[16..32]
  }
}
