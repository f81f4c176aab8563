/**
 Packets as they are written (src/writer.rs) and the parsers of their bodies
 (src/parser.rs).  MD5 is an uninterpreted function from bytes to 16 bytes.
 */
module Packets {
  import opened Options
  import opened Bytes
  import opened LittleEndian
  import opened FileIds

  type Md5 = seq<Byte> -> Id

  datatype SliceChecksum = SliceChecksum(md5: Id, crc32: nat)

  datatype PacketType = MainType | FileDescType | IfscType | RecoveryType | CreatorType | UnknownType

  const U32: nat := 0x1_0000_0000
  const U64: nat := 0x1_0000_0000_0000_0000

  /** "PAR2\0PKT" */
  function Magic(): (m: seq<Byte>)
    ensures |m| == 8
  {
    [0x50, 0x41, 0x52, 0x32, 0x00, 0x50, 0x4B, 0x54]
  }

  /** "PAR 2.0\0", which starts every packet type */
  function TypePrefix(): (m: seq<Byte>)
    ensures |m| == 8
  {
    [0x50, 0x41, 0x52, 0x20, 0x32, 0x2E, 0x30, 0x00]
  }

  function TypeSuffix(t: PacketType): (m: seq<Byte>)
    requires t != UnknownType
    ensures |m| == 8
  {
    match t
    case MainType => [0x4D, 0x61, 0x69, 0x6E, 0x00, 0x00, 0x00, 0x00]
    case FileDescType => [0x46, 0x69, 0x6C, 0x65, 0x44, 0x65, 0x73, 0x63]
    case IfscType => [0x49, 0x46, 0x53, 0x43, 0x00, 0x00, 0x00, 0x00]
    case RecoveryType => [0x52, 0x65, 0x63, 0x76, 0x53, 0x6C, 0x69, 0x63]
    case CreatorType => [0x43, 0x72, 0x65, 0x61, 0x74, 0x6F, 0x72, 0x00]
  }

  function TypeBytes(t: PacketType): Id
    requires t != UnknownType
  {
    TypePrefix() + TypeSuffix(t)
  }

  /** PacketType::from_bytes */
  function TypeOf(id: Id): PacketType {
    if id == TypeBytes(MainType) then MainType
    else if id == TypeBytes(FileDescType) then FileDescType
    else if id == TypeBytes(IfscType) then IfscType
    else if id == TypeBytes(RecoveryType) then RecoveryType
    else if id == TypeBytes(CreatorType) then CreatorType
    else UnknownType
  }

  /** The five types are told apart by the ninth and tenth bytes. */
  lemma TypeRoundTrip(t: PacketType)
    requires t != UnknownType
    ensures TypeOf(TypeBytes(t)) == t
  {
    assert TypeBytes(MainType)[8] == 0x4D && TypeBytes(FileDescType)[8] == 0x46 && TypeBytes(IfscType)[8] == 0x49;
    assert TypeBytes(RecoveryType)[8] == 0x52 && TypeBytes(CreatorType)[8] == 0x43;
  }

  // ----- bodies

  function Concat(ids: seq<Id>): (r: seq<Byte>)
    ensures |r| == 16 * |ids|
  {
    if ids == [] then [] else ids[0] + Concat(ids[1..])
  }

  /** build_main_packet_body: block size, count, and the IDs in canonical order. */
  function MainBody(blockSize: nat, ids: seq<Id>): seq<Byte> {
    ToLittleEndian(blockSize, 8) + ToLittleEndian(|ids|, 4) + Concat(MainOrder(ids))
  }

  function FileDescBody(info: FileInfo): seq<Byte> {
    info.id + info.hash + info.hash16k + ToLittleEndian(info.length, 8) + info.name + [0]
  }

  function ConcatChecksums(sums: seq<SliceChecksum>): (r: seq<Byte>)
    ensures |r| == 20 * |sums|
  {
    if sums == [] then [] else sums[0].md5 + ToLittleEndian(sums[0].crc32, 4) + ConcatChecksums(sums[1..])
  }

  function IfscBody(id: Id, sums: seq<SliceChecksum>): seq<Byte> {
    id + ConcatChecksums(sums)
  }

  function RecoveryBody(exponent: nat, data: seq<Byte>): seq<Byte> {
    ToLittleEndian(exponent, 4) + data
  }

  /** How many bytes are missing to a multiple of four. */
  function ToAlignment(n: nat): (m: nat)
    ensures m == 0 <==> n % 4 == 0
  {
    if n % 4 == 0 then 0 else 4 - n % 4
  }

  lemma OneByteMore(n: nat)
    requires n % 4 != 0
    ensures ToAlignment(n + 1) == ToAlignment(n) - 1
  {
  }

  lemma ShorterPrefix(r: seq<Byte>, body: seq<Byte>)
    requires |r| > |body| && r[..|body| + 1] == body + [0]
    ensures r[..|body|] == body && r[|body|] == 0
  {
    assert r[..|body|] == r[..|body| + 1][..|body|];
    assert r[|body|] == r[..|body| + 1][|body|];
  }

  /** pad_to_alignment */
  function Pad(body: seq<Byte>): (r: seq<Byte>)
    ensures |r| % 4 == 0 && |body| <= |r| < |body| + 4 && r[..|body|] == body
    ensures forall i :: |body| <= i < |r| ==> r[i] == 0
    decreases ToAlignment(|body|)
  {
    if |body| % 4 == 0 then body
    else
      OneByteMore(|body|);
      var r := Pad(body + [0]);
      ShorterPrefix(r, body);
      r
  }

  /** write_packet: header and padded body. */
  function Packet(md5: Md5, t: PacketType, setId: Id, body: seq<Byte>): (r: seq<Byte>)
    requires t != UnknownType
    ensures |r| == 64 + |Pad(body)|
  {
    Magic() + ToLittleEndian(64 + |Pad(body)|, 8) + md5(setId + TypeBytes(t) + Pad(body)) + setId + TypeBytes(t)
      + Pad(body)
  }

  // ----- the loops of the writer

  method PadToAlignment(data: seq<Byte>) returns (padded: seq<Byte>)
    ensures padded == Pad(data)
  {
    hide ToAlignment;
    padded := data;
    while |padded| % 4 != 0
      invariant Pad(padded) == Pad(data)
      decreases ToAlignment(|padded|)
    {
      OneByteMore(|padded|);
      padded := padded + [0];
    }
  }

  lemma Associative<T>(a: seq<T>, b: seq<T>, c: seq<T>)
    ensures (a + b) + c == a + (b + c)
  {
  }

  lemma {:induction false} ConcatSplit(a: seq<Id>, b: seq<Id>)
    ensures Concat(a + b) == Concat(a) + Concat(b)
  {
    if a == [] {
      assert a + b == b;
    } else {
      ConcatSplit(a[1..], b);
      assert (a + b)[1..] == a[1..] + b;
      Associative(a[0], Concat(a[1..]), Concat(b));
    }
  }

  lemma {:induction false} ConcatChecksumsSplit(a: seq<SliceChecksum>, b: seq<SliceChecksum>)
    ensures ConcatChecksums(a + b) == ConcatChecksums(a) + ConcatChecksums(b)
  {
    hide ToLittleEndian;
    if a == [] {
      assert a + b == b;
    } else {
      ConcatChecksumsSplit(a[1..], b);
      assert (a + b)[1..] == a[1..] + b;
      Associative(a[0].md5 + ToLittleEndian(a[0].crc32, 4), ConcatChecksums(a[1..]), ConcatChecksums(b));
    }
  }

  lemma NoIds()
    ensures Concat([]) == []
  {
  }

  lemma OneId(id: Id)
    ensures Concat([id]) == id
  {
  }

  /** None when there are too many files for the 32-bit count. */
  method BuildMainPacketBody(blockSize: nat, ids: seq<Id>) returns (r: Option<seq<Byte>>)
    ensures r == if |ids| < U32 then Some(MainBody(blockSize, ids)) else None
  {
    hide ToLittleEndian, MainOrder, Concat;
    if |ids| >= U32 {
      return None;
    }
    NoIds();
    var body := ToLittleEndian(blockSize, 8) + ToLittleEndian(|ids|, 4);
    var sortedIds := MainOrder(ids);
    for i := 0 to |sortedIds|
      invariant body == ToLittleEndian(blockSize, 8) + ToLittleEndian(|ids|, 4) + Concat(sortedIds[..i])
    {
      assert sortedIds[..i + 1] == sortedIds[..i] + [sortedIds[i]];
      ConcatSplit(sortedIds[..i], [sortedIds[i]]);
      OneId(sortedIds[i]);
      body := body + sortedIds[i];
    }
    assert sortedIds[..|sortedIds|] == sortedIds;
    return Some(body);
  }

  method BuildIfscBody(id: Id, sums: seq<SliceChecksum>) returns (body: seq<Byte>)
    ensures body == IfscBody(id, sums)
  {
    body := id;
    for i := 0 to |sums|
      invariant body == id + ConcatChecksums(sums[..i])
    {
      assert sums[..i + 1] == sums[..i] + [sums[i]];
      ConcatChecksumsSplit(sums[..i], [sums[i]]);
      assert ConcatChecksums([sums[i]]) == sums[i].md5 + ToLittleEndian(sums[i].crc32, 4);
      body := body + sums[i].md5;
      body := body + ToLittleEndian(sums[i].crc32, 4);
    }
    assert sums[..|sums|] == sums;
  }

  // ----- parsing

  /** The IDs from offset off on, at most count, as far as the body reaches. */
  function IdsFrom(body: seq<Byte>, off: nat, count: nat): seq<Id>
    decreases count
  {
    if count == 0 || off + 16 > |body| then [] else [body[off..off + 16]] + IdsFrom(body, off + 16, count - 1)
  }

  datatype MainInfo = MainInfo(blockSize: nat, ids: seq<Id>)

  /** complete_main_packet */
  function ParseMain(body: seq<Byte>): Option<MainInfo> {
    if |body| < 8 then None
    else Some(MainInfo(FromBytes(body[..8]), if |body| >= 12 then IdsFrom(body, 12, FromBytes(body[8..12])) else []))
  }

  /** The bytes before the first zero. */
  function UntilZero(bytes: seq<Byte>): seq<Byte> {
    if bytes == [] || bytes[0] == 0 then [] else [bytes[0]] + UntilZero(bytes[1..])
  }

  /** parse_file_desc_from_body */
  function ParseFileDesc(body: seq<Byte>): Option<FileInfo> {
    if |body| < 56 then None
    else Some(FileInfo(body[0..16], body[16..32], body[32..48], FromBytes(body[48..56]), UntilZero(body[56..])))
  }

  function ChecksumsFrom(body: seq<Byte>, off: nat): seq<SliceChecksum>
    decreases |body| - off
  {
    if off + 20 > |body| then []
    else [SliceChecksum(body[off..off + 16], FromBytes(body[off + 16..off + 20]))] + ChecksumsFrom(body, off + 20)
  }

  datatype IfscInfo = IfscInfo(id: Id, checksums: seq<SliceChecksum>)

  /** parse_ifsc_from_body; an incomplete last entry is dropped. */
  function ParseIfsc(body: seq<Byte>): Option<IfscInfo> {
    if |body| < 16 then None else Some(IfscInfo(body[..16], ChecksumsFrom(body, 16)))
  }

  /** The loop over the count, which ends early when the body does. */
  method ReadIds(body: seq<Byte>, count: nat) returns (ids: seq<Id>)
    ensures ids == IdsFrom(body, 12, count)
  {
    ids := [];
    var off := 12;
    var i := 0;
    while i < count
      invariant i <= count
      invariant IdsFrom(body, 12, count) == ids + IdsFrom(body, off, count - i)
    {
      if off + 16 > |body| {
        break;
      }
      ids := ids + [body[off..off + 16]];
      off := off + 16;
      i := i + 1;
    }
  }

  lemma {:induction false} ChecksumCount(body: seq<Byte>, off: nat)
    requires off <= |body|
    ensures |ChecksumsFrom(body, off)| == (|body| - off) / 20
    decreases |body| - off
  {
    if off + 20 <= |body| {
      ChecksumCount(body, off + 20);
      assert |body| - off == (|body| - (off + 20)) + 20;
    }
  }

  lemma ChecksumNext(body: seq<Byte>, off: nat)
    requires off + 20 <= |body|
    ensures ChecksumsFrom(body, off)
         == [SliceChecksum(body[off..off + 16], FromBytes(body[off + 16..off + 20]))] + ChecksumsFrom(body, off + 20)
  {
    hide FromBytes;
  }

  lemma ChecksumsEnd(body: seq<Byte>, off: nat)
    ensures off + 20 > |body| ==> ChecksumsFrom(body, off) == []
  {
  }

  method ReadChecksums(body: seq<Byte>) returns (checksums: seq<SliceChecksum>)
    requires |body| >= 16
    ensures checksums == ChecksumsFrom(body, 16)
  {
    hide FromBytes, ChecksumsFrom;
    checksums := [];
    var count := (|body| - 16) / 20;
    ChecksumsEnd(body, 16 + count * 20);
    for i := 0 to count
      invariant ChecksumsFrom(body, 16) == checksums + ChecksumsFrom(body, 16 + i * 20)
    {
      var offset := 16 + i * 20;
      assert i * 20 + 20 <= count * 20;
      ChecksumNext(body, offset);
      checksums := checksums + [SliceChecksum(body[offset..offset + 16], FromBytes(body[offset + 16..offset + 20]))];
    }
  }

  // ----- what was written is parsed back

  lemma {:induction false} IdsReadBack(pre: seq<Byte>, ids: seq<Id>, post: seq<Byte>)
    ensures IdsFrom(pre + Concat(ids) + post, |pre|, |ids|) == ids
    decreases |ids|
  {
    if ids != [] {
      var body := pre + Concat(ids) + post;
      assert body == (pre + ids[0]) + Concat(ids[1..]) + post;
      IdsReadBack(pre + ids[0], ids[1..], post);
      assert body[|pre|..|pre| + 16] == ids[0];
    }
  }

  lemma PowersOf256()
    ensures Power256(4) == U32 && Power256(8) == U64
  {
    assert Power256(4) == U32;
    assert Power256(8) == U32 * Power256(4);
  }

  lemma SortedCount(ids: seq<Id>)
    ensures |MainOrder(ids)| == |ids|
  {
    SortAscends(ids, IdValue);
    SameLength(MainOrder(ids), ids);
  }

  lemma MainReadBack(blockSize: nat, ids: seq<Id>)
    requires blockSize < U64 && |ids| < U32
    ensures ParseMain(Pad(MainBody(blockSize, ids))) == Some(MainInfo(blockSize, MainOrder(ids)))
  {
    hide ToLittleEndian, FromBytes, MainOrder, Power256;
    PowersOf256();
    SortedCount(ids);
    var (b, c) := (ToLittleEndian(blockSize, 8), ToLittleEndian(|ids|, 4));
    ReadBack(blockSize, 8);
    ReadBack(|ids|, 4);
    var body := Pad(MainBody(blockSize, ids));
    var rest := body[|MainBody(blockSize, ids)|..];
    assert body == MainBody(blockSize, ids) + rest;
    assert body == (b + c) + Concat(MainOrder(ids)) + rest;
    IdsReadBack(b + c, MainOrder(ids), rest);
    assert body[..8] == b && body[8..12] == c;
  }

  lemma {:induction false} UntilZeroName(name: seq<Byte>, rest: seq<Byte>)
    requires 0 !in name
    ensures UntilZero(name + [0] + rest) == name
  {
    if name == [] {
      assert (name + [0] + rest)[0] == 0;
    } else {
      assert (name + [0] + rest)[1..] == name[1..] + [0] + rest;
      UntilZeroName(name[1..], rest);
    }
  }

  lemma FileDescReadBack(info: FileInfo)
    requires info.length < U64 && 0 !in info.name
    ensures ParseFileDesc(Pad(FileDescBody(info))) == Some(info)
  {
    hide ToLittleEndian, FromBytes, Power256;
    PowersOf256();
    ReadBack(info.length, 8);
    var body := Pad(FileDescBody(info));
    var rest := body[|FileDescBody(info)|..];
    assert body == FileDescBody(info) + rest;
    assert body[0..16] == info.id && body[16..32] == info.hash && body[32..48] == info.hash16k;
    assert body[48..56] == ToLittleEndian(info.length, 8);
    assert body[56..] == info.name + [0] + rest;
    UntilZeroName(info.name, rest);
  }

  lemma {:induction false} ChecksumsReadBack(pre: seq<Byte>, sums: seq<SliceChecksum>, cut: seq<Byte>)
    requires (forall i :: 0 <= i < |sums| ==> sums[i].crc32 < U32) && |cut| < 20
    ensures ChecksumsFrom(pre + ConcatChecksums(sums) + cut, |pre|) == sums
    decreases |sums|
  {
    hide ToLittleEndian, FromBytes, Power256;
    if sums == [] {
      assert pre + ConcatChecksums(sums) == pre;
    } else {
      var first := sums[0].md5 + ToLittleEndian(sums[0].crc32, 4);
      var body := pre + ConcatChecksums(sums) + cut;
      assert body == (pre + first) + ConcatChecksums(sums[1..]) + cut;
      ChecksumsReadBack(pre + first, sums[1..], cut);
      PowersOf256();
      ReadBack(sums[0].crc32, 4);
      assert body[|pre|..|pre| + 16] == sums[0].md5;
      assert body[|pre| + 16..|pre| + 20] == ToLittleEndian(sums[0].crc32, 4);
    }
  }

  /** Entries are 20 bytes, so the body is not padded and no entry is added or lost. */
  lemma IfscReadBack(id: Id, sums: seq<SliceChecksum>)
    requires forall i :: 0 <= i < |sums| ==> sums[i].crc32 < U32
    ensures ParseIfsc(Pad(IfscBody(id, sums))) == Some(IfscInfo(id, sums))
  {
    assert |IfscBody(id, sums)| % 4 == 0;
    ChecksumsReadBack(id, sums, []);
    assert id + ConcatChecksums(sums) + [] == IfscBody(id, sums);
  }

  /** A body that ends inside an entry is parsed without that entry: this is how a list comes to be too short. */
  lemma CutIfscParsed(id: Id, sums: seq<SliceChecksum>, cut: seq<Byte>)
    requires (forall i :: 0 <= i < |sums| ==> sums[i].crc32 < U32) && |cut| < 20
    ensures ParseIfsc(IfscBody(id, sums) + cut) == Some(IfscInfo(id, sums))
  {
    ChecksumsReadBack(id, sums, cut);
    assert (IfscBody(id, sums) + cut)[..16] == id;
  }
}
