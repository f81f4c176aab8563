/**
 The packet scan of `Par2File::load` (src/parser.rs): it looks for the magic byte by byte,
 checks each packet it finds, and collects what the packets say.

 `ScanWritten` is the main result: whatever the writer wrote, with any bytes that contain no
 magic in between, the scan visits exactly the packets and takes from each what was put in.
 */
module Scanner {
  import opened Options
  import opened Bytes
  import opened LittleEndian
  import opened FileIds
  import opened Packets

  /** Where the data of a recovery block lies. */
  datatype RecoveryRef = RecoveryRef(exponent: nat, dataOffset: nat, dataLength: nat)

  /** A recovery packet seen before the block size was known. */
  datatype Deferred = Deferred(position: nat, length: nat)

  datatype State = State(
    setId: Id,
    blockSize: nat,
    files: map<Id, FileInfo>,
    filesInOrder: seq<FileInfo>,
    recoveries: seq<RecoveryRef>,
    checksums: map<Id, seq<SliceChecksum>>,
    mainOrder: seq<Id>,
    deferred: seq<Deferred>)

  function ZeroId(): Id {
    seq(16, _ => 0)
  }

  function Start(): State {
    State(ZeroId(), 0, map[], [], [], map[], [], [])
  }

  // ----- one step

  function HeaderAt(file: seq<Byte>, pos: nat): (h: seq<Byte>)
    requires pos + 64 <= |file|
    ensures |h| == 64
  {
    file[pos..pos + 64]
  }

  function HeaderLength(h: seq<Byte>): nat
    requires |h| == 64
  {
    FromBytes(h[8..16])
  }

  /** Packets are padded to a multiple of four. */
  function Aligned(pos: nat, length: nat): (next: nat)
    ensures pos + length <= next < pos + length + 4 && (next - pos) % 4 == 0
  {
    pos + length + if length % 4 != 0 then 4 - length % 4 else 0
  }

  /** What a packet other than a recovery packet changes. */
  function Apply(st: State, t: PacketType, body: seq<Byte>): State {
    match t
    case MainType =>
      (match ParseMain(body)
       case Some(info) =>
         st.(blockSize := info.blockSize, mainOrder := if st.mainOrder == [] then info.ids else st.mainOrder)
       case None => st)
    case FileDescType =>
      (match ParseFileDesc(body)
       case Some(info) =>
         st.(files := st.files[info.id := info],
             filesInOrder := if info.id in st.files then st.filesInOrder else st.filesInOrder + [info])
       case None => st)
    case IfscType =>
      (match ParseIfsc(body)
       case Some(info) => st.(checksums := st.checksums[info.id := info.checksums])
       case None => st)
    case _ => st
  }

  datatype Step = Step(next: nat, st: State)

  /** The packet of the given length at pos, whose header has been accepted. */
  function PacketStep(md5: Md5, file: seq<Byte>, pos: nat, st: State): (r: Step)
    requires pos + 64 <= |file| && 64 <= HeaderLength(HeaderAt(file, pos)) <= |file| - pos
    ensures r.next > pos
  {
    var h := HeaderAt(file, pos);
    var length := HeaderLength(h);
    var next := Aligned(pos, length);
    if TypeOf(h[48..64]) == RecoveryType then
      if st.blockSize == 0 then Step(next, st.(deferred := st.deferred + [Deferred(pos, length)]))
      else if length < 68 then Step(pos + 1, st)
      else
        var ref := RecoveryRef(FromBytes(file[pos + 64..pos + 68]), pos + 68, st.blockSize);
        Step(next, st.(recoveries := st.recoveries + [ref]))
    else
      var body := file[pos + 64..pos + length];
      if md5(h[32..48] + h[48..64] + body) != h[16..32] then Step(next, st)
      else Step(next, Apply(st, TypeOf(h[48..64]), body))
  }

  /** None ends the scan: fewer than 64 bytes are left. */
  function NextStep(md5: Md5, file: seq<Byte>, pos: nat, st: State): (r: Option<Step>)
    requires pos <= |file|
    ensures r.Some? ==> r.value.next > pos
  {
    if |file| - pos < 64 then None
    else
      var h := HeaderAt(file, pos);
      if h[0..8] != Magic() then Some(Step(pos + 1, st))
      else
        var st' := if st.setId == ZeroId() then st.(setId := h[32..48]) else st;
        var length := HeaderLength(h);
        if length < 64 || length > |file| - pos then Some(Step(pos + 1, st'))
        else Some(PacketStep(md5, file, pos, st'))
  }

  /** The scan from position pos on. */
  function Scan(md5: Md5, file: seq<Byte>, pos: nat, st: State): State
    decreases |file| - pos
  {
    if pos >= |file| then st
    else
      match NextStep(md5, file, pos, st)
      case None => st
      case Some(step) => Scan(md5, file, step.next, step.st)
  }

  /** The loop; the position is a termination measure on every input. */
  method ScanLoop(md5: Md5, file: seq<Byte>) returns (st: State)
    ensures st == Scan(md5, file, 0, Start())
  {
    hide NextStep;
    st := Start();
    var position := 0;
    while position < |file|
      invariant Scan(md5, file, position, st) == Scan(md5, file, 0, Start())
      decreases |file| - position
    {
      var step := NextStep(md5, file, position, st);
      if step.None? {
        break;
      }
      position, st := step.value.next, step.value.st;
    }
  }

  // ----- what the writer writes

  datatype Written =
    | WrittenMain(blockSize: nat, ids: seq<Id>)
    | WrittenFileDesc(info: FileInfo)
    | WrittenIfsc(id: Id, checksums: seq<SliceChecksum>)
    | WrittenRecovery(exponent: nat, data: seq<Byte>)
    | WrittenCreator(text: seq<Byte>)

  /** All fields fit, and names have no zero byte. */
  predicate Fits(w: Written) {
    match w
    case WrittenMain(blockSize, ids) => blockSize < U64 && |ids| < U32
    case WrittenFileDesc(info) => info.length < U64 && 0 !in info.name && |info.name| < U32
    case WrittenIfsc(_, checksums) => |checksums| < U32 && forall i :: 0 <= i < |checksums| ==> checksums[i].crc32 < U32
    case WrittenRecovery(exponent, data) => exponent < U32 && |data| < U64 - 128
    case WrittenCreator(text) => |text| < U32
  }

  function WrittenType(w: Written): (t: PacketType)
    ensures t != UnknownType
  {
    match w
    case WrittenMain(_, _) => MainType
    case WrittenFileDesc(_) => FileDescType
    case WrittenIfsc(_, _) => IfscType
    case WrittenRecovery(_, _) => RecoveryType
    case WrittenCreator(_) => CreatorType
  }

  function WrittenBody(w: Written): seq<Byte> {
    match w
    case WrittenMain(blockSize, ids) => MainBody(blockSize, ids)
    case WrittenFileDesc(info) => FileDescBody(info)
    case WrittenIfsc(id, checksums) => IfscBody(id, checksums)
    case WrittenRecovery(exponent, data) => RecoveryBody(exponent, data)
    case WrittenCreator(text) => text
  }

  function WrittenPacket(md5: Md5, setId: Id, w: Written): (r: seq<Byte>)
    ensures |r| >= 64
  {
    Packet(md5, WrittenType(w), setId, WrittenBody(w))
  }

  /** What the scan takes from a packet written at pos. */
  function Taken(st: State, setId: Id, w: Written, pos: nat): State {
    var st' := if st.setId == ZeroId() then st.(setId := setId) else st;
    match w
    case WrittenMain(blockSize, ids) =>
      st'.(blockSize := blockSize, mainOrder := if st.mainOrder == [] then MainOrder(ids) else st.mainOrder)
    case WrittenFileDesc(info) =>
      st'.(files := st.files[info.id := info],
           filesInOrder := if info.id in st.files then st.filesInOrder else st.filesInOrder + [info])
    case WrittenIfsc(id, checksums) => st'.(checksums := st.checksums[id := checksums])
    case WrittenRecovery(exponent, data) =>
      if st.blockSize == 0 then st'.(deferred := st.deferred
                                     + [Deferred(pos, 64 + |Pad(RecoveryBody(exponent, data))|)])
      else st'.(recoveries := st.recoveries + [RecoveryRef(exponent, pos + 68, st.blockSize)])
    case WrittenCreator(_) => st'
  }

  function EightAt(g: seq<Byte>, i: nat): seq<Byte>
    requires i + 8 <= |g|
  {
    g[i..i + 8]
  }

  /** Bytes in which no packet can be seen. */
  predicate NoMagic(g: seq<Byte>) {
    forall i :: 0 <= i <= |g| - 8 ==> EightAt(g, i) != Magic()
  }

  /** A packet after some other bytes. */
  datatype Segment = Segment(garbage: seq<Byte>, packet: Written)

  function Stream(md5: Md5, setId: Id, segments: seq<Segment>, tail: seq<Byte>): seq<Byte> {
    if segments == [] then tail
    else segments[0].garbage + WrittenPacket(md5, setId, segments[0].packet) + Stream(md5, setId, segments[1..], tail)
  }

  function TakenAll(md5: Md5, st: State, setId: Id, segments: seq<Segment>, pos: nat): State
    decreases |segments|
  {
    if segments == [] then st
    else
      var at := pos + |segments[0].garbage|;
      var end := at + |WrittenPacket(md5, setId, segments[0].packet)|;
      TakenAll(md5, Taken(st, setId, segments[0].packet, at), setId, segments[1..], end)
  }

  // ----- the scan of a packet

  lemma MagicHasNoBorder(m: seq<Byte>, k: nat)
    requires m == Magic() && 0 < k < 8
    ensures m[k..] != m[..8 - k]
  {
    assert m[k..][0] == m[k] && m[..8 - k][0] == 0x50;
    if k == 5 {
      assert m[k..][1] == 0x4B && m[..8 - k][1] == 0x41;
    }
  }

  /** The fields of a packet's header. */
  lemma PacketFields(md5: Md5, t: PacketType, setId: Id, body: seq<Byte>)
    requires t != UnknownType && 64 + |Pad(body)| < U64
    ensures var p := Packet(md5, t, setId, body);
            && p[0..8] == Magic() && FromBytes(p[8..16]) == |p|
            && p[16..32] == md5(setId + TypeBytes(t) + Pad(body)) && p[32..48] == setId && p[48..64] == TypeBytes(t)
            && p[64..] == Pad(body)
  {
    hide ToLittleEndian, FromBytes, Power256, Magic, TypeBytes, Pad;
    PowersOf256();
    ReadBack(64 + |Pad(body)|, 8);
    var (m, l, i) := (Magic(), ToLittleEndian(64 + |Pad(body)|, 8), TypeBytes(t));
    var d := md5(setId + i + Pad(body));
    var p := Packet(md5, t, setId, body);
    assert p == m + l + d + setId + i + Pad(body);
    assert p[8..16] == l;
  }

  /** The body of a written packet, padded, is parsed to what was written. */
  lemma AppliedBody(st: State, setId: Id, w: Written, pos: nat)
    requires Fits(w) && !w.WrittenRecovery?
    ensures var st' := if st.setId == ZeroId() then st.(setId := setId) else st;
            Apply(st', WrittenType(w), Pad(WrittenBody(w))) == Taken(st, setId, w, pos)
  {
    hide MainOrder, ParseMain, ParseFileDesc, ParseIfsc, MainBody, FileDescBody, IfscBody, Pad, ZeroId;
    match w
    case WrittenMain(blockSize, ids) => MainReadBack(blockSize, ids);
    case WrittenFileDesc(info) => FileDescReadBack(info);
    case WrittenIfsc(id, checksums) => IfscReadBack(id, checksums);
    case WrittenCreator(text) =>
  }

  lemma PacketLength(w: Written)
    requires Fits(w)
    ensures 64 + |Pad(WrittenBody(w))| < U64 && |Pad(WrittenBody(w))| % 4 == 0
    ensures w.WrittenRecovery? ==> |Pad(WrittenBody(w))| >= 4
  {
    hide Pad;
    match w
    case WrittenMain(blockSize, ids) => SortedCount(ids);
    case _ =>
  }

  /** One written packet is one step, and the step takes what was written. */
  lemma PacketScanned(md5: Md5, file: seq<Byte>, pre: seq<Byte>, setId: Id, w: Written, post: seq<Byte>, st: State)
    requires Fits(w) && file == pre + WrittenPacket(md5, setId, w) + post
    ensures NextStep(md5, file, |pre|, st)
            == Some(Step(|pre| + |WrittenPacket(md5, setId, w)|, Taken(st, setId, w, |pre|)))
  {
    hide Packet, Pad, WrittenBody, WrittenType, TypeBytes, TypeOf, Magic, Apply, Taken, FromBytes, ZeroId;
    var p := WrittenPacket(md5, setId, w);
    var (t, body, pos) := (WrittenType(w), Pad(WrittenBody(w)), |pre|);
    PacketLength(w);
    PacketFields(md5, t, setId, WrittenBody(w));
    TypeRoundTrip(t);
    var h := HeaderAt(file, pos);
    assert h == p[..64];
    assert h[0..8] == p[0..8] && h[8..16] == p[8..16] && h[16..32] == p[16..32] && h[32..48] == p[32..48]
           && h[48..64] == p[48..64];
    assert file[pos + 64..pos + |p|] == p[64..];
    var st' := if st.setId == ZeroId() then st.(setId := h[32..48]) else st;
    assert NextStep(md5, file, pos, st) == Some(PacketStep(md5, file, pos, st'));
    assert Aligned(pos, |p|) == pos + |p|;
    if w.WrittenRecovery? {
      assert file[pos + 64..pos + 68] == body[..4];
      RecoveryTaken(md5, file, pos, st', st, setId, w, body, t);
    } else {
      AppliedBody(st, setId, w, pos);
      OtherType(w);
    }
  }

  lemma OtherType(w: Written)
    requires !w.WrittenRecovery?
    ensures WrittenType(w) != RecoveryType
  {
  }

  lemma RecoveryTaken(md5: Md5, file: seq<Byte>, pos: nat, st': State, st: State, setId: Id, w: Written,
                      body: seq<Byte>, t: PacketType)
    requires Fits(w) && w.WrittenRecovery? && body == Pad(WrittenBody(w)) && t == WrittenType(w)
    requires pos + 64 + |body| <= |file| && |body| >= 4 && |body| % 4 == 0
    requires HeaderLength(HeaderAt(file, pos)) == 64 + |body| && TypeOf(HeaderAt(file, pos)[48..64]) == t
    requires file[pos + 64..pos + 68] == body[..4]
    requires st' == if st.setId == ZeroId() then st.(setId := setId) else st
    ensures PacketStep(md5, file, pos, st') == Step(pos + 64 + |body|, Taken(st, setId, w, pos))
  {
    hide Pad, FromBytes, ToLittleEndian, Power256, HeaderAt, HeaderLength, TypeOf;
    PowersOf256();
    ReadBack(w.exponent, 4);
    assert body[..4] == WrittenBody(w)[..4] == ToLittleEndian(w.exponent, 4);
  }

  // ----- the bytes between packets

  lemma NotMagicHere(g: seq<Byte>, rest: seq<Byte>)
    requires g != [] && NoMagic(g) && |g + rest| >= 8
    requires rest == [] || (|rest| >= 8 && rest[..8] == Magic())
    ensures (g + rest)[0..8] != Magic()
  {
    hide Magic;
    if |g| >= 8 {
      assert (g + rest)[0..8] == EightAt(g, 0);
    } else {
      var k := |g|;
      var m := Magic();
      MagicHasNoBorder(m, k);
      assert (g + rest)[0..8][k..] == rest[..8 - k] == rest[..8][..8 - k];
    }
  }

  lemma NoMagicTail(g: seq<Byte>)
    requires g != [] && NoMagic(g)
    ensures NoMagic(g[1..])
  {
    hide Magic;
    forall i | 0 <= i <= |g[1..]| - 8
      ensures EightAt(g[1..], i) != Magic()
    {
      assert EightAt(g[1..], i) == EightAt(g, i + 1);
    }
  }

  lemma FirstMoves(pre: seq<Byte>, g: seq<Byte>, rest: seq<Byte>)
    requires g != []
    ensures pre + g + rest == (pre + [g[0]]) + g[1..] + rest
  {
    assert g == [g[0]] + g[1..];
  }

  lemma TooShort(md5: Md5, file: seq<Byte>, pos: nat, st: State)
    requires pos <= |file| < pos + 64
    ensures NextStep(md5, file, pos, st) == None
  {
  }

  lemma StepOverByte(md5: Md5, file: seq<Byte>, pos: nat, st: State)
    requires pos + 64 <= |file| && file[pos..pos + 8] != Magic()
    ensures NextStep(md5, file, pos, st) == Some(Step(pos + 1, st))
  {
    hide Magic, PacketStep;
    assert HeaderAt(file, pos)[0..8] == file[pos..pos + 8];
  }

  /** The scan passes over bytes without magic, up to the next packet or the end. */
  lemma {:induction false} GarbageSkipped(md5: Md5, file: seq<Byte>, pre: seq<Byte>, g: seq<Byte>,
                                          rest: seq<Byte>, st: State)
    requires file == pre + g + rest && NoMagic(g)
    requires rest == [] || (|rest| >= 64 && rest[..8] == Magic())
    ensures Scan(md5, file, |pre|, st) == Scan(md5, file, |pre| + |g|, st)
    decreases |g|
  {
    hide Magic, NoMagic, NextStep;
    if g != [] {
      if |file| - |pre| < 64 {
        TooShort(md5, file, |pre|, st);
        assert Scan(md5, file, |pre| + |g|, st) == st;
      } else {
        NotMagicHere(g, rest);
        assert file[|pre|..|pre| + 8] == (g + rest)[0..8];
        StepOverByte(md5, file, |pre|, st);
        NoMagicTail(g);
        FirstMoves(pre, g, rest);
        GarbageSkipped(md5, file, pre + [g[0]], g[1..], rest, st);
      }
    }
  }

  /** The scan of a written stream visits exactly its packets and takes what was written. */
  lemma {:induction false} ScanWritten(md5: Md5, file: seq<Byte>, pre: seq<Byte>, setId: Id,
                                       segments: seq<Segment>, tail: seq<Byte>, st: State)
    requires file == pre + Stream(md5, setId, segments, tail)
    requires NoMagic(tail)
    requires forall i :: 0 <= i < |segments| ==> Fits(segments[i].packet) && NoMagic(segments[i].garbage)
    ensures Scan(md5, file, |pre|, st) == TakenAll(md5, st, setId, segments, |pre|)
    decreases |segments|
  {
    hide NoMagic, NextStep, WrittenPacket, Taken, Fits, Magic;
    if segments == [] {
      assert file == pre + tail + [];
      GarbageSkipped(md5, file, pre, tail, [], st);
    } else {
      var (g, w) := (segments[0].garbage, segments[0].packet);
      var p := WrittenPacket(md5, setId, w);
      var post := Stream(md5, setId, segments[1..], tail);
      var rest := p + post;
      assert file == pre + g + rest;
      StartsWithMagic(md5, setId, w);
      assert rest[..8] == p[..8];
      GarbageSkipped(md5, file, pre, g, rest, st);
      var pre' := pre + g;
      assert file == pre' + p + post;
      PacketScanned(md5, file, pre', setId, w, post, st);
      assert file == (pre' + p) + post;
      ScanWritten(md5, file, pre' + p, setId, segments[1..], tail, Taken(st, setId, w, |pre'|));
    }
  }

  lemma StartsWithMagic(md5: Md5, setId: Id, w: Written)
    ensures WrittenPacket(md5, setId, w)[..8] == Magic()
  {
    hide Magic, ToLittleEndian, TypeBytes, Pad, WrittenBody;
  }
}
