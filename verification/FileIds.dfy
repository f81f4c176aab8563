/**
 File IDs and the canonical order of the files (`cmp_file_id_par2` and
 `reorder_files_canonically` in src/parser.rs, the sorts of src/creator.rs and
 src/writer.rs).  The order decides which block gets which Reed-Solomon constant, so the
 creator and the loader must agree on it: `OrderAgreement`.
 */
module FileIds {
  import opened Options
  import opened Bytes
  import opened LittleEndian

  type Id = id: seq<Byte> | |id| == 16 witness seq(16, _ => 0)

  datatype Ordering = Less | Equal | Greater

  datatype FileInfo = FileInfo(id: Id, hash: Id, hash16k: Id, length: nat, name: seq<Byte>)

  /** The ID as a little-endian 128-bit number. */
  function IdValue(id: Id): nat {
    FromBytes(id)
  }

  function CompareNat(a: nat, b: nat): Ordering {
    if a < b then Less else if a == b then Equal else Greater
  }

  lemma HighestDifference(a: seq<Byte>, b: seq<Byte>, x: Byte, y: Byte)
    requires |a| == |b|
    ensures Value(x) < Value(y) ==> FromBytes(a + [x]) < FromBytes(b + [y])
    ensures Value(x) == Value(y) ==> CompareNat(FromBytes(a + [x]), FromBytes(b + [y]))
                                     == CompareNat(FromBytes(a), FromBytes(b))
  {
    hide Value, FromBytes, Power256;
    FromBytesLast(a, x);
    FromBytesLast(b, y);
    FromBytesBound(a);
    Outweighs(FromBytes(a), FromBytes(b), Power256(|a|), Value(x), Value(y));
  }

  lemma Outweighs(m: nat, n: nat, p: nat, x: nat, y: nat)
    requires m < p
    ensures x < y ==> m + p * x < n + p * y
  {
    if x < y {
      assert p * y == p * (y - 1) + p;
      assert p * (y - 1) >= p * x;
    }
  }

  /** cmp_file_id_par2: byte 15 first, down to byte 0; this compares the little-endian numbers. */
  method CmpFileIdPar2(a: Id, b: Id) returns (r: Ordering)
    ensures r == CompareNat(IdValue(a), IdValue(b))
  {
    hide Value;
    var i := 16;
    assert a[..16] == a && b[..16] == b;
    while i > 0
      invariant 0 <= i <= 16
      invariant CompareNat(IdValue(a), IdValue(b)) == CompareNat(FromBytes(a[..i]), FromBytes(b[..i]))
    {
      i := i - 1;
      assert a[..i + 1] == a[..i] + [a[i]] && b[..i + 1] == b[..i] + [b[i]];
      HighestDifference(a[..i], b[..i], a[i], b[i]);
      HighestDifference(b[..i], a[..i], b[i], a[i]);
      if Value(a[i]) < Value(b[i]) {
        return Less;
      }
      if Value(a[i]) > Value(b[i]) {
        return Greater;
      }
    }
    return Equal;
  }

  // ----- sorting by a key

  function Insert<T>(x: T, s: seq<T>, key: T -> nat): seq<T> {
    if s == [] || key(x) <= key(s[0]) then [x] + s else [s[0]] + Insert(x, s[1..], key)
  }

  /** A stable sort by ascending key, as `sort_by`. */
  function SortBy<T>(s: seq<T>, key: T -> nat): seq<T> {
    if s == [] then [] else Insert(s[0], SortBy(s[1..], key), key)
  }

  predicate Ascending<T>(s: seq<T>, key: T -> nat) {
    forall i, j :: 0 <= i < j < |s| ==> key(s[i]) <= key(s[j])
  }

  /** Different elements have different keys. */
  predicate DistinctKeys<T>(s: seq<T>, key: T -> nat) {
    forall i, j :: 0 <= i < j < |s| ==> key(s[i]) != key(s[j])
  }

  lemma {:induction false} InsertElements<T>(x: T, s: seq<T>, key: T -> nat)
    ensures multiset(Insert(x, s, key)) == multiset(s) + multiset{x}
  {
    if s != [] && key(x) > key(s[0]) {
      InsertElements(x, s[1..], key);
      assert s == [s[0]] + s[1..];
    }
  }

  lemma {:induction false} InsertAscends<T>(x: T, s: seq<T>, key: T -> nat)
    requires Ascending(s, key)
    ensures Ascending(Insert(x, s, key), key)
  {
    if s != [] && key(x) > key(s[0]) {
      InsertAscends(x, s[1..], key);
      var r := Insert(x, s[1..], key);
      forall j | 0 <= j < |r|
        ensures key(s[0]) <= key(r[j])
      {
        InsertElements(x, s[1..], key);
        assert r[j] in multiset(r);
        assert r[j] in multiset(s[1..]) || r[j] == x;
      }
    }
  }

  lemma {:induction false} SortAscends<T>(s: seq<T>, key: T -> nat)
    ensures Ascending(SortBy(s, key), key) && multiset(SortBy(s, key)) == multiset(s)
  {
    if s != [] {
      SortAscends(s[1..], key);
      InsertAscends(s[0], SortBy(s[1..], key), key);
      InsertElements(s[0], SortBy(s[1..], key), key);
      assert s == [s[0]] + s[1..];
    }
  }

  lemma SameLength<T>(s: seq<T>, t: seq<T>)
    requires multiset(s) == multiset(t)
    ensures |s| == |t|
  {
    assert |multiset(s)| == |s| && |multiset(t)| == |t|;
  }

  lemma FirstIsLeast<T>(s: seq<T>, t: seq<T>, key: T -> nat)
    requires Ascending(s, key) && Ascending(t, key) && multiset(s) == multiset(t) && s != [] && t != []
    ensures key(s[0]) <= key(t[0])
  {
    assert t[0] in multiset(s);
    var i :| 0 <= i < |s| && s[i] == t[0];
  }

  /** Ascending lists with the same elements are the same list when no key repeats. */
  lemma {:induction false} AscendingUnique<T>(s: seq<T>, t: seq<T>, key: T -> nat)
    requires Ascending(s, key) && Ascending(t, key) && multiset(s) == multiset(t) && DistinctKeys(s, key)
    ensures s == t
    decreases |s|
  {
    SameLength(s, t);
    if s != [] {
      var s', t' := Tails(s, t, key);
      AscendingUnique(s', t', key);
    }
  }

  lemma Tails<T>(s: seq<T>, t: seq<T>, key: T -> nat) returns (s': seq<T>, t': seq<T>)
    requires Ascending(s, key) && Ascending(t, key) && multiset(s) == multiset(t) && DistinctKeys(s, key)
    requires s != [] && t != []
    ensures |s'| < |s| && Ascending(s', key) && Ascending(t', key) && multiset(s') == multiset(t')
            && DistinctKeys(s', key)
    ensures s' == t' ==> s == t
  {
    FirstEqual(s, t, key);
    RestElements(s);
    RestElements(t);
    TailAscends(s, key);
    TailAscends(t, key);
    s', t' := s[1..], t[1..];
    assert s == [s[0]] + s' && t == [t[0]] + t';
  }

  lemma FirstEqual<T>(s: seq<T>, t: seq<T>, key: T -> nat)
    requires Ascending(s, key) && Ascending(t, key) && multiset(s) == multiset(t) && DistinctKeys(s, key)
    requires s != [] && t != []
    ensures s[0] == t[0]
  {
    FirstIsLeast(s, t, key);
    FirstIsLeast(t, s, key);
    assert t[0] in multiset(s);
    var i :| 0 <= i < |s| && s[i] == t[0];
  }

  lemma TailAscends<T>(s: seq<T>, key: T -> nat)
    requires Ascending(s, key) && s != []
    ensures Ascending(s[1..], key) && (DistinctKeys(s, key) ==> DistinctKeys(s[1..], key))
  {
  }

  lemma RestElements<T>(s: seq<T>)
    requires s != []
    ensures multiset(s[1..]) == multiset(s) - multiset{s[0]}
  {
    assert s == [s[0]] + s[1..];
  }

  lemma PermutedKeys<T>(s: seq<T>, t: seq<T>, key: T -> nat)
    requires multiset(s) == multiset(t) && DistinctKeys(s, key)
    ensures DistinctKeys(t, key)
  {
    forall i, j | 0 <= i < j < |t|
      ensures key(t[i]) != key(t[j])
    {
      if key(t[i]) == key(t[j]) {
        KeyFindsElement(s, t, key, i, j);
        RepeatedElement(t, i, j);
        RepeatedIn(s, t[i]);
      }
    }
  }

  lemma KeyFindsElement<T>(s: seq<T>, t: seq<T>, key: T -> nat, i: nat, j: nat)
    requires multiset(s) == multiset(t) && DistinctKeys(s, key) && i < |t| && j < |t| && key(t[i]) == key(t[j])
    ensures t[i] == t[j]
  {
    assert t[i] in multiset(s) && t[j] in multiset(s);
    var a :| 0 <= a < |s| && s[a] == t[i];
    var b :| 0 <= b < |s| && s[b] == t[j];
  }

  lemma RepeatedElement<T>(t: seq<T>, i: nat, j: nat)
    requires i < j < |t| && t[i] == t[j]
    ensures multiset(t)[t[i]] >= 2
  {
    assert t == t[..j] + [t[j]] + t[j + 1..];
    assert t[..j] == t[..i] + [t[i]] + t[i + 1..j];
  }

  lemma RepeatedIn<T>(s: seq<T>, x: T)
    requires multiset(s)[x] >= 2
    ensures exists i, j :: 0 <= i < j < |s| && s[i] == s[j]
  {
    assert x in multiset(s);
    var i :| 0 <= i < |s| && s[i] == x;
    assert s == s[..i] + [x] + s[i + 1..];
    var rest := s[..i] + s[i + 1..];
    assert multiset(s) == multiset(rest) + multiset{x};
    assert x in multiset(rest);
    var k :| 0 <= k < |rest| && rest[k] == x;
    if k < i {
      assert s[k] == s[i];
    } else {
      assert s[i] == s[k + 1];
    }
  }

  /** Sorting gives the same list from any order of the elements. */
  lemma SortPermuted<T>(s: seq<T>, t: seq<T>, key: T -> nat)
    requires multiset(s) == multiset(t) && DistinctKeys(s, key)
    ensures SortBy(s, key) == SortBy(t, key)
  {
    SortAscends(s, key);
    SortAscends(t, key);
    PermutedKeys(s, SortBy(s, key), key);
    AscendingUnique(SortBy(s, key), SortBy(t, key), key);
  }

  // ----- the canonical order

  function InfoKey(info: FileInfo): nat {
    IdValue(info.id)
  }

  function Ids(infos: seq<FileInfo>): (r: seq<Id>)
    ensures |r| == |infos|
  {
    seq(|infos|, i requires 0 <= i < |infos| => infos[i].id)
  }

  /** The position of an ID in the Main packet's list, the last one if it is repeated. */
  function PositionIn(order: seq<Id>, id: Id): (r: Option<nat>)
    ensures r.None? <==> id !in order
    ensures r.Some? ==>
              r.value < |order| && order[r.value] == id && forall k :: r.value < k < |order| ==> order[k] != id
    decreases |order|
  {
    if order == [] then None
    else
      var n := |order| - 1;
      assert order == order[..n] + [order[n]];
      if order[n] == id then Some(n) else PositionIn(order[..n], id)
  }

  /** Unlisted files rank last. */
  const USIZE_MAX: nat := 0xFFFF_FFFF_FFFF_FFFF

  const ID_VALUES: nat := 0x1_0000_0000_0000_0000_0000_0000_0000_0000

  function RankIn(order: seq<Id>, id: Id): nat {
    match PositionIn(order, id)
    case Some(i) => i
    case None => USIZE_MAX
  }

  /** The rank, then the ID: one number that orders as the two-level comparison. */
  function RankKey(order: seq<Id>, info: FileInfo): nat {
    ID_VALUES * RankIn(order, info.id) + InfoKey(info)
  }

  lemma IdValueBound(id: Id)
    ensures IdValue(id) < ID_VALUES
  {
    FromBytesBound(id);
    assert Power256(4) == 0x1_0000_0000;
    assert Power256(8) == 0x1_0000_0000 * Power256(4);
    assert Power256(12) == 0x1_0000_0000 * Power256(8);
    assert Power256(16) == 0x1_0000_0000 * Power256(12);
  }

  /** RankKey compares the ranks first and the IDs second. */
  lemma RankKeyCompares(order: seq<Id>, a: FileInfo, b: FileInfo)
    ensures var (ra, rb) := (RankIn(order, a.id), RankIn(order, b.id));
            CompareNat(RankKey(order, a), RankKey(order, b))
            == if ra == rb then CompareNat(InfoKey(a), InfoKey(b)) else CompareNat(ra, rb)
  {
    hide FromBytes, RankIn;
    IdValueBound(a.id);
    IdValueBound(b.id);
    var p := ID_VALUES;
    Outweighs(InfoKey(a), InfoKey(b), p, RankIn(order, a.id), RankIn(order, b.id));
    Outweighs(InfoKey(b), InfoKey(a), p, RankIn(order, b.id), RankIn(order, a.id));
  }

  /** reorder_files_canonically */
  function ReorderCanonically(files: seq<FileInfo>, mainOrder: seq<Id>): seq<FileInfo> {
    if mainOrder == [] then SortBy(files, InfoKey) else SortBy(files, info => RankKey(mainOrder, info))
  }

  /** The numbering order of `create`: all files sorted by ID. */
  function NumberingOrder(files: seq<FileInfo>): seq<FileInfo> {
    SortBy(files, InfoKey)
  }

  /** The ID list of the Main packet (`build_main_packet_body`). */
  function MainOrder(ids: seq<Id>): seq<Id> {
    SortBy(ids, IdValue)
  }

  lemma DistinctIds(files: seq<FileInfo>)
    requires forall i, j :: 0 <= i < j < |files| ==> files[i].id != files[j].id
    ensures DistinctKeys(files, InfoKey)
  {
    forall i, j | 0 <= i < j < |files|
      ensures InfoKey(files[i]) != InfoKey(files[j])
    {
      if InfoKey(files[i]) == InfoKey(files[j]) {
        FromBytesInjective(files[i].id, files[j].id);
      }
    }
  }

  lemma {:induction false} IdsOfInsert(x: FileInfo, s: seq<FileInfo>)
    ensures Ids(Insert(x, s, InfoKey)) == Insert(x.id, Ids(s), IdValue)
  {
    hide FromBytes;
    if s != [] && InfoKey(x) > InfoKey(s[0]) {
      IdsOfInsert(x, s[1..]);
      assert Ids(s)[1..] == Ids(s[1..]);
      assert Ids([s[0]] + Insert(x, s[1..], InfoKey)) == [s[0].id] + Ids(Insert(x, s[1..], InfoKey));
    } else {
      assert Ids([x] + s) == [x.id] + Ids(s);
    }
  }

  /** Sorting the files sorts their IDs. */
  lemma {:induction false} IdsOfSorted(s: seq<FileInfo>)
    ensures Ids(SortBy(s, InfoKey)) == SortBy(Ids(s), IdValue)
  {
    if s != [] {
      IdsOfSorted(s[1..]);
      IdsOfInsert(s[0], SortBy(s[1..], InfoKey));
      assert Ids(s)[1..] == Ids(s[1..]);
    }
  }

  /** In a list of distinct IDs every ID ranks at its place. */
  lemma RankOfOrder(order: seq<Id>, i: nat)
    requires i < |order| && forall a, b :: 0 <= a < b < |order| ==> order[a] != order[b]
    ensures RankIn(order, order[i]) == i
  {
    assert order[i] in order;
    var p := PositionIn(order, order[i]).value;
    assert order[p] == order[i];
  }

  /** Sorted files have ascending ranks in their own ID list. */
  lemma RankAscends(sorted: seq<FileInfo>)
    requires DistinctKeys(sorted, InfoKey)
    ensures Ascending(sorted, info => RankKey(Ids(sorted), info))
            && DistinctKeys(sorted, info => RankKey(Ids(sorted), info))
  {
    hide FromBytes, RankKey;
    var order := Ids(sorted);
    assert forall a, b :: 0 <= a < b < |order| ==> order[a] != order[b] by {
      assert forall a, b :: 0 <= a < b < |order| ==> InfoKey(sorted[a]) != InfoKey(sorted[b]);
    }
    forall i, j | 0 <= i < j < |sorted|
      ensures RankKey(order, sorted[i]) < RankKey(order, sorted[j])
    {
      RankOfOrder(order, i);
      RankOfOrder(order, j);
      RankKeyCompares(order, sorted[i], sorted[j]);
    }
  }

  /**
   For distinct file IDs, the creator's numbering order, the ID list of the Main packet, and
   the order the loader restores from the file descriptions in any order, agree.
   */
  lemma OrderAgreement(files: seq<FileInfo>, loaded: seq<FileInfo>)
    requires forall i, j :: 0 <= i < j < |files| ==> files[i].id != files[j].id
    requires multiset(loaded) == multiset(files)
    ensures Ids(NumberingOrder(files)) == MainOrder(Ids(files))
    ensures ReorderCanonically(loaded, MainOrder(Ids(files))) == NumberingOrder(files)
    ensures ReorderCanonically(loaded, []) == NumberingOrder(files)
  {
    var sorted := NumberingOrder(files);
    DistinctIds(files);
    IdsOfSorted(files);
    SortPermuted(files, loaded, InfoKey);
    SortAscends(files, InfoKey);
    PermutedKeys(files, sorted, InfoKey);
    if Ids(sorted) != [] {
      var key := (info: FileInfo) => RankKey(Ids(sorted), info);
      RankAscends(sorted);
      SortAscends(loaded, key);
      AscendingUnique(sorted, SortBy(loaded, key), key);
    }
  }

  /** Of two files, this one may stand first: listed before unlisted, then by place in the list, then by ID. */
  predicate MayPrecede(order: seq<Id>, a: Id, b: Id) {
    if a in order && b in order then PositionIn(order, a).value <= PositionIn(order, b).value
    else if a in order || b in order then a in order
    else IdValue(a) <= IdValue(b)
  }

  /** Whatever files were found and whatever the list says, the files are reordered: none is lost, none is added. */
  lemma ReorderedExactly(files: seq<FileInfo>, mainOrder: seq<Id>)
    requires |mainOrder| <= USIZE_MAX
    ensures var r := ReorderCanonically(files, mainOrder);
            && multiset(r) == multiset(files) && |r| == |files|
            && forall i, j :: 0 <= i < j < |r| ==> MayPrecede(mainOrder, r[i].id, r[j].id)
  {
    hide FromBytes, RankKey;
    var r := ReorderCanonically(files, mainOrder);
    var key := if mainOrder == [] then InfoKey else (info: FileInfo) => RankKey(mainOrder, info);
    SortAscends(files, key);
    SameLength(r, files);
    forall i, j | 0 <= i < j < |r|
      ensures MayPrecede(mainOrder, r[i].id, r[j].id)
    {
      RankKeyCompares(mainOrder, r[i], r[j]);
    }
  }
}
