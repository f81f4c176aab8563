/**
 Chunk sizes and the reading and writing of chunks (src/repair.rs).  A read past the end of
 a file yields zeros; a write is cut off at the file's length.
 */
module RepairChunks {
  import opened Options
  import opened Bytes
  import opened FileIds
  import opened Constants
  import opened BlockNumbering

  function Max(a: nat, b: nat): (m: nat)
    ensures m >= a && m >= b && (m == a || m == b)
  {
    if a < b then b else a
  }

  function Least(a: nat, b: nat): (m: nat)
    ensures m <= a && m <= b && (m == a || m == b)
  {
    if a < b then a else b
  }

  function Share(n: nat, parts: nat): nat
    requires parts > 0
  {
    n / parts
  }

  /** The chunk size before it is clamped; `ideal` depends on the CPU. */
  function RawChunkSize(blockSize: nat, cpus: nat, ideal: nat): nat
    requires cpus > 0 && ideal > 0
  {
    if blockSize <= ideal * cpus then Max(Share(blockSize, cpus), 4096)
    else
      var perThread := Share(blockSize, cpus);
      if perThread <= ideal / 2 then Max(Share(blockSize, cpus * 4), 4096)
      else
        var chunksPerThread := Max(Share(perThread, ideal), 1);
        NonzeroProduct(cpus, chunksPerThread);
        Share(blockSize, cpus * chunksPerThread)
  }

  lemma NonzeroProduct(a: nat, b: nat)
    requires a > 0 && b > 0
    ensures a * b > 0
  {
  }

  function ClampChunk(raw: nat, blockSize: nat): (c: nat)
    ensures blockSize >= 4 ==> c <= blockSize
  {
    var lo := Least(4096, blockSize);
    var clamped := if raw < lo then lo else if raw > blockSize then blockSize else raw;
    Max(clamped / 2 * 2, 2)
  }

  /** The chunk size: even, not zero, and no larger than a block. */
  function ChunkSize(blockSize: nat, cpus: nat, ideal: nat, minChunk: Option<nat>): (c: nat)
    requires cpus > 0 && ideal > 0
    ensures c >= 2 && c % 2 == 0
    ensures blockSize >= 4 ==> c <= blockSize
  {
    var raw := RawChunkSize(blockSize, cpus, ideal);
    var r := match minChunk case Some(m) => Max(raw, m) case None => raw;
    EvenClamp(r, blockSize);
    ClampChunk(r, blockSize)
  }

  lemma EvenClamp(raw: nat, blockSize: nat)
    ensures ClampChunk(raw, blockSize) >= 2 && ClampChunk(raw, blockSize) % 2 == 0
  {
  }

  lemma HalfOf(n: nat) returns (h: nat)
    requires n % 4 == 0
    ensures n == 2 * h
  {
    h := 2 * (n / 4);
  }

  lemma TwoTimes(h: nat)
    ensures 2 * h % 2 == 0 && 2 * h / 2 * 2 == 2 * h
  {
  }

  lemma HalfBlocks(n: nat)
    requires n % 4 == 0
    ensures n % 2 == 0 && n / 2 * 2 == n
  {
    var h := HalfOf(n);
    TwoTimes(h);
  }

  lemma EvenDown(n: nat)
    ensures n - 1 <= n / 2 * 2 <= n
  {
  }

  lemma ClampBounds(raw: nat, blockSize: nat)
    requires blockSize >= 4 && blockSize % 4 == 0
    ensures var c := ClampChunk(raw, blockSize);
            && (blockSize <= 4096 ==> c == blockSize)
            && (blockSize > 4096 ==> 4096 <= c <= blockSize)
            && (raw <= blockSize ==> c >= raw - 1) && (raw > blockSize ==> c == blockSize)
  {
    HalfBlocks(blockSize);
    var lo := Least(4096, blockSize);
    EvenDown(if raw < lo then lo else if raw > blockSize then blockSize else raw);
  }

  /**
   A block of at most 4096 bytes is one chunk; a larger one is cut into chunks of at least so many; and
   a minimum that is asked for is respected, up to an odd byte.
   */
  lemma ChunkSizeBounds(blockSize: nat, cpus: nat, ideal: nat, minChunk: Option<nat>)
    requires cpus > 0 && ideal > 0 && blockSize >= 4 && blockSize % 4 == 0
    ensures var c := ChunkSize(blockSize, cpus, ideal, minChunk);
            && (blockSize <= 4096 ==> c == blockSize)
            && (blockSize > 4096 ==> 4096 <= c <= blockSize)
            && (minChunk.Some? && minChunk.value <= blockSize ==> c >= minChunk.value - 1)
  {
    hide RawChunkSize, ClampChunk;
    var raw := RawChunkSize(blockSize, cpus, ideal);
    ClampBounds(match minChunk case Some(m) => Max(raw, m) case None => raw, blockSize);
  }

  function NumChunks(blockSize: nat, chunk: nat): nat
    requires chunk > 0
  {
    (blockSize + chunk - 1) / chunk
  }

  /** What chunk k covers. */
  function ChunkLength(blockSize: nat, chunk: nat, k: nat): (n: nat)
    requires k * chunk < blockSize
  {
    Least(blockSize - k * chunk, chunk)
  }

  lemma CeilBounds(n: nat, c: nat)
    requires c > 0
    ensures var q := (n + c - 1) / c;
            && n <= q * c < n + c
            && (n > 0 ==> q > 0)
  {
    var m := n + c - 1;
    assert m == c * (m / c) + m % c;
  }

  lemma MulLess(a: nat, b: nat, c: nat)
    requires a < b
    ensures a * c + c <= b * c
  {
    var d := b - a - 1;
    assert b * c == (a + 1 + d) * c == a * c + c + d * c;
  }

  /** Every chunk starts inside the block, and is even when the block and the chunk size are. */
  lemma ChunkInside(blockSize: nat, chunk: nat, k: nat)
    requires chunk > 0 && k < NumChunks(blockSize, chunk)
    ensures k * chunk < blockSize
    ensures k * chunk + ChunkLength(blockSize, chunk, k) <= blockSize && ChunkLength(blockSize, chunk, k) > 0
  {
    CeilBounds(blockSize, chunk);
    MulLess(k, NumChunks(blockSize, chunk), chunk);
  }

  lemma EvenChunk(blockSize: nat, chunk: nat, k: nat)
    requires blockSize % 2 == 0 && chunk % 2 == 0 && k * chunk < blockSize
    ensures (k * chunk) % 2 == 0 && ChunkLength(blockSize, chunk, k) % 2 == 0
  {
    var h := chunk / 2;
    assert k * chunk == 2 * (k * h) by {
      assert chunk == 2 * h;
    }
  }

  lemma QuotientBounds(x: nat, c: nat)
    requires c > 0
    ensures x / c * c <= x < x / c * c + c
  {
    assert x == c * (x / c) + x % c;
  }

  lemma SameQuotient(x: nat, c: nat, j: nat, k: nat)
    requires j * c <= x < j * c + c && k * c <= x < k * c + c
    ensures j == k
  {
    if j < k {
      MulLess(j, k, c);
    } else if k < j {
      MulLess(k, j, c);
    }
  }

  /** The chunks partition a block: the byte at x is in chunk x / chunk, and in no other. */
  lemma ChunkOfByte(blockSize: nat, chunk: nat, x: nat, j: nat)
    requires chunk > 0 && x < blockSize
    ensures x / chunk < NumChunks(blockSize, chunk)
    ensures j * chunk < blockSize ==> (j * chunk <= x < j * chunk + ChunkLength(blockSize, chunk, j) <==>
                                         j == x / chunk)
  {
    hide NumChunks;
    QuotientBounds(x, chunk);
    if j * chunk <= x < j * chunk + chunk {
      SameQuotient(x, chunk, j, x / chunk);
    }
    EnoughChunks(blockSize, chunk, x, x / chunk);
  }

  lemma EnoughChunks(blockSize: nat, chunk: nat, x: nat, k: nat)
    requires chunk > 0 && k * chunk <= x < blockSize
    ensures k < NumChunks(blockSize, chunk)
  {
    CeilBounds(blockSize, chunk);
    hide NumChunks;
    var n := (blockSize + chunk - 1) / chunk;
    if n < k {
      MulLess(n, k, chunk);
    }
    CountIs(blockSize, chunk);
  }

  lemma CountIs(blockSize: nat, chunk: nat)
    requires chunk > 0
    ensures NumChunks(blockSize, chunk) == (blockSize + chunk - 1) / chunk
  {
  }

  // ----- reading

  /** size bytes from offset o on, zeros after the end. */
  function ReadAt(content: seq<Byte>, o: nat, size: nat): (r: seq<Byte>)
    ensures |r| == size
  {
    seq(size, k requires 0 <= k < size => if o + k < |content| then content[o + k] else 0)
  }

  lemma ReadPart(content: seq<Byte>, base: nat, whole: nat, o: nat, size: nat)
    requires o + size <= whole
    ensures ReadAt(content, base + o, size) == ReadAt(content, base, whole)[o..o + size]
  {
  }

  lemma ReadInside(content: seq<Byte>, o: nat, size: nat)
    requires o + size <= |content|
    ensures ReadAt(content, o, size) == content[o..o + size]
  {
  }

  /** copy_original_into_temp: as much of the original as fits; the temp has its length already. */
  method CopyOriginalIntoTemp(original: seq<Byte>, temp: array<Byte>)
    modifies temp
    ensures forall k :: 0 <= k < temp.Length ==> temp[k] == if k < |original| then original[k] else old(temp[k])
  {
    var toCopy := Least(|original|, temp.Length);
    var copied := 0;
    while copied < toCopy
      invariant copied <= toCopy
      invariant forall k :: 0 <= k < temp.Length ==> temp[k] == if k < copied then original[k] else old(temp[k])
    {
      var want := Least(toCopy - copied, 1024 * 1024);
      ghost var before := copied;
      var i := 0;
      while i < want
        invariant i <= want && copied == before + i <= toCopy
        invariant forall k :: 0 <= k < temp.Length ==> temp[k] == if k < copied then original[k] else old(temp[k])
      {
        temp[copied] := original[copied];
        copied, i := copied + 1, i + 1;
      }
    }
  }

  /** A temp file of the target length, with what survives of the original. */
  method SeedTemp(original: Option<seq<Byte>>, length: nat) returns (temp: seq<Byte>)
    ensures temp == ReadAt(if original.Some? then original.value else [], 0, length)
  {
    var buffer := new Byte[length](_ => 0);
    if original.Some? {
      CopyOriginalIntoTemp(original.value, buffer);
    }
    temp := buffer[..];
  }

  // ----- writing

  /** One chunk of a reconstructed block. */
  datatype ChunkWrite = ChunkWrite(block: nat, offset: nat, data: seq<Byte>)

  function Overwrite(content: seq<Byte>, o: nat, data: seq<Byte>): (r: seq<Byte>)
    requires o + |data| <= |content|
    ensures |r| == |content|
    ensures forall k :: 0 <= k < |content| ==> r[k] == if o <= k < o + |data| then data[k - o] else content[k]
  {
    content[..o] + data + content[o + |data|..]
  }

  /** Temp files have their target lengths. */
  predicate Sized(temps: map<Id, seq<Byte>>, lengths: map<Id, nat>) {
    forall id :: id in temps && id in lengths ==> |temps[id]| == lengths[id]
  }

  /** The write of one chunk, cut off at the end of the file; nothing for a block of another file. */
  function ApplyWrite(temps: map<Id, seq<Byte>>, blocks: map<nat, Place>, lengths: map<Id, nat>, blockSize: nat,
                      w: ChunkWrite)
    : (r: map<Id, seq<Byte>>)
    requires Sized(temps, lengths)
    ensures Sized(r, lengths) && r.Keys == temps.Keys
  {
    if w.block !in blocks then temps
    else
      var id := blocks[w.block].id;
      if id !in temps || id !in lengths then temps
      else
        var at := blocks[w.block].local * blockSize + w.offset;
        var remaining := if at < lengths[id] then lengths[id] - at else 0;
        var n := Least(|w.data|, remaining);
        if n > 0 then temps[id := Overwrite(temps[id], at, w.data[..n])] else temps
  }

  function ApplyWrites(temps: map<Id, seq<Byte>>, blocks: map<nat, Place>, lengths: map<Id, nat>, blockSize: nat,
                       ws: seq<ChunkWrite>)
    : (r: map<Id, seq<Byte>>)
    requires Sized(temps, lengths)
    ensures Sized(r, lengths) && r.Keys == temps.Keys
  {
    if ws == [] then temps
    else
      var n := |ws| - 1;
      ApplyWrite(ApplyWrites(temps, blocks, lengths, blockSize, ws[..n]), blocks, lengths, blockSize, ws[n])
  }
}
