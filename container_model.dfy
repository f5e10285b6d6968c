/**
 * FileSystemContainer on values: the block size, the blocks of the block index and the
 * file records, with the container's operations as functions on that state. The class in
 * container.dfy is proved against these functions; the lemmas here state what the
 * operations do to the stored files.
 */
module ContainerModel {
  import opened Wrappers
  import opened Wire
  import opened Blocks
  import opened FileRecords
  import opened Seqs

  /** What a FileSystemContainer holds at one moment. */
  datatype State = State(blockSize: int, blocks: seq<Block>, files: seq<FileEntry>)

  /** The failures the container reports by throwing. */
  datatype ContainerError =
    | SourceNotFound     // the file to copy in does not exist
    | NotFound           // no stored file has the path
    | InvalidBlockSize   // a negative block size makes the chunk array's length negative

  // ---- chunking ----

  /** The length of the next chunk: Math.Min(blockSize, bytes left). */
  function ChunkLength(size: int, left: int): int {
    if size < left then size else left
  }

  /** The chunks CopyFileIntoContainer cuts the bytes into, in order. */
  function Chunks(d: seq<byte>, size: int): (cs: seq<seq<byte>>)
    requires size > 0 || |d| == 0
    decreases |d|
  {
    if |d| == 0 then []
    else
      var n := ChunkLength(size, |d|);
      [d[..n]] + Chunks(d[n..], size)
  }

  function Flatten(cs: seq<seq<byte>>): seq<byte> {
    if cs == [] then [] else cs[0] + Flatten(cs[1..])
  }

  /** The chunks, put back together, are the bytes. */
  lemma {:induction false} ChunksFlatten(d: seq<byte>, size: int)
    requires size > 0
    ensures Flatten(Chunks(d, size)) == d
    decreases |d|
  {
    if |d| > 0 {
      var n := ChunkLength(size, |d|);
      ChunksFlatten(d[n..], size);
      assert d[..n] + d[n..] == d;
    }
  }

  /**
   * Every chunk but the last is a full block and the last is not empty; there are
   * ceil(|d| / size) of them, so no chunks for no bytes.
   */
  lemma {:induction false} ChunksShape(d: seq<byte>, size: int)
    requires size > 0
    ensures var cs := Chunks(d, size);
            (|cs| - 1) * size < |d| <= |cs| * size &&
            (forall k :: 0 <= k < |cs| - 1 ==> |cs[k]| == size) &&
            (forall k :: 0 <= k < |cs| ==> 0 < |cs[k]| <= size)
    decreases |d|
  {
    if |d| > 0 {
      var n := ChunkLength(size, |d|);
      var cs := Chunks(d, size);
      var tl := Chunks(d[n..], size);
      ChunksShape(d[n..], size);
      assert cs == [d[..n]] + tl;
      assert |cs| * size == size + |tl| * size;
      assert (|cs| - 1) * size == |tl| * size;
      assert forall k :: 1 <= k < |cs| ==> cs[k] == tl[k - 1];
    }
  }

  /** A file of k full blocks and r more bytes gives k chunks, or k + 1 with a last one of r bytes. */
  lemma {:induction false} ChunkBoundary(d: seq<byte>, size: int, k: nat, r: nat)
    requires size > 0 && r < size && |d| == k * size + r
    ensures var cs := Chunks(d, size);
            |cs| == (if r == 0 then k else k + 1) &&
            (r > 0 ==> |cs[k]| == r)
  {
    var cs := Chunks(d, size);
    ChunksShape(d, size);
    var m := |cs|;
    if r == 0 {
      MulLess(m - 1, k, size);
      MulAtMost(k, m, size);
    } else {
      assert k * size + r < (k + 1) * size;
      MulLess(m - 1, k + 1, size);
      MulLess(k, m, size);
      ChunksFlatten(d, size);
      FlattenLength(cs, size);
    }
  }

  lemma {:induction false} MulLess(a: int, b: int, size: int)
    requires size > 0 && a * size < b * size
    ensures a < b
  {
  }

  lemma {:induction false} MulAtMost(a: int, b: int, size: int)
    requires size > 0 && a * size <= b * size
    ensures a <= b
  {
  }

  /** With every chunk but the last full, the last holds what the full ones leave over. */
  lemma {:induction false} FlattenLength(cs: seq<seq<byte>>, size: int)
    requires |cs| > 0 && forall k :: 0 <= k < |cs| - 1 ==> |cs[k]| == size
    ensures |Flatten(cs)| == (|cs| - 1) * size + |cs[|cs| - 1]|
  {
    if |cs| > 1 {
      FlattenLength(cs[1..], size);
    }
  }

  // ---- ingest ----

  /** The blocks after AddBlock of each chunk in turn, and the ids returned, in order. */
  datatype Ingested = Ingested(view: seq<Block>, ids: seq<int>)

  function AddMany(v: seq<Block>, cs: seq<seq<byte>>): (r: Ingested)
    ensures |r.ids| == |cs|
    decreases |cs|
  {
    if cs == [] then Ingested(v, [])
    else
      var a := AddBlockSpec(v, cs[0]);
      var r := AddMany(a.view, cs[1..]);
      Ingested(r.view, [a.id] + r.ids)
  }

  /** The ids a loop has already collected, ahead of what the remaining chunks give. */
  function Then(ids: seq<int>, r: Ingested): Ingested {
    Ingested(r.view, ids + r.ids)
  }

  /** One turn of the chunking loop: AddBlock of the next chunk, then the rest of the bytes. */
  lemma {:induction false} IngestStep(v: seq<Block>, rest: seq<byte>, size: int, ids: seq<int>, n: int, a: Added)
    requires size > 0 && |rest| > 0 && n == ChunkLength(size, |rest|)
    requires a == AddBlockSpec(v, rest[..n])
    ensures Then(ids, AddMany(v, Chunks(rest, size))) == Then(ids + [a.id], AddMany(a.view, Chunks(rest[n..], size)))
  {
    var cs := Chunks(rest, size);
    assert cs[0] == rest[..n] && cs[1..] == Chunks(rest[n..], size);
    var r := AddMany(a.view, cs[1..]);
    assert ids + ([a.id] + r.ids) == ids + [a.id] + r.ids;
  }

  /** One turn of the loop as CopyFileIntoContainer writes it, with the offset into the bytes. */
  lemma {:induction false} IngestStepAt(v: seq<Block>, d: seq<byte>, offset: int, n: int, size: int,
                                        chunk: seq<byte>, ids: seq<int>, w: seq<Block>, id: int, target: Ingested)
    requires 0 <= offset < |d| && size > 0 && n == ChunkLength(size, |d| - offset)
    requires chunk == d[offset..offset + n] && Added(w, id) == AddBlockSpec(v, chunk)
    requires Then(ids, AddMany(v, Chunks(d[offset..], size))) == target
    ensures Then(ids + [id], AddMany(w, Chunks(d[offset + n..], size))) == target
  {
    var a := Added(w, id);
    assert d[offset..][..n] == d[offset..offset + n];
    assert d[offset..][n..] == d[offset + n..];
    IngestStep(v, d[offset..], size, ids, n, a);
  }

  /** The chunking loop at its end: no bytes left, so nothing more is added. */
  lemma {:induction false} ThenDone(ids: seq<int>, v: seq<Block>, size: int)
    ensures Then(ids, AddMany(v, Chunks([], size))) == Ingested(v, ids)
  {
    assert ids + [] == ids;
  }

  lemma {:induction false} ThenNone(r: Ingested)
    ensures Then([], r) == r
  {
    assert [] + r.ids == r.ids;
  }

  /**
   * CopyFileIntoContainer: the file's chunks go through AddBlock in order, and one record
   * with the path and the ids returned is appended; an existing record with the same path
   * is kept.
   */
  function Ingest(st: State, path: string, d: seq<byte>): (r: State)
    requires st.blockSize > 0 || |d| == 0
    ensures r.blockSize == st.blockSize && |r.files| == |st.files| + 1
    ensures r.files[..|st.files|] == st.files && r.files[|st.files|].path == path
  {
    var r := AddMany(st.blocks, Chunks(d, st.blockSize));
    var files := st.files + [FileEntry(path, r.ids)];
    assert files[..|st.files|] == st.files;
    State(st.blockSize, r.view, files)
  }

  /** The whole operation, with its failures: a missing source, or a negative block size. */
  function IngestResult(st: State, path: string, source: Option<seq<byte>>): (r: Result<State, ContainerError>)
    requires source.None? || st.blockSize != 0 || |source.value| == 0
  {
    match source
    case None => Err(SourceNotFound)
    case Some(d) =>
      if st.blockSize < 0 && |d| > 0 then Err(InvalidBlockSize) else Ok(Ingest(st, path, d))
  }

  // ---- lookup, extraction, size ----

  /** FindFileRecordIndex: the first record with the path, or -1. */
  function FindFile(files: seq<FileEntry>, path: string): (r: int)
    ensures -1 <= r < |files|
    ensures r >= 0 ==> files[r].path == path && forall j :: 0 <= j < r ==> files[j].path != path
    ensures r == -1 <==> forall j :: 0 <= j < |files| ==> files[j].path != path
  {
    if files == [] then -1
    else if files[0].path == path then 0
    else
      var r := FindFile(files[1..], path);
      if r == -1 then -1 else r + 1
  }

  /** GetBlockRecord's data, or nothing for an id with no block (null is skipped). */
  function BlockBytes(v: seq<Block>, id: int): seq<byte> {
    if 0 <= id < |v| then v[id].data else []
  }

  /** The bytes CopyFileOutFromContainer writes for a list of ids. */
  function Assemble(v: seq<Block>, ids: seq<int>): seq<byte> {
    if ids == [] then [] else BlockBytes(v, ids[0]) + Assemble(v, ids[1..])
  }

  lemma {:induction false} AssembleTake(v: seq<Block>, ids: seq<int>, i: int)
    requires 0 <= i < |ids|
    ensures Assemble(v, ids[..i + 1]) == Assemble(v, ids[..i]) + BlockBytes(v, ids[i])
    decreases i
  {
    if i > 0 {
      var head, last := BlockBytes(v, ids[0]), BlockBytes(v, ids[i]);
      AssembleTake(v, ids[1..], i - 1);
      assert ids[1..][..i] == ids[..i + 1][1..];
      assert ids[1..][..i - 1] == ids[..i][1..];
      var mid := Assemble(v, ids[..i][1..]);
      assert Assemble(v, ids[..i + 1]) == head + (mid + last);
      assert Assemble(v, ids[..i]) == head + mid;
      AppendAssoc(head, mid, last);
    } else {
      assert ids[..1] == [ids[0]];
      AppendNil(BlockBytes(v, ids[0]));
    }
  }

  /** The sum GetFileSizeInContainer adds up. */
  function SumSizes(v: seq<Block>, ids: seq<int>): int {
    if ids == [] then 0 else |BlockBytes(v, ids[0])| + SumSizes(v, ids[1..])
  }

  lemma {:induction false} SumSizesTake(v: seq<Block>, ids: seq<int>, i: int)
    requires 0 <= i < |ids|
    ensures SumSizes(v, ids[..i + 1]) == SumSizes(v, ids[..i]) + |BlockBytes(v, ids[i])|
    decreases i
  {
    if i > 0 {
      SumSizesTake(v, ids[1..], i - 1);
      assert ids[1..][..i] == ids[..i + 1][1..];
      assert ids[1..][..i - 1] == ids[..i][1..];
    } else {
      assert ids[..1] == [ids[0]];
    }
  }

  /** The size reported is the number of bytes copied out. */
  lemma {:induction false} SumSizesLength(v: seq<Block>, ids: seq<int>)
    ensures SumSizes(v, ids) == |Assemble(v, ids)|
  {
    if ids != [] {
      SumSizesLength(v, ids[1..]);
    }
  }

  function Extract(st: State, path: string): (r: Result<seq<byte>, ContainerError>)
    ensures r.Err? <==> FindFile(st.files, path) < 0
    ensures r.Err? ==> r.error == NotFound
  {
    var k := FindFile(st.files, path);
    if k < 0 then Err(NotFound) else Ok(Assemble(st.blocks, st.files[k].blocks))
  }

  /** -1 for a missing path, otherwise the sum of the lengths of the blocks found. */
  function FileSize(st: State, path: string): int {
    var k := FindFile(st.files, path);
    if k < 0 then -1 else SumSizes(st.blocks, st.files[k].blocks)
  }

  /** The size of a stored file is the length of what copying it out gives. */
  lemma {:induction false} FileSizeExtract(st: State, path: string)
    ensures FileSize(st, path) == if Extract(st, path).Ok? then |Extract(st, path).value| else -1
  {
    var k := FindFile(st.files, path);
    if k >= 0 {
      SumSizesLength(st.blocks, st.files[k].blocks);
    }
  }

  // ---- ingest, then copy out ----

  /**
   * The hashes do not mislead AddBlock: a stored block whose hash is a chunk's holds that
   * chunk, and two chunks with the same hash are the same bytes.
   */
  ghost predicate Consistent(v: seq<Block>, cs: seq<seq<byte>>) {
    (forall i, j :: 0 <= i < |v| && 0 <= j < |cs| && v[i].hash == HashString(cs[j]) ==> v[i].data == cs[j]) &&
    (forall j, k :: 0 <= j < |cs| && 0 <= k < |cs| && HashString(cs[j]) == HashString(cs[k]) ==> cs[j] == cs[k])
  }

  /** Adding the chunks keeps every stored block's hash and bytes, and each id names its chunk's bytes. */
  lemma {:induction false} AddManyKeeps(v: seq<Block>, cs: seq<seq<byte>>)
    requires Consistent(v, cs)
    ensures var r := AddMany(v, cs);
            |r.view| >= |v| &&
            (forall i :: 0 <= i < |v| ==> r.view[i].hash == v[i].hash && r.view[i].data == v[i].data) &&
            (forall j :: 0 <= j < |cs| ==> 0 <= r.ids[j] < |r.view| && r.view[r.ids[j]].data == cs[j])
    decreases |cs|
  {
    if cs != [] {
      var c := cs[0];
      var a := AddBlockSpec(v, c);
      AddBlockId(v, c);
      AddBlockData(v, c);
      ConsistentStep(v, cs);
      AddManyKeeps(a.view, cs[1..]);
    }
  }

  /** After AddBlock of the first chunk the hashes still do not mislead it for the others. */
  lemma {:induction false} ConsistentStep(v: seq<Block>, cs: seq<seq<byte>>)
    requires cs != [] && Consistent(v, cs)
    ensures Consistent(AddBlockSpec(v, cs[0]).view, cs[1..])
  {
    var c := cs[0];
    var w := AddBlockSpec(v, c).view;
    var i := FindHash(v, HashString(c));
    if i >= 0 {
      AddBlockFound(v, c, i);
      assert forall k :: 0 <= k < |w| ==> w[k].hash == v[k].hash && w[k].data == v[k].data;
    } else {
      AddBlockNew(v, c);
      assert forall k :: 0 <= k < |v| ==> w[k] == v[k];
      assert w[|v|] == Block(HashString(c), c, 1);
    }
    assert forall j :: 0 <= j < |cs| - 1 ==> cs[1..][j] == cs[j + 1];
  }

  /** Ids that each name their chunk's bytes copy out as the chunks put together. */
  lemma {:induction false} AssembleChunks(w: seq<Block>, ids: seq<int>, cs: seq<seq<byte>>)
    requires |ids| == |cs| && forall j :: 0 <= j < |cs| ==> 0 <= ids[j] < |w| && w[ids[j]].data == cs[j]
    ensures Assemble(w, ids) == Flatten(cs)
  {
    if cs != [] {
      AssembleChunks(w, ids[1..], cs[1..]);
    }
  }

  /**
   * Copying out a path just copied in gives back its bytes, and its size is their number,
   * when no earlier record has that path and the hashes do not collide.
   */
  lemma {:induction false} IngestExtract(st: State, path: string, d: seq<byte>)
    requires st.blockSize > 0 || |d| == 0
    requires FindFile(st.files, path) == -1 && Consistent(st.blocks, Chunks(d, st.blockSize))
    ensures Extract(Ingest(st, path, d), path) == Ok(d)
    ensures FileSize(Ingest(st, path, d), path) == |d|
  {
    var cs := Chunks(d, st.blockSize);
    var r := AddMany(st.blocks, cs);
    var st' := Ingest(st, path, d);
    assert FindFile(st'.files, path) == |st.files|;
    AddManyKeeps(st.blocks, cs);
    AssembleChunks(r.view, r.ids, cs);
    if |d| > 0 {
      ChunksFlatten(d, st.blockSize);
    }
    FileSizeExtract(st', path);
  }

  // ---- reference counts ----

  /** Every block id held by the records, record by record. */
  function AllIds(files: seq<FileEntry>): seq<int> {
    if files == [] then [] else files[0].blocks + AllIds(files[1..])
  }

  lemma {:induction false} AllIdsAppend(a: seq<FileEntry>, b: seq<FileEntry>)
    ensures AllIds(a + b) == AllIds(a) + AllIds(b)
  {
    if a != [] {
      assert (a + b)[1..] == a[1..] + b;
      AllIdsAppend(a[1..], b);
    } else {
      assert a + b == b;
    }
  }

  /** Every id names a block, and every block's count is the number of times the ids name it. */
  ghost predicate RefCounts(v: seq<Block>, ids: seq<int>) {
    (forall j :: 0 <= j < |ids| ==> 0 <= ids[j] < |v|) &&
    (forall i :: 0 <= i < |v| ==> v[i].refCount == multiset(ids)[i] && v[i].refCount <= INT32_MAX)
  }

  /** The reference counts are what the file records make them. */
  ghost predicate RefInv(st: State) {
    RefCounts(st.blocks, AllIds(st.files))
  }

  lemma {:induction false} MultisetCountBound(s: seq<int>, x: int)
    ensures multiset(s)[x] <= |s|
  {
    if s != [] {
      MultisetCountBound(s[..|s| - 1], x);
      assert s == s[..|s| - 1] + [s[|s| - 1]];
    }
  }

  /** One AddBlock accounts for one more reference to the id it returns. */
  lemma {:induction false} AddBlockRefs(v: seq<Block>, c: seq<byte>, others: seq<int>)
    requires RefCounts(v, others) && |others| < INT32_MAX
    ensures RefCounts(AddBlockSpec(v, c).view, others + [AddBlockSpec(v, c).id])
    ensures |AddBlockSpec(v, c).view| >= |v|
  {
    var a := AddBlockSpec(v, c);
    var i := FindHash(v, HashString(c));
    var m := multiset(others + [a.id]);
    assert multiset(others + [a.id]) == multiset(others) + multiset{a.id};
    if i >= 0 {
      AddBlockFound(v, c, i);
      MultisetCountBound(others, i);
      assert Wrap32(v[i].refCount + 1) == v[i].refCount + 1;
    } else {
      AddBlockNew(v, c);
      assert |v| !in multiset(others);
    }
  }

  lemma {:induction false} AddManyRefs(v: seq<Block>, cs: seq<seq<byte>>, others: seq<int>)
    requires RefCounts(v, others) && |others| + |cs| <= INT32_MAX
    ensures RefCounts(AddMany(v, cs).view, others + AddMany(v, cs).ids)
    decreases |cs|
  {
    if cs == [] {
      assert others + [] == others;
    } else {
      var a := AddBlockSpec(v, cs[0]);
      AddBlockRefs(v, cs[0], others);
      AddManyRefs(a.view, cs[1..], others + [a.id]);
      var r := AddMany(a.view, cs[1..]);
      assert others + [a.id] + r.ids == others + ([a.id] + r.ids);
    }
  }

  /** Ingest keeps every count equal to the number of references, short of 32-bit overflow. */
  lemma {:induction false} IngestRefInv(st: State, path: string, d: seq<byte>)
    requires st.blockSize > 0 || |d| == 0
    requires RefInv(st) && |AllIds(st.files)| + |Chunks(d, st.blockSize)| <= INT32_MAX
    ensures RefInv(Ingest(st, path, d))
  {
    var r := AddMany(st.blocks, Chunks(d, st.blockSize));
    AddManyRefs(st.blocks, Chunks(d, st.blockSize), AllIds(st.files));
    var e := FileEntry(path, r.ids);
    AllIdsAppend(st.files, [e]);
    assert AllIds([e]) == r.ids by {
      assert AllIds([e]) == e.blocks + AllIds([]);
    }
  }

  // ---- removal, as the code does it ----

  /** DecrementRefCount of each id in turn. */
  function DecrementAll(v: seq<Block>, ids: seq<int>): seq<Block> {
    if ids == [] then v else DecrementSpec(DecrementAll(v, ids[..|ids| - 1]), ids[|ids| - 1])
  }

  lemma {:induction false} DecrementAllTake(v: seq<Block>, ids: seq<int>, i: int)
    requires 0 <= i < |ids|
    ensures DecrementAll(v, ids[..i + 1]) == DecrementSpec(DecrementAll(v, ids[..i]), ids[i])
  {
    assert ids[..i + 1][..i] == ids[..i];
  }

  /**
   * RemoveFile: a missing path changes nothing; otherwise each id the record lists is
   * decremented, in order and with the ids as they were stored, and the record goes.
   */
  function Remove(st: State, path: string): (r: State)
    ensures FindFile(st.files, path) < 0 ==> r == st
    ensures r.blockSize == st.blockSize
  {
    var k := FindFile(st.files, path);
    if k < 0 then st
    else State(st.blockSize, DecrementAll(st.blocks, st.files[k].blocks), st.files[..k] + st.files[k + 1..])
  }

  /** The records with the k-th left out. */
  function Without(files: seq<FileEntry>, k: int): seq<FileEntry>
    requires 0 <= k < |files|
  {
    files[..k] + files[k + 1..]
  }

  /**
   * Removal compacts the block list but leaves the other records' ids as they were. Two
   * one-block files "a" and "b" (block size 1): removing "a" deletes block 0, and "b",
   * whose id 1 now names nothing, copies out empty.
   */
  lemma {:induction false} RemoveLeavesStaleIds()
    ensures var st := Ingest(Ingest(State(1, [], []), "a", [1]), "b", [2]);
            Extract(st, "b") == Ok([2]) &&
            Extract(State(st.blockSize, st.blocks, Without(st.files, 0)), "b") == Ok([2]) &&
            Extract(Remove(st, "a"), "b") == Ok([])
  {
    var b1, b2 := Block(HashString([1]), [1], 1), Block(HashString([2]), [2], 1);
    var fa, fb := FileEntry("a", [0]), FileEntry("b", [1]);
    TwoFiles();
    var st := State(1, [b1, b2], [fa, fb]);
    assert FindFile(st.files, "a") == 0;
    assert FindFile(st.files, "b") == 1 by {
      assert st.files[0].path != "b";
    }
    assert FindFile([fb], "b") == 0;
    assert Without(st.files, 0) == [fb];
    AssembleOne(st.blocks, 1);
    AssembleOne([b2], 1);
    assert DecrementAll(st.blocks, [0]) == [b2] by {
      assert [0][..0] == [];
      assert Wrap32(b1.refCount - 1) == 0;
    }
    assert Remove(st, "a") == State(1, [b2], [fb]);
  }

  lemma {:induction false} AssembleOne(v: seq<Block>, id: int)
    ensures Assemble(v, [id]) == BlockBytes(v, id)
  {
    assert [id][1..] == [];
  }

  /** The state of the example above: one block per file, ids 0 and 1. */
  lemma {:induction false} TwoFiles()
    ensures Ingest(Ingest(State(1, [], []), "a", [1]), "b", [2]) ==
            State(1, [Block(HashString([1]), [1], 1), Block(HashString([2]), [2], 1)],
                  [FileEntry("a", [0]), FileEntry("b", [1])])
  {
    var d1: seq<byte>, d2: seq<byte> := [1], [2];
    var b1 := Block(HashString(d1), d1, 1);
    IngestOneChunk(State(1, [], []), "a", d1);
    assert AddBlockSpec([], d1) == Added([b1], 0);
    var st1 := State(1, [b1], [FileEntry("a", [0])]);
    IngestOneChunk(st1, "b", d2);
    OneByteHashes(d1, d2);
    assert FindHash([b1], HashString(d2)) == -1;
    assert AddBlockSpec([b1], d2) == Added([b1, Block(HashString(d2), d2, 1)], 1);
  }

  lemma {:induction false} OneByteHashes(d1: seq<byte>, d2: seq<byte>)
    requires d1 == [1] && d2 == [2]
    ensures HashString(d1) != HashString(d2)
  {
    assert d1[1..] == [] && d2[1..] == [];
    assert HashFrom(0, d1) == HashFrom(1, []) && HashFrom(0, d2) == HashFrom(2, []);
    HashStringInjective(d1, d2);
  }

  /** A file no longer than one block is one AddBlock and one new record. */
  lemma {:induction false} IngestOneChunk(st: State, path: string, d: seq<byte>)
    requires 0 < |d| <= st.blockSize
    ensures var a := AddBlockSpec(st.blocks, d);
            Ingest(st, path, d) == State(st.blockSize, a.view, st.files + [FileEntry(path, [a.id])])
  {
    assert d[..|d|] == d && d[|d|..] == [];
    assert Chunks(d, st.blockSize) == [d];
    var a := AddBlockSpec(st.blocks, d);
    assert AddMany(st.blocks, [d]) == Ingested(a.view, [a.id]) by {
      assert [d][1..] == [];
      assert [a.id] + [] == [a.id];
    }
  }

  // ---- removal with the ids kept current ----

  /** An id after a block at x has gone: the ones above x move down by one. */
  function Renumber(y: int, x: int): int {
    if y > x then y - 1 else y
  }

  function RenumberIds(ids: seq<int>, x: int): (r: seq<int>)
    ensures |r| == |ids| && forall j :: 0 <= j < |ids| ==> r[j] == Renumber(ids[j], x)
  {
    if ids == [] then [] else [Renumber(ids[0], x)] + RenumberIds(ids[1..], x)
  }

  function RenumberFiles(files: seq<FileEntry>, x: int): (r: seq<FileEntry>)
    ensures |r| == |files| && forall j :: 0 <= j < |files| ==> r[j].path == files[j].path
    ensures forall j :: 0 <= j < |files| ==> r[j].blocks == RenumberIds(files[j].blocks, x)
  {
    if files == [] then [] else [files[0].(blocks := RenumberIds(files[0].blocks, x))] + RenumberFiles(files[1..], x)
  }

  /** The blocks and the remaining records, part way through a removal. */
  datatype Pass = Pass(blocks: seq<Block>, others: seq<FileEntry>)

  /** DecrementRefCount takes block x out of the list. */
  predicate Drops(v: seq<Block>, x: int) {
    0 <= x < |v| && Wrap32(v[x].refCount - 1) <= 0
  }

  /**
   * The removal loop with the fix: each pending id is decremented, and when that deletes
   * the block, every id still held, by the other records and by the rest of this one,
   * is renumbered to match the compacted list.
   */
  function DropAll(v: seq<Block>, others: seq<FileEntry>, pending: seq<int>): Pass
    decreases |pending|
  {
    if pending == [] then Pass(v, others)
    else
      var x := pending[0];
      var w := DecrementSpec(v, x);
      if Drops(v, x) then DropAll(w, RenumberFiles(others, x), RenumberIds(pending[1..], x))
      else DropAll(w, others, pending[1..])
  }

  /** RemoveFile with the ids kept current. */
  function RemoveRenumbered(st: State, path: string): (r: State)
    ensures FindFile(st.files, path) < 0 ==> r == st
  {
    var k := FindFile(st.files, path);
    if k < 0 then st else RemoveAt(st, k)
  }

  /** The k-th record goes and the ids it listed are dropped, keeping the rest current. */
  function RemoveAt(st: State, k: int): State
    requires 0 <= k < |st.files|
  {
    var p := DropAll(st.blocks, Without(st.files, k), st.files[k].blocks);
    State(st.blockSize, p.blocks, p.others)
  }

  lemma {:induction false} AllIdsMember(files: seq<FileEntry>, j: int, t: int)
    requires 0 <= j < |files| && 0 <= t < |files[j].blocks|
    ensures files[j].blocks[t] in multiset(AllIds(files))
  {
    if j > 0 {
      AllIdsMember(files[1..], j - 1, t);
    }
  }

  lemma {:induction false} AllIdsRenumber(files: seq<FileEntry>, x: int)
    ensures AllIds(RenumberFiles(files, x)) == RenumberIds(AllIds(files), x)
  {
    if files != [] {
      AllIdsRenumber(files[1..], x);
      RenumberAppend(files[0].blocks, AllIds(files[1..]), x);
      assert RenumberFiles(files, x)[1..] == RenumberFiles(files[1..], x);
    }
  }

  lemma {:induction false} RenumberAppend(a: seq<int>, b: seq<int>, x: int)
    ensures RenumberIds(a + b, x) == RenumberIds(a, x) + RenumberIds(b, x)
  {
  }

  /** With x itself not among the ids, renumbering moves each count down with its block. */
  lemma {:induction false} RenumberCounts(s: seq<int>, x: int, i: int)
    requires x !in s
    ensures multiset(RenumberIds(s, x))[i] == multiset(s)[Unrenumber(i, x)]
  {
    if s != [] {
      var a, t := s[0], s[1..];
      RenumberCounts(t, x, i);
      assert s == [a] + t;
      var r := RenumberIds(s, x);
      assert r == [Renumber(a, x)] + RenumberIds(t, x);
      CountCons(a, t, Unrenumber(i, x));
      CountCons(Renumber(a, x), RenumberIds(t, x), i);
      RenumberHit(a, x, i);
    }
  }

  /** The id before renumbering that ends up as i. */
  function Unrenumber(i: int, x: int): int {
    if i < x then i else i + 1
  }

  lemma {:induction false} CountCons(a: int, t: seq<int>, i: int)
    ensures multiset([a] + t)[i] == (if a == i then 1 else 0) + multiset(t)[i]
  {
    assert multiset([a] + t) == multiset{a} + multiset(t);
  }

  lemma {:induction false} RenumberHit(a: int, x: int, i: int)
    requires a != x
    ensures Renumber(a, x) == i <==> a == Unrenumber(i, x)
  {
  }

  /** In the compacted list a block other than x sits at its renumbered id. */
  lemma {:induction false} CompactIndex(v: seq<Block>, x: int, y: int)
    requires 0 <= x < |v| && 0 <= y < |v| && y != x
    ensures 0 <= Renumber(y, x) < |v| - 1 && (v[..x] + v[x + 1..])[Renumber(y, x)] == v[y]
  {
  }

  /** Renumbered ids copy out of the compacted list what they copied out before. */
  lemma {:induction false} AssembleRenumber(v: seq<Block>, ids: seq<int>, x: int)
    requires 0 <= x < |v| && x !in ids && forall j :: 0 <= j < |ids| ==> 0 <= ids[j] < |v|
    ensures Assemble(v[..x] + v[x + 1..], RenumberIds(ids, x)) == Assemble(v, ids)
  {
    if ids != [] {
      var w := v[..x] + v[x + 1..];
      var r := RenumberIds(ids, x);
      AssembleRenumber(v, ids[1..], x);
      assert r[1..] == RenumberIds(ids[1..], x);
      CompactIndex(v, x, ids[0]);
      assert BlockBytes(w, r[0]) == BlockBytes(v, ids[0]);
    }
  }

  /** Counts do not take part in what copies out. */
  lemma {:induction false} AssembleSameData(v: seq<Block>, w: seq<Block>, ids: seq<int>)
    requires |v| == |w| && forall i :: 0 <= i < |v| ==> v[i].data == w[i].data
    ensures Assemble(w, ids) == Assemble(v, ids)
  {
    if ids != [] {
      AssembleSameData(v, w, ids[1..]);
    }
  }

  /** The counts only depend on how often each id occurs. */
  lemma {:induction false} RefCountsPerm(v: seq<Block>, a: seq<int>, b: seq<int>)
    requires RefCounts(v, a) && multiset(a) == multiset(b)
    ensures RefCounts(v, b)
  {
    forall j | 0 <= j < |b|
      ensures 0 <= b[j] < |v|
    {
      assert b[j] in multiset(a);
    }
  }

  /** The other records keep their paths and copy out the same bytes. */
  ghost predicate SameOut(v: seq<Block>, others: seq<FileEntry>, w: seq<Block>, others': seq<FileEntry>) {
    |others'| == |others| &&
    forall j :: 0 <= j < |others| ==>
      others'[j].path == others[j].path && Assemble(w, others'[j].blocks) == Assemble(v, others[j].blocks)
  }

  /** One pass of the fixed loop: the counts stay exact and the other records copy out the same. */
  lemma {:induction false} DropOne(v: seq<Block>, others: seq<FileEntry>, x: int, rest: seq<int>)
    requires RefCounts(v, AllIds(others) + ([x] + rest))
    ensures var w := DecrementSpec(v, x);
            var others' := if Drops(v, x) then RenumberFiles(others, x) else others;
            var rest' := if Drops(v, x) then RenumberIds(rest, x) else rest;
            RefCounts(w, AllIds(others') + rest') && SameOut(v, others, w, others')
  {
    var s := AllIds(others) + rest;
    PendingCount(AllIds(others), x, rest);
    if Drops(v, x) {
      DropOneDrops(v, others, x, rest);
    } else {
      DropOneKeeps(v, others, x, rest);
    }
  }

  /** Taking the id x out of the middle of the ids takes one from x's count. */
  lemma {:induction false} PendingCount(a: seq<int>, x: int, rest: seq<int>)
    ensures multiset(a + ([x] + rest)) == multiset(a + rest) + multiset{x}
    ensures (a + ([x] + rest))[|a|] == x
  {
  }

  /** The id being decremented moved to the end: same counts, and it names a counted block. */
  lemma {:induction false} PendingLast(v: seq<Block>, a: seq<int>, x: int, rest: seq<int>)
    requires RefCounts(v, a + ([x] + rest))
    ensures RefCounts(v, a + rest + [x]) && 0 <= x < |v| && 1 <= v[x].refCount <= INT32_MAX
    ensures multiset(a + rest)[x] == v[x].refCount - 1
  {
    PendingCount(a, x, rest);
    assert multiset(a + rest + [x]) == multiset(a + rest) + multiset{x};
    RefCountsPerm(v, a + ([x] + rest), a + rest + [x]);
  }

  /** Every id another record holds is among the ids still counted. */
  lemma {:induction false} OthersCounted(v: seq<Block>, others: seq<FileEntry>, x: int, rest: seq<int>, j: int, t: int)
    requires RefCounts(v, AllIds(others) + ([x] + rest))
    requires 0 <= j < |others| && 0 <= t < |others[j].blocks|
    ensures others[j].blocks[t] in multiset(AllIds(others) + rest) && 0 <= others[j].blocks[t] < |v|
  {
    var y := others[j].blocks[t];
    var all := AllIds(others) + ([x] + rest);
    AllIdsMember(others, j, t);
    PendingCount(AllIds(others), x, rest);
    assert y in multiset(all);
    var n :| 0 <= n < |all| && all[n] == y;
  }

  /** The count of x stays above zero: the record keeps its place and nothing is renumbered. */
  lemma {:induction false} DropOneKeeps(v: seq<Block>, others: seq<FileEntry>, x: int, rest: seq<int>)
    requires RefCounts(v, AllIds(others) + ([x] + rest)) && !Drops(v, x)
    ensures RefCounts(DecrementSpec(v, x), AllIds(others) + rest) && SameOut(v, others, DecrementSpec(v, x), others)
  {
    PendingLast(v, AllIds(others), x, rest);
    KeepsCounts(v, AllIds(others) + rest, x);
    KeepsSameOut(v, others, x);
  }

  /** One reference fewer to a block that keeps others: only its count changes. */
  lemma {:induction false} KeepsCounts(v: seq<Block>, s: seq<int>, x: int)
    requires RefCounts(v, s + [x]) && 0 <= x < |v| && IsInt32(v[x].refCount) && !Drops(v, x)
    ensures RefCounts(DecrementSpec(v, x), s)
  {
    var rc := v[x].refCount;
    DecrementSpecAt(v, x, Wrap32(rc - 1));
    assert multiset(s + [x]) == multiset(s) + multiset{x};
    forall j | 0 <= j < |s|
      ensures 0 <= s[j] < |v|
    {
      assert (s + [x])[j] == s[j];
    }
  }

  /** A block that stays keeps its bytes, so the other records copy out the same. */
  lemma {:induction false} KeepsSameOut(v: seq<Block>, others: seq<FileEntry>, x: int)
    requires 0 <= x < |v| && !Drops(v, x)
    ensures SameOut(v, others, DecrementSpec(v, x), others)
  {
    var rc := Wrap32(v[x].refCount - 1);
    DecrementSpecAt(v, x, rc);
    var w := DecrementSpec(v, x);
    forall j | 0 <= j < |others|
      ensures Assemble(w, others[j].blocks) == Assemble(v, others[j].blocks)
    {
      AssembleSameData(v, w, others[j].blocks);
    }
  }

  lemma {:induction false} CompactAt(v: seq<Block>, x: int, i: int)
    requires 0 <= x < |v| && 0 <= i < |v| - 1
    ensures 0 <= Unrenumber(i, x) < |v| && (v[..x] + v[x + 1..])[i] == v[Unrenumber(i, x)]
  {
  }

  /** The count of x reaches zero: the block goes and every id above it moves down. */
  lemma {:induction false} DropOneDrops(v: seq<Block>, others: seq<FileEntry>, x: int, rest: seq<int>)
    requires RefCounts(v, AllIds(others) + ([x] + rest)) && Drops(v, x)
    ensures var w := DecrementSpec(v, x);
            RefCounts(w, AllIds(RenumberFiles(others, x)) + RenumberIds(rest, x)) &&
            SameOut(v, others, w, RenumberFiles(others, x))
  {
    var s := AllIds(others) + rest;
    PendingLast(v, AllIds(others), x, rest);
    var rc := v[x].refCount;
    DecrementSpecAt(v, x, rc - 1);
    assert x !in s;
    AllIdsRenumber(others, x);
    RenumberAppend(AllIds(others), rest, x);
    DropsCounts(v, s, x);
    DropsSameOut(v, others, x, rest);
  }

  /** Without x among the ids, renumbering them matches the list with block x gone. */
  lemma {:induction false} DropsCounts(v: seq<Block>, s: seq<int>, x: int)
    requires RefCounts(v, s + [x]) && 0 <= x < |v| && x !in s
    ensures RefCounts(v[..x] + v[x + 1..], RenumberIds(s, x))
  {
    var w := v[..x] + v[x + 1..];
    var r := RenumberIds(s, x);
    forall j | 0 <= j < |r|
      ensures 0 <= r[j] < |w|
    {
      assert (s + [x])[j] == s[j];
    }
    forall i | 0 <= i < |w|
      ensures w[i].refCount == multiset(r)[i] && w[i].refCount <= INT32_MAX
    {
      DropsCountAt(v, s, x, i);
    }
  }

  lemma {:induction false} DropsCountAt(v: seq<Block>, s: seq<int>, x: int, i: int)
    requires RefCounts(v, s + [x]) && 0 <= x < |v| && x !in s && 0 <= i < |v| - 1
    ensures (v[..x] + v[x + 1..])[i].refCount == multiset(RenumberIds(s, x))[i]
  {
    var y := Unrenumber(i, x);
    RenumberCounts(s, x, i);
    CompactAt(v, x, i);
    assert multiset(s + [x]) == multiset(s) + multiset{x};
    assert v[y].refCount == multiset(s + [x])[y];
  }

  /** After the block at x goes, the other records' renumbered ids copy out the same. */
  lemma {:induction false} DropsSameOut(v: seq<Block>, others: seq<FileEntry>, x: int, rest: seq<int>)
    requires RefCounts(v, AllIds(others) + ([x] + rest)) && 0 <= x < |v| && x !in AllIds(others) + rest
    ensures SameOut(v, others, v[..x] + v[x + 1..], RenumberFiles(others, x))
  {
    forall j | 0 <= j < |others|
      ensures Assemble(v[..x] + v[x + 1..], RenumberIds(others[j].blocks, x)) == Assemble(v, others[j].blocks)
    {
      forall t | 0 <= t < |others[j].blocks|
        ensures 0 <= others[j].blocks[t] < |v| && others[j].blocks[t] != x
      {
        OthersCounted(v, others, x, rest, j, t);
      }
      AssembleRenumber(v, others[j].blocks, x);
    }
  }

  lemma {:induction false} SameOutTrans(u: seq<Block>, a: seq<FileEntry>, v: seq<Block>, b: seq<FileEntry>, w: seq<Block>, c: seq<FileEntry>)
    requires SameOut(u, a, v, b) && SameOut(v, b, w, c)
    ensures SameOut(u, a, w, c)
  {
  }

  /** The whole fixed loop keeps the counts exact and what the other records copy out. */
  lemma {:induction false} DropAllKeeps(v: seq<Block>, others: seq<FileEntry>, pending: seq<int>)
    requires RefCounts(v, AllIds(others) + pending)
    ensures var p := DropAll(v, others, pending);
            RefCounts(p.blocks, AllIds(p.others)) && SameOut(v, others, p.blocks, p.others)
    decreases |pending|
  {
    if pending == [] {
      assert AllIds(others) + pending == AllIds(others);
    } else {
      var x, rest := pending[0], pending[1..];
      assert pending == [x] + rest;
      DropOne(v, others, x, rest);
      var w := DecrementSpec(v, x);
      if Drops(v, x) {
        DropAllKeeps(w, RenumberFiles(others, x), RenumberIds(rest, x));
        SameOutTrans(v, others, w, RenumberFiles(others, x), DropAll(v, others, pending).blocks, DropAll(v, others, pending).others);
      } else {
        DropAllKeeps(w, others, rest);
        SameOutTrans(v, others, w, others, DropAll(v, others, pending).blocks, DropAll(v, others, pending).others);
      }
    }
  }

  /** FindFileRecordIndex only looks at the paths. */
  lemma {:induction false} FindFileSamePaths(a: seq<FileEntry>, b: seq<FileEntry>, path: string)
    requires |a| == |b| && forall j :: 0 <= j < |a| ==> a[j].path == b[j].path
    ensures FindFile(a, path) == FindFile(b, path)
  {
    if a != [] {
      FindFileSamePaths(a[1..], b[1..], path);
    }
  }

  /** The ids of all records are those of the others and then the removed one's, reordered. */
  lemma {:induction false} AllIdsWithout(files: seq<FileEntry>, k: int)
    requires 0 <= k < |files|
    ensures multiset(AllIds(files)) == multiset(AllIds(Without(files, k)) + files[k].blocks)
  {
    AllIdsSplit(files, k);
    AllIdsAppend(files[..k], files[k + 1..]);
    MultisetSwap(AllIds(files[..k]), files[k].blocks, AllIds(files[k + 1..]));
  }

  lemma {:induction false} AllIdsSplit(files: seq<FileEntry>, k: int)
    requires 0 <= k < |files|
    ensures AllIds(files) == AllIds(files[..k]) + files[k].blocks + AllIds(files[k + 1..])
  {
    var tail := [files[k]] + files[k + 1..];
    assert files[..k] + tail == files;
    AllIdsAppend(files[..k], tail);
    assert tail[1..] == files[k + 1..];
    assert AllIds(tail) == files[k].blocks + AllIds(files[k + 1..]);
    AppendAssoc(AllIds(files[..k]), files[k].blocks, AllIds(files[k + 1..]));
  }

  lemma {:induction false} MultisetSwap(a: seq<int>, b: seq<int>, c: seq<int>)
    ensures multiset(a + b + c) == multiset(a + c + b)
  {
  }

  /**
   * With the fix, removal keeps every count exact, and every path still copies out what it
   * copied out from the records with this one taken away.
   */
  lemma {:induction false} RemoveRenumberedKeeps(st: State, path: string)
    requires RefInv(st) && FindFile(st.files, path) >= 0
    ensures RefInv(RemoveRenumbered(st, path)) && RemoveRenumbered(st, path).blockSize == st.blockSize
    ensures var k := FindFile(st.files, path);
            forall q :: Extract(RemoveRenumbered(st, path), q) ==
                        Extract(State(st.blockSize, st.blocks, Without(st.files, k)), q)
  {
    var k := FindFile(st.files, path);
    var others := Without(st.files, k);
    AllIdsWithout(st.files, k);
    RefCountsPerm(st.blocks, AllIds(st.files), AllIds(others) + st.files[k].blocks);
    DropAllKeeps(st.blocks, others, st.files[k].blocks);
    var p := DropAll(st.blocks, others, st.files[k].blocks);
    forall q
      ensures Extract(RemoveRenumbered(st, path), q) == Extract(State(st.blockSize, st.blocks, others), q)
    {
      FindFileSamePaths(p.others, others, q);
    }
  }

  // ---- persistence ----

  /** SerializeContainer: the block size, the block index, the record count, each record. */
  function EncodeContainer(st: State): seq<byte> {
    Int32Bytes(st.blockSize) + EncodeBlocks(st.blocks) + Int32Bytes(|st.files|) + Concat(EncodeRecord, st.files)
  }

  /** The three parts a container file is read back into, in the order they are written. */
  datatype Loaded = Loaded(header: int, blocks: seq<Block>, files: seq<FileEntry>)

  /** The reads of the loading constructor: a header, the block index, the count, the records. */
  function LoadParts(bytes: seq<byte>): Result<Loaded, LoadError> {
    var header :- ReadInt32(bytes);
    var blocks :- DecodeBlocks(header.1);
    var files :- DecodeRecords(blocks.1);
    Ok(Loaded(header.0, blocks.0, files.0))
  }

  /** The record count, then that many records. */
  function DecodeRecords(s: seq<byte>): Result<(seq<FileEntry>, seq<byte>), LoadError> {
    var count :- ReadInt32(s);
    ReadMany(DecodeRecord, count.1, count.0)
  }

  lemma {:induction false} DecodeRecordsOf(files: seq<FileEntry>, rest: seq<byte>)
    requires IsInt32(|files|) && forall i :: 0 <= i < |files| ==> FileRecords.Storable(files[i])
    ensures DecodeRecords(Int32Bytes(|files|) + Concat(EncodeRecord, files) + rest) == Ok((files, rest))
  {
    var recs := Concat(EncodeRecord, files);
    AppendAssoc(Int32Bytes(|files|), recs, rest);
    ReadInt32Of(|files|, recs + rest);
    RecordsReadBack(files, rest);
  }

  /**
   * The loading constructor as written: the header is read into the constructor's
   * parameter, so the container keeps the block size it was opened with.
   */
  function LoadAsWritten(bytes: seq<byte>, blockSize: int): Result<State, LoadError> {
    var l :- LoadParts(bytes);
    Ok(State(blockSize, l.blocks, l.files))
  }

  /** The loading constructor with the header taken as the block size. */
  function Load(bytes: seq<byte>): Result<State, LoadError> {
    var l :- LoadParts(bytes);
    Ok(State(l.header, l.blocks, l.files))
  }

  /** The states whose every written number fits in 32 bits and whose strings are ASCII. */
  predicate StorableState(st: State) {
    IsInt32(st.blockSize) && IsInt32(|st.blocks|) && IsInt32(|st.files|) &&
    (forall i :: 0 <= i < |st.blocks| ==> Blocks.Storable(st.blocks[i])) &&
    (forall i :: 0 <= i < |st.files| ==> FileRecords.Storable(st.files[i]))
  }

  /** A stored state reads back part for part, whatever follows it in the file. */
  lemma {:induction false} LoadPartsOf(st: State, rest: seq<byte>)
    requires StorableState(st)
    ensures LoadParts(EncodeContainer(st) + rest) == Ok(Loaded(st.blockSize, st.blocks, st.files))
  {
    var tail := Int32Bytes(|st.files|) + Concat(EncodeRecord, st.files) + rest;
    assert EncodeContainer(st) + rest == Int32Bytes(st.blockSize) + (EncodeBlocks(st.blocks) + tail);
    ReadInt32Of(st.blockSize, EncodeBlocks(st.blocks) + tail);
    DecodeBlocksOf(st.blocks, tail);
    DecodeRecordsOf(st.files, rest);
  }

  /** With the header read as the block size, a saved container loads as itself. */
  lemma {:induction false} LoadRoundTrip(st: State)
    requires StorableState(st)
    ensures Load(EncodeContainer(st)) == Ok(st)
  {
    AppendNil(EncodeContainer(st));
    LoadPartsOf(st, []);
  }

  /** As written, a saved container loads with the opening block size in place of its own. */
  lemma {:induction false} LoadAsWrittenIgnoresHeader(st: State, blockSize: int)
    requires StorableState(st)
    ensures LoadAsWritten(EncodeContainer(st), blockSize) == Ok(st.(blockSize := blockSize))
    ensures blockSize != st.blockSize ==> LoadAsWritten(EncodeContainer(st), blockSize) != Ok(st)
  {
    AppendNil(EncodeContainer(st));
    LoadPartsOf(st, []);
  }

  /** A new container file holds the block size and two zero counts, and loads as empty. */
  lemma {:induction false} FreshContainer(blockSize: int)
    requires IsInt32(blockSize)
    ensures EncodeContainer(State(blockSize, [], [])) == Int32Bytes(blockSize) + Int32Bytes(0) + Int32Bytes(0)
    ensures Load(EncodeContainer(State(blockSize, [], []))) == Ok(State(blockSize, [], []))
  {
    LoadRoundTrip(State(blockSize, [], []));
  }
}
