/**
 * FileSystemContainer: files stored as lists of block ids into one shared, deduplicating
 * block index, saved to a single container file after every change. The container file
 * is the field `disk`; the files copied in and out are byte sequences handed in and out.
 * Every method is proved against the functions on values in container_model.dfy.
 */
module Container {
  import opened Wrappers
  import opened Wire
  import opened Seqs
  import opened Blocks
  import opened FileRecords
  import opened ContainerModel
  import StringImplementations

  class FileSystemContainer {
    var blockSize: int
    var blockIndex: BlockIndex
    var fileRecords: seq<FileRecord>
    /** The bytes of the container file. */
    var disk: seq<byte>

    /** The block records and the file records are each distinct objects. */
    ghost predicate Valid()
      reads this`blockIndex, this`fileRecords, blockIndex
    {
      blockIndex.Valid() && Distinct(fileRecords)
    }

    /** What the container holds, as a value. */
    ghost function Model(): State
      reads this`blockSize, this`blockIndex, this`fileRecords, blockIndex, blockIndex.blocks, fileRecords
    {
      State(blockSize, blockIndex.View(), Entries(fileRecords))
    }

    /** An empty container; the constructor's file handling is in Open. */
    constructor (blockSize: int)
      ensures Valid() && Model() == State(blockSize, [], []) && disk == []
      ensures fresh(blockIndex)
    {
      this.blockSize := blockSize;
      blockIndex := new BlockIndex();
      fileRecords := [];
      disk := [];
    }

    /**
     * The constructor's file handling. With no container file, an empty container is
     * created and written: the block size and two zero counts. With one, its header, block
     * index and records are read; a failed read is the exception the reader throws. As
     * written, the header is read into the parameter, so the container keeps the block
     * size it was opened with (see LoadAsWritten).
     */
    static method Open(existing: Option<seq<byte>>, blockSize: int) returns (r: Result<FileSystemContainer, LoadError>)
      ensures r.Ok? ==> fresh(r.value) && r.value.Valid()
      ensures existing.None? ==> r.Ok? && r.value.Model() == State(blockSize, [], []) &&
                                 r.value.disk == EncodeContainer(State(blockSize, [], []))
      ensures existing.Some? ==> (r.Ok? <==> LoadParts(existing.value).Ok?)
      ensures existing.Some? && r.Ok? ==>
                r.value.Model() == LoadAsWritten(existing.value, blockSize).value && r.value.disk == existing.value
    {
      var c := new FileSystemContainer(blockSize);
      if existing.None? {
        c.SerializeContainer();
        return Ok(c);
      }
      var loaded := c.LoadFrom(existing.value);
      if loaded.Err? {
        return Err(loaded.error);
      }
      return Ok(c);
    }

    /**
     * The loading branch of the constructor, on an empty container: header, block index,
     * records. The header is read and dropped; the block size stays as it was.
     */
    method LoadFrom(bytes: seq<byte>) returns (r: Result<(), LoadError>)
      requires Valid() && blockIndex.View() == [] && fileRecords == []
      modifies this`fileRecords, this`disk, blockIndex
      ensures Valid()
      ensures r.Ok? <==> LoadParts(bytes).Ok?
      ensures r.Ok? ==> Model() == LoadAsWritten(bytes, blockSize).value && disk == bytes
    {
      disk := bytes;
      var header := ReadInt32(bytes);
      if header.Err? {
        return Err(header.error);
      }
      var afterBlocks := blockIndex.Deserialize(header.value.1);
      if afterBlocks.Err? {
        return Err(afterBlocks.error);
      }
      ghost var blocks := blockIndex.View();
      assert blocks == DecodeBlocks(header.value.1).value.0;
      var afterRecords := LoadRecords(afterBlocks.value);
      assert blockIndex.View() == blocks;
      if afterRecords.Err? {
        return Err(afterRecords.error);
      }
      return Ok(());
    }

    /** The record loop of the loading constructor: a count, then each record read into a new FileRecord. */
    method LoadRecords(stream: seq<byte>) returns (r: Result<seq<byte>, LoadError>)
      requires fileRecords == []
      modifies this`fileRecords
      ensures Distinct(fileRecords)
      ensures r.Err? <==> DecodeRecords(stream).Err?
      ensures r.Ok? ==> r.value == DecodeRecords(stream).value.1 && Entries(fileRecords) == DecodeRecords(stream).value.0
    {
      var header := ReadInt32(stream);
      if header.Err? {
        return Err(header.error);
      }
      var numFiles, start := header.value.0, header.value.1;
      ghost var acc: seq<FileEntry> := [];
      ghost var left := numFiles;
      var p := start;
      PrependNone(ReadMany(DecodeRecord, p, left));
      var i := 0;
      while i < numFiles
        invariant 0 <= i && (numFiles >= 0 ==> i <= numFiles) && left == numFiles - i
        invariant Distinct(fileRecords) && Entries(fileRecords) == acc
        invariant Prepend(acc, ReadMany(DecodeRecord, p, left)) == ReadMany(DecodeRecord, start, numFiles)
      {
        var read := LoadRecord(p, acc);
        if read.Err? {
          return Err(read.error);
        }
        var e := DecodeRecord(p).value.0;
        ghost var k := left - 1;
        ReadManyStep(DecodeRecord, p, left, k, acc, e, read.value);
        acc := acc + [e];
        left := k;
        p := read.value;
        i := i + 1;
      }
      return Ok(p);
    }

    /** One turn of the record loop: `new FileRecord("")`, its Deserialize, and `fileRecords.Add`. */
    method LoadRecord(p: seq<byte>, ghost was: seq<FileEntry>) returns (r: Result<seq<byte>, LoadError>)
      requires Distinct(fileRecords) && was == Entries(fileRecords)
      modifies this`fileRecords
      ensures Distinct(fileRecords)
      ensures r.Err? <==> DecodeRecord(p).Err?
      ensures r.Ok? ==> r.value == DecodeRecord(p).value.1 && Entries(fileRecords) == was + [DecodeRecord(p).value.0]
    {
      var fr := new FileRecord("");
      var read := fr.Deserialize(p);
      if read.Err? {
        return Err(read.error);
      }
      assert Entries(fileRecords) == was;
      assert fr.Value() == DecodeRecord(p).value.0;
      DistinctSnoc(fileRecords, fr);
      EntriesSnoc(fileRecords, fr);
      fileRecords := fileRecords + [fr];
      return read;
    }

    function FileRecordCount(): (n: int)
      reads this`blockSize, this`blockIndex, this`fileRecords, blockIndex, blockIndex.blocks, fileRecords
      ensures n == |Model().files|
    {
      |fileRecords|
    }

    /** The record at the index; the list's indexer throws outside [0, Count). */
    function GetFileRecord(index: int): (r: Option<FileRecord>)
      reads this`blockSize, this`blockIndex, this`fileRecords, blockIndex, blockIndex.blocks, fileRecords
      ensures r.None? <==> !(0 <= index < |Model().files|)
      ensures r.Some? ==> r.value == fileRecords[index] && r.value.Value() == Model().files[index]
    {
      if index < 0 || index >= |fileRecords| then None
      else
        EntriesAt(fileRecords, index);
        Some(fileRecords[index])
    }

    /** The first record whose path compares equal, or -1. */
    method FindFileRecordIndex(fullPath: string) returns (r: int)
      ensures r == FindFile(Model().files, fullPath)
    {
      var i := 0;
      while i < |fileRecords|
        invariant 0 <= i <= |fileRecords|
        invariant forall j :: 0 <= j < i ==> Model().files[j].path != fullPath
      {
        EntriesAt(fileRecords, i);
        if StringImplementations.CustomCompare(fileRecords[i].fullPath, fullPath) == 0 {
          return i;
        }
        i := i + 1;
      }
      return -1;
    }

    /**
     * The bytes written to the destination: the data of each listed block that exists,
     * in the record's order. A missing path is the FileNotFoundException.
     */
    method CopyFileOutFromContainer(fullPath: string) returns (r: Result<seq<byte>, ContainerError>)
      ensures r == Extract(Model(), fullPath)
    {
      var fileIndex := FindFileRecordIndex(fullPath);
      if fileIndex < 0 {
        return Err(NotFound);
      }
      EntriesAt(fileRecords, fileIndex);
      var out := ReadBlocks(fileRecords[fileIndex].blocks);
      return Ok(out);
    }

    /** The loop of CopyFileOutFromContainer: each listed block that exists, in order. */
    method ReadBlocks(ids: seq<int>) returns (out: seq<byte>)
      ensures out == Assemble(blockIndex.View(), ids)
    {
      ghost var v := blockIndex.View();
      out := [];
      var i := 0;
      while i < |ids|
        invariant 0 <= i <= |ids|
        invariant out == Assemble(v, ids[..i])
      {
        AssembleTake(v, ids, i);
        var br := blockIndex.GetBlockRecord(ids[i]);
        if br != null {
          out := out + br.data;
        }
        i := i + 1;
      }
      TakeAll(ids);
    }

    /** The sum of the lengths of the listed blocks that exist, or -1 for a missing path. */
    method GetFileSizeInContainer(fullPath: string) returns (size: int)
      ensures size == FileSize(Model(), fullPath)
    {
      var fileIndex := FindFileRecordIndex(fullPath);
      if fileIndex < 0 {
        return -1;
      }
      EntriesAt(fileRecords, fileIndex);
      size := SizeOfBlocks(fileRecords[fileIndex].blocks);
    }

    /** The loop of GetFileSizeInContainer: the lengths of the listed blocks that exist. */
    method SizeOfBlocks(ids: seq<int>) returns (total: int)
      ensures total == SumSizes(blockIndex.View(), ids)
    {
      ghost var v := blockIndex.View();
      total := 0;
      var i := 0;
      while i < |ids|
        invariant 0 <= i <= |ids|
        invariant total == SumSizes(v, ids[..i])
      {
        SumSizesTake(v, ids, i);
        var br := blockIndex.GetBlockRecord(ids[i]);
        if br != null {
          total := total + |br.data|;
        }
        i := i + 1;
      }
      TakeAll(ids);
    }

    /** The bytes SerializeContainer writes: the block size, the block index, then the records. */
    method ContainerBytes() returns (bytes: seq<byte>)
      ensures bytes == EncodeContainer(Model())
    {
      ghost var st := Model();
      var index := blockIndex.Serialize();
      var records := RecordsBytes();
      bytes := Int32Bytes(blockSize) + index + Int32Bytes(|fileRecords|) + records;
      assert Model() == st;
    }

    /** The record loop of SerializeContainer: each record's Serialize, in list order. */
    method RecordsBytes() returns (bytes: seq<byte>)
      ensures bytes == Concat(EncodeRecord, Entries(fileRecords))
    {
      ghost var files := Entries(fileRecords);
      bytes := [];
      var i := 0;
      while i < |fileRecords|
        invariant 0 <= i <= |files|
        invariant bytes == Concat(EncodeRecord, files[..i])
      {
        EntriesAt(fileRecords, i);
        var one := fileRecords[i].Serialize();
        bytes := bytes + one;
        ConcatTake(EncodeRecord, files, i);
        i := i + 1;
      }
      TakeAll(files);
    }

    /** `new byte[n]` filled from the source bytes at the offset. */
    static method CopyChunk(data: seq<byte>, offset: int, n: int) returns (chunk: seq<byte>)
      requires 0 <= offset && 0 <= n && offset + n <= |data|
      ensures chunk == data[offset..offset + n]
    {
      var blockData := new byte[n];
      for i := 0 to n
        invariant blockData[..i] == data[offset..offset + i]
      {
        blockData[i] := data[offset + i];
      }
      chunk := blockData[..];
    }

    /**
     * The source file's bytes are cut into chunks of the block size, each goes through
     * AddBlock, and a record of the ids is appended; then the container file is rewritten.
     * A missing source is the FileNotFoundException. With a negative block size the chunk
     * array cannot be allocated and the first chunk throws, before anything changes. With a
     * block size of zero the loop would not end, which the precondition excludes.
     */
    method CopyFileIntoContainer(source: Option<seq<byte>>, fullPath: string) returns (r: Result<(), ContainerError>)
      requires Valid()
      requires source.None? || blockSize != 0 || |source.value| == 0
      modifies this, blockIndex, blockIndex.Repr
      ensures Valid()
      ensures r.Ok? <==> IngestResult(old(Model()), fullPath, source).Ok?
      ensures r.Ok? ==> Model() == IngestResult(old(Model()), fullPath, source).value && disk == EncodeContainer(Model())
      ensures r.Err? ==> r.error == IngestResult(old(Model()), fullPath, source).error &&
                         Model() == old(Model()) && disk == old(disk)
    {
      if source.None? {
        return Err(SourceNotFound);
      }
      var data := source.value;
      ghost var st := Model();
      var ok := StoreFile(data, fullPath);
      if !ok {
        return Err(InvalidBlockSize);
      }
      ghost var after := Model();
      SerializeContainer();
      assert Model() == after;
      return Ok(());
    }

    /** The chunking loop and the new record: false, changing nothing, on a negative block size. */
    method StoreFile(data: seq<byte>, fullPath: string) returns (ok: bool)
      requires Valid()
      requires blockSize != 0 || |data| == 0
      modifies this`fileRecords, blockIndex, blockIndex.Repr
      ensures Valid() && (ok <==> blockSize > 0 || |data| == 0)
      ensures ok ==> Model() == Ingest(old(Model()), fullPath, data)
      ensures !ok ==> Model() == old(Model())
    {
      ghost var st := Model();
      var ids;
      ok, ids := StoreFileBlocks(data);
      if !ok {
        return;
      }
      ghost var view := blockIndex.View();
      assert Ingest(st, fullPath, data) == State(st.blockSize, view, st.files + [FileEntry(fullPath, ids)]);
      AppendRecord(fullPath, ids, st.files);
      assert blockIndex.View() == view;
    }

    /** `new FileRecord(fullPath)` with the ids, added at the end of the records. */
    method AppendRecord(fullPath: string, ids: seq<int>, ghost was: seq<FileEntry>)
      requires Distinct(fileRecords) && was == Entries(fileRecords)
      modifies this`fileRecords
      ensures Distinct(fileRecords)
      ensures Entries(fileRecords) == was + [FileEntry(fullPath, ids)]
    {
      var record := new FileRecord(fullPath);
      assert Entries(fileRecords) == was;
      record.blocks := ids;
      assert Entries(fileRecords) == was;
      DistinctSnoc(fileRecords, record);
      EntriesSnoc(fileRecords, record);
      fileRecords := fileRecords + [record];
    }

    /** The chunking loop, which leaves the file records as they are. */
    method StoreFileBlocks(data: seq<byte>) returns (ok: bool, ids: seq<int>)
      requires blockIndex.Valid()
      requires blockSize != 0 || |data| == 0
      modifies blockIndex, blockIndex.Repr
      ensures blockIndex.Valid() && (ok <==> blockSize > 0 || |data| == 0)
      ensures ok ==> Ingested(blockIndex.View(), ids) == AddMany(old(blockIndex.View()), Chunks(data, blockSize))
      ensures !ok ==> blockIndex.View() == old(blockIndex.View())
      ensures Entries(fileRecords) == old(Entries(fileRecords))
    {
      ok, ids := StoreChunks(data);
    }

    /**
     * The chunking loop: AddBlock of each chunk in turn, collecting the ids the record gets.
     * False when a negative block size makes the first chunk's array throw, before any change.
     */
    method StoreChunks(data: seq<byte>) returns (ok: bool, ids: seq<int>)
      requires blockIndex.Valid()
      requires blockSize != 0 || |data| == 0
      modifies blockIndex, blockIndex.Repr
      ensures blockIndex.Valid() && (ok <==> blockSize > 0 || |data| == 0)
      ensures ok ==> Ingested(blockIndex.View(), ids) == AddMany(old(blockIndex.View()), Chunks(data, blockSize))
      ensures !ok ==> blockIndex.View() == old(blockIndex.View())
    {
      var size := blockSize;
      if size < 0 && |data| > 0 {
        // the first chunk has length Math.Min(blockSize, remaining) < 0: `new byte[...]` throws
        return false, [];
      }
      ghost var v := blockIndex.View();
      ghost var target := AddMany(v, Chunks(data, size));
      ThenNone(target);
      ghost var view := v;
      ids := [];
      var offset := 0;
      while offset < |data|
        invariant 0 <= offset <= |data|
        invariant blockIndex.Valid() && blockIndex.View() == view
        invariant fresh(blockIndex.Repr - old(blockIndex.Repr))
        invariant Then(ids, AddMany(view, Chunks(data[offset..], size))) == target
        decreases |data| - offset
      {
        var id, chunkSize := StoreChunk(data, offset, size, ids, target);
        offset := offset + chunkSize;
        ids := ids + [id];
        view := blockIndex.View();
      }
      ThenDone(ids, view, size);
      return true, ids;
    }

    /** One turn of the chunking loop: the next chunk is copied out and added to the index. */
    method StoreChunk(data: seq<byte>, offset: int, size: int, ghost ids: seq<int>, ghost target: Ingested)
      returns (id: int, chunkSize: int)
      requires blockIndex.Valid() && 0 <= offset < |data| && size > 0
      requires Then(ids, AddMany(blockIndex.View(), Chunks(data[offset..], size))) == target
      modifies blockIndex, blockIndex.Repr
      ensures blockIndex.Valid() && fresh(blockIndex.Repr - old(blockIndex.Repr))
      ensures chunkSize == ChunkLength(size, |data| - offset)
      ensures Then(ids + [id], AddMany(blockIndex.View(), Chunks(data[offset + chunkSize..], size))) == target
    {
      ghost var view := blockIndex.View();
      chunkSize := ChunkLength(size, |data| - offset);
      var blockData := CopyChunk(data, offset, chunkSize);
      id := blockIndex.AddBlock(blockData);
      IngestStepAt(view, data, offset, chunkSize, size, blockData, ids, blockIndex.View(), id, target);
    }

    /**
     * RemoveFile: a missing path changes nothing and leaves the container file as it is.
     * Otherwise each id the record lists is decremented in turn, the record goes, and the
     * container file is rewritten. The other records' ids are left as they are, so a
     * block deleted on the way leaves them naming the blocks after it (see
     * RemoveLeavesStaleIds; RemoveFileRenumbered is the corrected removal).
     */
    method RemoveFile(fullPath: string) returns (found: bool)
      requires Valid()
      modifies this`fileRecords, this`disk, blockIndex, blockIndex.Repr
      ensures Valid()
      ensures found <==> FindFile(old(Model()).files, fullPath) >= 0
      ensures found ==> Model() == Remove(old(Model()), fullPath) && disk == EncodeContainer(Model())
      ensures !found ==> Model() == old(Model()) && disk == old(disk)
    {
      ghost var st := Model();
      var fileIndex := FindFileRecordIndex(fullPath);
      if fileIndex < 0 {
        return false;
      }
      RemoveRecord(fileIndex);
      ghost var after := Model();
      assert after == Remove(st, fullPath);
      SerializeContainer();
      assert Model() == after;
      return true;
    }

    /** The decrement loop over the record at k, then `fileRecords.RemoveAt(k)`. */
    method RemoveRecord(k: int)
      requires Valid() && 0 <= k < |Model().files|
      modifies this`fileRecords, blockIndex, blockIndex.Repr
      ensures Valid()
      ensures Model() == State(old(blockSize), DecrementAll(old(Model()).blocks, old(Model()).files[k].blocks),
                               Without(old(Model()).files, k))
    {
      ghost var st := Model();
      EntriesAt(fileRecords, k);
      var record := fileRecords[k];
      DecrementEach(record.blocks, st.files);
      var _ := TakeRecord(k, st.files);
    }

    /** `blockIndex.DecrementRefCount` of each id in turn; the records are not touched. */
    method DecrementEach(ids: seq<int>, ghost others: seq<FileEntry>)
      requires blockIndex.Valid() && others == Entries(fileRecords)
      modifies blockIndex, blockIndex.Repr
      ensures blockIndex.Valid() && blockIndex.Repr == old(blockIndex.Repr)
      ensures blockIndex.View() == DecrementAll(old(blockIndex.View()), ids)
      ensures Entries(fileRecords) == others
    {
      ghost var v := blockIndex.View();
      var i := 0;
      while i < |ids|
        invariant 0 <= i <= |ids|
        invariant blockIndex.Valid() && blockIndex.Repr == old(blockIndex.Repr)
        invariant blockIndex.View() == DecrementAll(v, ids[..i])
        invariant Entries(fileRecords) == others
      {
        DecrementAllTake(v, ids, i);
        DecrementBlock(ids[i], others);
        i := i + 1;
      }
      assert ids[..i] == ids;
    }

    /**
     * The corrected removal, with every id kept current: the record goes, each id it
     * listed is decremented, and when that deletes a block the ids above it, in the other
     * records and among the ones still to be decremented, move down by one. A missing path
     * changes nothing and leaves the container file as it is.
     */
    method RemoveFileRenumbered(fullPath: string) returns (found: bool)
      requires Valid()
      modifies this, blockIndex, blockIndex.Repr, fileRecords
      ensures Valid()
      ensures found <==> FindFile(old(Model()).files, fullPath) >= 0
      ensures found ==> Model() == RemoveRenumbered(old(Model()), fullPath) && disk == EncodeContainer(Model())
      ensures !found ==> Model() == old(Model()) && disk == old(disk)
    {
      var fileIndex := FindFileRecordIndex(fullPath);
      if fileIndex < 0 {
        return false;
      }
      RemoveRecordRenumbered(fileIndex);
      ghost var after := Model();
      SerializeContainer();
      assert Model() == after;
      return true;
    }

    /** The record at k goes, and so do the references it held, with the ids kept current. */
    method RemoveRecordRenumbered(k: int)
      requires Valid() && 0 <= k < |Model().files|
      modifies this`fileRecords, blockIndex, blockIndex.Repr, fileRecords
      ensures Valid() && Model() == RemoveAt(old(Model()), k)
    {
      ghost var st := Model();
      var ids := TakeRecord(k, st.files);
      ghost var p := DropAll(st.blocks, Without(st.files, k), ids);
      DropBlocks(ids, p);
    }

    /** `fileRecords.RemoveAt(k)`, returning the ids the removed record listed. */
    method TakeRecord(k: int, ghost was: seq<FileEntry>) returns (ids: seq<int>)
      requires Distinct(fileRecords) && was == Entries(fileRecords) && 0 <= k < |fileRecords|
      modifies this`fileRecords
      ensures Distinct(fileRecords) && Entries(fileRecords) == Without(was, k) && ids == was[k].blocks
      ensures forall j :: 0 <= j < |fileRecords| ==> fileRecords[j] in old(fileRecords)
    {
      EntriesAt(fileRecords, k);
      ids := fileRecords[k].blocks;
      DistinctRemove(fileRecords, k);
      EntriesRemove(fileRecords, k);
      fileRecords := fileRecords[..k] + fileRecords[k + 1..];
    }

    /** The corrected decrement loop: each decrement, then the renumbering that keeps ids current. */
    method DropBlocks(ids: seq<int>, ghost target: Pass)
      requires blockIndex.Valid() && Distinct(fileRecords)
      requires DropAll(blockIndex.View(), Entries(fileRecords), ids) == target
      modifies blockIndex, blockIndex.Repr, fileRecords
      ensures blockIndex.Valid() && blockIndex.Repr == old(blockIndex.Repr)
      ensures Pass(blockIndex.View(), Entries(fileRecords)) == target
    {
      var pending := ids;
      while pending != []
        invariant blockIndex.Valid() && blockIndex.Repr == old(blockIndex.Repr)
        invariant DropAll(blockIndex.View(), Entries(fileRecords), pending) == target
        decreases |pending|
      {
        pending := DropStep(pending, target);
      }
    }

    /** One decrement; when it deletes the block, the ids above it move down. */
    method DropStep(pending: seq<int>, ghost target: Pass) returns (rest: seq<int>)
      requires blockIndex.Valid() && Distinct(fileRecords) && pending != []
      requires DropAll(blockIndex.View(), Entries(fileRecords), pending) == target
      modifies blockIndex, blockIndex.Repr, fileRecords
      ensures blockIndex.Valid() && blockIndex.Repr == old(blockIndex.Repr) && |rest| < |pending|
      ensures DropAll(blockIndex.View(), Entries(fileRecords), rest) == target
    {
      var x := pending[0];
      ghost var others := Entries(fileRecords);
      ghost var v := blockIndex.View();
      var br := blockIndex.GetBlockRecord(x);
      var drops := br != null && Wrap32(br.referenceCount - 1) <= 0;
      assert drops == Drops(v, x);
      DecrementBlock(x, others);
      if drops {
        ghost var w := blockIndex.View();
        RenumberRecords(x, others);
        assert blockIndex.View() == w;
        rest := RenumberIds(pending[1..], x);
      } else {
        rest := pending[1..];
      }
    }

    /** `blockIndex.DecrementRefCount(x)`, which leaves the file records as they are. */
    method DecrementBlock(x: int, ghost others: seq<FileEntry>)
      requires blockIndex.Valid() && others == Entries(fileRecords)
      modifies blockIndex, blockIndex.Repr
      ensures blockIndex.Valid() && blockIndex.Repr == old(blockIndex.Repr)
      ensures blockIndex.View() == DecrementSpec(old(blockIndex.View()), x)
      ensures Entries(fileRecords) == others
    {
      blockIndex.DecrementRefCount(x);
    }

    /** Every id above x, in every record, moves down by one. */
    method RenumberRecords(x: int, ghost was: seq<FileEntry>)
      requires Distinct(fileRecords) && was == Entries(fileRecords)
      modifies fileRecords
      ensures Entries(fileRecords) == RenumberFiles(was, x)
    {
      EntriesValues(fileRecords, was);
      ghost var goal := RenumberFiles(was, x);
      RenumberEach(x, was, goal);
      EntriesOf(fileRecords, goal);
    }

    /** The loop of RenumberRecords: each record in turn gets its renumbered ids. */
    method RenumberEach(x: int, ghost was: seq<FileEntry>, ghost goal: seq<FileEntry>)
      requires Distinct(fileRecords) && |fileRecords| == |was| && goal == RenumberFiles(was, x)
      requires Renumbered(0, was, goal)
      modifies fileRecords
      ensures Renumbered(|fileRecords|, was, goal)
    {
      var i := 0;
      while i < |fileRecords|
        invariant 0 <= i <= |fileRecords|
        invariant Renumbered(i, was, goal)
      {
        RenumberOne(i, x, was, goal);
        i := i + 1;
      }
    }

    /** The first i records hold their goal values, the others what they held before. */
    ghost predicate Renumbered(i: int, was: seq<FileEntry>, goal: seq<FileEntry>)
      reads this`fileRecords, fileRecords
      requires 0 <= i <= |fileRecords| == |was| == |goal|
    {
      (forall j :: 0 <= j < i ==> fileRecords[j].Value() == goal[j]) &&
      (forall j :: i <= j < |fileRecords| ==> fileRecords[j].Value() == was[j])
    }

    /** The loop body of RenumberRecords: the i-th record's ids, renumbered. */
    method RenumberOne(i: int, x: int, ghost was: seq<FileEntry>, ghost goal: seq<FileEntry>)
      requires Distinct(fileRecords) && 0 <= i < |fileRecords| == |was|
      requires goal == RenumberFiles(was, x) && Renumbered(i, was, goal)
      modifies fileRecords[i]
      ensures Renumbered(i + 1, was, goal)
    {
      var r := fileRecords[i];
      assert r.Value() == was[i];
      r.blocks := RenumberIds(r.blocks, x);
      assert r.Value() == goal[i];
      forall j | 0 <= j < |fileRecords| && j != i
        ensures fileRecords[j].Value() == old(fileRecords[j].Value())
      {
        assert fileRecords[j] != r;
      }
    }

    /** Rewrites the container file with what the container holds. */
    method SerializeContainer()
      modifies this`disk
      ensures Model() == old(Model()) && disk == EncodeContainer(Model())
    {
      ghost var st := Model();
      var bytes := ContainerBytes();
      disk := bytes;
      assert Model() == st;
    }
  }
}
