/**
 * FileRecord: one stored file, its full path and the ids of its blocks in file order.
 * The record is written as its path (character count and UTF-8 bytes), the number of
 * block ids, then each id as a 32-bit integer.
 */
module FileRecords {
  import opened Wrappers
  import opened Wire
  import opened Seqs

  /** What a FileRecord holds at one moment. */
  datatype FileEntry = FileEntry(path: string, blocks: seq<int>)

  /** FileRecord.Serialize on values. */
  function EncodeRecord(e: FileEntry): seq<byte> {
    StringBytes(e.path) + Int32Bytes(|e.blocks|) + Concat(Int32Bytes, e.blocks)
  }

  /** FileRecord.Deserialize on values: the path, the id count, then that many ids. */
  function DecodeRecord(s: seq<byte>): Result<(FileEntry, seq<byte>), LoadError> {
    var path :- ReadString(s);
    var count :- ReadInt32(path.1);
    var ids :- ReadMany(ReadInt32, count.1, count.0);
    Ok((FileEntry(path.0, ids.0), ids.1))
  }

  /** The records whose every written number fits in 32 bits and whose path is ASCII. */
  predicate Storable(e: FileEntry) {
    IsAscii(e.path) && IsInt32(|e.path|) && IsInt32(|e.blocks|) &&
    forall i :: 0 <= i < |e.blocks| ==> IsInt32(e.blocks[i])
  }

  /** A storable record reads back as itself, and the reader stops right after it. */
  lemma {:induction false} DecodeRecordOf(e: FileEntry, rest: seq<byte>)
    requires Storable(e)
    ensures DecodeRecord(EncodeRecord(e) + rest) == Ok((e, rest))
  {
    var ids := Concat(Int32Bytes, e.blocks);
    assert EncodeRecord(e) + rest == StringBytes(e.path) + (Int32Bytes(|e.blocks|) + (ids + rest));
    ReadStringOf(e.path, Int32Bytes(|e.blocks|) + (ids + rest));
    ReadInt32Of(|e.blocks|, ids + rest);
    forall x, t | IsInt32(x)
      ensures ReadInt32(Int32Bytes(x) + t) == Ok((x, t))
    {
      ReadInt32Of(x, t);
    }
    ReadManyOf(ReadInt32, Int32Bytes, IsInt32, e.blocks, rest);
  }

  /** Storable records written one after another read back as the same list. */
  lemma {:induction false} RecordsReadBack(v: seq<FileEntry>, rest: seq<byte>)
    requires forall i :: 0 <= i < |v| ==> Storable(v[i])
    ensures ReadMany(DecodeRecord, Concat(EncodeRecord, v) + rest, |v|) == Ok((v, rest))
  {
    forall e, t | Storable(e)
      ensures DecodeRecord(EncodeRecord(e) + t) == Ok((e, t))
    {
      DecodeRecordOf(e, t);
    }
    ReadManyOf(DecodeRecord, EncodeRecord, Storable, v, rest);
  }

  /** An ASCII path takes one byte per character: 8 + |path| + 4 per block id in all. */
  lemma {:induction false} EncodedSize(e: FileEntry)
    requires IsAscii(e.path)
    ensures |EncodeRecord(e)| == 8 + |e.path| + 4 * |e.blocks|
  {
    ConcatLength(Int32Bytes, e.blocks, 4);
  }

  class FileRecord {
    var fullPath: string
    var blocks: seq<int>

    /** A new record for the path, with no blocks yet. */
    constructor (path: string)
      ensures fullPath == path && blocks == []
    {
      fullPath := path;
      blocks := [];
    }

    function Value(): FileEntry
      reads this
    {
      FileEntry(fullPath, blocks)
    }

    /** The path with WriteString, the count, then each id. */
    method Serialize() returns (bytes: seq<byte>)
      ensures bytes == EncodeRecord(Value())
    {
      ghost var v := blocks;
      bytes := StringBytes(fullPath);
      bytes := bytes + Int32Bytes(|blocks|);
      ghost var head := bytes;
      AppendNil(head);
      var i := 0;
      while i < |blocks|
        invariant 0 <= i <= |blocks|
        invariant bytes == head + Concat(Int32Bytes, v[..i])
      {
        bytes := bytes + Int32Bytes(blocks[i]);
        ConcatTake(Int32Bytes, v, i);
        AppendAssoc(head, Concat(Int32Bytes, v[..i]), Int32Bytes(v[i]));
        i := i + 1;
      }
      TakeAll(v);
    }

    /**
     * Deserialize replaces the path and appends the ids read to the record's blocks; it
     * returns what is left of the stream. A read that fails is the exception the reader
     * throws; what was assigned before it is not described.
     */
    method Deserialize(stream: seq<byte>) returns (r: Result<seq<byte>, LoadError>)
      modifies this
      ensures r.Err? <==> DecodeRecord(stream).Err?
      ensures r.Ok? ==> r.value == DecodeRecord(stream).value.1 &&
                        fullPath == DecodeRecord(stream).value.0.path &&
                        blocks == old(blocks) + DecodeRecord(stream).value.0.blocks
    {
      var path := ReadString(stream);
      if path.Err? {
        return Err(path.error);
      }
      fullPath := path.value.0;
      var header := ReadInt32(path.value.1);
      if header.Err? {
        return Err(header.error);
      }
      var numBlocks, start := header.value.0, header.value.1;
      ghost var before := blocks;
      ghost var acc: seq<int> := [];
      ghost var left := numBlocks;
      var p := start;
      PrependNone(ReadMany(ReadInt32, p, left));
      AppendNil(before);
      var i := 0;
      while i < numBlocks
        invariant 0 <= i && (numBlocks >= 0 ==> i <= numBlocks) && left == numBlocks - i
        invariant fullPath == path.value.0
        invariant blocks == before + acc
        invariant Prepend(acc, ReadMany(ReadInt32, p, left)) == ReadMany(ReadInt32, start, numBlocks)
      {
        var one := ReadInt32(p);
        if one.Err? {
          return Err(one.error);
        }
        var id := one.value.0;
        ghost var k := left - 1;
        ReadManyStep(ReadInt32, p, left, k, acc, id, one.value.1);
        blocks := blocks + [id];
        AppendAssoc(before, acc, [id]);
        acc := acc + [id];
        left := k;
        p := one.value.1;
        i := i + 1;
      }
      return Ok(p);
    }
  }

  /** The values held by a list of records. */
  ghost function Entries(rs: seq<FileRecord>): (v: seq<FileEntry>)
    reads rs
    ensures |v| == |rs|
  {
    if rs == [] then [] else Entries(rs[..|rs| - 1]) + [rs[|rs| - 1].Value()]
  }

  /** The i-th value is what the i-th record holds. */
  lemma {:induction false} EntriesAt(rs: seq<FileRecord>, i: int)
    requires 0 <= i < |rs|
    ensures Entries(rs)[i] == rs[i].Value()
    decreases |rs|
  {
    if i < |rs| - 1 {
      EntriesAt(rs[..|rs| - 1], i);
    }
  }

  lemma {:induction false} EntriesSnoc(rs: seq<FileRecord>, r: FileRecord)
    ensures Entries(rs + [r]) == Entries(rs) + [r.Value()]
  {
    assert (rs + [r])[..|rs|] == rs;
  }

  /** Taking the k-th record out of the list takes its value out of the values. */
  lemma {:induction false} EntriesRemove(rs: seq<FileRecord>, k: int)
    requires 0 <= k < |rs|
    ensures Entries(rs[..k] + rs[k + 1..]) == Entries(rs)[..k] + Entries(rs)[k + 1..]
  {
    var t := rs[..k] + rs[k + 1..];
    forall j | 0 <= j < |t|
      ensures Entries(t)[j] == (Entries(rs)[..k] + Entries(rs)[k + 1..])[j]
    {
      EntriesAt(t, j);
      if j < k {
        EntriesAt(rs, j);
      } else {
        EntriesAt(rs, j + 1);
      }
    }
  }

  lemma {:induction false} EntriesAll(rs: seq<FileRecord>)
    ensures forall j :: 0 <= j < |rs| ==> Entries(rs)[j] == rs[j].Value()
  {
    forall j | 0 <= j < |rs|
      ensures Entries(rs)[j] == rs[j].Value()
    {
      EntriesAt(rs, j);
    }
  }

  /** Each record holds the value at its index. */
  lemma {:induction false} EntriesValues(rs: seq<FileRecord>, v: seq<FileEntry>)
    requires v == Entries(rs)
    ensures forall j :: 0 <= j < |rs| ==> rs[j].Value() == v[j]
  {
    EntriesAll(rs);
  }

  /** The values are determined record by record. */
  lemma {:induction false} EntriesOf(rs: seq<FileRecord>, v: seq<FileEntry>)
    requires |v| == |rs| && forall j :: 0 <= j < |rs| ==> rs[j].Value() == v[j]
    ensures Entries(rs) == v
  {
    EntriesAll(rs);
  }
}
