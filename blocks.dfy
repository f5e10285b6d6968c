/**
 * The block store: BlockRecord (a hash, the block's bytes and a reference count) and
 * BlockIndex, the ordered list of stored blocks. A block's id is its position in the
 * list; equal hashes are taken to mean equal blocks, and a block whose count drops to
 * zero is removed, which moves every later block down one position.
 */
module Blocks {
  import opened Wrappers
  import opened Wire
  import opened Numerals
  import StringImplementations
  import opened Seqs

  const HASH_MODULUS: int := 1000000007

  /** C#'s `long`. */
  newtype int64 = x: int | -0x8000_0000_0000_0000 <= x < 0x8000_0000_0000_0000

  /** What a BlockRecord holds at one moment. */
  datatype Block = Block(hash: string, data: seq<byte>, refCount: int)

  // ---- the hash ----

  /** ComputeHash's loop from the accumulator `acc` over the bytes of d: each step is (sum * 31 + byte) mod P. */
  function HashFrom(acc: int, d: seq<byte>): (r: int)
    requires 0 <= acc < HASH_MODULUS
    ensures 0 <= r < HASH_MODULUS
    decreases |d|
  {
    if d == [] then acc else HashFrom((acc * 31 + d[0] as int) % HASH_MODULUS, d[1..])
  }

  /** The accumulator of ComputeHash after all the bytes of d. */
  function HashValue(d: seq<byte>): (r: int)
    ensures 0 <= r < HASH_MODULUS
  {
    HashFrom(0, d)
  }

  /**
   * ComputeHash from the accumulator `acc` on: the loop over the remaining bytes, then
   * "blk" and the accumulator in decimal.
   */
  function HashText(acc: int, d: seq<byte>): string
    requires 0 <= acc < HASH_MODULUS
    decreases |d|
  {
    if d == [] then "blk" + NatToString(acc) else HashText((acc * 31 + d[0] as int) % HASH_MODULUS, d[1..])
  }

  /** The hash string of a block's bytes. */
  function HashString(d: seq<byte>): string {
    HashText(0, d)
  }

  /** What the loop computes: "blk" and the final accumulator in decimal. */
  lemma {:induction false} HashTextValue(acc: int, d: seq<byte>)
    requires 0 <= acc < HASH_MODULUS
    ensures HashText(acc, d) == "blk" + NatToString(HashFrom(acc, d))
    decreases |d|
  {
    if d != [] {
      HashTextValue((acc * 31 + d[0] as int) % HASH_MODULUS, d[1..]);
    }
  }

  /** A hash string is "blk" followed by the decimal digits of the accumulator. */
  lemma {:induction false} HashStringValue(d: seq<byte>)
    ensures var h := HashString(d);
            h == "blk" + NatToString(HashValue(d)) && |h| > 3 && h[..3] == "blk" && h[3..] == NatToString(HashValue(d))
  {
    HashTextValue(0, d);
  }

  /** Two byte strings get the same hash string exactly when their accumulators agree. */
  lemma {:induction false} HashStringInjective(a: seq<byte>, b: seq<byte>)
    ensures HashString(a) == HashString(b) <==> HashValue(a) == HashValue(b)
  {
    HashStringValue(a);
    HashStringValue(b);
    if HashString(a) == HashString(b) {
      NatToStringInjective(HashValue(a), HashValue(b));
    }
  }

  /** Hash strings are short ASCII strings, so the string writer's count is their byte count. */
  lemma {:induction false} HashStringAscii(d: seq<byte>)
    ensures IsAscii(HashString(d)) && |HashString(d)| <= 13
  {
    var h := HashString(d);
    HashStringValue(d);
    NatToStringLength(HashValue(d), 10);
    assert HASH_MODULUS < Pow10(10) by {
      assert Pow10(10) == 10000000000;
    }
    forall i | 0 <= i < |h|
      ensures h[i] as int < 128
    {
      if i >= 3 {
        assert h[i] == h[3..][i - 3];
      }
    }
  }

  // ---- the list of blocks as values ----

  /** FindBlockIndexByHash on values: the first position holding the hash, or -1. */
  function FindHash(v: seq<Block>, hash: string): (r: int)
    ensures -1 <= r < |v|
    ensures r >= 0 ==> v[r].hash == hash && forall j :: 0 <= j < r ==> v[j].hash != hash
    ensures r == -1 <==> forall j :: 0 <= j < |v| ==> v[j].hash != hash
  {
    if v == [] then -1
    else if v[0].hash == hash then 0
    else
      var r := FindHash(v[1..], hash);
      if r == -1 then -1 else r + 1
  }

  predicate DistinctHashes(v: seq<Block>) {
    forall i, j :: 0 <= i < j < |v| ==> v[i].hash != v[j].hash
  }

  /** Every block carries the hash of its own bytes (true of blocks that AddBlock creates). */
  predicate HashesMatch(v: seq<Block>) {
    forall i :: 0 <= i < |v| ==> v[i].hash == HashString(v[i].data)
  }

  /** The blocks after AddBlock, and the id it returns. */
  datatype Added = Added(view: seq<Block>, id: int)

  /**
   * AddBlock on values: a block with the same hash gets one more reference (C#'s wrapping
   * `++`), otherwise the bytes are appended as a new block with one reference. The second
   * component is the id returned.
   */
  function AddBlockSpec(v: seq<Block>, d: seq<byte>): Added {
    var h := HashString(d);
    var i := FindHash(v, h);
    if i >= 0 then Added(v[i := v[i].(refCount := Wrap32(v[i].refCount + 1))], i)
    else Added(v + [Block(h, d, 1)], |v|)
  }

  /**
   * DecrementRefCount on values: an id out of range changes nothing; otherwise the count
   * drops by one (wrapping) and a block left at zero or below is removed.
   */
  function DecrementSpec(v: seq<Block>, id: int): seq<Block> {
    if id < 0 || id >= |v| then v
    else
      var rc := Wrap32(v[id].refCount - 1);
      if rc <= 0 then v[..id] + v[id + 1..] else v[id := v[id].(refCount := rc)]
  }

  lemma {:induction false} DecrementSpecAt(v: seq<Block>, id: int, rc: int)
    requires 0 <= id < |v| && rc == Wrap32(v[id].refCount - 1)
    ensures DecrementSpec(v, id) == if rc <= 0 then v[..id] + v[id + 1..] else v[id := v[id].(refCount := rc)]
  {
  }

  /** An already-stored hash: same list length, that block gains one reference, the rest are untouched. */
  lemma {:induction false} AddBlockExisting(v: seq<Block>, d: seq<byte>)
    requires FindHash(v, HashString(d)) >= 0
    ensures var w, id := AddBlockSpec(v, d).view, AddBlockSpec(v, d).id;
            id == FindHash(v, HashString(d)) && |w| == |v| &&
            w[id].hash == v[id].hash && w[id].data == v[id].data &&
            (IsInt32(v[id].refCount + 1) ==> w[id].refCount == v[id].refCount + 1) &&
            forall j :: 0 <= j < |v| && j != id ==> w[j] == v[j]
  {
  }

  lemma {:induction false} AddBlockFound(v: seq<Block>, d: seq<byte>, i: int)
    requires i >= 0 && FindHash(v, HashString(d)) == i
    ensures AddBlockSpec(v, d) == Added(v[i := v[i].(refCount := Wrap32(v[i].refCount + 1))], i)
  {
  }

  /** A new hash: one block appended with one reference, id Count - 1, earlier blocks untouched. */
  lemma {:induction false} AddBlockNew(v: seq<Block>, d: seq<byte>)
    requires FindHash(v, HashString(d)) == -1
    ensures AddBlockSpec(v, d) == Added(v + [Block(HashString(d), d, 1)], |v|)
  {
  }

  /** The block an id returned by AddBlock names has the hash of the bytes added. */
  lemma {:induction false} AddBlockId(v: seq<Block>, d: seq<byte>)
    ensures var w, id := AddBlockSpec(v, d).view, AddBlockSpec(v, d).id;
            0 <= id < |w| && w[id].hash == HashString(d) &&
            |w| >= |v| && forall j :: 0 <= j < |v| ==> w[j].hash == v[j].hash && w[j].data == v[j].data
  {
  }

  /** AddBlock never stores two blocks with the same hash. */
  lemma {:induction false} AddBlockDistinct(v: seq<Block>, d: seq<byte>)
    requires DistinctHashes(v)
    ensures DistinctHashes(AddBlockSpec(v, d).view)
  {
  }

  lemma {:induction false} AddBlockHashesMatch(v: seq<Block>, d: seq<byte>)
    requires HashesMatch(v)
    ensures HashesMatch(AddBlockSpec(v, d).view)
  {
  }

  /** With the hash unique the added bytes, if the hash was stored, are the stored bytes. */
  lemma {:induction false} AddBlockData(v: seq<Block>, d: seq<byte>)
    requires forall j :: 0 <= j < |v| && v[j].hash == HashString(d) ==> v[j].data == d
    ensures AddBlockSpec(v, d).view[AddBlockSpec(v, d).id].data == d
  {
  }

  /** Removal keeps hashes distinct and matching. */
  lemma {:induction false} DecrementKeeps(v: seq<Block>, id: int)
    ensures DistinctHashes(v) ==> DistinctHashes(DecrementSpec(v, id))
    ensures HashesMatch(v) ==> HashesMatch(DecrementSpec(v, id))
  {
    if 0 <= id < |v| {
      var w := DecrementSpec(v, id);
      var rc := Wrap32(v[id].refCount - 1);
      DecrementSpecAt(v, id, rc);
      if rc <= 0 {
        CutKeeps(v, id);
      } else {
        RecountKeeps(v, id, rc);
      }
    }
  }

  lemma {:induction false} CutKeeps(v: seq<Block>, id: int)
    requires 0 <= id < |v|
    ensures DistinctHashes(v) ==> DistinctHashes(v[..id] + v[id + 1..])
    ensures HashesMatch(v) ==> HashesMatch(v[..id] + v[id + 1..])
  {
    var w := v[..id] + v[id + 1..];
    assert forall j :: 0 <= j < |w| ==> w[j] == v[if j < id then j else j + 1];
  }

  lemma {:induction false} RecountKeeps(v: seq<Block>, id: int, c: int)
    requires 0 <= id < |v|
    ensures DistinctHashes(v) ==> DistinctHashes(v[id := v[id].(refCount := c)])
    ensures HashesMatch(v) ==> HashesMatch(v[id := v[id].(refCount := c)])
  {
    var w := v[id := v[id].(refCount := c)];
    assert forall j :: 0 <= j < |w| ==> w[j].hash == v[j].hash && w[j].data == v[j].data;
  }

  /** In range, the count drops by one; at zero the block goes and every later id moves down one. */
  lemma {:induction false} DecrementInRange(v: seq<Block>, id: int)
    requires 0 <= id < |v| && IsInt32(v[id].refCount - 1)
    ensures var w := DecrementSpec(v, id);
            if v[id].refCount <= 1 then
              |w| == |v| - 1 && (forall j :: 0 <= j < id ==> w[j] == v[j]) &&
              (forall j :: id < j < |v| ==> w[j - 1] == v[j])
            else
              w == v[id := v[id].(refCount := v[id].refCount - 1)]
  {
    assert Wrap32(v[id].refCount - 1) == v[id].refCount - 1;
  }

  // ---- the stored format ----

  /** One block as BlockIndex.Serialize writes it: hash, byte count, bytes, reference count. */
  function EncodeBlock(b: Block): (r: seq<byte>)
    ensures |r| >= 12 + |b.hash| + |b.data|
  {
    StringBytes(b.hash) + Int32Bytes(|b.data|) + b.data + Int32Bytes(b.refCount)
  }

  /** BlockIndex.Serialize: the block count, then each block in order. */
  function EncodeBlocks(v: seq<Block>): seq<byte> {
    Int32Bytes(|v|) + Concat(EncodeBlock, v)
  }

  /** The reader of one block, in the field order Deserialize uses. */
  function ReadBlock(s: seq<byte>): Result<(Block, seq<byte>), LoadError> {
    var hash :- ReadString(s);
    var len :- ReadInt32(hash.1);
    var bytes :- ReadBytes(len.1, len.0);
    var rc :- ReadInt32(bytes.1);
    Ok((Block(hash.0, bytes.0, rc.0), rc.1))
  }

  /** BlockIndex.Deserialize: the count, then that many blocks. */
  function DecodeBlocks(s: seq<byte>): Result<(seq<Block>, seq<byte>), LoadError> {
    var count :- ReadInt32(s);
    ReadMany(ReadBlock, count.1, count.0)
  }

  /** The blocks whose every written number fits in 32 bits and whose hash is ASCII. */
  predicate Storable(b: Block) {
    IsAscii(b.hash) && IsInt32(|b.hash|) && IsInt32(|b.data|) && IsInt32(b.refCount)
  }

  lemma {:induction false} ReadBlockOf(b: Block, rest: seq<byte>)
    requires Storable(b)
    ensures ReadBlock(EncodeBlock(b) + rest) == Ok((b, rest))
  {
    var tail := Int32Bytes(b.refCount) + rest;
    assert EncodeBlock(b) + rest == StringBytes(b.hash) + (Int32Bytes(|b.data|) + (b.data + tail));
    ReadStringOf(b.hash, Int32Bytes(|b.data|) + (b.data + tail));
    ReadInt32Of(|b.data|, b.data + tail);
    ReadBytesOf(b.data, tail);
    ReadInt32Of(b.refCount, rest);
  }

  /** The four writes of one block, appended to what is already written. */
  lemma {:induction false} EncodeBlockWrites(start: seq<byte>, b: Block)
    ensures start + StringBytes(b.hash) + Int32Bytes(|b.data|) + b.data + Int32Bytes(b.refCount)
         == start + EncodeBlock(b)
  {
  }

  /** Deserialize reads back exactly what Serialize wrote, in order, leaving what followed. */
  lemma {:induction false} DecodeBlocksOf(v: seq<Block>, rest: seq<byte>)
    requires IsInt32(|v|) && forall i :: 0 <= i < |v| ==> Storable(v[i])
    ensures DecodeBlocks(EncodeBlocks(v) + rest) == Ok((v, rest))
  {
    forall b, t | Storable(b)
      ensures ReadBlock(EncodeBlock(b) + t) == Ok((b, t))
    {
      ReadBlockOf(b, t);
    }
    assert EncodeBlocks(v) + rest == Int32Bytes(|v|) + (Concat(EncodeBlock, v) + rest);
    ReadInt32Of(|v|, Concat(EncodeBlock, v) + rest);
    ReadManyOf(ReadBlock, EncodeBlock, Storable, v, rest);
  }

  // ---- the objects ----

  class BlockRecord {
    var hash: string
    var data: seq<byte>
    var referenceCount: int

    /** A new record holds the given hash and bytes and one reference. */
    constructor (hash: string, data: seq<byte>)
      ensures this.hash == hash && this.data == data && referenceCount == 1
    {
      this.hash := hash;
      this.data := data;
      referenceCount := 1;
    }

    function Value(): Block
      reads this
    {
      Block(hash, data, referenceCount)
    }
  }

  /** The values held by a list of records. */
  ghost function Values(rs: seq<BlockRecord>): (v: seq<Block>)
    reads rs
    ensures |v| == |rs|
  {
    if rs == [] then [] else Values(rs[..|rs| - 1]) + [rs[|rs| - 1].Value()]
  }

  /** The i-th value is what the i-th record holds. */
  lemma {:induction false} ValuesAt(rs: seq<BlockRecord>, i: int)
    requires 0 <= i < |rs|
    ensures Values(rs)[i] == rs[i].Value()
    decreases |rs|
  {
    if i < |rs| - 1 {
      ValuesAt(rs[..|rs| - 1], i);
    }
  }

  lemma {:induction false} ValuesSnoc(rs: seq<BlockRecord>, r: BlockRecord)
    ensures Values(rs + [r]) == Values(rs) + [r.Value()]
  {
    assert (rs + [r])[..|rs|] == rs;
  }

  lemma {:induction false} ValuesAll(rs: seq<BlockRecord>)
    ensures forall i :: 0 <= i < |rs| ==> Values(rs)[i] == rs[i].Value()
  {
    forall i | 0 <= i < |rs|
      ensures Values(rs)[i] == rs[i].Value()
    {
      ValuesAt(rs, i);
    }
  }

  class BlockIndex {
    var blocks: seq<BlockRecord>
    /** Every record the index has held: the objects its methods may change. */
    ghost var Repr: set<BlockRecord>

    /**
     * The records are distinct objects, so a change to one is a change to one block, and
     * every one of them is in Repr.
     */
    ghost predicate Valid()
      reads this
    {
      Distinct(blocks) && forall i | 0 <= i < |blocks| :: blocks[i] in Repr
    }

    /** The stored blocks as values, in list order. */
    ghost function View(): (v: seq<Block>)
      reads this, blocks
      ensures |v| == |blocks|
    {
      Values(blocks)
    }

    constructor ()
      ensures Valid() && View() == [] && Repr == {}
    {
      blocks := [];
      Repr := {};
    }

    function Count(): (n: int)
      reads this, blocks
      ensures n == |View()|
    {
      |blocks|
    }

    /** The first id whose hash equals the argument, or -1. */
    method FindBlockIndexByHash(hash: string) returns (r: int)
      ensures r == FindHash(View(), hash)
    {
      ValuesAll(blocks);
      var i := 0;
      while i < |blocks|
        invariant 0 <= i <= |blocks|
        invariant forall j :: 0 <= j < i ==> blocks[j].hash != hash
      {
        if StringImplementations.CustomCompare(blocks[i].hash, hash) == 0 {
          return i;
        }
        i := i + 1;
      }
      return -1;
    }

    /** ComputeHash: the polynomial hash of the bytes, kept below P so `sum * 31 + byte` fits a long. */
    static method ComputeHash(data: seq<byte>) returns (hash: string)
      ensures hash == HashString(data)
    {
      var sum: int64 := 0;
      var i := 0;
      while i < |data|
        invariant 0 <= i <= |data| && 0 <= sum as int < HASH_MODULUS
        invariant HashText(sum as int, data[i..]) == HashString(data)
      {
        assert data[i..][1..] == data[i + 1..];
        sum := (sum * 31 + data[i] as int64) % 1000000007;
        i := i + 1;
      }
      hash := "blk" + NatToString(sum as int);
    }

    method AddBlock(data: seq<byte>) returns (index: int)
      requires Valid()
      modifies this, Repr
      ensures Valid() && fresh(Repr - old(Repr))
      ensures Added(View(), index) == AddBlockSpec(old(View()), data)
    {
      ghost var was := View();
      var hash := ComputeHash(data);
      var existing := FindBlockIndexByHash(hash);
      assert View() == was;
      if existing >= 0 {
        IncrementRefCount(existing, was);
        AddBlockFound(was, data, existing);
        return existing;
      }
      var created := new BlockRecord(hash, data);
      Append(created, was);
      AddBlockNew(was, data);
      return |blocks| - 1;
    }

    /** `blocks[i].ReferenceCount++`, in C#'s wrapping arithmetic. */
    method IncrementRefCount(i: int, ghost was: seq<Block>)
      requires Valid() && 0 <= i < |blocks| && was == View()
      modifies blocks[i]
      ensures Valid() && blocks == old(blocks) && Repr == old(Repr)
      ensures View() == was[i := was[i].(refCount := Wrap32(was[i].refCount + 1))]
    {
      ValuesAll(blocks);
      var br := blocks[i];
      br.referenceCount := Wrap32(br.referenceCount + 1);
      ValuesAll(blocks);
      UpdateEq(was, View(), i, was[i].(refCount := Wrap32(was[i].refCount + 1)));
    }

    /** `blocks.Add(br)` for a record not yet in the list. */
    method Append(br: BlockRecord, ghost was: seq<Block>)
      requires Valid() && br !in blocks && was == View()
      modifies this
      ensures Valid() && blocks == old(blocks) + [br] && Repr == old(Repr) + {br}
      ensures View() == was + [br.Value()]
    {
      DistinctSnoc(blocks, br);
      ValuesSnoc(blocks, br);
      blocks := blocks + [br];
      Repr := Repr + {br};
    }

    method DecrementRefCount(blockIndex: int)
      requires Valid()
      modifies this, Repr
      ensures Valid() && Repr == old(Repr)
      ensures View() == DecrementSpec(old(View()), blockIndex)
    {
      if blockIndex < 0 || blockIndex >= |blocks| {
        return;
      }
      var br := blocks[blockIndex];
      ghost var was := View();
      ValuesAll(blocks);
      br.referenceCount := Wrap32(br.referenceCount - 1);
      DecrementSpecAt(was, blockIndex, br.referenceCount);
      if br.referenceCount <= 0 {
        DistinctRemove(blocks, blockIndex);
        blocks := blocks[..blockIndex] + blocks[blockIndex + 1..];
        ValuesAll(blocks);
        RemoveEq(was, View(), blockIndex);
      } else {
        ValuesAll(blocks);
        UpdateEq(was, View(), blockIndex, br.Value());
      }
    }

    /** The record with that id, or null outside [0, Count). */
    function GetBlockRecord(blockIndex: int): (r: BlockRecord?)
      reads this, blocks
      ensures r == null <==> !(0 <= blockIndex < |View()|)
      ensures r != null ==> r == blocks[blockIndex] && r.Value() == View()[blockIndex]
    {
      if blockIndex < 0 || blockIndex >= |blocks| then null else ValuesAt(blocks, blockIndex); blocks[blockIndex]
    }

    /** The bytes Serialize hands the writer. */
    method Serialize() returns (bytes: seq<byte>)
      ensures bytes == EncodeBlocks(View())
    {
      ghost var v := View();
      bytes := Int32Bytes(|blocks|);
      var i := 0;
      while i < |blocks|
        invariant 0 <= i <= |blocks|
        invariant bytes == Int32Bytes(|v|) + Concat(EncodeBlock, v[..i])
      {
        var br := blocks[i];
        ValuesAt(blocks, i);
        ghost var start := bytes;
        bytes := bytes + StringBytes(br.hash);
        bytes := bytes + Int32Bytes(|br.data|);
        bytes := bytes + br.data;
        bytes := bytes + Int32Bytes(br.referenceCount);
        EncodeBlockWrites(start, v[i]);
        ConcatTake(EncodeBlock, v, i);
        AppendAssoc(Int32Bytes(|v|), Concat(EncodeBlock, v[..i]), EncodeBlock(v[i]));
        i := i + 1;
      }
      TakeAll(v);
    }

    /** A fresh record holding `b`, reference count included, goes at the end. */
    method AppendRecord(b: Block)
      requires Valid()
      modifies this
      ensures Valid() && fresh(Repr - old(Repr))
      ensures View() == old(View()) + [b]
    {
      ghost var was := View();
      var br := new BlockRecord(b.hash, b.data);
      br.referenceCount := b.refCount;
      assert View() == was;
      Append(br, was);
    }

    /**
     * Deserialize appends the blocks read from the stream and returns what is left of it. A
     * read that fails is the exception the reader throws; the blocks appended before it are
     * not described.
     */
    method Deserialize(stream: seq<byte>) returns (r: Result<seq<byte>, LoadError>)
      requires Valid()
      modifies this
      ensures Valid() && fresh(Repr - old(Repr))
      ensures r.Err? <==> DecodeBlocks(stream).Err?
      ensures r.Ok? ==> r.value == DecodeBlocks(stream).value.1 &&
                        View() == old(View()) + DecodeBlocks(stream).value.0
    {
      var header := ReadInt32(stream);
      if header.Err? {
        return Err(header.error);
      }
      var numBlocks, start := header.value.0, header.value.1;
      ghost var before := View();
      ghost var acc: seq<Block> := [];
      ghost var left := numBlocks;
      var p := start;
      PrependNone(ReadMany(ReadBlock, p, left));
      var i := 0;
      while i < numBlocks
        invariant 0 <= i && (numBlocks >= 0 ==> i <= numBlocks) && left == numBlocks - i
        invariant Valid() && fresh(Repr - old(Repr))
        invariant View() == before + acc
        invariant Prepend(acc, ReadMany(ReadBlock, p, left)) == ReadMany(ReadBlock, start, numBlocks)
      {
        var one := ReadBlock(p);
        if one.Err? {
          return Err(one.error);
        }
        var b := one.value.0;
        ghost var k := left - 1;
        ReadManyStep(ReadBlock, p, left, k, acc, b, one.value.1);
        AppendRecord(b);
        AppendAssoc(before, acc, [b]);
        acc := acc + [b];
        left := k;
        p := one.value.1;
        i := i + 1;
      }
      return Ok(p);
    }
  }
}
