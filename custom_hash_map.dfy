/**
 * CustomHashMap<TKey, TValue>: separate chaining over a fixed array of buckets. A key
 * lives in the bucket chosen by its hash code with the sign bit cleared, modulo the
 * capacity; each bucket is a list of key/value pairs searched front to back.
 */
module CustomHashMaps {
  import opened Wrappers

  const DEFAULT_CAPACITY: int := 16

  /** `h & 0x7FFFFFFF` on a two's-complement integer: h with its sign bit cleared. */
  function ClearSignBit(h: int): (r: int)
    ensures 0 <= r < 0x8000_0000
    ensures 0 <= h < 0x8000_0000 ==> r == h
    ensures -0x8000_0000 <= h < 0 ==> r == h + 0x8000_0000
  {
    h % 0x8000_0000
  }

  /** The position of the first pair whose key is k, or -1: the search loop of every operation. */
  function KeyIndex<K(==), V>(b: seq<(K, V)>, k: K): (r: int)
    ensures -1 <= r < |b|
    ensures r >= 0 ==> b[r].0 == k
  {
    if b == [] then -1
    else if b[0].0 == k then 0
    else
      var r := KeyIndex(b[1..], k);
      if r == -1 then -1 else r + 1
  }

  /** KeyIndex finds the first occurrence of the key, and -1 means there is none. */
  lemma {:induction false} KeyIndexSpec<K, V>(b: seq<(K, V)>, k: K)
    ensures KeyIndex(b, k) >= 0 ==> forall j :: 0 <= j < KeyIndex(b, k) ==> b[j].0 != k
    ensures KeyIndex(b, k) == -1 <==> forall j :: 0 <= j < |b| ==> b[j].0 != k
  {
    if b != [] && b[0].0 != k {
      KeyIndexSpec(b[1..], k);
      assert forall j :: 1 <= j < |b| ==> b[j] == b[1..][j - 1];
    }
  }

  predicate DistinctKeys<K(==), V>(b: seq<(K, V)>) {
    forall i, j :: 0 <= i < j < |b| ==> b[i].0 != b[j].0
  }

  /** The number of pairs over all buckets. */
  function TotalSize<K, V>(s: seq<seq<(K, V)>>): nat {
    if s == [] then 0 else TotalSize(s[..|s| - 1]) + |s[|s| - 1]|
  }

  lemma {:induction false} TotalSizeUpdate<K, V>(s: seq<seq<(K, V)>>, i: nat, b: seq<(K, V)>)
    requires i < |s|
    ensures TotalSize(s[i := b]) == TotalSize(s) - |s[i]| + |b|
    decreases |s|
  {
    var t := s[i := b];
    if i < |s| - 1 {
      assert t[..|t| - 1] == s[..|s| - 1][i := b];
      TotalSizeUpdate(s[..|s| - 1], i, b);
    } else {
      assert t[..|t| - 1] == s[..|s| - 1];
    }
  }

  lemma {:induction false} TotalSizeEmpty<K, V>(s: seq<seq<(K, V)>>)
    requires forall i :: 0 <= i < |s| ==> s[i] == []
    ensures TotalSize(s) == 0
  {
    if s != [] {
      TotalSizeEmpty(s[..|s| - 1]);
    }
  }

  /** Overwriting pairs with ones of the same keys leaves every search result in place. */
  lemma {:induction false} KeyIndexSameKeys<K, V>(b: seq<(K, V)>, c: seq<(K, V)>, k: K)
    requires |b| == |c| && forall j :: 0 <= j < |b| ==> b[j].0 == c[j].0
    ensures KeyIndex(b, k) == KeyIndex(c, k)
  {
    if b != [] && b[0].0 != k {
      KeyIndexSameKeys(b[1..], c[1..], k);
    }
  }

  lemma {:induction false} KeyIndexAppend<K, V>(b: seq<(K, V)>, p: (K, V), k: K)
    ensures KeyIndex(b + [p], k) ==
            if KeyIndex(b, k) >= 0 then KeyIndex(b, k) else if p.0 == k then |b| else -1
  {
    if b != [] {
      assert (b + [p])[1..] == b[1..] + [p];
      KeyIndexAppend(b[1..], p, k);
    }
  }

  /** Removing the pair at i keeps every other key findable, with its pair, and drops its own. */
  lemma {:induction false} KeyIndexRemove<K, V>(b: seq<(K, V)>, i: nat, k: K)
    requires DistinctKeys(b) && i < |b|
    ensures var c := b[..i] + b[i + 1..];
            (k == b[i].0 ==> KeyIndex(c, k) == -1) &&
            (k != b[i].0 ==> (KeyIndex(c, k) >= 0 <==> KeyIndex(b, k) >= 0)) &&
            (k != b[i].0 && KeyIndex(b, k) >= 0 ==> c[KeyIndex(c, k)] == b[KeyIndex(b, k)])
  {
    var c := b[..i] + b[i + 1..];
    assert forall j :: 0 <= j < |c| ==> c[j] == if j < i then b[j] else b[j + 1];
    KeyIndexSpec(b, k);
    KeyIndexSpec(c, k);
    var r := KeyIndex(b, k);
    if k != b[i].0 && r >= 0 {
      var r' := if r < i then r else r - 1;
      assert c[r'] == b[r];
    }
  }

  /** Removing a pair keeps the keys distinct. */
  lemma {:induction false} DistinctKeysRemove<K, V>(b: seq<(K, V)>, i: nat)
    requires DistinctKeys(b) && i < |b|
    ensures DistinctKeys(b[..i] + b[i + 1..])
  {
    var c := b[..i] + b[i + 1..];
    forall x, y | 0 <= x < y < |c|
      ensures c[x].0 != c[y].0
    {
      var x', y' := if x < i then x else x + 1, if y < i then y else y + 1;
      assert c[x] == b[x'] && c[y] == b[y'];
    }
  }

  /** The bucket of key k among `capacity` buckets, for the hash function h. */
  function BucketOf<K>(h: K -> int, capacity: int, k: K): (r: int)
    requires capacity > 0
    ensures 0 <= r < capacity
  {
    ClearSignBit(h(k)) % capacity
  }

  /**
   * The map's invariant, on the bucket contents: each pair in its key's bucket, no key
   * twice in a bucket, m exactly what a search of the key's bucket finds, and count the
   * number of pairs, which is the size of m.
   */
  ghost predicate Inv<K(!new), V>(s: seq<seq<(K, V)>>, h: K -> int, m: map<K, V>, count: int) {
    |s| > 0 &&
    (forall i, j :: 0 <= i < |s| && 0 <= j < |s[i]| ==> BucketOf(h, |s|, s[i][j].0) == i) &&
    (forall i :: 0 <= i < |s| ==> DistinctKeys(s[i])) &&
    (forall k {:trigger KeyIndex(s[BucketOf(h, |s|, k)], k)} ::
       (k in m <==> KeyIndex(s[BucketOf(h, |s|, k)], k) >= 0) &&
       (k in m ==> s[BucketOf(h, |s|, k)][KeyIndex(s[BucketOf(h, |s|, k)], k)].1 == m[k])) &&
    count == TotalSize(s) == |m|
  }

  /** Add on the bucket contents: overwrite the key's pair in place, or append a new one. */
  ghost function Put<K, V>(s: seq<seq<(K, V)>>, h: K -> int, key: K, value: V): seq<seq<(K, V)>>
    requires |s| > 0
  {
    var i := BucketOf(h, |s|, key);
    var r := KeyIndex(s[i], key);
    s[i := if r >= 0 then s[i][r := (key, value)] else s[i] + [(key, value)]]
  }

  /** Remove on the bucket contents: drop the key's pair from its bucket. */
  ghost function Delete<K, V>(s: seq<seq<(K, V)>>, h: K -> int, key: K): seq<seq<(K, V)>>
    requires |s| > 0
  {
    var i := BucketOf(h, |s|, key);
    var r := KeyIndex(s[i], key);
    if r >= 0 then s[i := s[i][..r] + s[i][r + 1..]] else s
  }

  lemma {:induction false} InvEmpty<K(!new), V>(s: seq<seq<(K, V)>>, h: K -> int)
    requires |s| > 0 && forall i :: 0 <= i < |s| ==> s[i] == []
    ensures Inv(s, h, map[], 0)
  {
    TotalSizeEmpty(s);
  }

  /** Add on one bucket: the keys stay distinct, and only a new key's search result changes. */
  lemma {:induction false} PutBucket<K, V>(b: seq<(K, V)>, key: K, value: V, b': seq<(K, V)>)
    requires DistinctKeys(b)
    requires b' == if KeyIndex(b, key) >= 0 then b[KeyIndex(b, key) := (key, value)] else b + [(key, value)]
    ensures DistinctKeys(b')
    ensures forall j :: 0 <= j < |b'| ==> b'[j].0 == if j < |b| then b[j].0 else key
    ensures forall k :: KeyIndex(b', k) == if KeyIndex(b, key) < 0 && k == key then |b| else KeyIndex(b, k)
  {
    var r := KeyIndex(b, key);
    KeyIndexSpec(b, key);
    forall k
      ensures KeyIndex(b', k) == if r < 0 && k == key then |b| else KeyIndex(b, k)
    {
      if r >= 0 {
        KeyIndexSameKeys(b', b, k);
      } else {
        KeyIndexAppend(b, (key, value), k);
      }
    }
    forall x, y | 0 <= x < y < |b'|
      ensures b'[x].0 != b'[y].0
    {
      assert b'[x].0 == b[x].0;
      if y < |b| {
        assert b'[y].0 == b[y].0;
      }
    }
  }

  /** Add keeps the invariant and maps the key to the new value. */
  lemma {:induction false} InvPut<K(!new), V>(s: seq<seq<(K, V)>>, h: K -> int, m: map<K, V>, count: int, key: K, value: V)
    requires Inv(s, h, m, count)
    ensures Inv(Put(s, h, key, value), h, m[key := value], if key in m then count else count + 1)
  {
    var i := BucketOf(h, |s|, key);
    var b := s[i];
    var r := KeyIndex(b, key);
    var b' := if r >= 0 then b[r := (key, value)] else b + [(key, value)];
    PutBucket(b, key, value, b');
    TotalSizeUpdate(s, i, b');
  }

  /** Remove keeps the invariant and takes the key out of the map. */
  lemma {:induction false} InvDelete<K(!new), V>(s: seq<seq<(K, V)>>, h: K -> int, m: map<K, V>, count: int, key: K)
    requires Inv(s, h, m, count) && key in m
    ensures Inv(Delete(s, h, key), h, m - {key}, count - 1)
  {
    var i := BucketOf(h, |s|, key);
    var b := s[i];
    var r := KeyIndex(b, key);
    var b' := b[..r] + b[r + 1..];
    TotalSizeUpdate(s, i, b');
    DistinctKeysRemove(b, r);
    forall k | BucketOf(h, |s|, k) == i
      ensures (k == key ==> KeyIndex(b', k) == -1) &&
              (k != key ==> (KeyIndex(b', k) >= 0 <==> KeyIndex(b, k) >= 0)) &&
              (k != key && KeyIndex(b, k) >= 0 ==> b'[KeyIndex(b', k)] == b[KeyIndex(b, k)])
    {
      KeyIndexRemove(b, r, k);
    }
    assert forall j :: 0 <= j < |b'| ==> b'[j] == if j < r then b[j] else b[j + 1];
    assert (m - {key}).Keys == m.Keys - {key};
  }

  class CustomHashMap<K(==,!new), V> {
    /** key.GetHashCode(): a call into the key type, given as a parameter of the map. */
    const hashCode: K -> int
    var buckets: array<seq<(K, V)>>
    var capacity: int
    var count: int
    ghost var Contents: map<K, V>
    ghost var Repr: set<object>

    /** GetBucketIndex: the sign-cleared hash code modulo the capacity. */
    function BucketIndex(key: K): (r: int)
      reads this
      requires capacity > 0
      ensures r == BucketOf(hashCode, capacity, key)
    {
      ClearSignBit(hashCode(key)) % capacity
    }

    ghost predicate Valid()
      reads this, Repr
      ensures Valid() ==> this in Repr
    {
      Repr == {this, buckets} && buckets.Length == capacity &&
      Inv(buckets[..], hashCode, Contents, count)
    }

    /** A non-positive capacity falls back to 16; every bucket starts empty. */
    constructor (initialCapacity: int, hashCode: K -> int)
      ensures Valid() && fresh(Repr)
      ensures capacity == if initialCapacity <= 0 then DEFAULT_CAPACITY else initialCapacity
      ensures Contents == map[] && count == 0
      ensures forall i :: 0 <= i < capacity ==> buckets[i] == []
      ensures this.hashCode == hashCode
    {
      var cap := if initialCapacity <= 0 then DEFAULT_CAPACITY else initialCapacity;
      var b := new seq<(K, V)>[cap];
      var i := 0;
      while i < cap
        invariant 0 <= i <= cap
        invariant forall j :: 0 <= j < i ==> b[j] == []
      {
        b[i] := [];
        i := i + 1;
      }
      InvEmpty(b[..], hashCode);
      this.hashCode := hashCode;
      capacity := cap;
      buckets := b;
      count := 0;
      Contents := map[];
      Repr := {this, b};
    }

    function Count(): (n: int)
      reads this, Repr
      requires Valid()
      ensures n == |Contents|
    {
      count
    }

    /** An existing key is overwritten in place; a new key is appended to its bucket. */
    method Add(key: K, value: V)
      requires Valid()
      modifies this, buckets
      ensures Valid() && Repr == old(Repr) && capacity == old(capacity)
      ensures Contents == old(Contents)[key := value]
      ensures count == if key in old(Contents) then old(count) else old(count) + 1
      ensures buckets[..] == Put(old(buckets[..]), hashCode, key, value)
    {
      InvPut(buckets[..], hashCode, Contents, count, key, value);
      var index := BucketIndex(key);
      var bucket := buckets[index];
      KeyIndexSpec(bucket, key);
      var i := 0;
      while i < |bucket|
        invariant 0 <= i <= |bucket|
        invariant forall j :: 0 <= j < i ==> bucket[j].0 != key
      {
        if bucket[i].0 == key {
          assert i == KeyIndex(bucket, key);
          buckets[index] := bucket[i := (key, value)];
          Contents := Contents[key := value];
          return;
        }
        i := i + 1;
      }
      buckets[index] := bucket + [(key, value)];
      count := count + 1;
      Contents := Contents[key := value];
    }

    method ContainsKey(key: K) returns (r: bool)
      requires Valid()
      ensures r <==> key in Contents
    {
      var bucket := buckets[BucketIndex(key)];
      KeyIndexSpec(bucket, key);
      var i := 0;
      while i < |bucket|
        invariant 0 <= i <= |bucket|
        invariant forall j :: 0 <= j < i ==> bucket[j].0 != key
      {
        if bucket[i].0 == key {
          return true;
        }
        i := i + 1;
      }
      return false;
    }

    /** Removes the key's pair if present; true exactly when it was. */
    method Remove(key: K) returns (r: bool)
      requires Valid()
      modifies this, buckets
      ensures Valid() && Repr == old(Repr) && capacity == old(capacity)
      ensures r <==> key in old(Contents)
      ensures Contents == old(Contents) - {key}
      ensures count == if r then old(count) - 1 else old(count)
      ensures buckets[..] == Delete(old(buckets[..]), hashCode, key)
    {
      var index := BucketIndex(key);
      var bucket := buckets[index];
      KeyIndexSpec(bucket, key);
      var i := 0;
      while i < |bucket|
        invariant 0 <= i <= |bucket|
        invariant forall j :: 0 <= j < i ==> bucket[j].0 != key
      {
        if bucket[i].0 == key {
          assert i == KeyIndex(bucket, key);
          InvDelete(buckets[..], hashCode, Contents, count, key);
          buckets[index] := bucket[..i] + bucket[i + 1..];
          count := count - 1;
          Contents := Contents - {key};
          return true;
        }
        i := i + 1;
      }
      assert Contents - {key} == Contents;
      return false;
    }

    /** Empties every bucket. */
    method Clear()
      requires Valid()
      modifies this, buckets
      ensures Valid() && Repr == old(Repr) && capacity == old(capacity)
      ensures Contents == map[] && count == 0
      ensures forall i :: 0 <= i < capacity ==> buckets[i] == []
    {
      var i := 0;
      while i < capacity
        modifies buckets
        invariant 0 <= i <= capacity
        invariant forall j :: 0 <= j < i ==> buckets[j] == []
      {
        buckets[i] := [];
        i := i + 1;
      }
      InvEmpty(buckets[..], hashCode);
      count := 0;
      Contents := map[];
    }

    /** The indexer's getter; None is the KeyNotFoundException. */
    method Get(key: K) returns (r: Option<V>)
      requires Valid()
      ensures r.Some? <==> key in Contents
      ensures r.Some? ==> r.value == Contents[key]
    {
      var bucket := buckets[BucketIndex(key)];
      KeyIndexSpec(bucket, key);
      var i := 0;
      while i < |bucket|
        invariant 0 <= i <= |bucket|
        invariant forall j :: 0 <= j < i ==> bucket[j].0 != key
      {
        if bucket[i].0 == key {
          assert i == KeyIndex(bucket, key);
          return Some(bucket[i].1);
        }
        i := i + 1;
      }
      return None;
    }

    /** The indexer's setter is Add. */
    method SetItem(key: K, value: V)
      requires Valid()
      modifies this, buckets
      ensures Valid() && Repr == old(Repr) && capacity == old(capacity)
      ensures Contents == old(Contents)[key := value]
      ensures count == if key in old(Contents) then old(count) else old(count) + 1
    {
      Add(key, value);
    }
  }
}
