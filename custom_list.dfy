/**
 * CustomList<T>: a growable array. The first `count` slots of `data` hold the elements;
 * a full array is replaced by one twice as large, and removal shifts the tail left.
 */
module CustomLists {
  import opened Wrappers

  const INITIAL_CAPACITY: nat := 8

  class CustomList<T(0)> {
    var data: array<T>
    var count: nat
    ghost var Repr: set<object>

    ghost predicate Valid()
      reads this, Repr
      ensures Valid() ==> this in Repr
    {
      Repr == {this, data} && INITIAL_CAPACITY <= data.Length && count <= data.Length
    }

    /** The list as a sequence: the used prefix of the backing array. */
    ghost function Elements(): seq<T>
      reads this, Repr
      requires Valid()
    {
      data[..count]
    }

    constructor ()
      ensures Valid() && fresh(Repr)
      ensures Elements() == [] && data.Length == INITIAL_CAPACITY
    {
      data := new T[INITIAL_CAPACITY];
      count := 0;
      Repr := {this, data};
    }

    function Count(): (n: nat)
      reads this, Repr
      requires Valid()
      ensures n == |Elements()|
    {
      count
    }

    /** The indexer's getter; None is the IndexOutOfRangeException. */
    method Get(index: int) returns (r: Option<T>)
      requires Valid()
      ensures r.Some? <==> 0 <= index < |Elements()|
      ensures r.Some? ==> r.value == Elements()[index]
    {
      if index < 0 || index >= count {
        return None;
      }
      return Some(data[index]);
    }

    /** The indexer's setter; false is the IndexOutOfRangeException, with nothing changed. */
    method Set(index: int, value: T) returns (ok: bool)
      requires Valid()
      modifies data
      ensures Valid()
      ensures ok <==> 0 <= index < old(|Elements()|)
      ensures Elements() == if ok then old(Elements())[index := value] else old(Elements())
    {
      if index < 0 || index >= count {
        return false;
      }
      data[index] := value;
      return true;
    }

    method Add(item: T)
      requires Valid()
      modifies Repr
      ensures Valid() && fresh(Repr - old(Repr))
      ensures Elements() == old(Elements()) + [item]
      ensures data.Length == if old(count) == old(data.Length) then 2 * old(data.Length) else old(data.Length)
    {
      if count == data.Length {
        var bigger := new T[data.Length * 2];
        var i := 0;
        while i < data.Length
          modifies bigger
          invariant 0 <= i <= data.Length
          invariant bigger[..i] == data[..i]
        {
          bigger[i] := data[i];
          assert bigger[..i + 1] == bigger[..i] + [bigger[i]];
          i := i + 1;
        }
        assert bigger[..count] == data[..count];
        data := bigger;
        Repr := {this, data};
      }
      data[count] := item;
      count := count + 1;
    }

    /** Out of range: false and no change. In range: the element goes, the tail shifts left. */
    method RemoveAt(index: int) returns (ok: bool)
      requires Valid()
      modifies this, data
      ensures Valid() && data == old(data) && Repr == old(Repr)
      ensures ok <==> 0 <= index < old(|Elements()|)
      ensures Elements() == if ok then old(Elements())[..index] + old(Elements())[index + 1..] else old(Elements())
    {
      if index < 0 || index >= count {
        return false;
      }
      ShiftDown(index);
      var cleared: T := *;
      data[count - 1] := cleared;
      count := count - 1;
      ghost var was := old(data[..]);
      assert data[..count] == was[..index] + was[index + 1..count + 1];
      return true;
    }

    /** RemoveAt's loop: each slot from index up to count - 2 takes its right neighbour's value. */
    method ShiftDown(index: int)
      requires Valid() && 0 <= index < count
      modifies data
      ensures forall k :: 0 <= k < index ==> data[k] == old(data[k])
      ensures forall k :: index <= k < count - 1 ==> data[k] == old(data[k + 1])
      ensures forall k :: count - 1 <= k < data.Length ==> data[k] == old(data[k])
    {
      var i := index;
      while i < count - 1
        invariant index <= i <= count - 1
        invariant forall k :: 0 <= k < index ==> data[k] == old(data[k])
        invariant forall k :: index <= k < i ==> data[k] == old(data[k + 1])
        invariant forall k :: i <= k < data.Length ==> data[k] == old(data[k])
      {
        data[i] := data[i + 1];
        i := i + 1;
      }
    }
  }
}
