/**
 * Small facts about sequences, stated once so that the methods that rely on them
 * do not have to rediscover them.
 */
module Seqs {
  lemma {:induction false} TakeAll<T>(v: seq<T>)
    ensures v[..|v|] == v
  {
  }

  lemma {:induction false} TakeSnoc<T>(v: seq<T>, i: int)
    requires 0 <= i < |v|
    ensures v[..i + 1] == v[..i] + [v[i]]
  {
  }

  lemma {:induction false} AppendAssoc<T>(a: seq<T>, b: seq<T>, c: seq<T>)
    ensures a + b + c == a + (b + c)
  {
  }

  lemma {:induction false} AppendNil<T>(a: seq<T>)
    ensures a + [] == a && [] + a == a
  {
  }

  /** Two sequences that agree everywhere except at k, where b holds x. */
  lemma {:induction false} UpdateEq<T>(a: seq<T>, b: seq<T>, k: int, x: T)
    requires |a| == |b| && 0 <= k < |a| && b[k] == x
    requires forall j :: 0 <= j < |a| && j != k ==> b[j] == a[j]
    ensures b == a[k := x]
  {
  }

  /** b is a with its element at k taken out. */
  lemma {:induction false} RemoveEq<T>(a: seq<T>, b: seq<T>, k: int)
    requires 0 <= k < |a| && |b| == |a| - 1
    requires forall j :: 0 <= j < k ==> b[j] == a[j]
    requires forall j :: k <= j < |b| ==> b[j] == a[j + 1]
    ensures b == a[..k] + a[k + 1..]
  {
  }

  /** No element occurs twice: a list of objects none of which aliases another. */
  ghost predicate Distinct<T>(rs: seq<T>) {
    forall i, j :: 0 <= i < j < |rs| ==> rs[i] != rs[j]
  }

  lemma {:induction false} DistinctSnoc<T>(rs: seq<T>, r: T)
    requires Distinct(rs) && r !in rs
    ensures Distinct(rs + [r])
  {
  }

  lemma {:induction false} DistinctRemove<T>(rs: seq<T>, k: int)
    requires Distinct(rs) && 0 <= k < |rs|
    ensures Distinct(rs[..k] + rs[k + 1..])
  {
    var t := rs[..k] + rs[k + 1..];
    assert forall j :: 0 <= j < |t| ==> t[j] == if j < k then rs[j] else rs[j + 1];
  }
}
