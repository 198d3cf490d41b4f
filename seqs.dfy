/** Sequence helpers for the bucket lists: unlinking an entry keeps the
    order of the others, and a list without duplicates stays so. */
module Seqs {

  /** No element occurs twice. */
  ghost predicate NoDup<T>(q: seq<T>) {
    forall i, j :: 0 <= i < j < |q| ==> q[i] != q[j]
  }

  /** Unlink the entry at position p; the others keep their relative order. */
  function RemoveAt<T>(q: seq<T>, p: nat): (r: seq<T>)
    requires p < |q|
    ensures |r| == |q| - 1
    ensures forall i :: 0 <= i < |r| ==> r[i] == q[if i < p then i else i + 1]
  {
    q[..p] + q[p + 1..]
  }

  /** Position of the first occurrence of x. */
  function IndexOf<T(==)>(q: seq<T>, x: T): (i: nat)
    requires x in q
    ensures i < |q| && q[i] == x
    ensures forall j :: 0 <= j < i ==> q[j] != x
  {
    if q[0] == x then 0 else 1 + IndexOf(q[1..], x)
  }

  /** Unlink the (first) occurrence of x. */
  function Remove<T(==)>(q: seq<T>, x: T): (r: seq<T>)
    requires x in q
    ensures |r| == |q| - 1
  {
    RemoveAt(q, IndexOf(q, x))
  }

  /** Unlinking from a duplicate-free list removes exactly the unlinked
      element and leaves the list duplicate-free. */
  lemma RemoveAtFacts<T>(q: seq<T>, p: nat)
    requires p < |q| && NoDup(q)
    ensures NoDup(RemoveAt(q, p))
    ensures forall x :: x in RemoveAt(q, p) <==> x in q && x != q[p]
  {
    var r := RemoveAt(q, p);
    forall x | x in q && x != q[p]
      ensures x in r
    {
      var i :| 0 <= i < |q| && q[i] == x;
      assert r[if i < p then i else i - 1] == x;
    }
  }

  /** Remove(q, x) drops x and nothing else. */
  lemma RemoveFacts<T>(q: seq<T>, x: T)
    requires x in q && NoDup(q)
    ensures NoDup(Remove(q, x))
    ensures forall y :: y in Remove(q, x) <==> y in q && y != x
  {
    RemoveAtFacts(q, IndexOf(q, x));
  }
}
