/** Facts about lists that the watch list and the alarm list rely on:
    order-preserving selection, duplicate-freedom, first-occurrence removal. */
module Sequences {

  /** `xs` is obtained from `ys` by deleting elements, keeping the order of
      the rest. */
  predicate IsSubsequence<T(==)>(xs: seq<T>, ys: seq<T>)
    decreases |ys|
  {
    if |xs| == 0 then true
    else if |ys| == 0 then false
    else
      || (xs[|xs| - 1] == ys[|ys| - 1] && IsSubsequence(xs[..|xs| - 1], ys[..|ys| - 1]))
      || IsSubsequence(xs, ys[..|ys| - 1])
  }

  lemma SubsequenceSkip<T>(xs: seq<T>, ys: seq<T>, y: T)
    requires IsSubsequence(xs, ys)
    ensures IsSubsequence(xs, ys + [y])
  {
    var zs := ys + [y];
    assert zs[..|zs| - 1] == ys;
  }

  lemma SubsequenceKeep<T>(xs: seq<T>, ys: seq<T>, y: T)
    requires IsSubsequence(xs, ys)
    ensures IsSubsequence(xs + [y], ys + [y])
  {
    var xz := xs + [y];
    var zs := ys + [y];
    assert xz[..|xz| - 1] == xs;
    assert zs[..|zs| - 1] == ys;
  }

  predicate NoDuplicates<T(==)>(xs: seq<T>) {
    forall i, j :: 0 <= i < j < |xs| ==> xs[i] != xs[j]
  }

  /** Position of the first occurrence of `x` (Python's `list.index`). */
  function IndexOf<T(==)>(xs: seq<T>, x: T): (i: nat)
    requires x in xs
    ensures i < |xs| && xs[i] == x
    ensures forall k :: 0 <= k < i ==> xs[k] != x
  {
    if xs[0] == x then 0 else 1 + IndexOf(xs[1..], x)
  }

  /** Python's `list.remove(x)`: deletes the first occurrence only. */
  function RemoveFirst<T(==)>(xs: seq<T>, x: T): (r: seq<T>)
    requires x in xs
    ensures |r| == |xs| - 1
  {
    var i := IndexOf(xs, x);
    xs[..i] + xs[i + 1..]
  }

  /** Removing from a duplicate-free list removes the element altogether,
      keeps every other element, and keeps the list duplicate-free. */
  lemma RemoveFirstNoDuplicates<T>(xs: seq<T>, x: T)
    requires x in xs && NoDuplicates(xs)
    ensures x !in RemoveFirst(xs, x)
    ensures NoDuplicates(RemoveFirst(xs, x))
    ensures forall y :: y in RemoveFirst(xs, x) <==> y in xs && y != x
  {
    var i := IndexOf(xs, x);
    var r := RemoveFirst(xs, x);
    assert forall k :: 0 <= k < |r| ==> r[k] == (if k < i then xs[k] else xs[k + 1]);
    forall y | y in xs && y != x
      ensures y in r
    {
      var k :| 0 <= k < |xs| && xs[k] == y;
      if k < i { assert r[k] == y; } else { assert r[k - 1] == y; }
    }
  }

  /** Removing the last element of a list that occurs nowhere earlier gives
      back the earlier part. */
  lemma RemoveFirstAppended<T>(xs: seq<T>, x: T)
    requires x !in xs
    ensures RemoveFirst(xs + [x], x) == xs
  {
    var ys := xs + [x];
    var i := IndexOf(ys, x);
    assert i == |xs|;
    assert ys[..i] == xs;
  }
}
