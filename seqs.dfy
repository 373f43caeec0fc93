/** Sequence helpers for the catalog: option values, first-match scans,
    order-preserving filters that return positions, counting and
    removal of the first occurrence of a value. */
module Seqs {

  datatype Option<T> = None | Some(value: T)

  /** No value occurs twice. */
  predicate NoDup<T(==)>(xs: seq<T>) {
    forall a, b :: 0 <= a < b < |xs| ==> xs[a] != xs[b]
  }

  /** Strictly increasing, hence also free of duplicates. */
  predicate Increasing(xs: seq<nat>) {
    forall a, b :: 0 <= a < b < |xs| ==> xs[a] < xs[b]
  }

  /** The positions 0, 1, ..., n - 1 in order. */
  function Range(n: nat): (r: seq<nat>)
    ensures |r| == n
    ensures forall i :: 0 <= i < n ==> r[i] == i
  {
    if n == 0 then [] else Range(n - 1) + [n - 1]
  }

  /** The first element of a non-empty sequence belongs to it. */
  lemma HeadIn<T>(xs: seq<T>)
    ensures |xs| > 0 ==> xs[0] in xs
  {
  }

  /** The first two elements of an increasing sequence are in order. */
  lemma IncreasingHeads(xs: seq<nat>)
    requires Increasing(xs)
    ensures |xs| > 1 ==> xs[0] < xs[1]
  {
  }

  /** An increasing sequence whose only member is `x` is `[x]`. */
  lemma IncreasingSingleton(r: seq<nat>, x: nat)
    requires Increasing(r) && x in r
    requires forall i: nat :: i in r ==> i == x
    ensures r == [x]
  {
    forall a | 0 <= a < |r| ensures r[a] == x {
      assert r[a] in r;
    }
    IncreasingHeads(r);
  }

  /** A sequence of naturals that contains no natural is empty. */
  lemma NoMember(r: seq<nat>)
    requires forall i: nat :: i !in r
    ensures r == []
  {
    HeadIn(r);
  }

  /** Position of the first element satisfying `p`, scanning from the front;
      `None` when no element does. */
  function FirstIndex<T>(xs: seq<T>, p: T -> bool): (r: Option<nat>)
    ensures r.Some? ==> r.value < |xs| && p(xs[r.value])
    ensures r.Some? ==> forall j :: 0 <= j < r.value ==> !p(xs[j])
    ensures r.None? <==> forall j :: 0 <= j < |xs| ==> !p(xs[j])
  {
    if |xs| == 0 then None
    else if p(xs[0]) then Some(0)
    else match FirstIndex(xs[1..], p)
      case None => None
      case Some(k) => Some(k + 1)
  }

  /** The positions of the elements satisfying `keep`, in the order of `xs`. */
  function Select<T>(xs: seq<T>, keep: T -> bool): (r: seq<nat>)
    ensures Increasing(r)
    ensures forall i: nat :: i in r <==> i < |xs| && keep(xs[i])
  {
    if |xs| == 0 then []
    else
      var init := Select(xs[..|xs| - 1], keep);
      assert forall i: nat :: i < |xs| - 1 ==> xs[..|xs| - 1][i] == xs[i];
      if keep(xs[|xs| - 1]) then
        assert forall a :: 0 <= a < |init| ==> init[a] in init;
        init + [|xs| - 1]
      else init
  }

  /** Appending an element extends the selection by its position, if kept. */
  lemma SelectAppend<T>(xs: seq<T>, x: T, keep: T -> bool)
    ensures Select(xs + [x], keep) == Select(xs, keep) + (if keep(x) then [|xs|] else [])
  {
    assert (xs + [x])[..|xs|] == xs;
  }

  /** The number of elements satisfying `p`. */
  function Count<T>(xs: seq<T>, p: T -> bool): (r: nat)
    ensures r <= |xs|
  {
    if |xs| == 0 then 0
    else Count(xs[..|xs| - 1], p) + (if p(xs[|xs| - 1]) then 1 else 0)
  }

  /** `xs` without the first occurrence of `x`, like Python's `list.remove`.
      Where `x` is absent, `list.remove` raises and `RemoveFirst` returns `xs`
      unchanged; the catalog never reaches that case, since it only removes
      values it has just found. */
  function RemoveFirst<T(==)>(xs: seq<T>, x: T): (r: seq<T>)
    ensures x !in xs ==> r == xs
    ensures x in xs ==> |r| == |xs| - 1
  {
    if |xs| == 0 then []
    else if xs[0] == x then xs[1..]
    else [xs[0]] + RemoveFirst(xs[1..], x)
  }

  /** Exactly one copy of `x` goes, every other value keeps its multiplicity. */
  lemma {:induction false} RemoveFirstMultiset<T>(xs: seq<T>, x: T)
    ensures x in xs ==> multiset(RemoveFirst(xs, x)) == multiset(xs) - multiset{x}
  {
    if |xs| > 0 {
      assert xs == [xs[0]] + xs[1..];
      if xs[0] != x {
        RemoveFirstMultiset(xs[1..], x);
      }
    }
  }

  /** Removing the first occurrence of `x` at position `j` cuts out exactly that slot. */
  lemma {:induction false} RemoveFirstAt<T>(xs: seq<T>, x: T, j: nat)
    requires j < |xs| && xs[j] == x
    requires forall k :: 0 <= k < j ==> xs[k] != x
    ensures RemoveFirst(xs, x) == xs[..j] + xs[j + 1..]
  {
    if j == 0 {
      assert xs[..0] + xs[1..] == xs[1..];
    } else {
      var tail := xs[1..];
      RemoveFirstAt(tail, x, j - 1);
      assert RemoveFirst(xs, x) == [xs[0]] + RemoveFirst(tail, x);
      assert tail[..j - 1] == xs[1..j];
      assert tail[j..] == xs[j + 1..];
      assert [xs[0]] + xs[1..j] == xs[..j];
    }
  }

  /** Cutting one slot out of a duplicate-free sequence keeps it duplicate-free
      and removes the value that was there. */
  lemma CutKeepsNoDup<T>(xs: seq<T>, j: nat)
    requires NoDup(xs) && j < |xs|
    ensures NoDup(xs[..j] + xs[j + 1..])
    ensures forall y :: y in xs[..j] + xs[j + 1..] <==> y in xs && y != xs[j]
  {
    var r := xs[..j] + xs[j + 1..];
    assert forall k :: 0 <= k < |r| ==> r[k] == if k < j then xs[k] else xs[k + 1];
    forall y | y in xs && y != xs[j] ensures y in r {
      var k :| 0 <= k < |xs| && xs[k] == y;
      if k < j { assert r[k] == y; } else { assert r[k - 1] == y; }
    }
  }

  /** A value of a duplicate-free sequence occurs in it exactly once. */
  lemma {:induction false} NoDupOnce<T>(xs: seq<T>, x: T)
    requires NoDup(xs) && x in xs
    ensures multiset(xs)[x] == 1
  {
    assert xs == [xs[0]] + xs[1..];
    if xs[0] == x {
      assert x !in xs[1..];
    } else {
      NoDupOnce(xs[1..], x);
    }
  }

  /** Positions split into those kept and those counted by the complement. */
  lemma {:induction false} SelectCountPartition<T>(xs: seq<T>, keep: T -> bool, drop: T -> bool)
    requires forall x :: keep(x) <==> !drop(x)
    ensures |Select(xs, keep)| + Count(xs, drop) == |xs|
  {
    if |xs| > 0 {
      SelectCountPartition(xs[..|xs| - 1], keep, drop);
    }
  }

  /** When every element is kept, the selection is every position. */
  lemma {:induction false} SelectAll<T>(xs: seq<T>, keep: T -> bool)
    requires forall i :: 0 <= i < |xs| ==> keep(xs[i])
    ensures Select(xs, keep) == Range(|xs|)
  {
    if |xs| > 0 {
      SelectAll(xs[..|xs| - 1], keep);
    }
  }

  /** Replacing one element changes the count by what the old and new element contribute. */
  lemma {:induction false} CountUpdate<T>(xs: seq<T>, p: T -> bool, i: nat, y: T)
    requires i < |xs|
    ensures Count(xs[i := y], p) + (if p(xs[i]) then 1 else 0)
         == Count(xs, p) + (if p(y) then 1 else 0)
  {
    var n := |xs| - 1;
    if i < n {
      assert xs[i := y][..n] == xs[..n][i := y];
      CountUpdate(xs[..n], p, i, y);
    } else {
      assert xs[i := y][..n] == xs[..n];
    }
  }
}
