/** Ranking helper of src/util.rs: the indices of a vector ordered by
    descending value. */
module Util {

  /** The indices `0, 1, ..., n - 1` in order. */
  function Indices(n: nat): (s: seq<nat>)
    ensures |s| == n
    ensures forall i :: 0 <= i < n ==> s[i] == i
  {
    if n == 0 then [] else Indices(n - 1) + [n - 1]
  }

  /** `inds` lists each index of `0..n` exactly as often as `0..n` does. */
  predicate IsPermutationOfIndices(inds: seq<nat>, n: nat)
  {
    multiset(inds) == multiset(Indices(n))
  }

  /** Every listed index is a position of `values`, and an index listed
      earlier never has a smaller value than one listed later. */
  predicate RankedDescending(values: seq<real>, inds: seq<nat>)
  {
    (forall p :: 0 <= p < |inds| ==> inds[p] < |values|) &&
    (forall p, q :: 0 <= p < q < |inds| ==> values[inds[p]] >= values[inds[q]])
  }

  /** `sort_indices_descending`: the index vector `0..n` sorted in place so
      that the values it points at do not increase.  Each insertion step
      moves an index in front of its neighbour only when the neighbour's
      value is strictly smaller, which is when the comparator of
      src/util.rs:12-18 puts it first. */
  method SortIndicesDescending(values: seq<real>) returns (inds: seq<nat>)
    ensures |inds| == |values|
    ensures IsPermutationOfIndices(inds, |values|)
    ensures RankedDescending(values, inds)
  {
    var n := |values|;
    var a := new nat[n](i => i);
    assert a[..] == Indices(n);
    for i := 0 to n
      invariant multiset(a[..]) == multiset(Indices(n))
      invariant forall k :: 0 <= k < n ==> a[k] < n
      invariant forall p, q :: 0 <= p < q < i ==> values[a[p]] >= values[a[q]]
    {
      Insert(a, values, i);
    }
    inds := a[..];
  }

  /** One pass of the sort: the index at position `i` moves towards the
      front past every index whose value is strictly smaller, extending the
      ranked prefix by one, keeping the same indices and leaving the entries
      after position `i` alone. */
  method Insert(a: array<nat>, values: seq<real>, i: nat)
    requires i < a.Length == |values|
    requires forall k :: 0 <= k < a.Length ==> a[k] < a.Length
    requires forall p, q :: 0 <= p < q < i ==> values[a[p]] >= values[a[q]]
    modifies a
    ensures multiset(a[..]) == multiset(old(a[..]))
    ensures forall k :: 0 <= k < a.Length ==> a[k] < a.Length
    ensures forall p, q :: 0 <= p < q <= i ==> values[a[p]] >= values[a[q]]
    ensures a[i + 1..] == old(a[i + 1..])
  {
    var j := i;
    while j > 0 && values[a[j - 1]] < values[a[j]]
      invariant 0 <= j <= i
      invariant multiset(a[..]) == multiset(old(a[..]))
      invariant forall k :: 0 <= k < a.Length ==> a[k] < a.Length
      invariant forall p, q :: 0 <= p < q <= i && p != j && q != j ==> values[a[p]] >= values[a[q]]
      invariant forall q :: j < q <= i ==> values[a[q]] < values[a[j]]
      invariant a[i + 1..] == old(a[i + 1..])
    {
      Swap(a, j - 1, j);
      j := j - 1;
    }
  }

  /** Exchanges two entries of the index vector. */
  method Swap(a: array<nat>, x: nat, y: nat)
    requires x < a.Length && y < a.Length
    modifies a
    ensures a[..] == old(a[..])[x := old(a[y])][y := old(a[x])]
    ensures multiset(a[..]) == multiset(old(a[..]))
  {
    a[x], a[y] := a[y], a[x];
  }

  /** Every index of `0..n` occurs in `Indices(n)` exactly once and
      nothing else occurs in it. */
  lemma {:induction false} IndicesOnce(n: nat)
    ensures forall k :: 0 <= k < n ==> multiset(Indices(n))[k] == 1
    ensures forall k :: k >= n ==> multiset(Indices(n))[k] == 0
  {
    if n > 0 {
      IndicesOnce(n - 1);
      assert Indices(n) == Indices(n - 1) + [n - 1];
      assert multiset(Indices(n)) == multiset(Indices(n - 1)) + multiset{(n - 1) as nat};
    }
  }

  /** A permutation of the indices holds each index of `0..n` exactly
      once and no other number. */
  lemma PermutationListsEachIndexOnce(inds: seq<nat>, n: nat)
    requires IsPermutationOfIndices(inds, n)
    ensures forall k :: 0 <= k < n ==> multiset(inds)[k] == 1
    ensures forall p :: 0 <= p < |inds| ==> inds[p] < n
  {
    IndicesOnce(n);
    forall p | 0 <= p < |inds| ensures inds[p] < n {
      assert inds[p] in multiset(inds);
    }
  }

  /** The example of src/util.rs:6-9: for `[0.5, 0.3, 0.8, 0.7, 0.4]` the
      only ranking of the indices is `[2, 3, 0, 4, 1]`, so the method
      returns exactly that. */
  lemma DocumentedExample(inds: seq<nat>)
    requires IsPermutationOfIndices(inds, 5)
    requires RankedDescending([0.5, 0.3, 0.8, 0.7, 0.4], inds)
    ensures inds == [2, 3, 0, 4, 1]
  {
    var values := [0.5, 0.3, 0.8, 0.7, 0.4];
    IndicesOnce(5);
    assert |inds| == 5 by {
      assert |multiset(inds)| == |multiset(Indices(5))|;
    }
    var pos := PositionsOf(inds, 5);
    assert pos[2] < pos[3] < pos[0] < pos[4] < pos[1];
  }

  /** Where each index of `0..n` sits in a permutation of the indices. */
  lemma PositionsOf(inds: seq<nat>, n: nat) returns (pos: seq<nat>)
    requires IsPermutationOfIndices(inds, n)
    ensures |pos| == n
    ensures forall k :: 0 <= k < n ==> pos[k] < |inds| && inds[pos[k]] == k
  {
    pos := [];
    for k := 0 to n
      invariant |pos| == k
      invariant forall q :: 0 <= q < k ==> pos[q] < |inds| && inds[pos[q]] == q
    {
      IndicesOnce(n);
      assert k in multiset(inds);
      var p :| 0 <= p < |inds| && inds[p] == k;
      pos := pos + [p];
    }
  }
}
