/**
 * Weighted edges between pixels, and the ascending sort by weight that the
 * segmentation applies to the edge list before building its forests.
 */
module Edges {

  /** An edge between two flat pixel ids, weighted by the difference of their channel values. */
  datatype Edge = Edge(from: int, to: int, weight: real)

  /** Orders edges by weight alone: negative, zero or positive as e is lighter, equal or heavier. */
  function CompareTo(e: Edge, other: Edge): (c: int)
    ensures c < 0 <==> e.weight < other.weight
    ensures c == 0 <==> e.weight == other.weight
    ensures c > 0 <==> e.weight > other.weight
    ensures -1 <= c <= 1
  {
    if e.weight < other.weight then -1
    else if e.weight > other.weight then 1
    else 0
  }

  /** Weights never decrease from left to right. */
  ghost predicate SortedByWeight(s: seq<Edge>)
  {
    forall i, j :: 0 <= i < j < |s| ==> s[i].weight <= s[j].weight
  }

  /**
   * Sorts the edges in place, ascending by weight: the result is sorted and
   * holds exactly the edges it held before.
   */
  method SortByWeight(a: array<Edge>)
    modifies a
    ensures SortedByWeight(a[..])
    ensures multiset(a[..]) == multiset(old(a[..]))
  {
    for i := 0 to a.Length
      invariant SortedByWeight(a[..i])
      invariant multiset(a[..]) == multiset(old(a[..]))
    {
      Insert(a, i);
    }
    assert a[..a.Length] == a[..];
  }

  /** Moves a[i] left past every heavier edge, so that a[..i+1] becomes sorted. */
  method Insert(a: array<Edge>, i: int)
    requires 0 <= i < a.Length && SortedByWeight(a[..i])
    modifies a
    ensures SortedByWeight(a[..i + 1])
    ensures multiset(a[..]) == multiset(old(a[..]))
  {
    var j := i;
    while j > 0 && CompareTo(a[j - 1], a[j]) > 0
      invariant 0 <= j <= i
      invariant forall p, q :: 0 <= p < q <= i && p != j && q != j ==> a[p].weight <= a[q].weight
      invariant forall q :: j < q <= i ==> a[j].weight <= a[q].weight
      invariant multiset(a[..]) == multiset(old(a[..]))
    {
      Swap(a, j - 1, j);
      j := j - 1;
    }
  }

  /** Exchanges a[i] and a[j]; the array keeps the same edges. */
  method Swap(a: array<Edge>, i: int, j: int)
    requires 0 <= i < a.Length && 0 <= j < a.Length
    modifies a
    ensures a[i] == old(a[j]) && a[j] == old(a[i])
    ensures forall k :: 0 <= k < a.Length && k != i && k != j ==> a[k] == old(a[k])
    ensures multiset(a[..]) == multiset(old(a[..]))
  {
    a[i], a[j] := a[j], a[i];
  }
}
