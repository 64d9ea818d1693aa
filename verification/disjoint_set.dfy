/**
 * The union-find structure of the segmentation core: parent, rank and size
 * arrays over the elements 0..n-1, a path-compressing Find and a
 * union-by-rank Union.
 */
module DisjointSets {

  /** How many of the first k positions of s hold v. */
  function CountUpTo(s: seq<int>, v: int, k: int): nat
    requires 0 <= k <= |s|
  {
    if k == 0 then 0 else CountUpTo(s, v, k - 1) + (if s[k - 1] == v then 1 else 0)
  }

  /** How many positions of s hold v: the size of v's class when s maps elements to roots. */
  function Occurrences(s: seq<int>, v: int): nat
  {
    CountUpTo(s, v, |s|)
  }

  /** How many of the first k positions of s hold a value below b. */
  function CountBelowUpTo(s: seq<int>, b: int, k: int): nat
    requires 0 <= k <= |s|
  {
    if k == 0 then 0 else CountBelowUpTo(s, b, k - 1) + (if s[k - 1] < b then 1 else 0)
  }

  /** How many of the first k positions i of p satisfy p[i] == i. */
  function SelfLoopsUpTo(p: seq<int>, k: int): nat
    requires 0 <= k <= |p|
  {
    if k == 0 then 0 else SelfLoopsUpTo(p, k - 1) + (if p[k - 1] == k - 1 then 1 else 0)
  }

  /** How many positions i of p satisfy p[i] == i: the number of roots of a parent array. */
  function SelfLoops(p: seq<int>): nat
  {
    SelfLoopsUpTo(p, |p|)
  }

  /** In the identity array every position is a root. */
  lemma {:induction false} SelfLoopsIdentity(p: seq<int>, k: int)
    requires 0 <= k <= |p|
    requires forall i :: 0 <= i < |p| ==> p[i] == i
    ensures SelfLoopsUpTo(p, k) == k
  {
    if k > 0 {
      SelfLoopsIdentity(p, k - 1);
    }
  }

  /** Two parent arrays with the same roots have the same number of roots. */
  lemma {:induction false} SelfLoopsSameRoots(p: seq<int>, q: seq<int>, k: int)
    requires |p| == |q| && 0 <= k <= |p|
    requires forall i :: 0 <= i < |p| ==> (p[i] == i <==> q[i] == i)
    ensures SelfLoopsUpTo(p, k) == SelfLoopsUpTo(q, k)
  {
    if k > 0 {
      SelfLoopsSameRoots(p, q, k - 1);
    }
  }

  /** Hanging one root under another element removes exactly one root. */
  lemma {:induction false} SelfLoopsAttach(p: seq<int>, q: seq<int>, loser: int, k: int)
    requires |p| == |q| && 0 <= loser < |p| && p[loser] == loser && q[loser] != loser
    requires forall i :: 0 <= i < |p| && i != loser ==> q[i] == p[i]
    requires 0 <= k <= |p|
    ensures SelfLoopsUpTo(q, k) == SelfLoopsUpTo(p, k) - (if loser < k then 1 else 0)
  {
    if k > 0 {
      SelfLoopsAttach(p, q, loser, k - 1);
    }
  }

  /**
   * Merging the classes of rx and ry under s: the merged class has the size
   * of the two together, and every other class keeps its size.
   */
  lemma {:induction false} MergedCounts(root: seq<int>, root': seq<int>, rx: int, ry: int, s: int, k: int)
    requires |root'| == |root| && rx != ry && (s == rx || s == ry) && 0 <= k <= |root|
    requires forall i :: 0 <= i < |root| ==> root'[i] == if root[i] == rx || root[i] == ry then s else root[i]
    ensures CountUpTo(root', s, k) == CountUpTo(root, rx, k) + CountUpTo(root, ry, k)
    ensures forall r :: r != rx && r != ry ==> CountUpTo(root', r, k) == CountUpTo(root, r, k)
  {
    if k > 0 {
      MergedCounts(root, root', rx, ry, s, k - 1);
    }
  }

  /** Counting the values below b + 1 adds the occurrences of b. */
  lemma {:induction false} CountBelowStep(s: seq<int>, b: int, k: int)
    requires 0 <= k <= |s|
    ensures CountBelowUpTo(s, b + 1, k) == CountBelowUpTo(s, b, k) + CountUpTo(s, b, k)
  {
    if k > 0 {
      CountBelowStep(s, b, k - 1);
    }
  }

  /** When every value is below b, all positions are counted. */
  lemma {:induction false} CountBelowAll(s: seq<int>, b: int, k: int)
    requires 0 <= k <= |s|
    requires forall i :: 0 <= i < |s| ==> s[i] < b
    ensures CountBelowUpTo(s, b, k) == k
  {
    if k > 0 {
      CountBelowAll(s, b, k - 1);
    }
  }

  /** When no value is below b, no position is counted. */
  lemma {:induction false} CountBelowNone(s: seq<int>, b: int, k: int)
    requires 0 <= k <= |s|
    requires forall i :: 0 <= i < |s| ==> s[i] >= b
    ensures CountBelowUpTo(s, b, k) == 0
  {
    if k > 0 {
      CountBelowNone(s, b, k - 1);
    }
  }

  /** A value held at a position below k is counted at least once. */
  lemma {:induction false} CountPositive(s: seq<int>, i: int, k: int)
    requires 0 <= i < k <= |s|
    ensures CountUpTo(s, s[i], k) >= 1
  {
    if i < k - 1 {
      CountPositive(s, i, k - 1);
    }
  }

  /** A value held nowhere is never counted. */
  lemma {:induction false} CountNone(s: seq<int>, v: int, k: int)
    requires 0 <= k <= |s|
    requires forall i :: 0 <= i < |s| ==> s[i] != v
    ensures CountUpTo(s, v, k) == 0
  {
    if k > 0 {
      CountNone(s, v, k - 1);
    }
  }

  /** In the identity map each element is alone in its class. */
  lemma {:induction false} SingletonCount(s: seq<int>, r: int, k: int)
    requires forall i :: 0 <= i < |s| ==> s[i] == i
    requires 0 <= k <= |s|
    ensures CountUpTo(s, r, k) == if 0 <= r < k then 1 else 0
  {
    if k > 0 {
      SingletonCount(s, r, k - 1);
    }
  }

  /** The number of elements sharing x's representative in the map root; never 0, since x is one of them. */
  ghost function ClassSizeIn(root: seq<int>, x: int): (s: nat)
    requires 0 <= x < |root|
    ensures s >= 1
  {
    CountPositive(root, x, |root|);
    Occurrences(root, root[x])
  }

  /** The representative map after the classes of a and b are merged under s. */
  ghost function MergedRoots(root: seq<int>, a: int, b: int, s: int): seq<int>
  {
    seq(|root|, i requires 0 <= i < |root| => if root[i] == a || root[i] == b then s else root[i])
  }

  /**
   * The union-find invariant over parent, rank and size contents and the
   * representative map. Every representative is a root that the element's
   * parent shares; ranks strictly increase along a parent edge and from any
   * non-root to its root; a root's size is the size of its class.
   */
  ghost predicate Inv(p: seq<int>, rk: seq<int>, sz: seq<int>, root: seq<int>)
  {
    |rk| == |p| && |sz| == |p| && |root| == |p| &&
    (forall i {:trigger p[i]} :: 0 <= i < |p| ==> 0 <= p[i] < |p|) &&
    (forall i {:trigger root[i]} :: 0 <= i < |p| ==> 0 <= root[i] < |p|) &&
    (forall i {:trigger rk[i]} :: 0 <= i < |p| ==> 0 <= rk[i]) &&
    (forall i {:trigger p[root[i]]} :: 0 <= i < |p| ==> p[root[i]] == root[i]) &&
    (forall i {:trigger root[p[i]]} :: 0 <= i < |p| ==> root[p[i]] == root[i]) &&
    (forall i {:trigger p[i]} :: 0 <= i < |p| && p[i] == i ==> root[i] == i) &&
    (forall i {:trigger p[i]} :: 0 <= i < |p| && p[i] != i ==> rk[i] < rk[p[i]] && rk[i] < rk[root[i]]) &&
    (forall r {:trigger sz[r]} :: 0 <= r < |p| && p[r] == r ==> sz[r] == Occurrences(root, r))
  }

  /** Pointing x straight at its representative keeps the invariant and the set of roots. */
  lemma CompressKeepsInv(p: seq<int>, rk: seq<int>, sz: seq<int>, root: seq<int>, x: int)
    requires Inv(p, rk, sz, root) && 0 <= x < |p|
    ensures Inv(p[x := root[x]], rk, sz, root)
    ensures forall i :: 0 <= i < |p| ==> (p[x := root[x]][i] == i <==> p[i] == i)
  {
    var p' := p[x := root[x]];
    assert p[root[x]] == root[x];
    if p[x] == x {
      assert p' == p;
    } else {
      forall i | 0 <= i < |p| && p'[i] != i
        ensures rk[i] < rk[p'[i]] && rk[i] < rk[root[i]]
      {
        assert p[i] != i;
      }
    }
  }

  /**
   * Hanging root `loser` under root s (with s's rank possibly raised and its
   * size set to the sum) keeps the invariant once the two classes are merged
   * in the representative map, and leaves one root fewer.
   */
  lemma LinkKeepsInv(p: seq<int>, rk: seq<int>, sz: seq<int>, root: seq<int>,
                     s: int, loser: int, newRank: int, newSize: int,
                     p': seq<int>, rk': seq<int>, sz': seq<int>, root': seq<int>)
    requires Inv(p, rk, sz, root)
    requires 0 <= s < |p| && 0 <= loser < |p| && s != loser && p[s] == s && p[loser] == loser
    requires rk[loser] < newRank && rk[s] <= newRank
    requires |p'| == |p| && |rk'| == |p| && |sz'| == |p|
    requires p'[loser] == s && forall i :: 0 <= i < |p| && i != loser ==> p'[i] == p[i]
    requires rk'[s] == newRank && forall i :: 0 <= i < |p| && i != s ==> rk'[i] == rk[i]
    requires newSize == sz[s] + sz[loser]
    requires sz'[s] == newSize && forall i :: 0 <= i < |p| && i != s ==> sz'[i] == sz[i]
    requires |root'| == |root|
    requires forall i :: 0 <= i < |root| ==> root'[i] == if root[i] == s || root[i] == loser then s else root[i]
    ensures Inv(p', rk', sz', root')
    ensures p' == p[loser := s] && rk' == rk[s := newRank] && sz' == sz[s := newSize]
    ensures SelfLoops(p') == SelfLoops(p) - 1
  {
    MergedCounts(root, root', s, loser, s, |root|);
    SelfLoopsAttach(p, p', loser, |p|);
    forall i | 0 <= i < |p| ensures root'[p'[i]] == root'[i] {
      assert root[p[i]] == root[i];
    }
    forall i | 0 <= i < |p| ensures p'[root'[i]] == root'[i] {
      assert p[root[i]] == root[i];
    }
    forall i | 0 <= i < |p| && p'[i] != i
      ensures rk'[i] < rk'[p'[i]] && rk'[i] < rk'[root'[i]]
    {
      if i != loser {
        assert p[i] != i && i != s;
        assert rk[i] < rk[p[i]] && rk[i] < rk[root[i]];
      }
    }
    forall r | 0 <= r < |p| && p'[r] == r
      ensures sz'[r] == Occurrences(root', r)
    {
      assert p[r] == r && r != loser;
    }
  }

  class DisjointSet {
    const parent: array<int>
    const rank: array<int>
    const size: array<int>
    /** The number of elements. */
    ghost const n: nat
    /** Abstract view: root[i] is the representative that Find(i) returns. */
    ghost var root: seq<int>

    /** The structure invariant: three distinct arrays of length n satisfying Inv. */
    ghost predicate Valid()
      reads this, parent, rank, size
    {
      parent != rank && parent != size && rank != size && parent.Length == n &&
      Inv(parent[..], rank[..], size[..], root)
    }

    /** The number of disjoint sets: the number of roots. */
    ghost function NumSets(): nat
      reads this, parent
    {
      SelfLoops(parent[..])
    }

    /** Every element starts as its own root, with rank 0 and size 1. */
    constructor (count: int)
      requires count >= 0
      ensures Valid() && n == count
      ensures fresh(parent) && fresh(rank) && fresh(size)
      ensures forall i :: 0 <= i < count ==> parent[i] == i && rank[i] == 0 && size[i] == 1 && root[i] == i
      ensures NumSets() == count
    {
      parent := new int[count];
      rank := new int[count];
      size := new int[count];
      n := count;
      new;
      for i := 0 to count
        invariant forall j :: 0 <= j < i ==> parent[j] == j && rank[j] == 0 && size[j] == 1
      {
        parent[i] := i;
        rank[i] := 0;
        size[i] := 1;
      }
      root := seq(count, i => i);
      forall r | 0 <= r < count
        ensures Occurrences(root, r) == 1
      {
        SingletonCount(root, r, count);
      }
      SelfLoopsIdentity(parent[..], count);
    }

    /**
     * The representative of x. Every element on the path from x to its root
     * is re-pointed directly at the root; nothing else changes.
     */
    method Find(x: int) returns (r: int)
      requires Valid() && 0 <= x < n
      modifies parent
      ensures Valid()
      ensures r == root[x] && parent[r] == r && root[r] == r
      ensures parent[x] == r
      ensures forall i :: 0 <= i < n ==> parent[i] == old(parent[i]) || parent[i] == root[i]
      ensures forall i :: 0 <= i < n ==> (parent[i] == i <==> old(parent[i]) == i)
      ensures NumSets() == old(NumSets())
      decreases rank[root[x]] - rank[x]
    {
      if parent[x] != x {
        assert parent[..][root[x]] == root[x] && root[parent[..][x]] == root[x];
        var top := Find(parent[x]);
        CompressKeepsInv(parent[..], rank[..], size[..], root, x);
        parent[x] := top;
      }
      r := parent[x];
      assert parent[..][r] == r;
      SelfLoopsSameRoots(parent[..], old(parent[..]), n);
    }

    /**
     * Joins the sets of x and y and returns the surviving root: the root of
     * higher rank survives, and on equal ranks x's root survives and its rank
     * grows by one. If x and y already share a root, the partition, ranks and
     * sizes stay as they are and that root is returned.
     */
    method Union(x: int, y: int) returns (s: int)
      requires Valid() && 0 <= x < n && 0 <= y < n
      modifies this, parent, rank, size
      ensures Valid()
      ensures forall i :: 0 <= i < n && parent[i] == i ==> old(parent[i]) == i
      ensures old(root[x]) == old(root[y]) ==>
        s == old(root[x]) && root == old(root) && rank[..] == old(rank[..]) && size[..] == old(size[..]) &&
        NumSets() == old(NumSets())
      ensures old(root[x]) != old(root[y]) ==>
        var rx, ry := old(root[x]), old(root[y]);
        var loser := if s == rx then ry else rx;
        s == (if old(rank[rx]) < old(rank[ry]) then ry else rx) &&
        parent[loser] == s &&
        root == MergedRoots(old(root), rx, ry, s) &&
        rank[s] == old(rank[s]) + (if old(rank[rx]) == old(rank[ry]) then 1 else 0) &&
        (forall i :: 0 <= i < n && i != s ==> rank[i] == old(rank[i])) &&
        size[s] == old(size[rx]) + old(size[ry]) &&
        (forall i :: 0 <= i < n && i != s ==> size[i] == old(size[i])) &&
        NumSets() == old(NumSets()) - 1
    {
      var rootX := Find(x);
      var rootY := Find(y);
      if rootX == rootY {
        return rootX;
      }
      s := Link(rootX, rootY);
    }

    /** The union-by-rank step of Union, on two distinct roots. */
    method Link(rootX: int, rootY: int) returns (s: int)
      requires Valid() && 0 <= rootX < n && 0 <= rootY < n && rootX != rootY
      requires parent[rootX] == rootX && parent[rootY] == rootY
      modifies this, parent, rank, size
      ensures Valid()
      ensures s == (if old(rank[rootX]) < old(rank[rootY]) then rootY else rootX)
      ensures parent[..] == old(parent[..])[(if s == rootX then rootY else rootX) := s]
      ensures root == MergedRoots(old(root), rootX, rootY, s)
      ensures rank[..] == old(rank[..])[s := old(rank[s]) + if old(rank[rootX]) == old(rank[rootY]) then 1 else 0]
      ensures size[..] == old(size[..])[s := old(size[rootX]) + old(size[rootY])]
      ensures NumSets() == old(NumSets()) - 1
    {
      ghost var root0, parent0, rank0, size0 := root, parent[..], rank[..], size[..];
      ghost var survivor := if rank[rootX] < rank[rootY] then rootY else rootX;
      ghost var loser := if survivor == rootX then rootY else rootX;
      ghost var newRank := rank[survivor] + if rank[rootX] == rank[rootY] then 1 else 0;
      ghost var newSize := size[rootX] + size[rootY];
      if rank[rootX] < rank[rootY] {
        parent[rootX] := rootY;
        size[rootY] := size[rootY] + size[rootX];
        s := rootY;
      } else if rank[rootX] > rank[rootY] {
        parent[rootY] := rootX;
        size[rootX] := size[rootX] + size[rootY];
        s := rootX;
      } else {
        parent[rootY] := rootX;
        rank[rootX] := rank[rootX] + 1;
        size[rootX] := size[rootX] + size[rootY];
        s := rootX;
      }
      root := MergedRoots(root0, rootX, rootY, s);
      LinkKeepsInv(parent0, rank0, size0, root0, s, loser, newRank, newSize, parent[..], rank[..], size[..], root);
    }

    /** The number of elements in the set of x. */
    method GetSize(x: int) returns (sz: int)
      requires Valid() && 0 <= x < n
      modifies parent
      ensures Valid() && root == old(root) && NumSets() == old(NumSets())
      ensures forall i :: 0 <= i < n ==> (parent[i] == i <==> old(parent[i]) == i)
      ensures sz == ClassSize(x)
    {
      var r := Find(x);
      sz := size[r];
      assert size[..][r] == sz;
    }

    /** The number of elements that share x's representative; never 0, since x is one of them. */
    ghost function ClassSize(x: int): (s: nat)
      reads this
      requires 0 <= x < |root|
      ensures s >= 1
    {
      ClassSizeIn(root, x)
    }

    /** Counts the roots, that is, the number of disjoint sets. */
    method GetNumSets() returns (count: int)
      ensures count == NumSets()
    {
      count := 0;
      for i := 0 to parent.Length
        invariant count == SelfLoopsUpTo(parent[..], i)
      {
        if parent[i] == i {
          count := count + 1;
        }
      }
    }

    /** The total of size[r] over the roots r below k. */
    ghost function RootSizeSum(k: int): int
      reads this, parent, size
      requires 0 <= k <= parent.Length && size.Length == parent.Length
    {
      if k == 0 then 0
      else RootSizeSum(k - 1) + (if parent[k - 1] == k - 1 then size[k - 1] else 0)
    }

    /** The root sizes add up to the number of elements. */
    lemma RootSizesSumToN()
      requires Valid()
      ensures RootSizeSum(n) == n
    {
      RootSizeSumCounts(n);
      CountBelowAll(root, n, n);
    }

    /** The roots below k account for exactly the elements whose root is below k. */
    lemma {:induction false} RootSizeSumCounts(k: int)
      requires Valid() && 0 <= k <= n
      ensures RootSizeSum(k) == CountBelowUpTo(root, k, n)
    {
      if k == 0 {
        CountBelowNone(root, 0, n);
      } else {
        RootSizeSumCounts(k - 1);
        CountBelowStep(root, k - 1, n);
        if parent[k - 1] != k - 1 {
          forall i | 0 <= i < n ensures root[i] != k - 1 {
            assert parent[..][root[i]] == root[i];
          }
          CountNone(root, k - 1, n);
        } else {
          assert parent[..][k - 1] == k - 1 && size[..][k - 1] == size[k - 1];
          assert size[k - 1] == Occurrences(root, k - 1);
        }
      }
    }

    /** The representatives in use are exactly the roots, so there are NumSets() of them. */
    lemma RepresentativesCount()
      requires Valid()
      ensures |set i | 0 <= i < n :: root[i]| == NumSets()
    {
      var used := set i | 0 <= i < n :: root[i];
      var roots := set r | 0 <= r < n && parent[..][r] == r;
      forall r | r in used ensures r in roots {
        var i :| 0 <= i < n && root[i] == r;
        assert parent[..][root[i]] == root[i];
      }
      forall r | r in roots ensures r in used {
        assert root[r] == r;
      }
      assert used == roots;
      SelfLoopsCountSet(parent[..], n);
    }
  }

  /** SelfLoopsUpTo(p, k) is the size of the set of positions below k that hold their own index. */
  lemma {:induction false} SelfLoopsCountSet(p: seq<int>, k: int)
    requires 0 <= k <= |p|
    ensures |set r | 0 <= r < k && p[r] == r| == SelfLoopsUpTo(p, k)
  {
    if k > 0 {
      SelfLoopsCountSet(p, k - 1);
      var below := set r | 0 <= r < k - 1 && p[r] == r;
      if p[k - 1] == k - 1 {
        assert (set r | 0 <= r < k && p[r] == r) == below + {k - 1};
      } else {
        assert (set r | 0 <= r < k && p[r] == r) == below;
      }
    }
  }
}
