/**
 * Graph construction and the adaptive-threshold forest: the eight-neighbour
 * graph of one colour channel, and the per-channel segmentation that merges
 * components along edges taken in ascending order of weight.
 */
module DSConstruction {
  import opened Wrappers
  import opened Pixels
  import opened Edges
  import opened NeighbourGraph
  import opened DisjointSets

  /** Why the graph could not be built. */
  datatype GraphError = InvalidColour(colour: char)

  /**
   * The edge list of the channel named by `colour` ('r', 'g' or 'b'): for
   * each pixel in row-major order, one edge to each in-bounds backward
   * neighbour, weighted by the absolute difference of the channel values.
   * Any other selector is rejected before an edge is produced.
   */
  method ConstructEightNeighbourGraph(image: array2<RGBPixel>, colour: char) returns (r: Result<seq<Edge>, GraphError>)
    ensures r.Failure? <==> ParseColour(colour).None?
    ensures r.Failure? ==> r.error == InvalidColour(colour)
    ensures r.Success? ==> r.value == GridEdges(image, ParseColour(colour).value, image.Length0)
  {
    var c: Colour;
    match ParseColour(colour) {
      case None =>
        return Failure(InvalidColour(colour));
      case Some(selected) =>
        c := selected;
    }
    var edges: seq<Edge> := [];
    var height, width := image.Length0, image.Length1;
    for y := 0 to height
      invariant edges == GridEdges(image, c, y)
    {
      for x := 0 to width
        invariant edges == GridEdges(image, c, y) + RowEdges(image, c, y, x)
      {
        edges := AddPixelEdges(image, c, y, x, edges);
      }
    }
    return Success(edges);
  }

  /**
   * The innermost loop of the graph construction: appends to edges the
   * edges of pixel (y, x) to its in-bounds backward neighbours, in the
   * order of the offset table.
   */
  method AddPixelEdges(image: array2<RGBPixel>, c: Colour, y: int, x: int, edges: seq<Edge>)
    returns (edges': seq<Edge>)
    requires 0 <= y < image.Length0 && 0 <= x < image.Length1
    ensures edges' == edges + PixelEdges(image, c, y, x, |Offsets|)
  {
    var height, width := image.Length0, image.Length1;
    var from := FlatId(y, x, width);
    var fromValue := ChannelOf(image[y, x], c);
    edges' := edges;
    for d := 0 to |Offsets|
      invariant edges' == edges + PixelEdges(image, c, y, x, d)
    {
      var ny := y + Offsets[d].0;
      var nx := x + Offsets[d].1;
      if ny < 0 || ny >= height || nx < 0 || nx >= width {
        continue;
      }
      var to := FlatId(ny, nx, width);
      var toValue := ChannelOf(image[ny, nx], c);
      var weight := AbsDiff(fromValue, toValue);
      edges' := edges' + [Edge(from, to, weight)];
    }
  }

  /** The smaller of two reals. */
  function Min(a: real, b: real): (m: real)
    ensures m <= a && m <= b && (m == a || m == b)
  {
    if a <= b then a else b
  }

  /**
   * The largest weight at which two components may still be merged: the
   * smaller of internal difference plus k over size, for either component.
   */
  function MergeThreshold(diffA: real, sizeA: nat, diffB: real, sizeB: nat, k: real): real
    requires sizeA >= 1 && sizeB >= 1
  {
    Min(diffA + k / sizeA as real, diffB + k / sizeB as real)
  }

  /** How many entries of s are true. */
  function CountTrue(s: seq<bool>): nat
  {
    if |s| == 0 then 0 else CountTrue(s[..|s| - 1]) + if s[|s| - 1] then 1 else 0
  }

  /**
   * What the forest construction keeps true after the first i edges of the
   * sorted list: every accepted edge joins two elements of one class, and
   * the internal difference recorded at that class's root is at least the
   * edge's weight.
   */
  ghost predicate ForestInv(edges: seq<Edge>, i: int, accepted: seq<bool>, root: seq<int>, diff: seq<real>)
  {
    0 <= i <= |edges| && |accepted| == i &&
    (forall j :: 0 <= j < |root| ==> 0 <= root[j] < |diff|) &&
    (forall j :: 0 <= j < |edges| ==> 0 <= edges[j].from < |root| && 0 <= edges[j].to < |root|) &&
    forall j :: 0 <= j < i && accepted[j] ==>
      root[edges[j].from] == root[edges[j].to] && edges[j].weight <= diff[root[edges[j].from]]
  }

  /**
   * One step of the forest construction on edge e, from representative map
   * root and internal differences diff to root' and diff': with a and b the
   * roots of e's ends, the step merges exactly when a != b and e's weight is
   * at most their merge threshold; a merge puts both classes under a
   * survivor s (a or b) that records e's weight, and otherwise nothing
   * changes.
   */
  ghost predicate MergeStep(e: Edge, k: real, root: seq<int>, diff: seq<real>, merged: bool,
                            root': seq<int>, diff': seq<real>)
  {
    0 <= e.from < |root| && 0 <= e.to < |root| && |root'| == |root| &&
    0 <= root[e.from] < |diff| && 0 <= root[e.to] < |diff| &&
    var a, b := root[e.from], root[e.to];
    (merged <==> a != b && e.weight <= MergeThreshold(diff[a], ClassSizeIn(root, e.from),
                                                       diff[b], ClassSizeIn(root, e.to), k)) &&
    (merged ==>
      var s := root'[e.from];
      (s == a || s == b) && root' == MergedRoots(root, a, b, s) && diff' == diff[s := e.weight]) &&
    (!merged ==> root' == root && diff' == diff)
  }

  /**
   * The run of the forest construction over the first |accepted| edges:
   * roots[i] and diffs[i] are the representative map and the internal
   * differences before edge i, and every step is a MergeStep.
   */
  ghost predicate MergeTrace(edges: seq<Edge>, k: real, roots: seq<seq<int>>, diffs: seq<seq<real>>,
                             accepted: seq<bool>)
  {
    |accepted| <= |edges| && |roots| == |accepted| + 1 && |diffs| == |accepted| + 1 &&
    forall i :: 0 <= i < |accepted| ==>
      MergeStep(edges[i], k, roots[i], diffs[i], accepted[i], roots[i + 1], diffs[i + 1])
  }

  /** A run extended by one more step is a run. */
  lemma TraceExtends(edges: seq<Edge>, k: real, roots: seq<seq<int>>, diffs: seq<seq<real>>, accepted: seq<bool>,
                     merged: bool, root': seq<int>, diff': seq<real>)
    requires MergeTrace(edges, k, roots, diffs, accepted) && |accepted| < |edges|
    requires MergeStep(edges[|accepted|], k, roots[|accepted|], diffs[|accepted|], merged, root', diff')
    ensures MergeTrace(edges, k, roots + [root'], diffs + [diff'], accepted + [merged])
  {
    var roots', diffs', accepted' := roots + [root'], diffs + [diff'], accepted + [merged];
    forall i | 0 <= i < |accepted'|
      ensures MergeStep(edges[i], k, roots'[i], diffs'[i], accepted'[i], roots'[i + 1], diffs'[i + 1])
    {
      if i < |accepted| {
        assert roots'[i] == roots[i] && roots'[i + 1] == roots[i + 1];
        assert diffs'[i] == diffs[i] && diffs'[i + 1] == diffs[i + 1];
      }
    }
  }

  /**
   * Two elements in one class stay in one class for the rest of a run:
   * merging never splits a class.
   */
  lemma {:induction false} ClassesOnlyGrow(edges: seq<Edge>, k: real, roots: seq<seq<int>>, diffs: seq<seq<real>>,
                                           accepted: seq<bool>, i: int, j: int, x: int, y: int)
    requires MergeTrace(edges, k, roots, diffs, accepted) && 0 <= i <= j < |roots|
    requires 0 <= x < |roots[i]| && 0 <= y < |roots[i]| && roots[i][x] == roots[i][y]
    ensures |roots[j]| == |roots[i]| && roots[j][x] == roots[j][y]
  {
    if i < j {
      ClassesOnlyGrow(edges, k, roots, diffs, accepted, i, j - 1, x, y);
      assert MergeStep(edges[j - 1], k, roots[j - 1], diffs[j - 1], accepted[j - 1], roots[j], diffs[j]);
    }
  }

  /**
   * With non-negative weights and starting differences, every internal
   * difference along a run stays non-negative.
   */
  lemma {:induction false} DiffsStayNonNegative(edges: seq<Edge>, k: real, roots: seq<seq<int>>,
                                                diffs: seq<seq<real>>, accepted: seq<bool>, i: int)
    requires MergeTrace(edges, k, roots, diffs, accepted) && 0 <= i < |diffs|
    requires forall e :: 0 <= e < |edges| ==> edges[e].weight >= 0.0
    requires forall v :: 0 <= v < |diffs[0]| ==> diffs[0][v] >= 0.0
    ensures forall v :: 0 <= v < |diffs[i]| ==> diffs[i][v] >= 0.0
  {
    if i > 0 {
      DiffsStayNonNegative(edges, k, roots, diffs, accepted, i - 1);
      assert MergeStep(edges[i - 1], k, roots[i - 1], diffs[i - 1], accepted[i - 1], roots[i], diffs[i]);
    }
  }

  /**
   * An edge of weight 0 (two equal channel values) always ends inside one
   * segment when k >= 0 and the weights and starting differences are
   * non-negative: the merge threshold is then never below 0, so the step
   * on that edge merges its ends unless they already share a class, and
   * classes never split. In particular the neighbouring pixels of a
   * uniform channel all end in the same segment.
   */
  lemma ZeroWeightEdgesJoin(edges: seq<Edge>, k: real, roots: seq<seq<int>>, diffs: seq<seq<real>>,
                            accepted: seq<bool>, i: int)
    requires MergeTrace(edges, k, roots, diffs, accepted) && |accepted| == |edges| && k >= 0.0
    requires forall e :: 0 <= e < |edges| ==> edges[e].weight >= 0.0
    requires forall v :: 0 <= v < |diffs[0]| ==> diffs[0][v] >= 0.0
    requires 0 <= i < |edges| && edges[i].weight == 0.0
    ensures var last := roots[|roots| - 1];
      0 <= edges[i].from < |last| && 0 <= edges[i].to < |last| && last[edges[i].from] == last[edges[i].to]
  {
    var e := edges[i];
    assert MergeStep(e, k, roots[i], diffs[i], accepted[i], roots[i + 1], diffs[i + 1]);
    DiffsStayNonNegative(edges, k, roots, diffs, accepted, i);
    var a, b := roots[i][e.from], roots[i][e.to];
    if a != b {
      var sa, sb := ClassSizeIn(roots[i], e.from), ClassSizeIn(roots[i], e.to);
      assert k / sa as real >= 0.0 && k / sb as real >= 0.0;
      assert accepted[i];
    }
    ClassesOnlyGrow(edges, k, roots, diffs, accepted, i + 1, |roots| - 1, e.from, e.to);
  }

  /** Rejecting edge i keeps the forest invariant. */
  lemma RejectKeepsForestInv(edges: seq<Edge>, i: int, accepted: seq<bool>, root: seq<int>, diff: seq<real>)
    requires ForestInv(edges, i, accepted, root, diff) && i < |edges|
    ensures ForestInv(edges, i + 1, accepted + [false], root, diff)
  {
    var acc := accepted + [false];
    forall j | 0 <= j < i + 1 && acc[j]
      ensures root[edges[j].from] == root[edges[j].to] && edges[j].weight <= diff[root[edges[j].from]]
    {
      assert j < i && acc[j] == accepted[j];
    }
  }

  /**
   * Accepting edge i, which joins the classes of roots a and b, keeps the
   * forest invariant once the classes are merged under s and s records the
   * weight of edge i: every earlier accepted edge is no heavier, as the
   * edges are sorted.
   */
  lemma AcceptKeepsForestInv(edges: seq<Edge>, i: int, accepted: seq<bool>, root: seq<int>, diff: seq<real>,
                             a: int, b: int, s: int)
    requires ForestInv(edges, i, accepted, root, diff) && i < |edges| && SortedByWeight(edges)
    requires root[edges[i].from] == a && root[edges[i].to] == b && (s == a || s == b)
    ensures ForestInv(edges, i + 1, accepted + [true], MergedRoots(root, a, b, s), diff[s := edges[i].weight])
  {
    var acc, root', diff' := accepted + [true], MergedRoots(root, a, b, s), diff[s := edges[i].weight];
    forall j | 0 <= j < i + 1 && acc[j]
      ensures root'[edges[j].from] == root'[edges[j].to] && edges[j].weight <= diff'[root'[edges[j].from]]
    {
      if j < i {
        assert acc[j] == accepted[j];
        assert edges[j].weight <= edges[i].weight;
      }
    }
  }

  /**
   * The merge test of the forest construction on two distinct roots: their
   * classes are merged exactly when w is at most their merge threshold, and
   * the surviving root then records w as its internal difference.
   */
  method MergeIfClose(mstSet: DisjointSet, internalDiff: array<real>, setA: int, setB: int, w: real, k: real)
    returns (merged: bool)
    requires mstSet.Valid() && internalDiff.Length == mstSet.n
    requires 0 <= setA < mstSet.n && 0 <= setB < mstSet.n && setA != setB
    requires mstSet.root[setA] == setA && mstSet.root[setB] == setB
    modifies mstSet, mstSet.parent, mstSet.rank, mstSet.size, internalDiff
    ensures mstSet.Valid()
    ensures merged <==> w <= MergeThreshold(
      old(internalDiff[setA]), old(mstSet.ClassSize(setA)),
      old(internalDiff[setB]), old(mstSet.ClassSize(setB)), k)
    ensures !merged ==>
      mstSet.root == old(mstSet.root) && internalDiff[..] == old(internalDiff[..]) &&
      mstSet.NumSets() == old(mstSet.NumSets())
    ensures merged ==>
      var s := mstSet.root[setA];
      (s == setA || s == setB) &&
      mstSet.root == MergedRoots(old(mstSet.root), setA, setB, s) &&
      internalDiff[..] == old(internalDiff[..])[s := w] &&
      mstSet.NumSets() == old(mstSet.NumSets()) - 1
  {
    var sizeA := mstSet.GetSize(setA);
    var sizeB := mstSet.GetSize(setB);
    var threshold := Min(internalDiff[setA] + k / sizeA as real, internalDiff[setB] + k / sizeB as real);
    merged := false;
    if w <= threshold {
      var newSet := mstSet.Union(setA, setB);
      internalDiff[newSet] := w;
      merged := true;
    }
  }

  /**
   * One step of the forest construction: the components A and B of the two
   * ends of e are merged exactly when they differ and e's weight is at most
   * their merge threshold; the surviving root then records e's weight as
   * its internal difference. Otherwise the partition and the internal
   * differences stay as they are.
   */
  method ConsiderEdge(mstSet: DisjointSet, internalDiff: array<real>, e: Edge, k: real) returns (merged: bool)
    requires mstSet.Valid() && internalDiff.Length == mstSet.n
    requires 0 <= e.from < mstSet.n && 0 <= e.to < mstSet.n
    modifies mstSet, mstSet.parent, mstSet.rank, mstSet.size, internalDiff
    ensures mstSet.Valid()
    ensures var a, b := old(mstSet.root[e.from]), old(mstSet.root[e.to]);
      merged <==> a != b && e.weight <= MergeThreshold(
        old(internalDiff[a]), old(mstSet.ClassSize(e.from)),
        old(internalDiff[b]), old(mstSet.ClassSize(e.to)), k)
    ensures !merged ==>
      mstSet.root == old(mstSet.root) && internalDiff[..] == old(internalDiff[..]) &&
      mstSet.NumSets() == old(mstSet.NumSets())
    ensures merged ==>
      var a, b := old(mstSet.root[e.from]), old(mstSet.root[e.to]);
      var s := mstSet.root[e.from];
      (s == a || s == b) &&
      mstSet.root == MergedRoots(old(mstSet.root), a, b, s) &&
      internalDiff[..] == old(internalDiff[..])[s := e.weight] &&
      mstSet.NumSets() == old(mstSet.NumSets()) - 1
  {
    var setA := mstSet.Find(e.from);
    var setB := mstSet.Find(e.to);
    merged := false;
    if setA != setB {
      merged := MergeIfClose(mstSet, internalDiff, setA, setB, e.weight, k);
    }
  }

  /**
   * Sorts allEdges ascending by weight in place, then runs ConsiderEdge on
   * every edge in that order, starting from singletons with internal
   * difference 0. `accepted` records which edges caused a merge and
   * `internalDiff` the final internal differences.
   */
  method ConstructMST(allEdges: array<Edge>, numVertices: int, k: real)
    returns (mstSet: DisjointSet, ghost accepted: seq<bool>, ghost internalDiff: seq<real>,
             ghost roots: seq<seq<int>>, ghost diffs: seq<seq<real>>)
    requires numVertices >= 0
    requires forall i :: 0 <= i < allEdges.Length ==>
      0 <= allEdges[i].from < numVertices && 0 <= allEdges[i].to < numVertices
    modifies allEdges
    ensures SortedByWeight(allEdges[..]) && multiset(allEdges[..]) == multiset(old(allEdges[..]))
    ensures fresh(mstSet) && mstSet.Valid() && mstSet.n == numVertices
    ensures MergeTrace(allEdges[..], k, roots, diffs, accepted) && |accepted| == allEdges.Length
    ensures roots[0] == seq(numVertices, v => v) && diffs[0] == seq(numVertices, v => 0.0)
    ensures mstSet.root == roots[|roots| - 1] && internalDiff == diffs[|diffs| - 1]
    ensures ForestInv(allEdges[..], allEdges.Length, accepted, mstSet.root, internalDiff)
    ensures mstSet.NumSets() == numVertices - CountTrue(accepted)
  {
    ghost var before := allEdges[..];
    SortByWeight(allEdges);
    PermutedEdgesInRange(before, allEdges[..], numVertices);
    mstSet := new DisjointSet(numVertices);
    assert mstSet.root == seq(numVertices, v => v);
    var diff := ZeroDiffs(numVertices);
    accepted, roots, diffs := MergeAlong(mstSet, diff, allEdges, k);
    internalDiff := diff[..];
  }

  /** A permutation of an edge list whose ends are below n has its ends below n too. */
  lemma PermutedEdgesInRange(before: seq<Edge>, after: seq<Edge>, n: int)
    requires multiset(after) == multiset(before)
    requires forall j :: 0 <= j < |before| ==> 0 <= before[j].from < n && 0 <= before[j].to < n
    ensures forall j :: 0 <= j < |after| ==> 0 <= after[j].from < n && 0 <= after[j].to < n
  {
    forall j | 0 <= j < |after|
      ensures 0 <= after[j].from < n && 0 <= after[j].to < n
    {
      assert after[j] in multiset(before);
    }
  }

  /** The starting internal differences: 0 for each of the n singletons. */
  method ZeroDiffs(n: nat) returns (diff: array<real>)
    ensures fresh(diff) && diff[..] == seq(n, v => 0.0)
  {
    diff := new real[n];
    for i := 0 to n
      modifies diff
      invariant forall j :: 0 <= j < i ==> diff[j] == 0.0
    {
      diff[i] := 0.0;
    }
  }

  /**
   * The state of the forest construction after the first i edges: the run
   * so far is a MergeTrace ending in the current representative map and
   * internal differences, and the forest invariant holds of them.
   */
  ghost predicate Progress(edges: seq<Edge>, k: real, i: int, accepted: seq<bool>, roots: seq<seq<int>>,
                           diffs: seq<seq<real>>, root: seq<int>, diff: seq<real>)
  {
    MergeTrace(edges, k, roots, diffs, accepted) && |accepted| == i &&
    roots[i] == root && diffs[i] == diff && ForestInv(edges, i, accepted, root, diff)
  }

  /**
   * One iteration of the forest construction loop: ConsiderEdge on edge i,
   * which extends the run by one MergeStep and removes one class exactly
   * when it merges.
   */
  method MergeEdgeAt(mstSet: DisjointSet, diff: array<real>, allEdges: array<Edge>, k: real, i: int,
                     ghost accepted: seq<bool>, ghost roots: seq<seq<int>>, ghost diffs: seq<seq<real>>)
    returns (ghost accepted': seq<bool>, ghost roots': seq<seq<int>>, ghost diffs': seq<seq<real>>)
    requires mstSet.Valid() && diff.Length == mstSet.n && SortedByWeight(allEdges[..])
    requires 0 <= i < allEdges.Length
    requires Progress(allEdges[..], k, i, accepted, roots, diffs, mstSet.root, diff[..])
    modifies mstSet, mstSet.parent, mstSet.rank, mstSet.size, diff
    ensures mstSet.Valid()
    ensures Progress(allEdges[..], k, i + 1, accepted', roots', diffs', mstSet.root, diff[..])
    ensures roots'[0] == roots[0] && diffs'[0] == diffs[0]
    ensures mstSet.NumSets() + CountTrue(accepted') == old(mstSet.NumSets()) + CountTrue(accepted)
  {
    ghost var edges := allEdges[..];
    var edge := allEdges[i];
    ghost var root0, diff0 := mstSet.root, diff[..];
    var merged := ConsiderEdge(mstSet, diff, edge, k);
    if merged {
      AcceptKeepsForestInv(edges, i, accepted, root0, diff0,
                           root0[edge.from], root0[edge.to], mstSet.root[edge.from]);
    } else {
      RejectKeepsForestInv(edges, i, accepted, root0, diff0);
    }
    assert MergeStep(edge, k, root0, diff0, merged, mstSet.root, diff[..]);
    TraceExtends(edges, k, roots, diffs, accepted, merged, mstSet.root, diff[..]);
    assert (accepted + [merged])[..i] == accepted;
    accepted', roots', diffs' := accepted + [merged], roots + [mstSet.root], diffs + [diff[..]];
  }

  /**
   * The loop of the forest construction: ConsiderEdge on every edge of the
   * sorted list, in order. Starting from any valid forest in which no edge
   * has been accepted yet, it ends with the forest invariant over all edges
   * and one class fewer per accepted edge.
   */
  method MergeAlong(mstSet: DisjointSet, diff: array<real>, allEdges: array<Edge>, k: real)
    returns (ghost accepted: seq<bool>, ghost roots: seq<seq<int>>, ghost diffs: seq<seq<real>>)
    requires mstSet.Valid() && diff.Length == mstSet.n && SortedByWeight(allEdges[..])
    requires forall j :: 0 <= j < allEdges.Length ==>
      0 <= allEdges[j].from < mstSet.n && 0 <= allEdges[j].to < mstSet.n
    modifies mstSet, mstSet.parent, mstSet.rank, mstSet.size, diff
    ensures mstSet.Valid()
    ensures MergeTrace(allEdges[..], k, roots, diffs, accepted) && |accepted| == allEdges.Length
    ensures roots[0] == old(mstSet.root) && diffs[0] == old(diff[..])
    ensures mstSet.root == roots[|roots| - 1] && diff[..] == diffs[|diffs| - 1]
    ensures ForestInv(allEdges[..], allEdges.Length, accepted, mstSet.root, diff[..])
    ensures mstSet.NumSets() == old(mstSet.NumSets()) - CountTrue(accepted)
  {
    accepted, roots, diffs := [], [mstSet.root], [diff[..]];
    for i := 0 to allEdges.Length
      invariant mstSet.Valid() && diff.Length == mstSet.n
      invariant Progress(allEdges[..], k, i, accepted, roots, diffs, mstSet.root, diff[..])
      invariant roots[0] == old(mstSet.root) && diffs[0] == old(diff[..])
      invariant mstSet.NumSets() == old(mstSet.NumSets()) - CountTrue(accepted)
    {
      accepted, roots, diffs := MergeEdgeAt(mstSet, diff, allEdges, k, i, accepted, roots, diffs);
    }
  }
}
