# Graph-based image segmentation core, in Dafny

This project models the segmentation engine in `ImageSegmentation/ImageOperations.cs`. The engine is a Felzenszwalb–Huttenlocher style pipeline over a height × width grid of RGB byte pixels. It has five parts:

- **`DisjointSet`**: union-find over the flat pixel ids `0..n-1`. It keeps `parent`, `rank` and `size` arrays, a recursive path-compressing `Find`, and union by rank, where on a tie x's root survives and its rank grows. It also has `GetSize` and `GetNumSets`.
- **`DSConstruction.ConstructEightNeighbourGraph`**: the edge list of one colour channel.
  - For every pixel in row-major order, it emits one edge to each in-bounds neighbour at the four backward offsets: up-left, up, up-right and left.
  - Each edge is weighted by the absolute difference of the channel bytes.
  - A selector other than `'r'`, `'g'` or `'b'` is an error.
- **`DSConstruction.ConstructMST`**: the per-channel forest.
  - It sorts the edges ascending in place.
  - It merges the classes of an edge's ends when they differ and the weight is at most `min(Int(A) + k/|A|, Int(B) + k/|B|)`.
  - The surviving root then records the weight as its internal difference.
- **`Segmentation.CreateSegments`**: fusion of the three channel forests.
  - Pixel j is keyed by the text `"{red}_{green}_{blue}"` of its three channel representatives.
  - It is joined to the first earlier pixel with the same key.
- **`Visualization.VisualizeSegments`**: the colour rendering.
  - Each representative gets three random bytes the first time the row-major scan meets it.
  - Later pixels with that representative reuse the colour.

Each class and method that updates state in place is modelled imperatively. `DisjointSet` is a class over three `array<int>` fields. Its ghost field `root` says which representative `Find` returns for each element, and `Valid()` ties the arrays to it:

- each root points at itself;
- ranks grow strictly along parent links;
- a root's `size` is the number of elements it represents.

The loops of the graph builder, the forest construction, the fusion and the rendering are methods with loop invariants. Each method is proved against ghost functions that say what it computes:

- `GridEdges` is the exact edge list.
- `MergeStep` and `MergeTrace` are the forest construction's run, edge by edge: the representative map and internal differences before each edge, and the merge rule that takes one to the next. `ForestInv` is an invariant of that run: every accepted edge lies inside one class, whose root's internal difference is at least the edge's weight.
- `FusionInv` is the invariant of the fusion after j pixels: the dictionary holds each key under the first pixel that had it, and representatives agree exactly when keys do.
- `Triples` and `Keys` are definitions: pixel i's triple of red, green and blue representatives, and the text key of that triple. `KeysMatchTriples` proves that two keys agree exactly when the triples do.
- `FirstSeen` and `ColourMapFor` describe the scan order and the colour dictionary.

Further lemmas prove what the source promises about those functions.

Modules and files:

- `wrappers.dfy`: `Option`, `Result`.
- `pixels.dfy`: `byte`, `RGBPixel`, channel selection and the byte difference.
- `edges.dfy`: `Edge`, `CompareTo`, the in-place sort.
- `neighbour_graph.dfy`: the edge list as a function of the image, with its proved shape and count.
- `disjoint_set.dfy`: `DisjointSet`.
- `ds_construction.dfy`: graph builder and forest construction.
- `segmentation.dfy`: `ComponentKeys` (the text key and its injectivity) and `Segmentation`.
- `visualization.dfy`: rendering.

## Model

| member | source | states |
|---|---|---|
| Pixels.ParseColour | ImageSegmentation/ImageOperations.cs:283-289 | A selector is accepted exactly when it is 'r', 'g' or 'b' (both directions). |
| Pixels.AbsDiff | ImageSegmentation/ImageOperations.cs:312 | The weight is the absolute difference of the two bytes, so it lies in [0, 255]. |
| Edges.CompareTo | ImageSegmentation/ImageOperations.cs:260-263 | Negative, zero or positive exactly when the edge is lighter than, as heavy as, or heavier than the other, by weight alone. |
| Edges.SortByWeight | ImageSegmentation/ImageOperations.cs:331 | In place, the array ends up ascending by weight and holds the same multiset of edges. |
| NeighbourGraph.BackwardOffsetsAreOffsets | ImageSegmentation/ImageOperations.cs:278-280 | The offset table holds exactly the four backward neighbours: up-left, up, up-right, left. |
| NeighbourGraph.FlatIdDecodes | ImageSegmentation/ImageOperations.cs:299 | The flat id y*width+x of an in-row pixel decodes back to (y, x). |
| NeighbourGraph.NeighbourEdgeShape | ImageSegmentation/ImageOperations.cs:304-314 | The edge emitted for an in-bounds neighbour joins two in-bounds pixels at a backward offset, with To < From and the byte-difference weight. |
| NeighbourGraph.PixelEdgesShape | ImageSegmentation/ImageOperations.cs:302-315 | Every edge emitted for pixel (y, x) leaves that pixel's flat id and is a backward-neighbour edge. |
| NeighbourGraph.PixelEdgesDistinct | ImageSegmentation/ImageOperations.cs:302-315 | The edges of one pixel lead to pairwise different neighbours. |
| NeighbourGraph.PixelEdgesCount | ImageSegmentation/ImageOperations.cs:302-315 | A pixel emits one edge per in-bounds backward neighbour. |
| NeighbourGraph.OffsetCountAll | ImageSegmentation/ImageOperations.cs:304-308 | That number is the sum of the four bounds tests of the skip condition. |
| NeighbourGraph.RowEdgesShape | ImageSegmentation/ImageOperations.cs:297-316 | The edges of a row's first x pixels leave those pixels, are backward-neighbour edges, and never join one unordered pair twice. |
| NeighbourGraph.RowEdgesCount | ImageSegmentation/ImageOperations.cs:297-316 | The number of edges of a row prefix, in closed form. |
| NeighbourGraph.GridEdgesShape | ImageSegmentation/ImageOperations.cs:295-317 | The edges of the first y rows leave pixels of those rows, are backward-neighbour edges, and never repeat an unordered pair. |
| NeighbourGraph.GridEdgesCount | ImageSegmentation/ImageOperations.cs:295-317 | The first y rows emit (w-1) + (y-1)(4w-3) edges when y, w >= 1, and none otherwise. |
| NeighbourGraph.GraphProperties | ImageSegmentation/ImageOperations.cs:274-319 | The whole graph: every edge joins a pixel to an in-bounds 8-neighbour with To < From and weight in [0, 255]; no unordered pair appears twice; an h × w image with h, w >= 1 has exactly 4hw - 3h - 3w + 2 edges. |
| DSConstruction.AddPixelEdges | ImageSegmentation/ImageOperations.cs:299-315 | The innermost loop appends exactly the pixel's edges to its in-bounds backward neighbours, in offset-table order. |
| DSConstruction.ConstructEightNeighbourGraph | ImageSegmentation/ImageOperations.cs:274-319 | The nested loops produce exactly the edge list GridEdges of the selected channel; an invalid selector fails (and only then) with InvalidColour before any edge is built. |
| DisjointSets.DisjointSet.constructor | ImageSegmentation/ImageOperations.cs:455-467 | Every element is its own root with rank 0 and size 1, the invariant holds, and there are n sets. |
| DisjointSets.DisjointSet.Find | ImageSegmentation/ImageOperations.cs:474-479 | Returns x's representative, a root that is its own representative, so a second Find returns it again. x then points at it directly. Parent links change only to point at representatives. The partition and the set of roots are unchanged. |
| DisjointSets.DisjointSet.Union | ImageSegmentation/ImageOperations.cs:487-514 | Equal roots: that root is returned and partition, ranks and sizes are unchanged. Otherwise the higher-rank root survives (x's root on a tie, with rank + 1), exactly the two classes merge under it, its size becomes the sum, nothing else changes, and the set count drops by one. |
| DisjointSets.DisjointSet.Link | ImageSegmentation/ImageOperations.cs:495-513 | The three rank cases of Union on two distinct roots: the resulting parent, rank and size arrays, the merged partition, and one set fewer. |
| DisjointSets.DisjointSet.GetSize | ImageSegmentation/ImageOperations.cs:521-525 | Returns the number of elements sharing x's representative; the partition and set count are unchanged. |
| DisjointSets.DisjointSet.GetNumSets | ImageSegmentation/ImageOperations.cs:531-540 | The loop counts the positions with parent[i] == i, which is NumSets. |
| DisjointSets.DisjointSet.RepresentativesCount | ImageSegmentation/ImageOperations.cs:531-540 | The distinct representatives in use number exactly GetNumSets(). |
| DisjointSets.DisjointSet.RootSizesSumToN | ImageSegmentation/ImageOperations.cs:498-511 | The sizes stored at the roots add up to n. |
| DisjointSets.DisjointSet.RootSizeSumCounts | ImageSegmentation/ImageOperations.cs:498-511 | The root sizes below k count exactly the elements whose representative is below k. |
| DisjointSets.CompressKeepsInv | ImageSegmentation/ImageOperations.cs:477 | Pointing x straight at its representative keeps the invariant and changes no root. |
| DisjointSets.LinkKeepsInv | ImageSegmentation/ImageOperations.cs:495-513 | Hanging one root under another, with rank and size updated as Union does, keeps the invariant for the merged partition and leaves one root fewer. |
| DisjointSets.SelfLoopsIdentity | ImageSegmentation/ImageOperations.cs:461-466 | In the initial parent array every element is a root, so the count is n. |
| DisjointSets.SelfLoopsSameRoots | ImageSegmentation/ImageOperations.cs:477 | Parent arrays with the same roots have the same set count. |
| DisjointSets.SelfLoopsAttach | ImageSegmentation/ImageOperations.cs:497-509 | Re-pointing one root removes exactly one root from the count. |
| DisjointSets.MergedCounts | ImageSegmentation/ImageOperations.cs:498-511 | After two classes merge, the survivor's class size is the sum of the two and every other class keeps its size. |
| DisjointSets.SelfLoopsCountSet | ImageSegmentation/ImageOperations.cs:531-540 | The counting loop's result is the size of the set of roots. |
| DSConstruction.Min | ImageSegmentation/ImageOperations.cs:346-349 | The result is at most both arguments and equal to one of them. |
| DSConstruction.RejectKeepsForestInv | ImageSegmentation/ImageOperations.cs:344-355 | Skipping an edge keeps the forest invariant: every accepted edge lies inside one class, and that class's root records an internal difference at least its weight. |
| DSConstruction.AcceptKeepsForestInv | ImageSegmentation/ImageOperations.cs:350-354 | Merging along edge i and recording its weight at the survivor keeps the forest invariant, because the edges are sorted ascending. |
| DSConstruction.MergeIfClose | ImageSegmentation/ImageOperations.cs:346-354 | Merges two distinct roots exactly when the weight is at most min(Int(A) + k/\|A\|, Int(B) + k/\|B\|). It then records the weight at the survivor, one set fewer; otherwise nothing changes. |
| DSConstruction.ConsiderEdge | ImageSegmentation/ImageOperations.cs:341-355 | One loop iteration: merges exactly when the ends' roots differ and the weight passes the threshold, with the resulting partition, internal differences and set count. |
| DSConstruction.TraceExtends | ImageSegmentation/ImageOperations.cs:339-356 | A run of the merge loop followed by one more merge step is a run over one more edge. |
| DSConstruction.MergeEdgeAt | ImageSegmentation/ImageOperations.cs:341-355 | One loop iteration extends the run by the merge step on edge i (merge exactly when the roots differ and the weight passes the threshold), keeps the forest invariant, and removes one set exactly when it merges. |
| DSConstruction.MergeAlong | ImageSegmentation/ImageOperations.cs:339-356 | Over the sorted edges in order, every step follows the merge rule from the starting forest, the forest ends as the run's last map, the forest invariant covers every edge, and each accepted edge removes one set. |
| DSConstruction.ZeroDiffs | ImageSegmentation/ImageOperations.cs:335-337 | The internal differences start at 0 for every vertex. |
| DSConstruction.ConstructMST | ImageSegmentation/ImageOperations.cs:328-369 | The edge array is left sorted ascending and a permutation of the input. Starting from numVertices singletons with internal difference 0, each sorted edge merges its ends' classes exactly when their roots differ and its weight is at most min(Int(A) + k/\|A\|, Int(B) + k/\|B\|); the survivor then records the weight, and otherwise nothing changes. The returned forest is the end of that run, with numVertices minus (accepted edges) sets, and every accepted edge lies in one class whose internal difference is at least its weight. |
| DSConstruction.ClassesOnlyGrow | ImageSegmentation/ImageOperations.cs:339-356 | Two elements in one class at some step stay in one class for the rest of the run. |
| DSConstruction.DiffsStayNonNegative | ImageSegmentation/ImageOperations.cs:335-354 | With non-negative weights, every internal difference stays non-negative. |
| DSConstruction.ZeroWeightEdgesJoin | ImageSegmentation/ImageOperations.cs:339-356 | With k >= 0 and non-negative weights, the two ends of every weight-0 edge end in the same segment; so neighbouring pixels with equal channel values, in particular all of a uniform channel's neighbours, are joined. |
| ComponentKeys.DigitsInjective | ImageSegmentation/ImageOperations.cs:391 | Different naturals have different decimal texts. |
| ComponentKeys.IntToStringInjective | ImageSegmentation/ImageOperations.cs:391 | Different integers have different decimal texts; the text never contains '_'. |
| ComponentKeys.SplitAtUnderscore | ImageSegmentation/ImageOperations.cs:391 | Text joined at '_' from an underscore-free head splits back uniquely. |
| ComponentKeys.ComponentKeyInjective | ImageSegmentation/ImageOperations.cs:391 | Two keys "{r}_{g}_{b}" are equal exactly when the triples are equal (both directions). |
| Segmentation.KeyInjective | ImageSegmentation/ImageOperations.cs:391 | The key of a triple identifies it. |
| Segmentation.KeysMatchTriples | ImageSegmentation/ImageOperations.cs:387-391 | Two pixels' keys agree exactly when their triples do. |
| Segmentation.FirstPixelsExtend | ImageSegmentation/ImageOperations.cs:393-396 | Recording pixel j under a key that no earlier pixel had keeps every dictionary entry at the first pixel with its key. |
| Segmentation.FusionStart | ImageSegmentation/ImageOperations.cs:382-383 | A fresh forest and an empty dictionary satisfy the fusion invariant, with no triple seen. |
| Segmentation.FreshKeyKeepsFusion | ImageSegmentation/ImageOperations.cs:393-396 | Recording an unseen key under pixel j keeps the fusion invariant and adds one distinct triple. |
| Segmentation.RepeatedKeyKeepsFusion | ImageSegmentation/ImageOperations.cs:397-400 | Joining pixel j to the first pixel with its key, whichever root survives, keeps the fusion invariant; no new triple is seen. |
| Segmentation.MergeKeepsKeyRoots | ImageSegmentation/ImageOperations.cs:399 | That join keeps unvisited pixels singletons and keeps different keys in different classes. |
| Segmentation.FusionComplete | ImageSegmentation/ImageOperations.cs:385-401 | After all pixels, two pixels share a representative exactly when their triples are equal. |
| Segmentation.FindAmong | ImageSegmentation/ImageOperations.cs:387-389 | Find in one channel returns the pixel's representative there and leaves the other channels valid. |
| Segmentation.ReadKey | ImageSegmentation/ImageOperations.cs:387-391 | The key built from the three Finds is the key of the pixel's representative triple; the channel partitions are unchanged. |
| Segmentation.FusePixel | ImageSegmentation/ImageOperations.cs:393-400 | The dictionary branch (record or Union) advances the fusion state from j to j+1 pixels, including the set count. |
| Segmentation.FuseStep | ImageSegmentation/ImageOperations.cs:386-400 | One loop iteration advances the fusion state by one pixel and leaves the channel partitions as they were. |
| Segmentation.FuseAll | ImageSegmentation/ImageOperations.cs:385-401 | The loop ends with every pixel fused and the channel partitions unchanged. |
| Segmentation.CreateSegments | ImageSegmentation/ImageOperations.cs:380-403 | Returns a fresh valid forest over numVertices pixels. Two pixels share a segment exactly when their red, green and blue representatives all agree. GetNumSets() is the number of distinct triples. The channel forests keep their partitions. |
| Visualization.FirstSeen | ImageSegmentation/ImageOperations.cs:425-443 | The scan order holds exactly the values met, and no more of them than pixels. |
| Visualization.FirstSeenDistinct | ImageSegmentation/ImageOperations.cs:432-440 | A representative is added to the dictionary only on first encounter, so none is listed twice. |
| Visualization.FirstSeenGrows | ImageSegmentation/ImageOperations.cs:430-440 | Meeting one more pixel appends its representative exactly when it was not met before. |
| Visualization.DistinctCardinality | ImageSegmentation/ImageOperations.cs:423 | A repeat-free list has as many distinct values as entries. |
| Visualization.IndexOfAppend | ImageSegmentation/ImageOperations.cs:432-440 | Recording a new representative does not move those already recorded. |
| Visualization.ColourMapStep | ImageSegmentation/ImageOperations.cs:432-440 | Adding a fresh colour from the next three draws keeps the dictionary exactly "met representatives, each with its palette entry". |
| Visualization.FlatIdInGrid | ImageSegmentation/ImageOperations.cs:429 | A pixel's flat id y*width+x lies inside the grid. |
| Visualization.LookUpColour | ImageSegmentation/ImageOperations.cs:432-442 | Returns the recorded colour of a known representative. For a new one it records and returns draws 3m, 3m+1, 3m+2 (red, green, blue), where m is the number already met. |
| Visualization.ColourPixel | ImageSegmentation/ImageOperations.cs:429-442 | Find plus the dictionary step: the pixel's colour is its representative's recorded colour, and the scan state advances by one pixel. |
| Visualization.PaintPixel | ImageSegmentation/ImageOperations.cs:429-442 | Paints pixel (y, x) with its representative's colour, keeping every earlier pixel painted. |
| Visualization.PaintRow | ImageSegmentation/ImageOperations.cs:427-443 | The inner loop paints a whole row and advances the scan state by width pixels. |
| Visualization.PaintRows | ImageSegmentation/ImageOperations.cs:425-443 | The outer loop paints every pixel. The dictionary's keys are exactly the representatives met, in scan order. |
| Visualization.PaintedColours | ImageSegmentation/ImageOperations.cs:442 | Every painted pixel shows the palette entry of its representative's position in scan order. |
| Visualization.ScanMeetsEverySegment | ImageSegmentation/ImageOperations.cs:423 | A scan over all n elements meets exactly GetNumSets() representatives. |
| Visualization.VisualizeSegments | ImageSegmentation/ImageOperations.cs:415-446 | Returns a fresh height × width grid. Each pixel shows colour number i of the stream, where i is the position of its representative in first-encounter order. Pixels with equal representatives get equal colours, and three draws are used per segment met. When the grid covers the whole forest, that is 3 · GetNumSets() draws. |

## Left out

- Floating point: edge weights, `k`, `k / size` and the internal differences are `real`. IEEE single-precision rounding in `ConstructMST` is not modelled.
- Integer width: C# `int` arithmetic is modelled unbounded. Overflow of `y * width + x`, of size sums or of ranks is not modelled; it needs more than 2^31 pixels.
- `List<Edge>.Sort` with a comparison is an unstable introsort. It is modelled by `Edges.SortByWeight`, an insertion sort with the same contract: sorted ascending and a permutation. The order among equal weights, which the source leaves unspecified, is therefore the model's own. `Edges.Insert` and `Edges.Swap` are its helpers.
- `Edge` is a C# class with setters. It is modelled as a value, because no edge is mutated after it is built. The `List<Edge>` that the graph builder appends to is a `seq`. The list that `ConstructMST` sorts in place is an `array<Edge>`.
- DSConstruction.ConstructEightNeighbourGraph: the `ArgumentException` for a bad selector is a `Failure(InvalidColour(colour))` result.
- DisjointSets.DisjointSet.Find: requires its element in `0..n-1`. The source throws `IndexOutOfRangeException` otherwise; that exception is not modelled. The same holds for `Union` and `GetSize`.
- DSConstruction.ConstructMST: requires every edge end below `numVertices`. The source throws `IndexOutOfRangeException` otherwise.
- DSConstruction.ConstructMST: requires `numVertices >= 0`. For a negative count the source throws `OverflowException` from `new DisjointSet(numVertices)`; that exception is not modelled.
- DisjointSets.DisjointSet.constructor: requires `count >= 0`. For a negative size the source throws `OverflowException` from `new int[size]`; that exception is not modelled.
- Visualization.VisualizeSegments: requires `width >= 0` and `height >= 0`. For a negative dimension the source throws `OverflowException` from `new RGBPixel[height, width]`; that exception is not modelled.
- Segmentation.CreateSegments: requires each channel forest to have at least `numVertices` elements, and `numVertices >= 0`. For a smaller forest the source throws `IndexOutOfRangeException` from `Find`, and for a negative count `OverflowException` from `new DisjointSet(numVertices)`; neither exception is modelled.
- Visualization.VisualizeSegments: requires `height * width <= n`. The source throws `IndexOutOfRangeException` from `Find` otherwise.
- Segmentation.CreateSegments: requires the three channel forests to share no storage, and `channelSets.Length >= 3`. The source also accepts one forest passed for several channels; that aliasing is not modelled. `ConstructMST` creates a new `DisjointSet` on every call (ImageSegmentation/ImageOperations.cs:333), so forests from separate calls share no storage.
- Segmentation.CreateSegments: states that each channel forest keeps its partition (its representative map). It does not restate that the channels' `GetNumSets()` are unchanged, which follows from that.
- DSConstruction.ConstructMST: its ghost outputs `accepted`, `internalDiff`, `roots` and `diffs` exist only to state the result; the source returns just the forest. In the model, `internalDiff` is a local array that the loop updates in place, as in the source.
- The random generator `new Random(42)` is the parameter `draw: nat -> byte`, the stream of values that successive `rand.Next(256)` calls return. The seed's particular values are not modelled. Distinct segments are not claimed to get distinct colours, because the source does not guarantee it. `drawsUsed` reports how many values the rendering takes.
- Helper methods split off for proof size change nothing the source does:
  - `DisjointSets.DisjointSet.Link` is Union's rank cases;
  - `DSConstruction.AddPixelEdges` is ConstructEightNeighbourGraph's innermost loop;
  - `DSConstruction.ZeroDiffs`, `MergeIfClose`, `ConsiderEdge`, `MergeEdgeAt` and `MergeAlong` are ConstructMST's initialisation, loop body and loop;
  - `Segmentation.ReadKey`, `FusePixel`, `FuseStep` and `FuseAll` are CreateSegments' loop; `FindAmong`, `ReadBeside` and `FuseBeside` are no step of the source and exist only to state which forests stay unchanged;
  - `Visualization.LookUpColour`, `ColourPixel`, `PaintPixel`, `PaintRow` and `PaintRows` are VisualizeSegments' loops.
- The commented-out pass joining small components (ImageSegmentation/ImageOperations.cs:357-366) is dead code and not modelled.
- `ImageOperations.OpenImage`, `DisplayImage`, `GetHeight` and `GetWidth` are not modelled: bitmap I/O and WinForms display. `GaussianFilter1D` is not modelled either: double-precision convolution. `RGBPixelD` and `ImageSegmentation/MainForm.cs` (user interface) are not part of this model.
- Behaviour of the source that the model keeps as written:
  - Grid edges run from a pixel to a neighbour with a smaller flat id (`To < From`), via the four backward offsets.
  - `Union` takes no weight and does not compute the maximum internal difference. `ConstructMST` stores the accepted edge's weight at the survivor. That weight is the maximum anyway, because edges are processed in ascending order; `ForestInv` proves that this weight is at least every earlier accepted edge's.
  - Fusion groups pixels by their representative triple alone, with no flood fill over neighbours and no label grid.
  - There is no k-nearest-neighbour graph, region-size report or interactive merge in the source, and none is modelled.
- Monotonicity of the segmentation in `k` is not stated. The source makes no such claim, and the greedy threshold rule does not guarantee it.
