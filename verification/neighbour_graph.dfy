/**
 * The eight-neighbour graph of one colour channel of an image, stated as
 * functions of the image: the edges the graph construction emits, in the
 * order it emits them, and what is proved about them (shape, no pair twice,
 * how many).
 */
module NeighbourGraph {
  import opened Pixels
  import opened Edges

  /**
   * The four backward offsets (dy, dx) visited for each pixel: up-left, up,
   * up-right and left. Each unordered pair of 8-neighbours is reached from
   * exactly one of its two pixels.
   */
  const Offsets: seq<(int, int)> := [(-1, -1), (-1, 0), (-1, 1), (0, -1)]

  /** The flat id of pixel (y, x) in a grid of width w. */
  function FlatId(y: int, x: int, w: int): int
  {
    y * w + x
  }

  /** The edges emitted for pixel (y, x) from the first d offsets, in order. */
  ghost function PixelEdges(img: array2<RGBPixel>, c: Colour, y: int, x: int, d: int): seq<Edge>
    reads img
    requires 0 <= y < img.Length0 && 0 <= x < img.Length1 && 0 <= d <= |Offsets|
  {
    if d == 0 then []
    else
      var ny, nx := y + Offsets[d - 1].0, x + Offsets[d - 1].1;
      PixelEdges(img, c, y, x, d - 1) +
      if ny < 0 || ny >= img.Length0 || nx < 0 || nx >= img.Length1 then []
      else [Edge(FlatId(y, x, img.Length1), FlatId(ny, nx, img.Length1),
                 AbsDiff(ChannelOf(img[y, x], c), ChannelOf(img[ny, nx], c)))]
  }

  /** The edges emitted for the first x pixels of row y. */
  ghost function RowEdges(img: array2<RGBPixel>, c: Colour, y: int, x: int): seq<Edge>
    reads img
    requires 0 <= y < img.Length0 && 0 <= x <= img.Length1
  {
    if x == 0 then [] else RowEdges(img, c, y, x - 1) + PixelEdges(img, c, y, x - 1, |Offsets|)
  }

  /** The edges emitted for the first y rows: for y == height, the whole graph. */
  ghost function GridEdges(img: array2<RGBPixel>, c: Colour, y: int): seq<Edge>
    reads img
    requires 0 <= y <= img.Length0
  {
    if y == 0 then [] else GridEdges(img, c, y - 1) + RowEdges(img, c, y - 1, img.Length1)
  }

  /**
   * e joins an in-bounds pixel to its in-bounds neighbour at one of the four
   * backward offsets, both given by flat ids, and weighs the absolute
   * difference of their channel values.
   */
  ghost predicate BackwardNeighbourEdge(img: array2<RGBPixel>, c: Colour, e: Edge)
    reads img
  {
    var h, w := img.Length0, img.Length1;
    0 <= e.to < e.from < h * w &&
    var fy, fx, ty, tx := e.from / w, e.from % w, e.to / w, e.to % w;
    0 <= ty <= fy < h && IsBackwardOffset(ty - fy, tx - fx) &&
    e.weight == AbsDiff(ChannelOf(img[fy, fx], c), ChannelOf(img[ty, tx], c))
  }

  /** No unordered pair of pixels is joined by two edges of s. */
  ghost predicate DistinctPairs(s: seq<Edge>)
  {
    forall i, j :: 0 <= i < j < |s| ==>
      !(s[i].from == s[j].from && s[i].to == s[j].to) &&
      !(s[i].from == s[j].to && s[i].to == s[j].from)
  }

  /** (dy, dx) is one of the four backward offsets: the row above, or the pixel to the left. */
  predicate IsBackwardOffset(dy: int, dx: int)
  {
    (dy == -1 && -1 <= dx <= 1) || (dy == 0 && dx == -1)
  }

  /** The backward offsets are exactly the entries of Offsets. */
  lemma BackwardOffsetsAreOffsets(dy: int, dx: int)
    ensures IsBackwardOffset(dy, dx) <==> (dy, dx) in Offsets
  {
    if IsBackwardOffset(dy, dx) {
      assert (dy, dx) == Offsets[if dy == 0 then 3 else dx + 1];
    }
  }

  /** The position of backward offset (dy, dx) in Offsets. */
  function OffsetIndex(dy: int, dx: int): int
  {
    if dy == -1 then dx + 1 else 3
  }

  /** The number of edges the first x pixels of row y emit, in a grid of width w. */
  function RowCount(y: int, x: int, w: int): int
  {
    if x == 0 then 0
    else if y == 0 then x - 1
    else (x - 1) + x + (if x == w then w - 1 else x) + (x - 1)
  }

  /** A positive multiple of w is at least w. */
  lemma MulAtLeast(a: int, w: int)
    requires a >= 1 && w >= 0
    ensures a * w >= w
  {
    var k := a - 1;
    assert a * w == k * w + w;
    assert k * w >= 0;
  }

  /** A flat id decodes back into its row and column. */
  lemma FlatIdDecodes(y: int, x: int, w: int)
    requires 0 <= x < w
    ensures FlatId(y, x, w) / w == y && FlatId(y, x, w) % w == x
  {
    var n := FlatId(y, x, w);
    var q, r := n / w, n % w;
    assert q * w + r == y * w + x;
    if q > y {
      assert (q - y) * w == q * w - y * w;
      MulAtLeast(q - y, w);
    } else if q < y {
      assert (y - q) * w == y * w - q * w;
      MulAtLeast(y - q, w);
    }
  }

  /** The flat ids of a row all lie below the start of any later row. */
  lemma FlatIdBelowRow(y: int, x: int, y': int, w: int)
    requires 0 <= x < w && y < y'
    ensures FlatId(y, x, w) < y' * w
  {
    MulAtLeast(y' - y, w);
    assert (y' - y) * w == y' * w - y * w;
  }

  /** The edge from pixel (y, x) to its in-bounds neighbour at offset k is a backward-neighbour edge. */
  lemma NeighbourEdgeShape(img: array2<RGBPixel>, c: Colour, y: int, x: int, k: int)
    requires 0 <= y < img.Length0 && 0 <= x < img.Length1 && 0 <= k < |Offsets|
    requires 0 <= y + Offsets[k].0 && 0 <= x + Offsets[k].1 < img.Length1
    ensures var w, ny, nx := img.Length1, y + Offsets[k].0, x + Offsets[k].1;
      var e := Edge(FlatId(y, x, w), FlatId(ny, nx, w), AbsDiff(ChannelOf(img[y, x], c), ChannelOf(img[ny, nx], c)));
      BackwardNeighbourEdge(img, c, e) && e.to / w == ny && e.to % w == nx
  {
    var w, ny, nx := img.Length1, y + Offsets[k].0, x + Offsets[k].1;
    FlatIdDecodes(y, x, w);
    FlatIdDecodes(ny, nx, w);
    FlatIdBelowRow(y, x, img.Length0, w);
    if ny < y {
      FlatIdBelowRow(ny, nx, y, w);
    }
  }

  /** Every edge of pixel (y, x) leaves (y, x) and is a backward-neighbour edge. */
  lemma {:induction false} PixelEdgesShape(img: array2<RGBPixel>, c: Colour, y: int, x: int, d: int)
    requires 0 <= y < img.Length0 && 0 <= x < img.Length1 && 0 <= d <= |Offsets|
    ensures forall e :: e in PixelEdges(img, c, y, x, d) ==>
      e.from == FlatId(y, x, img.Length1) && BackwardNeighbourEdge(img, c, e)
  {
    if d > 0 {
      PixelEdgesShape(img, c, y, x, d - 1);
      var ny, nx := y + Offsets[d - 1].0, x + Offsets[d - 1].1;
      if 0 <= ny < img.Length0 && 0 <= nx < img.Length1 {
        NeighbourEdgeShape(img, c, y, x, d - 1);
      }
    }
  }

  /** The edges of pixel (y, x) lead to pairwise different pixels. */
  lemma {:induction false} PixelEdgesDistinct(img: array2<RGBPixel>, c: Colour, y: int, x: int, d: int)
    requires 0 <= y < img.Length0 && 0 <= x < img.Length1 && 0 <= d <= |Offsets|
    ensures forall e :: e in PixelEdges(img, c, y, x, d) ==>
      OffsetIndex(e.to / img.Length1 - y, e.to % img.Length1 - x) < d
    ensures forall i, j :: 0 <= i < j < |PixelEdges(img, c, y, x, d)| ==>
      PixelEdges(img, c, y, x, d)[i].to != PixelEdges(img, c, y, x, d)[j].to
  {
    if d > 0 {
      PixelEdgesDistinct(img, c, y, x, d - 1);
      var w := img.Length1;
      var ny, nx := y + Offsets[d - 1].0, x + Offsets[d - 1].1;
      var prev := PixelEdges(img, c, y, x, d - 1);
      if 0 <= ny < img.Length0 && 0 <= nx < w {
        FlatIdDecodes(ny, nx, w);
        var e := Edge(FlatId(y, x, w), FlatId(ny, nx, w),
                      AbsDiff(ChannelOf(img[y, x], c), ChannelOf(img[ny, nx], c)));
        assert PixelEdges(img, c, y, x, d) == prev + [e];
        assert OffsetIndex(e.to / w - y, e.to % w - x) == d - 1;
        forall i | 0 <= i < |prev|
          ensures prev[i].to != e.to
        {
          assert prev[i] in prev;
        }
      }
    }
  }

  /** Every edge of the first x pixels of row y leaves one of those pixels and is a backward-neighbour edge. */
  lemma {:induction false} RowEdgesShape(img: array2<RGBPixel>, c: Colour, y: int, x: int)
    requires 0 <= y < img.Length0 && 0 <= x <= img.Length1
    ensures forall e :: e in RowEdges(img, c, y, x) ==>
      FlatId(y, 0, img.Length1) <= e.from < FlatId(y, x, img.Length1) && BackwardNeighbourEdge(img, c, e)
    ensures DistinctPairs(RowEdges(img, c, y, x))
  {
    if x > 0 {
      RowEdgesShape(img, c, y, x - 1);
      PixelEdgesShape(img, c, y, x - 1, |Offsets|);
      PixelEdgesDistinct(img, c, y, x - 1, |Offsets|);
      AppendDistinct(RowEdges(img, c, y, x - 1), PixelEdges(img, c, y, x - 1, |Offsets|),
                     FlatId(y, x - 1, img.Length1));
    }
  }

  /** Every edge of the first y rows leaves a pixel of those rows and is a backward-neighbour edge. */
  lemma {:induction false} GridEdgesShape(img: array2<RGBPixel>, c: Colour, y: int)
    requires 0 <= y <= img.Length0
    ensures forall e :: e in GridEdges(img, c, y) ==> e.from < y * img.Length1 && BackwardNeighbourEdge(img, c, e)
    ensures DistinctPairs(GridEdges(img, c, y))
  {
    if y > 0 {
      GridEdgesShape(img, c, y - 1);
      RowEdgesShape(img, c, y - 1, img.Length1);
      assert (y - 1) * img.Length1 + img.Length1 == y * img.Length1;
      AppendDistinct(GridEdges(img, c, y - 1), RowEdges(img, c, y - 1, img.Length1), (y - 1) * img.Length1);
    }
  }

  /**
   * Appending edges that all leave from ids at or above b to edges that all
   * leave from ids below b keeps the pairs distinct, when every edge points
   * to a smaller id than it leaves from.
   */
  lemma AppendDistinct(s: seq<Edge>, t: seq<Edge>, b: int)
    requires DistinctPairs(s) && DistinctPairs(t)
    requires forall e :: e in s ==> e.to < e.from < b
    requires forall e :: e in t ==> e.to < e.from && b <= e.from
    ensures DistinctPairs(s + t)
  {
    var u := s + t;
    forall i, j | 0 <= i < j < |u|
      ensures !(u[i].from == u[j].from && u[i].to == u[j].to) &&
              !(u[i].from == u[j].to && u[i].to == u[j].from)
    {
      if j < |s| {
        assert u[i] == s[i] && u[j] == s[j];
      } else if i >= |s| {
        assert u[i] == t[i - |s|] && u[j] == t[j - |s|];
      } else {
        assert u[i] in s && u[j] in t;
      }
    }
  }

  /** The number of edges the first d offsets of pixel (y, x) contribute. */
  function OffsetCount(y: int, x: int, w: int, d: int): int
    requires 0 <= d <= |Offsets|
  {
    if d == 0 then 0
    else
      var ny, nx := y + Offsets[d - 1].0, x + Offsets[d - 1].1;
      OffsetCount(y, x, w, d - 1) + if ny < 0 || nx < 0 || nx >= w then 0 else 1
  }

  /** A pixel emits one edge per in-bounds backward neighbour. */
  lemma {:induction false} PixelEdgesCount(img: array2<RGBPixel>, c: Colour, y: int, x: int, d: int)
    requires 0 <= y < img.Length0 && 0 <= x < img.Length1 && 0 <= d <= |Offsets|
    ensures |PixelEdges(img, c, y, x, d)| == OffsetCount(y, x, img.Length1, d)
  {
    if d > 0 {
      PixelEdgesCount(img, c, y, x, d - 1);
    }
  }

  /** Up-left, up, up-right and left, each counted when it lies inside the image. */
  lemma OffsetCountAll(y: int, x: int, w: int)
    requires 0 <= y && 0 <= x < w
    ensures OffsetCount(y, x, w, |Offsets|) ==
      (if y > 0 && x > 0 then 1 else 0) + (if y > 0 then 1 else 0) +
      (if y > 0 && x + 1 < w then 1 else 0) + (if x > 0 then 1 else 0)
  {
    assert OffsetCount(y, x, w, 1) == if y > 0 && x > 0 then 1 else 0;
    assert OffsetCount(y, x, w, 2) == OffsetCount(y, x, w, 1) + if y > 0 then 1 else 0;
    assert OffsetCount(y, x, w, 3) == OffsetCount(y, x, w, 2) + if y > 0 && x + 1 < w then 1 else 0;
  }

  /** Row y emits RowCount(y, x, w) edges for its first x pixels. */
  lemma {:induction false} RowEdgesCount(img: array2<RGBPixel>, c: Colour, y: int, x: int)
    requires 0 <= y < img.Length0 && 0 <= x <= img.Length1
    ensures |RowEdges(img, c, y, x)| == RowCount(y, x, img.Length1)
  {
    if x > 0 {
      RowEdgesCount(img, c, y, x - 1);
      PixelEdgesCount(img, c, y, x - 1, |Offsets|);
      OffsetCountAll(y, x - 1, img.Length1);
    }
  }

  /** The first y rows of an image of width w emit (w - 1) + (y - 1) * (4w - 3) edges, when y, w >= 1. */
  lemma {:induction false} GridEdgesCount(img: array2<RGBPixel>, c: Colour, y: int)
    requires 0 <= y <= img.Length0
    ensures |GridEdges(img, c, y)| ==
      if y == 0 || img.Length1 == 0 then 0 else (img.Length1 - 1) + (y - 1) * (4 * img.Length1 - 3)
  {
    if y > 0 {
      GridEdgesCount(img, c, y - 1);
      RowEdgesCount(img, c, y - 1, img.Length1);
      var k := 4 * img.Length1 - 3;
      assert (y - 1) * k == (y - 2) * k + k;
    }
  }

  /** The closed form of the edge count. */
  lemma CountFormula(h: int, w: int)
    ensures (w - 1) + (h - 1) * (4 * w - 3) == 4 * h * w - 3 * h - 3 * w + 2
  {
    assert (h - 1) * (4 * w - 3) == h * (4 * w - 3) - (4 * w - 3);
    assert h * (4 * w - 3) == 4 * h * w - 3 * h;
  }

  /**
   * The whole graph: every edge joins a pixel to an in-bounds backward
   * 8-neighbour (so To < From), no unordered pair occurs twice, and an h x w
   * image with h, w >= 1 has 4hw - 3h - 3w + 2 edges, each weighing between
   * 0 and 255.
   */
  lemma GraphProperties(img: array2<RGBPixel>, c: Colour)
    ensures forall e :: e in GridEdges(img, c, img.Length0) ==>
      BackwardNeighbourEdge(img, c, e) && e.to < e.from && 0.0 <= e.weight <= 255.0
    ensures DistinctPairs(GridEdges(img, c, img.Length0))
    ensures var h, w := img.Length0, img.Length1;
      |GridEdges(img, c, h)| == if h == 0 || w == 0 then 0 else 4 * h * w - 3 * h - 3 * w + 2
  {
    GridEdgesShape(img, c, img.Length0);
    GridEdgesCount(img, c, img.Length0);
    CountFormula(img.Length0, img.Length1);
  }
}
