/**
 * Rendering a segment forest as an image: every segment gets a colour made
 * of three draws from a seeded random stream, in the order in which the
 * row-major scan first meets the segment.
 */
module Visualization {
  import opened Pixels
  import opened DisjointSets
  import opened NeighbourGraph

  /** The distinct values of s, in the order of their first occurrence. */
  function FirstSeen(s: seq<int>): (order: seq<int>)
    ensures forall v :: v in order <==> v in s
    ensures |order| <= |s|
  {
    if |s| == 0 then []
    else
      var before := FirstSeen(s[..|s| - 1]);
      if s[|s| - 1] in before then before else before + [s[|s| - 1]]
  }

  /** No value occurs twice in s. */
  ghost predicate Distinct(s: seq<int>)
  {
    forall i, j :: 0 <= i < j < |s| ==> s[i] != s[j]
  }

  /** The first-occurrence order lists every value once. */
  lemma {:induction false} FirstSeenDistinct(s: seq<int>)
    ensures Distinct(FirstSeen(s))
  {
    if |s| > 0 {
      FirstSeenDistinct(s[..|s| - 1]);
    }
  }

  /** Extending s extends its first-occurrence order. */
  lemma FirstSeenGrows(s: seq<int>, v: int)
    ensures FirstSeen(s + [v]) == if v in s then FirstSeen(s) else FirstSeen(s) + [v]
  {
    assert (s + [v])[..|s|] == s;
  }

  /** A sequence without repeats has as many distinct values as elements. */
  lemma {:induction false} DistinctCardinality(s: seq<int>)
    requires Distinct(s)
    ensures |set v | v in s| == |s|
  {
    if |s| > 0 {
      var init := s[..|s| - 1];
      DistinctCardinality(init);
      assert (set v | v in s) == (set v | v in init) + {s[|s| - 1]};
      assert s[|s| - 1] !in init;
    }
  }

  /** The position of v in s; with no repeats this is the only one. */
  function IndexOf(s: seq<int>, v: int): (i: int)
    requires v in s
    ensures 0 <= i < |s| && s[i] == v
    ensures forall k :: 0 <= k < i ==> s[k] != v
  {
    if s[0] == v then 0 else 1 + IndexOf(s[1..], v)
  }

  /** Appending a value does not move the values already present. */
  lemma IndexOfAppend(s: seq<int>, w: int, v: int)
    requires v in s
    ensures IndexOf(s + [w], v) == IndexOf(s, v)
  {
    var i, i' := IndexOf(s, v), IndexOf(s + [w], v);
    assert (s + [w])[i] == v;
  }

  /** The colour made of draws 3k, 3k + 1 and 3k + 2: red, then green, then blue. */
  function Palette(draw: nat -> byte, k: nat): RGBPixel
  {
    RGBPixel(draw(3 * k), draw(3 * k + 1), draw(3 * k + 2))
  }

  /** The colour given to representative v when the scan has met the representatives in order. */
  function SegmentColour(draw: nat -> byte, order: seq<int>, v: int): RGBPixel
    requires v in order
  {
    Palette(draw, IndexOf(order, v))
  }

  /**
   * The colour dictionary after the scan has met the representatives in
   * order: exactly those keys, each with its own palette entry.
   */
  ghost predicate ColourMapFor(colorMap: map<int, RGBPixel>, order: seq<int>, draw: nat -> byte)
  {
    (forall v :: v in colorMap <==> v in order) &&
    (forall v :: v in colorMap ==> v in order && colorMap[v] == SegmentColour(draw, order, v))
  }

  /** Meeting representative v either reuses its colour or records a fresh one from the next three draws. */
  lemma ColourMapStep(colorMap: map<int, RGBPixel>, order: seq<int>, draw: nat -> byte, v: int)
    requires ColourMapFor(colorMap, order, draw) && v !in order
    ensures ColourMapFor(colorMap[v := Palette(draw, |order|)], order + [v], draw)
  {
    var order' := order + [v];
    forall u | u in colorMap
      ensures SegmentColour(draw, order', u) == colorMap[u]
    {
      IndexOfAppend(order, v, u);
    }
    assert IndexOf(order', v) == |order|;
  }

  /** The flat id of an in-grid pixel lies in the grid, and a row's ids stay within the grid. */
  lemma FlatIdInGrid(y: int, x: int, height: int, width: int)
    requires 0 <= y < height && 0 <= x < width
    ensures 0 <= FlatId(y, x, width) < height * width
    ensures y * width + width <= height * width
  {
    FlatIdBelowRow(y, x, height, width);
    FlatIdBelowRow(y, width - 1, height, width);
    if y > 0 {
      MulAtLeast(y, width);
    }
  }

  /** The flat id y * width + x of pixel (y, x) of a height-by-width grid. */
  ghost function PixelIndex(y: int, x: int, height: int, width: int): (p: int)
    requires 0 <= y < height && 0 <= x < width
    ensures 0 <= p < height * width && p == y * width + x
  {
    FlatIdInGrid(y, x, height, width);
    FlatId(y, x, width)
  }

  /** The flat id y * width of the first pixel of row y; row height is the end of the grid. */
  ghost function RowStart(y: int, height: int, width: int): (p: int)
    requires 0 <= y <= height && 0 <= width
    ensures 0 <= p <= height * width && p == y * width
  {
    if y < height && width > 0 then
      FlatIdInGrid(y, 0, height, width);
      FlatId(y, 0, width)
    else
      FlatId(y, 0, width)
  }

  /** Row y + 1 starts width ids after row y. */
  lemma RowStartNext(y: int, height: int, width: int)
    requires 0 <= y < height && 0 <= width
    ensures RowStart(y + 1, height, width) == RowStart(y, height, width) + width
  {
  }

  /** Pixel (y, x) sits x ids after the start of its row. */
  lemma PixelIndexInRow(y: int, x: int, height: int, width: int)
    requires 0 <= y < height && 0 <= x < width
    ensures PixelIndex(y, x, height, width) == RowStart(y, height, width) + x
  {
  }

  /**
   * The scan state after the first upto pixels: the representatives met so
   * far, the dictionary recording their colours, and the draws taken.
   */
  ghost predicate Scanned(roots: seq<int>, upto: int, order: seq<int>, colorMap: map<int, RGBPixel>,
                          drawsUsed: nat, draw: nat -> byte)
  {
    0 <= upto <= |roots| && order == FirstSeen(roots[..upto]) &&
    ColourMapFor(colorMap, order, draw) && drawsUsed == 3 * |order|
  }

  /** m' keeps every entry of m. */
  ghost predicate Extends(m: map<int, RGBPixel>, m': map<int, RGBPixel>)
  {
    forall v :: v in m ==> v in m' && m'[v] == m[v]
  }

  /**
   * The colour of representative segmentId met by the scan after the
   * representatives in order: the recorded colour, or a fresh one made of
   * the next three draws, which the dictionary then records.
   */
  method LookUpColour(colorMap: map<int, RGBPixel>, drawsUsed: nat, draw: nat -> byte,
                      segmentId: int, ghost order: seq<int>)
    returns (colour: RGBPixel, colorMap': map<int, RGBPixel>, drawsUsed': nat, ghost order': seq<int>)
    requires ColourMapFor(colorMap, order, draw) && drawsUsed == 3 * |order|
    ensures order' == if segmentId in order then order else order + [segmentId]
    ensures ColourMapFor(colorMap', order', draw) && drawsUsed' == 3 * |order'|
    ensures Extends(colorMap, colorMap') && segmentId in colorMap' && colour == colorMap'[segmentId]
  {
    if segmentId !in colorMap {
      var red, green, blue := draw(drawsUsed), draw(drawsUsed + 1), draw(drawsUsed + 2);
      ghost var k := |order|;
      assert red == draw(3 * k) && green == draw(3 * k + 1) && blue == draw(3 * k + 2);
      ColourMapStep(colorMap, order, draw, segmentId);
      colorMap', drawsUsed', order' := colorMap[segmentId := RGBPixel(red, green, blue)], drawsUsed + 3, order + [segmentId];
    } else {
      colorMap', drawsUsed', order' := colorMap, drawsUsed, order;
    }
    colour := colorMap'[segmentId];
  }

  /**
   * The colour of the pixel with flat id pixelIndex, the next one of the
   * scan: the colour of its segment's representative.
   */
  method ColourPixel(segmentSet: DisjointSet, colorMap: map<int, RGBPixel>, drawsUsed: nat,
                     draw: nat -> byte, pixelIndex: int, ghost roots: seq<int>, ghost order: seq<int>)
    returns (colour: RGBPixel, colorMap': map<int, RGBPixel>, drawsUsed': nat, ghost order': seq<int>)
    requires segmentSet.Valid() && segmentSet.root == roots && 0 <= pixelIndex < segmentSet.n
    requires order == FirstSeen(roots[..pixelIndex]) && ColourMapFor(colorMap, order, draw)
    requires drawsUsed == 3 * |order|
    modifies segmentSet.parent
    ensures segmentSet.Valid() && segmentSet.root == roots
    ensures order' == FirstSeen(roots[..pixelIndex + 1]) && ColourMapFor(colorMap', order', draw)
    ensures drawsUsed' == 3 * |order'| && Extends(colorMap, colorMap')
    ensures roots[pixelIndex] in colorMap' && colour == colorMap'[roots[pixelIndex]]
  {
    var segmentId := segmentSet.Find(pixelIndex);
    assert roots[..pixelIndex + 1] == roots[..pixelIndex] + [segmentId];
    FirstSeenGrows(roots[..pixelIndex], segmentId);
    colour, colorMap', drawsUsed', order' := LookUpColour(colorMap, drawsUsed, draw, segmentId, order);
  }

  /** Pixel (yy, xx) of result shows the recorded colour of its representative. */
  ghost predicate Cell(result: array2<RGBPixel>, roots: seq<int>, colorMap: map<int, RGBPixel>, yy: int, xx: int)
    requires 0 <= yy < result.Length0 && 0 <= xx < result.Length1
    requires result.Length0 * result.Length1 <= |roots|
    reads result
  {
    var v := roots[PixelIndex(yy, xx, result.Length0, result.Length1)];
    v in colorMap && result[yy, xx] == colorMap[v]
  }

  /** The row-major scan has painted every pixel before (y, x). */
  ghost predicate Painted(result: array2<RGBPixel>, roots: seq<int>, colorMap: map<int, RGBPixel>, y: int, x: int)
    reads result
  {
    result.Length0 * result.Length1 <= |roots| &&
    0 <= y <= result.Length0 && 0 <= x <= result.Length1 && (y == result.Length0 ==> x == 0) &&
    forall yy, xx :: 0 <= yy < result.Length0 && 0 <= xx < result.Length1 && (yy < y || (yy == y && xx < x)) ==>
      Cell(result, roots, colorMap, yy, xx)
  }

  /** A finished row is the same as the start of the next one. */
  lemma RowDone(result: array2<RGBPixel>, roots: seq<int>, colorMap: map<int, RGBPixel>, y: int)
    requires 0 <= y < result.Length0 && Painted(result, roots, colorMap, y, result.Length1)
    ensures Painted(result, roots, colorMap, y + 1, 0)
  {
  }

  /** Once the whole grid is painted, every pixel shows its representative's palette colour. */
  lemma PaintedColours(result: array2<RGBPixel>, roots: seq<int>, colorMap: map<int, RGBPixel>,
                       order: seq<int>, draw: nat -> byte)
    requires Painted(result, roots, colorMap, result.Length0, 0) && ColourMapFor(colorMap, order, draw)
    ensures forall y, x :: 0 <= y < result.Length0 && 0 <= x < result.Length1 ==>
      roots[PixelIndex(y, x, result.Length0, result.Length1)] in order &&
      result[y, x] == SegmentColour(draw, order, roots[PixelIndex(y, x, result.Length0, result.Length1)])
  {
    forall y, x | 0 <= y < result.Length0 && 0 <= x < result.Length1
      ensures roots[PixelIndex(y, x, result.Length0, result.Length1)] in order
      ensures result[y, x] == SegmentColour(draw, order, roots[PixelIndex(y, x, result.Length0, result.Length1)])
    {
      assert Cell(result, roots, colorMap, y, x);
    }
  }

  /**
   * The state of the scan at pixel (y, x): the forest is valid with the
   * representatives roots, every earlier pixel is painted, and the scan
   * state covers every earlier pixel.
   */
  ghost predicate AtPixel(segmentSet: DisjointSet, result: array2<RGBPixel>, roots: seq<int>, y: int, x: int,
                          order: seq<int>, colorMap: map<int, RGBPixel>, drawsUsed: nat, draw: nat -> byte)
    reads segmentSet, segmentSet.parent, segmentSet.rank, segmentSet.size, result
  {
    segmentSet.Valid() && segmentSet.root == roots && 0 <= y < result.Length0 &&
    Painted(result, roots, colorMap, y, x) &&
    Scanned(roots, RowStart(y, result.Length0, result.Length1) + x, order, colorMap, drawsUsed, draw)
  }

  /**
   * Paints pixel (y, x), the next one of the scan, with the colour of its
   * segment's representative.
   */
  method PaintPixel(segmentSet: DisjointSet, result: array2<RGBPixel>, y: int, x: int, colorMap: map<int, RGBPixel>,
                    drawsUsed: nat, draw: nat -> byte, ghost roots: seq<int>, ghost order: seq<int>)
    returns (colorMap': map<int, RGBPixel>, drawsUsed': nat, ghost order': seq<int>)
    requires AtPixel(segmentSet, result, roots, y, x, order, colorMap, drawsUsed, draw) && x < result.Length1
    modifies segmentSet.parent, result
    ensures AtPixel(segmentSet, result, roots, y, x + 1, order', colorMap', drawsUsed', draw)
  {
    var pixelIndex := y * result.Length1 + x;
    PixelIndexInRow(y, x, result.Length0, result.Length1);
    ghost var p := PixelIndex(y, x, result.Length0, result.Length1);
    assert pixelIndex == p;
    var colour;
    colour, colorMap', drawsUsed', order' :=
      ColourPixel(segmentSet, colorMap, drawsUsed, draw, pixelIndex, roots, order);
    result[y, x] := colour;
    forall yy, xx | 0 <= yy < result.Length0 && 0 <= xx < result.Length1 && (yy < y || (yy == y && xx < x + 1))
      ensures Cell(result, roots, colorMap', yy, xx)
    {
      if yy != y || xx != x {
        assert old(Cell(result, roots, colorMap, yy, xx));
      }
    }
  }

  /** Paints row y of result, continuing the scan where the rows above left it. */
  method PaintRow(segmentSet: DisjointSet, result: array2<RGBPixel>, y: int, colorMap: map<int, RGBPixel>,
                  drawsUsed: nat, draw: nat -> byte, ghost roots: seq<int>, ghost order: seq<int>)
    returns (colorMap': map<int, RGBPixel>, drawsUsed': nat, ghost order': seq<int>)
    requires AtPixel(segmentSet, result, roots, y, 0, order, colorMap, drawsUsed, draw)
    modifies segmentSet.parent, result
    ensures segmentSet.Valid() && segmentSet.root == roots && Painted(result, roots, colorMap', y + 1, 0)
    ensures Scanned(roots, RowStart(y + 1, result.Length0, result.Length1), order', colorMap', drawsUsed', draw)
  {
    colorMap', drawsUsed', order' := colorMap, drawsUsed, order;
    for x := 0 to result.Length1
      invariant AtPixel(segmentSet, result, roots, y, x, order', colorMap', drawsUsed', draw)
    {
      colorMap', drawsUsed', order' := PaintPixel(segmentSet, result, y, x, colorMap', drawsUsed', draw, roots, order');
    }
    RowStartNext(y, result.Length0, result.Length1);
    RowDone(result, roots, colorMap', y);
  }

  /** Paints the rows of result top to bottom, starting from an empty colour dictionary. */
  method PaintRows(segmentSet: DisjointSet, result: array2<RGBPixel>, draw: nat -> byte, ghost roots: seq<int>)
    returns (colorMap: map<int, RGBPixel>, drawsUsed: nat, ghost order: seq<int>)
    requires segmentSet.Valid() && segmentSet.root == roots && result.Length0 * result.Length1 <= segmentSet.n
    modifies segmentSet.parent, result
    ensures segmentSet.Valid() && segmentSet.root == roots && Painted(result, roots, colorMap, result.Length0, 0)
    ensures Scanned(roots, RowStart(result.Length0, result.Length0, result.Length1), order, colorMap, drawsUsed, draw)
  {
    colorMap, drawsUsed, order := map[], 0, [];
    for y := 0 to result.Length0
      invariant segmentSet.Valid() && segmentSet.root == roots && Painted(result, roots, colorMap, y, 0)
      invariant Scanned(roots, RowStart(y, result.Length0, result.Length1), order, colorMap, drawsUsed, draw)
    {
      colorMap, drawsUsed, order := PaintRow(segmentSet, result, y, colorMap, drawsUsed, draw, roots, order);
    }
  }

  /**
   * A scan of the whole forest meets every segment exactly once, so it
   * takes one palette entry per segment: GetNumSets() of them.
   */
  lemma ScanMeetsEverySegment(segmentSet: DisjointSet)
    requires segmentSet.Valid()
    ensures |FirstSeen(segmentSet.root[..segmentSet.n])| == segmentSet.NumSets()
  {
    var order := FirstSeen(segmentSet.root[..segmentSet.n]);
    FirstSeenDistinct(segmentSet.root[..segmentSet.n]);
    DistinctCardinality(order);
    assert (set v | v in order) == (set i | 0 <= i < segmentSet.n :: segmentSet.root[i]) by {
      forall v ensures v in order <==> exists i :: 0 <= i < segmentSet.n && segmentSet.root[i] == v {
        if v in order {
          var i :| 0 <= i < segmentSet.n && segmentSet.root[..segmentSet.n][i] == v;
        }
        if exists i :: 0 <= i < segmentSet.n && segmentSet.root[i] == v {
          var i :| 0 <= i < segmentSet.n && segmentSet.root[i] == v;
          assert segmentSet.root[..segmentSet.n][i] == v;
        }
      }
    }
    segmentSet.RepresentativesCount();
  }

  /**
   * Paints every pixel with its segment's colour. Colours come from the
   * random stream draw, three values per segment, in the order in which
   * the row-major scan first meets the segment; drawsUsed is how many
   * values the scan takes from the stream.
   */
  method VisualizeSegments(segmentSet: DisjointSet, width: int, height: int, draw: nat -> byte)
    returns (result: array2<RGBPixel>, drawsUsed: nat)
    requires segmentSet.Valid() && width >= 0 && height >= 0 && height * width <= segmentSet.n
    modifies segmentSet.parent
    ensures fresh(result) && result.Length0 == height && result.Length1 == width
    ensures segmentSet.Valid() && segmentSet.root == old(segmentSet.root)
    ensures height * width == segmentSet.n ==> drawsUsed == 3 * segmentSet.NumSets()
    ensures var order := FirstSeen(segmentSet.root[..height * width]);
      drawsUsed == 3 * |order| &&
      forall y, x :: 0 <= y < height && 0 <= x < width ==>
        segmentSet.root[PixelIndex(y, x, height, width)] in order &&
        result[y, x] == SegmentColour(draw, order, segmentSet.root[PixelIndex(y, x, height, width)])
  {
    result := new RGBPixel[height, width];
    var numSegments := segmentSet.GetNumSets();
    ghost var roots := segmentSet.root;
    var colorMap;
    ghost var order;
    colorMap, drawsUsed, order := PaintRows(segmentSet, result, draw, roots);
    assert RowStart(height, height, width) == height * width;
    PaintedColours(result, roots, colorMap, order, draw);
    if height * width == segmentSet.n {
      ScanMeetsEverySegment(segmentSet);
    }
  }
}
