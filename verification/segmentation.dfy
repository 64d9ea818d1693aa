/**
 * The text key that identifies a pixel's three channel representatives, and
 * the proof that the key tells triples apart.
 */
module ComponentKeys {

  /** The decimal digit for d. */
  function DigitChar(d: int): (c: char)
    requires 0 <= d < 10
    ensures '0' <= c <= '9'
  {
    ('0' as int + d) as char
  }

  /** The decimal digits of v, most significant first, without leading zeros. */
  function Digits(v: nat): (s: string)
    ensures |s| >= 1
    ensures forall i :: 0 <= i < |s| ==> '0' <= s[i] <= '9'
  {
    if v < 10 then [DigitChar(v)] else Digits(v / 10) + [DigitChar(v % 10)]
  }

  /** The decimal text of an integer, with a leading '-' when it is negative. */
  function IntToString(v: int): (s: string)
    ensures |s| >= 1 && '_' !in s
    ensures s[0] == '-' <==> v < 0
  {
    if v < 0 then "-" + Digits(-v) else Digits(v)
  }

  /** The key "{r}_{g}_{b}" of a triple of representatives. */
  function ComponentKey(r: int, g: int, b: int): string
  {
    IntToString(r) + "_" + IntToString(g) + "_" + IntToString(b)
  }

  /** Different numbers have different digits. */
  lemma {:induction false} DigitsInjective(a: nat, b: nat)
    requires Digits(a) == Digits(b)
    ensures a == b
  {
    var da, db := Digits(a), Digits(b);
    assert |da| == 1 <==> a < 10;
    assert |db| == 1 <==> b < 10;
    if a < 10 && b < 10 {
      assert DigitChar(a) == da[0] == db[0] == DigitChar(b);
    } else if a >= 10 && b >= 10 {
      assert DigitChar(a % 10) == da[|da| - 1] == db[|db| - 1] == DigitChar(b % 10);
      assert Digits(a / 10) == da[..|da| - 1] == db[..|db| - 1] == Digits(b / 10);
      DigitsInjective(a / 10, b / 10);
      assert a == 10 * (a / 10) + a % 10 && b == 10 * (b / 10) + b % 10;
    }
  }

  /** Different integers have different decimal texts. */
  lemma IntToStringInjective(a: int, b: int)
    requires IntToString(a) == IntToString(b)
    ensures a == b
  {
    var sa, sb := IntToString(a), IntToString(b);
    if a < 0 && b < 0 {
      assert Digits(-a) == sa[1..] == sb[1..] == Digits(-b);
      DigitsInjective(-a, -b);
    } else if a >= 0 && b >= 0 {
      DigitsInjective(a, b);
    }
  }

  /** Text joined at an underscore splits back at the first underscore. */
  lemma SplitAtUnderscore(x: string, y: string, x': string, y': string)
    requires '_' !in x && '_' !in x'
    requires x + "_" + y == x' + "_" + y'
    ensures x == x' && y == y'
  {
    var u := x + "_" + y;
    assert forall i :: 0 <= i < |x| ==> u[i] == x[i];
    assert forall i :: 0 <= i < |x'| ==> u[i] == x'[i];
    assert u[|x|] == '_' && u[|x'|] == '_';
    assert |x| == |x'|;
    assert x == u[..|x|] == x';
    assert y == u[|x| + 1..] == y';
  }

  /** Two triples have the same key exactly when they are equal. */
  lemma ComponentKeyInjective(r: int, g: int, b: int, r': int, g': int, b': int)
    ensures ComponentKey(r, g, b) == ComponentKey(r', g', b') <==> r == r' && g == g' && b == b'
  {
    if ComponentKey(r, g, b) == ComponentKey(r', g', b') {
      var sr, sg, sb := IntToString(r), IntToString(g), IntToString(b);
      var sr', sg', sb' := IntToString(r'), IntToString(g'), IntToString(b');
      var tail, tail' := sg + "_" + sb, sg' + "_" + sb';
      assert ComponentKey(r, g, b) == sr + "_" + tail;
      assert ComponentKey(r', g', b') == sr' + "_" + tail';
      SplitAtUnderscore(sr, tail, sr', tail');
      SplitAtUnderscore(sg, sb, sg', sb');
      IntToStringInjective(r, r');
      IntToStringInjective(g, g');
      IntToStringInjective(b, b');
    }
  }
}

/**
 * Fusing the three per-channel forests: two pixels end up in one segment
 * exactly when they share a representative in every channel.
 */
module Segmentation {
  import opened ComponentKeys
  import opened DisjointSets

  /** The red, green and blue representatives of one pixel. */
  type Triple = (int, int, int)

  /** The dictionary key under which a triple is recorded. */
  function Key(t: Triple): string
  {
    ComponentKey(t.0, t.1, t.2)
  }

  /** Two triples share a key exactly when they are equal. */
  lemma KeyInjective(t: Triple, u: Triple)
    ensures Key(t) == Key(u) <==> t == u
  {
    ComponentKeyInjective(t.0, t.1, t.2, u.0, u.1, u.2);
  }

  /** The representative triples of the first count pixels, from the three representative maps. */
  function Triples(red: seq<int>, green: seq<int>, blue: seq<int>, count: nat): seq<Triple>
    requires count <= |red| && count <= |green| && count <= |blue|
  {
    seq(count, i requires 0 <= i < count => (red[i], green[i], blue[i]))
  }

  /** The distinct triples among the first j. */
  ghost function Seen(triples: seq<Triple>, j: int): set<Triple>
    requires 0 <= j <= |triples|
  {
    set i | 0 <= i < j :: triples[i]
  }

  /** Two forests share no storage: they are different objects over different arrays. */
  ghost predicate Separate(a: DisjointSet, b: DisjointSet)
  {
    a != b &&
    a.parent != b.parent && a.parent != b.rank && a.parent != b.size &&
    a.rank != b.parent && a.rank != b.rank && a.rank != b.size &&
    a.size != b.parent && a.size != b.rank && a.size != b.size
  }

  /** keys tell pixels apart exactly as their triples do. */
  ghost predicate KeysMatch(triples: seq<Triple>, keys: seq<string>)
  {
    |keys| == |triples| &&
    forall i, k :: 0 <= i < |keys| && 0 <= k < |keys| ==> (keys[i] == keys[k] <==> triples[i] == triples[k])
  }

  /** The keys of all pixels. */
  function Keys(triples: seq<Triple>): seq<string>
  {
    seq(|triples|, i requires 0 <= i < |triples| => Key(triples[i]))
  }

  /** The text keys separate pixels exactly as their representative triples do. */
  lemma KeysMatchTriples(triples: seq<Triple>)
    ensures KeysMatch(triples, Keys(triples))
  {
    var keys := Keys(triples);
    forall i, k | 0 <= i < |keys| && 0 <= k < |keys|
      ensures keys[i] == keys[k] <==> triples[i] == triples[k]
    {
      KeyInjective(triples[i], triples[k]);
    }
  }

  /**
   * The dictionary maps each key it holds to the first pixel, below j,
   * that has that key.
   */
  ghost predicate FirstPixels(keys: seq<string>, j: int, m: map<string, int>)
  {
    (forall key :: key in m ==> 0 <= m[key] < j && m[key] < |keys| && keys[m[key]] == key) &&
    (forall key, i :: key in m && 0 <= i < m[key] ==> keys[i] != key)
  }

  /** Recording pixel j under a key that no earlier pixel had keeps it the key's first pixel. */
  lemma FirstPixelsExtend(keys: seq<string>, j: int, m: map<string, int>)
    requires FirstPixels(keys, j, m) && 0 <= j < |keys| && keys[j] !in m
    requires forall i :: 0 <= i < j ==> keys[i] in m
    ensures FirstPixels(keys, j + 1, m[keys[j] := j])
  {
    var m' := m[keys[j] := j];
    forall key', i | key' in m' && 0 <= i < m'[key']
      ensures keys[i] != key'
    {
      if key' == keys[j] {
        assert keys[i] in m;
      }
    }
  }

  /**
   * After the first j pixels have been fused: pixels from j on are still
   * singletons; every earlier pixel's key is in the dictionary, under the
   * first pixel that had it, and shares that pixel's representative; and
   * different keys have different representatives.
   */
  ghost predicate FusionInv(keys: seq<string>, j: int, m: map<string, int>, root: seq<int>)
  {
    0 <= j <= |keys| && |root| == |keys| &&
    (forall i :: j <= i < |root| ==> root[i] == i) &&
    (forall i :: 0 <= i < j ==> 0 <= root[i] < j) &&
    FirstPixels(keys, j, m) &&
    (forall i :: 0 <= i < j ==> keys[i] in m && root[i] == root[m[keys[i]]]) &&
    (forall a, b :: a in m && b in m && a != b ==> root[m[a]] != root[m[b]])
  }

  /** Before any pixel is fused, the invariant holds of the singleton forest and the empty dictionary. */
  lemma FusionStart(keys: seq<string>, triples: seq<Triple>, root: seq<int>)
    requires |root| == |keys| == |triples| && forall i :: 0 <= i < |root| ==> root[i] == i
    ensures FusionInv(keys, 0, map[], root) && Seen(triples, 0) == {}
  {
  }

  /** Recording a key not seen before keeps the invariant and adds one triple. */
  lemma FreshKeyKeepsFusion(triples: seq<Triple>, keys: seq<string>, j: int, m: map<string, int>, root: seq<int>)
    requires KeysMatch(triples, keys) && FusionInv(keys, j, m, root) && j < |keys| && keys[j] !in m
    ensures FusionInv(keys, j + 1, m[keys[j] := j], root)
    ensures |Seen(triples, j + 1)| == |Seen(triples, j)| + 1
  {
    var key := keys[j];
    var m' := m[key := j];
    FirstPixelsExtend(keys, j, m);
    forall a, b | a in m' && b in m' && a != b
      ensures root[m'[a]] != root[m'[b]]
    {
      if a == key {
        assert root[m'[a]] == j && root[m'[b]] < j;
      } else if b == key {
        assert root[m'[b]] == j && root[m'[a]] < j;
      }
    }
    forall i | 0 <= i < j
      ensures triples[i] != triples[j]
    {
      assert keys[i] in m;
    }
    assert Seen(triples, j + 1) == Seen(triples, j) + {triples[j]};
  }

  /**
   * Joining pixel j to the first pixel with its key (survivor s being either
   * root) keeps the invariant; the triple was already seen.
   */
  lemma RepeatedKeyKeepsFusion(triples: seq<Triple>, keys: seq<string>, j: int, m: map<string, int>, root: seq<int>, s: int)
    requires KeysMatch(triples, keys) && FusionInv(keys, j, m, root) && j < |keys| && keys[j] in m
    requires s == j || s == root[m[keys[j]]]
    ensures FusionInv(keys, j + 1, m, MergedRoots(root, j, root[m[keys[j]]], s))
    ensures Seen(triples, j + 1) == Seen(triples, j)
  {
    var ry := root[m[keys[j]]];
    var root' := MergedRoots(root, j, ry, s);
    MergeKeepsKeyRoots(keys, j, m, root, s);
    forall i | 0 <= i < j + 1
      ensures keys[i] in m && root'[i] == root'[m[keys[i]]]
    {
      if i < j {
        assert root[i] == root[m[keys[i]]];
      }
    }
    var rep := m[keys[j]];
    assert triples[rep] == triples[j];
    assert Seen(triples, j + 1) == Seen(triples, j) + {triples[rep]};
  }

  /** The merge of pixel j into the class of its key's first pixel keeps different keys apart. */
  lemma MergeKeepsKeyRoots(keys: seq<string>, j: int, m: map<string, int>, root: seq<int>, s: int)
    requires FusionInv(keys, j, m, root) && j < |keys| && keys[j] in m
    requires s == j || s == root[m[keys[j]]]
    ensures var root' := MergedRoots(root, j, root[m[keys[j]]], s);
      (forall i :: j + 1 <= i < |root'| ==> root'[i] == i) &&
      (forall i :: 0 <= i < j + 1 ==> 0 <= root'[i] < j + 1) &&
      (forall a, b :: a in m && b in m && a != b ==> root'[m[a]] != root'[m[b]])
  {
    var key := keys[j];
    var ry := root[m[key]];
    var root' := MergedRoots(root, j, ry, s);
    forall a, b | a in m && b in m && a != b
      ensures root'[m[a]] != root'[m[b]]
    {
      if a != key && b != key {
        assert root[m[a]] != ry && root[m[b]] != ry;
      } else if a == key {
        assert root[m[b]] != ry;
      } else {
        assert root[m[a]] != ry;
      }
    }
  }

  /** Once every pixel is fused, representatives agree exactly when triples do. */
  lemma FusionComplete(triples: seq<Triple>, keys: seq<string>, m: map<string, int>, root: seq<int>)
    requires KeysMatch(triples, keys) && FusionInv(keys, |keys|, m, root)
    ensures forall i, k :: 0 <= i < |root| && 0 <= k < |root| ==> (root[i] == root[k] <==> triples[i] == triples[k])
  {
    forall i, k | 0 <= i < |root| && 0 <= k < |root|
      ensures root[i] == root[k] <==> triples[i] == triples[k]
    {
      assert root[i] == root[m[keys[i]]] && root[k] == root[m[keys[k]]];
    }
  }

  /** Three valid channel forests over at least count elements, sharing no storage. */
  ghost predicate Channels(red: DisjointSet, green: DisjointSet, blue: DisjointSet, count: int)
    reads red, red.parent, red.rank, red.size, green, green.parent, green.rank, green.size
    reads blue, blue.parent, blue.rank, blue.size
  {
    red.Valid() && green.Valid() && blue.Valid() &&
    Separate(red, green) && Separate(red, blue) && Separate(green, blue) &&
    0 <= count <= red.n && count <= green.n && count <= blue.n
  }

  /** The representative maps of the three channel forests: their partitions of the pixels. */
  ghost function Roots(red: DisjointSet, green: DisjointSet, blue: DisjointSet): (seq<int>, seq<int>, seq<int>)
    reads red, green, blue
  {
    (red.root, green.root, blue.root)
  }

  /**
   * The key of pixel j: its representative in each channel, which Find
   * returns while compressing that channel's paths.
   */
  method ReadKey(red: DisjointSet, green: DisjointSet, blue: DisjointSet, j: int, ghost count: int)
    returns (componentKey: string)
    requires Channels(red, green, blue, count) && 0 <= j < count
    modifies red.parent, green.parent, blue.parent
    ensures Channels(red, green, blue, count)
    ensures Roots(red, green, blue) == old(Roots(red, green, blue))
    ensures componentKey == ComponentKey(red.root[j], green.root[j], blue.root[j])
  {
    ghost var r, g, b := red.root[j], green.root[j], blue.root[j];
    var redComponent := FindAmong(red, green, blue, j);
    var greenComponent := FindAmong(green, red, blue, j);
    var blueComponent := FindAmong(blue, red, green, j);
    assert redComponent == r && greenComponent == g && blueComponent == b;
    assert red.root[j] == r && green.root[j] == g && blue.root[j] == b;
    componentKey := ComponentKey(redComponent, greenComponent, blueComponent);
  }

  /**
   * Find in channel d. This wrapper is no separate step of the source: it
   * exists only to state that the other channels a and b stay valid with
   * their sets as they were.
   */
  method FindAmong(d: DisjointSet, a: DisjointSet, b: DisjointSet, j: int) returns (r: int)
    requires d.Valid() && a.Valid() && b.Valid() && Separate(d, a) && Separate(d, b) && 0 <= j < d.n
    modifies d.parent
    ensures d.Valid() && a.Valid() && b.Valid() && r == d.root[j]
  {
    r := d.Find(j);
  }

  /**
   * The segment forest after the first j pixels have been fused: a valid
   * forest over all pixels satisfying FusionInv, with one set per distinct
   * triple seen so far plus one per pixel not yet visited.
   */
  ghost predicate Fused(segmentSet: DisjointSet, triples: seq<Triple>, keys: seq<string>, j: int, m: map<string, int>)
    reads segmentSet, segmentSet.parent, segmentSet.rank, segmentSet.size
  {
    segmentSet.Valid() && segmentSet.n == |keys| && KeysMatch(triples, keys) &&
    FusionInv(keys, j, m, segmentSet.root) &&
    segmentSet.NumSets() == |keys| - j + |Seen(triples, j)|
  }

  /**
   * Records pixel j's key if it is new, and otherwise joins pixel j to the
   * first pixel that had the key.
   */
  method FusePixel(segmentSet: DisjointSet, representativeMap: map<string, int>, j: int,
                   componentKey: string, ghost triples: seq<Triple>, ghost keys: seq<string>)
    returns (map': map<string, int>)
    requires Fused(segmentSet, triples, keys, j, representativeMap)
    requires j < |keys| && componentKey == keys[j]
    modifies segmentSet, segmentSet.parent, segmentSet.rank, segmentSet.size
    ensures Fused(segmentSet, triples, keys, j + 1, map')
  {
    if componentKey !in representativeMap {
      FreshKeyKeepsFusion(triples, keys, j, representativeMap, segmentSet.root);
      map' := representativeMap[componentKey := j];
    } else {
      ghost var root0 := segmentSet.root;
      assert root0[j] == j && root0[representativeMap[componentKey]] < j;
      var s := segmentSet.Union(j, representativeMap[componentKey]);
      RepeatedKeyKeepsFusion(triples, keys, j, representativeMap, root0, s);
      map' := representativeMap;
    }
  }

  /** The segment forest shares no storage with the channel forests. */
  ghost predicate Apart(segmentSet: DisjointSet, red: DisjointSet, green: DisjointSet, blue: DisjointSet)
  {
    Separate(segmentSet, red) && Separate(segmentSet, green) && Separate(segmentSet, blue)
  }

  /** One iteration of the fusion loop: read pixel j's key from the channels, then fuse pixel j. */
  method FuseStep(red: DisjointSet, green: DisjointSet, blue: DisjointSet, segmentSet: DisjointSet,
                  representativeMap: map<string, int>, j: int,
                  ghost triples: seq<Triple>, ghost keys: seq<string>)
    returns (map': map<string, int>)
    requires Channels(red, green, blue, |keys|) && Apart(segmentSet, red, green, blue)
    requires Fused(segmentSet, triples, keys, j, representativeMap) && 0 <= j < |keys|
    requires keys[j] == ComponentKey(red.root[j], green.root[j], blue.root[j])
    modifies red.parent, green.parent, blue.parent
    modifies segmentSet, segmentSet.parent, segmentSet.rank, segmentSet.size
    ensures Channels(red, green, blue, |keys|) && Roots(red, green, blue) == old(Roots(red, green, blue))
    ensures Fused(segmentSet, triples, keys, j + 1, map')
  {
    var componentKey := ReadBeside(red, green, blue, segmentSet, representativeMap, j, triples, keys);
    map' := FuseBeside(red, green, blue, segmentSet, representativeMap, j, componentKey, triples, keys);
  }

  /**
   * ReadKey. This wrapper is no separate step of the source: it exists only
   * to state that the segment forest stays as it is.
   */
  method ReadBeside(red: DisjointSet, green: DisjointSet, blue: DisjointSet, segmentSet: DisjointSet,
                    representativeMap: map<string, int>, j: int,
                    ghost triples: seq<Triple>, ghost keys: seq<string>)
    returns (componentKey: string)
    requires Channels(red, green, blue, |keys|) && Apart(segmentSet, red, green, blue)
    requires Fused(segmentSet, triples, keys, j, representativeMap) && 0 <= j < |keys|
    modifies red.parent, green.parent, blue.parent
    ensures Channels(red, green, blue, |keys|) && Roots(red, green, blue) == old(Roots(red, green, blue))
    ensures Fused(segmentSet, triples, keys, j, representativeMap)
    ensures componentKey == ComponentKey(red.root[j], green.root[j], blue.root[j])
  {
    componentKey := ReadKey(red, green, blue, j, |keys|);
  }

  /**
   * FusePixel. This wrapper is no separate step of the source: it exists
   * only to state that the channel forests stay as they are.
   */
  method FuseBeside(red: DisjointSet, green: DisjointSet, blue: DisjointSet, segmentSet: DisjointSet,
                    representativeMap: map<string, int>, j: int, componentKey: string,
                    ghost triples: seq<Triple>, ghost keys: seq<string>)
    returns (map': map<string, int>)
    requires Channels(red, green, blue, |keys|) && Apart(segmentSet, red, green, blue)
    requires Fused(segmentSet, triples, keys, j, representativeMap) && 0 <= j < |keys| && componentKey == keys[j]
    modifies segmentSet, segmentSet.parent, segmentSet.rank, segmentSet.size
    ensures Channels(red, green, blue, |keys|) && Roots(red, green, blue) == old(Roots(red, green, blue))
    ensures Fused(segmentSet, triples, keys, j + 1, map')
  {
    map' := FusePixel(segmentSet, representativeMap, j, componentKey, triples, keys);
  }

  /**
   * Builds the segment forest over numVertices pixels: pixel j joins the
   * first earlier pixel whose red, green and blue representatives equal its
   * own. The channel forests are only path-compressed.
   */
  method CreateSegments(channelSets: array<DisjointSet>, numVertices: int) returns (segmentSet: DisjointSet)
    requires channelSets.Length >= 3 && Channels(channelSets[0], channelSets[1], channelSets[2], numVertices)
    modifies channelSets[0].parent, channelSets[1].parent, channelSets[2].parent
    ensures fresh(segmentSet) && fresh(segmentSet.parent) && fresh(segmentSet.rank) && fresh(segmentSet.size)
    ensures segmentSet.Valid() && segmentSet.n == numVertices
    ensures Channels(channelSets[0], channelSets[1], channelSets[2], numVertices)
    ensures Roots(channelSets[0], channelSets[1], channelSets[2]) == old(Roots(channelSets[0], channelSets[1], channelSets[2]))
    ensures var t := Triples(channelSets[0].root, channelSets[1].root, channelSets[2].root, numVertices);
      (forall i, k :: 0 <= i < numVertices && 0 <= k < numVertices ==>
        (segmentSet.root[i] == segmentSet.root[k] <==> t[i] == t[k])) &&
      segmentSet.NumSets() == |Seen(t, numVertices)|
  {
    var red, green, blue := channelSets[0], channelSets[1], channelSets[2];
    ghost var roots0 := Roots(red, green, blue);
    ghost var triples := Triples(red.root, green.root, blue.root, numVertices);
    ghost var keys := Keys(triples);
    KeysMatchTriples(triples);
    segmentSet := new DisjointSet(numVertices);
    FusionStart(keys, triples, segmentSet.root);
    var representativeMap := FuseAll(red, green, blue, segmentSet, numVertices, triples, keys);
    FusionComplete(triples, keys, representativeMap, segmentSet.root);
    assert channelSets[0] == red && channelSets[1] == green && channelSets[2] == blue;
    assert Roots(red, green, blue) == roots0;
  }

  /** The loop of CreateSegments: fuses every pixel in turn, starting from an empty dictionary. */
  method FuseAll(red: DisjointSet, green: DisjointSet, blue: DisjointSet, segmentSet: DisjointSet,
                 numVertices: int, ghost triples: seq<Triple>, ghost keys: seq<string>)
    returns (representativeMap: map<string, int>)
    requires |keys| == numVertices && Channels(red, green, blue, |keys|) && Apart(segmentSet, red, green, blue)
    requires Fused(segmentSet, triples, keys, 0, map[])
    requires keys == Keys(Triples(red.root, green.root, blue.root, |keys|))
    modifies red.parent, green.parent, blue.parent
    modifies segmentSet, segmentSet.parent, segmentSet.rank, segmentSet.size
    ensures Channels(red, green, blue, |keys|) && Roots(red, green, blue) == old(Roots(red, green, blue))
    ensures Fused(segmentSet, triples, keys, |keys|, representativeMap)
  {
    representativeMap := map[];
    for j := 0 to numVertices
      invariant Channels(red, green, blue, |keys|) && Roots(red, green, blue) == old(Roots(red, green, blue))
      invariant Fused(segmentSet, triples, keys, j, representativeMap)
    {
      representativeMap := FuseStep(red, green, blue, segmentSet, representativeMap, j, triples, keys);
    }
  }
}
