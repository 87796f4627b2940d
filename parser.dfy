/** The raw-element parser and the way segmenter of src/util/parser.ts.

    A geodata response is a list of elements; node elements give positions,
    way elements give ordered lists of node ids. The segmenter counts how often
    every node id occurs across all ways and cuts each way at every node that
    occurs more than once (a junction), so that the pieces meet exactly at the
    cut nodes. */
module Parser {
  import opened Wrappers

  /** Position of a map node, in degrees. */
  datatype Node = Node(lat: real, lon: real)

  type NodeMap = map<int, Node>
  type WayMap = map<int, seq<int>>

  /** One entry of the response's `elements` list, by its `type` field. */
  datatype Element =
    | NodeElement(id: int, lat: real, lon: real)
    | WayElement(id: int, nodes: seq<int>)
    | OtherElement(kind: string, id: int)

  /** A response object; `elements` is `None` when the field is missing or falsy. */
  datatype Response = Response(elements: Option<seq<Element>>)

  /** Which cut of its way a segment is: `${id}-${i}` or the trailing `${id}-X`. */
  datatype Cut = At(index: nat) | Tail
  datatype SegmentId = SegmentId(way: int, cut: Cut)
  datatype Segment = Segment(id: SegmentId, nodes: seq<int>)

  // ---------------------------------------------------------------------------
  // extractNodesAndWays

  predicate IsNodeWith(e: Element, id: int) { e.NodeElement? && e.id == id }
  predicate IsWayWith(e: Element, id: int) { e.WayElement? && e.id == id }

  /** `nodes` holds exactly the node elements among the first `n` elements,
      each id bound to the position of its last occurrence. */
  ghost predicate NodesFrom(nodes: NodeMap, els: seq<Element>, n: nat)
    requires n <= |els|
  {
    && (forall id :: id in nodes <==> exists k | 0 <= k < n :: IsNodeWith(els[k], id))
    && (forall k | 0 <= k < n && els[k].NodeElement? && (forall j | k < j < n :: !IsNodeWith(els[j], els[k].id)) ::
          els[k].id in nodes && nodes[els[k].id] == Node(els[k].lat, els[k].lon))
  }

  /** `ways` holds exactly the way elements among the first `n` elements,
      each id bound to the node list of its last occurrence. */
  ghost predicate WaysFrom(ways: WayMap, els: seq<Element>, n: nat)
    requires n <= |els|
  {
    && (forall id :: id in ways <==> exists k | 0 <= k < n :: IsWayWith(els[k], id))
    && (forall k | 0 <= k < n && els[k].WayElement? && (forall j | k < j < n :: !IsWayWith(els[j], els[k].id)) ::
          els[k].id in ways && ways[els[k].id] == els[k].nodes)
  }

  /** Splits a response into the node map and the way map; a missing response
      or a missing `elements` field gives two empty maps, elements of any other
      type are ignored, and a later element overwrites an earlier one with the
      same id. */
  method ExtractNodesAndWays(apiResponse: Option<Response>) returns (nodes: NodeMap, ways: WayMap)
    ensures apiResponse.None? || apiResponse.value.elements.None? ==> nodes == map[] && ways == map[]
    ensures apiResponse.Some? && apiResponse.value.elements.Some? ==>
      var els := apiResponse.value.elements.value;
      NodesFrom(nodes, els, |els|) && WaysFrom(ways, els, |els|)
  {
    nodes, ways := map[], map[];
    if apiResponse.None? {
      return;
    }
    if apiResponse.value.elements.None? {
      return;
    }
    var els := apiResponse.value.elements.value;
    for i := 0 to |els|
      invariant NodesFrom(nodes, els, i)
      invariant WaysFrom(ways, els, i)
    {
      var element := els[i];
      if element.NodeElement? {
        NodeRecorded(nodes, els, i);
        WayKept(ways, els, i);
        nodes := nodes[element.id := Node(element.lat, element.lon)];
      } else if element.WayElement? {
        NodeKept(nodes, els, i);
        WayRecorded(ways, els, i);
        ways := ways[element.id := element.nodes];
      } else {
        NodeKept(nodes, els, i);
        WayKept(ways, els, i);
      }
    }
  }

  /** Recording node element `i` extends the node map to the first `i + 1`. */
  lemma NodeRecorded(nodes: NodeMap, els: seq<Element>, i: nat)
    requires i < |els| && els[i].NodeElement? && NodesFrom(nodes, els, i)
    ensures NodesFrom(nodes[els[i].id := Node(els[i].lat, els[i].lon)], els, i + 1)
  {
    assert IsNodeWith(els[i], els[i].id);
  }

  /** Any other element leaves the node map as it is. */
  lemma NodeKept(nodes: NodeMap, els: seq<Element>, i: nat)
    requires i < |els| && !els[i].NodeElement? && NodesFrom(nodes, els, i)
    ensures NodesFrom(nodes, els, i + 1)
  {
  }

  /** Recording way element `i` extends the way map to the first `i + 1`. */
  lemma WayRecorded(ways: WayMap, els: seq<Element>, i: nat)
    requires i < |els| && els[i].WayElement? && WaysFrom(ways, els, i)
    ensures WaysFrom(ways[els[i].id := els[i].nodes], els, i + 1)
  {
    assert IsWayWith(els[i], els[i].id);
  }

  /** Any other element leaves the way map as it is. */
  lemma WayKept(ways: WayMap, els: seq<Element>, i: nat)
    requires i < |els| && !els[i].WayElement? && WaysFrom(ways, els, i)
    ensures WaysFrom(ways, els, i + 1)
  {
  }

  /** The repository's unit test: a node element 1 at (1, 1) and a way element
      2 over nodes [1, 2] give exactly those two one-entry maps. */
  lemma ExtractExample(els: seq<Element>, nodes: NodeMap, ways: WayMap)
    requires els == [NodeElement(1, 1.0, 1.0), WayElement(2, [1, 2])]
    requires NodesFrom(nodes, els, |els|) && WaysFrom(ways, els, |els|)
    ensures nodes == map[1 := Node(1.0, 1.0)] && ways == map[2 := [1, 2]]
  {
    assert IsNodeWith(els[0], 1) && IsWayWith(els[1], 2);
    forall id | id in nodes ensures id == 1 {
      var k :| 0 <= k < 2 && IsNodeWith(els[k], id);
    }
    forall id | id in ways ensures id == 2 {
      var k :| 0 <= k < 2 && IsWayWith(els[k], id);
    }
    assert nodes.Keys == {1};
    assert ways.Keys == {2};
  }

  // ---------------------------------------------------------------------------
  // Object.entries order. JavaScript visits array-index keys (0 through
  // 4294967294) in ascending order, and every other key afterwards in
  // insertion order. The model uses ascending order for every way id, which
  // agrees with JavaScript for ids in the array-index range.

  lemma HasElement(s: set<int>)
    requires s != {}
    ensures exists y :: y in s
  {
    assert (forall y :: y !in s) ==> s == {};
  }

  lemma MinExists(s: set<int>)
    requires s != {}
    ensures exists m :: m in s && forall x | x in s :: m <= x
    decreases |s|
  {
    HasElement(s);
    var y :| y in s;
    var rest := s - {y};
    assert |rest| == |s| - 1;
    if rest == {} {
      assert forall x | x in s :: x in rest || x == y;
      assert y in s && forall x | x in s :: y <= x;
    } else {
      MinExists(rest);
      var m :| m in rest && forall x | x in rest :: m <= x;
      MinInsert(s, y, m);
    }
  }

  /** The lesser of `y` and the least of the rest is the least of all. */
  lemma MinInsert(s: set<int>, y: int, m: int)
    requires y in s && m in s - {y} && forall x | x in s - {y} :: m <= x
    ensures var least := if y < m then y else m; least in s && forall x | x in s :: least <= x
  {
    forall x | x in s ensures (if y < m then y else m) <= x {
      if x != y { assert x in s - {y}; }
    }
  }

  /** The least element of a non-empty set of ids. */
  function Min(s: set<int>): (m: int)
    requires s != {}
    ensures m in s && forall x | x in s :: m <= x
  {
    MinExists(s);
    var m :| m in s && forall x | x in s :: m <= x;
    m
  }

  /** The way ids in ascending order: the order `Object.entries` visits them
      when every id is an array index (0 through 4294967294). */
  function SortedIds(s: set<int>): (r: seq<int>)
    ensures |r| == |s|
    ensures forall x :: x in r <==> x in s
    ensures forall i, j | 0 <= i < j < |r| :: r[i] < r[j]
    decreases |s|
  {
    if s == {} then []
    else
      var m := Min(s);
      var tail := SortedIds(s - {m});
      SortedCons(s, m, tail);
      [m] + tail
  }

  /** Putting the least element in front of the ascending list of the others
      gives the ascending list of the set. */
  lemma SortedCons(s: set<int>, m: int, tail: seq<int>)
    requires m in s && forall x | x in s :: m <= x
    requires |tail| == |s - {m}| && forall x :: x in tail <==> x in s - {m}
    requires forall i, j | 0 <= i < j < |tail| :: tail[i] < tail[j]
    ensures |[m] + tail| == |s|
    ensures forall x :: x in [m] + tail <==> x in s
    ensures forall i, j | 0 <= i < j < |[m] + tail| :: ([m] + tail)[i] < ([m] + tail)[j]
  {
    var r := [m] + tail;
    forall i, j | 0 <= i < j < |r| ensures r[i] < r[j] {
      if i == 0 {
        assert r[j] == tail[j - 1] && tail[j - 1] in s - {m};
      } else {
        assert r[i] == tail[i - 1] && r[j] == tail[j - 1];
      }
    }
  }

  // ---------------------------------------------------------------------------
  // extractSegmentsAndPoints, first pass: occurrence counts

  /** Concatenation of node lists, last list last. */
  function Flatten(lists: seq<seq<int>>): seq<int>
  {
    if lists == [] then [] else Flatten(lists[..|lists| - 1]) + lists[|lists| - 1]
  }

  /** The node lists of the ways named by `ids`, in that order. */
  function WayLists(ids: seq<int>, ways: WayMap): (r: seq<seq<int>>)
    requires forall i | 0 <= i < |ids| :: ids[i] in ways
    ensures |r| == |ids| && forall i | 0 <= i < |ids| :: r[i] == ways[ids[i]]
  {
    seq(|ids|, i requires 0 <= i < |ids| => ways[ids[i]])
  }

  /** The counting step: `countDict[n] += 1`, or `= 1` when the entry is missing. */
  function Bump(countDict: map<int, nat>, n: int): map<int, nat>
  {
    if n in countDict && countDict[n] != 0 then countDict[n := countDict[n] + 1] else countDict[n := 1]
  }

  /** The dictionary the counting loop builds from `all`, one step per node. */
  function CountsOf(all: seq<int>): map<int, nat>
  {
    if all == [] then map[] else Bump(CountsOf(all[..|all| - 1]), all[|all| - 1])
  }

  /** The counting loop counts occurrences: a node is a key exactly when it
      occurs, and its value is its number of occurrences. */
  lemma {:induction false} CountsOfOccurrences(all: seq<int>)
    ensures forall n :: n in CountsOf(all) <==> n in all
    ensures forall n | n in CountsOf(all) :: CountsOf(all)[n] == multiset(all)[n]
  {
    if all != [] {
      var init, last := all[..|all| - 1], all[|all| - 1];
      CountsOfOccurrences(init);
      assert all == init + [last];
      assert multiset(all) == multiset(init) + multiset{last};
      forall n ensures n in CountsOf(all) <==> n in all {
        assert n in all <==> n in init || n == last;
      }
      forall n | n in CountsOf(all) ensures CountsOf(all)[n] == multiset(all)[n] {
        if n != last {
          assert n in init;
        } else if n in init {
          assert multiset(init)[n] != 0;
        }
      }
    }
  }

  lemma FlattenSnoc(lists: seq<seq<int>>, last: seq<int>)
    ensures Flatten(lists + [last]) == Flatten(lists) + last
  {
    assert (lists + [last])[..|lists|] == lists;
  }

  /** The node lists of one more way extend the flattened lists by that way's. */
  lemma FlattenNext(ids: seq<int>, ways: WayMap, w: nat)
    requires w < |ids| && forall i | 0 <= i < |ids| :: ids[i] in ways
    ensures Flatten(WayLists(ids[..w + 1], ways)) == Flatten(WayLists(ids[..w], ways)) + ways[ids[w]]
  {
    assert WayLists(ids[..w + 1], ways) == WayLists(ids[..w], ways) + [ways[ids[w]]];
    FlattenSnoc(WayLists(ids[..w], ways), ways[ids[w]]);
  }

  /** The first pass of extractSegmentsAndPoints: the number of occurrences of
      every node id across the node lists of all ways, a node listed twice in
      one way counting twice. */
  method CountOccurrences(ids: seq<int>, ways: WayMap) returns (countDict: map<int, nat>)
    requires forall i | 0 <= i < |ids| :: ids[i] in ways
    ensures countDict == CountsOf(Flatten(WayLists(ids, ways)))
    ensures forall n :: n in countDict <==> n in Flatten(WayLists(ids, ways))
    ensures forall n | n in countDict :: countDict[n] == multiset(Flatten(WayLists(ids, ways)))[n]
  {
    countDict := map[];
    for w := 0 to |ids|
      invariant countDict == CountsOf(Flatten(WayLists(ids[..w], ways)))
    {
      var nodeIds := ways[ids[w]];
      ghost var before := Flatten(WayLists(ids[..w], ways));
      assert before + nodeIds[..0] == before;
      for j := 0 to |nodeIds|
        invariant countDict == CountsOf(before + nodeIds[..j])
      {
        assert (before + nodeIds[..j + 1])[..|before| + j] == before + nodeIds[..j];
        countDict := Bump(countDict, nodeIds[j]);
      }
      assert nodeIds[..|nodeIds|] == nodeIds;
      FlattenNext(ids, ways, w);
    }
    assert ids[..|ids|] == ids;
    CountsOfOccurrences(Flatten(WayLists(ids, ways)));
  }

  // ---------------------------------------------------------------------------
  // extractSegmentsAndPoints, second pass: cutting each way

  /** The cut test `countDict[nodeId] > 1`. */
  predicate IsJunction(countDict: map<int, nat>, n: int)
  {
    n in countDict && countDict[n] > 1
  }

  /** The segments still to be emitted for way `way` with node list `s`, when
      the current segment began at `start` and index `i` is examined next. */
  function CutFrom(way: int, s: seq<int>, countDict: map<int, nat>, start: nat, i: nat): seq<Segment>
    requires start <= i <= |s|
    decreases |s| - i
  {
    if i == |s| then [Segment(SegmentId(way, Tail), s[start..])]
    else if IsJunction(countDict, s[i]) then
      [Segment(SegmentId(way, At(i)), s[start..i + 1])] + CutFrom(way, s, countDict, i, i + 1)
    else CutFrom(way, s, countDict, start, i + 1)
  }

  /** All segments of one way, in the order they are emitted. */
  function CutWay(way: int, s: seq<int>, countDict: map<int, nat>): seq<Segment>
  {
    CutFrom(way, s, countDict, 0, 0)
  }

  /** The cutting loop for one way of extractSegmentsAndPoints. */
  method SegmentWay(way: int, nodeIds: seq<int>, countDict: map<int, nat>) returns (segs: seq<Segment>)
    ensures segs == CutWay(way, nodeIds, countDict)
  {
    segs := [];
    var start: nat, end: nat := 0, 0;
    var i: nat := 0;
    while i < |nodeIds|
      invariant start <= i <= |nodeIds|
      invariant segs + CutFrom(way, nodeIds, countDict, start, i) == CutWay(way, nodeIds, countDict)
    {
      if IsJunction(countDict, nodeIds[i]) {
        end := i;
        segs := segs + [Segment(SegmentId(way, At(i)), nodeIds[start..end + 1])];
        start := end;
      }
      i := i + 1;
    }
    assert nodeIds[start..|nodeIds|] == nodeIds[start..];
    assert CutFrom(way, nodeIds, countDict, start, |nodeIds|) == [Segment(SegmentId(way, Tail), nodeIds[start..])];
    segs := segs + [Segment(SegmentId(way, Tail), nodeIds[start..|nodeIds|])];
  }

  /** The segments of the ways named by `ids`, way after way. */
  function SegmentsOf(ids: seq<int>, ways: WayMap, countDict: map<int, nat>): seq<Segment>
    requires forall i | 0 <= i < |ids| :: ids[i] in ways
  {
    if ids == [] then []
    else
      var w := ids[|ids| - 1];
      SegmentsOf(ids[..|ids| - 1], ways, countDict) + CutWay(w, ways[w], countDict)
  }

  lemma SegmentsOfSnoc(ids: seq<int>, w: nat, ways: WayMap, countDict: map<int, nat>)
    requires w < |ids| && forall i | 0 <= i < |ids| :: ids[i] in ways
    ensures SegmentsOf(ids[..w + 1], ways, countDict) ==
      SegmentsOf(ids[..w], ways, countDict) + CutWay(ids[w], ways[ids[w]], countDict)
  {
    assert ids[..w + 1][..w] == ids[..w];
  }

  /** What extractSegmentsAndPoints returns, as its list of entries. */
  function Segments(ways: WayMap): seq<Segment>
  {
    var ids := SortedIds(ways.Keys);
    SegmentsOf(ids, ways, CountsOf(Flatten(WayLists(ids, ways))))
  }

  /** extractSegmentsAndPoints: counts occurrences, then cuts every way at the
      nodes counted more than once. */
  method ExtractSegmentsAndPoints(ways: WayMap) returns (segments: seq<Segment>)
    ensures segments == Segments(ways)
  {
    var wayEntries := SortedIds(ways.Keys);
    SortedIdsInMap(ways);
    var countDict := CountOccurrences(wayEntries, ways);
    segments := SegmentWays(wayEntries, ways, countDict);
  }

  lemma SortedIdsInMap(ways: WayMap)
    ensures var ids := SortedIds(ways.Keys); forall i | 0 <= i < |ids| :: ids[i] in ways
  {
    var ids := SortedIds(ways.Keys);
    forall i | 0 <= i < |ids| ensures ids[i] in ways {
      assert ids[i] in ids;
    }
  }

  /** The second pass of extractSegmentsAndPoints: every way cut in turn. */
  method SegmentWays(wayEntries: seq<int>, ways: WayMap, countDict: map<int, nat>) returns (segments: seq<Segment>)
    requires forall i | 0 <= i < |wayEntries| :: wayEntries[i] in ways
    ensures segments == SegmentsOf(wayEntries, ways, countDict)
  {
    segments := [];
    for w := 0 to |wayEntries|
      invariant segments == SegmentsOf(wayEntries[..w], ways, countDict)
    {
      var id := wayEntries[w];
      var segs := SegmentWay(id, ways[id], countDict);
      SegmentsOfSnoc(wayEntries, w, ways, countDict);
      segments := segments + segs;
    }
    assert wayEntries[..|wayEntries|] == wayEntries;
  }

  // ---------------------------------------------------------------------------
  // Properties of the cutting

  /** The node lists of `segs`, in order. */
  function NodeLists(segs: seq<Segment>): (r: seq<seq<int>>)
    ensures |r| == |segs| && forall k | 0 <= k < |segs| :: r[k] == segs[k].nodes
  {
    seq(|segs|, k requires 0 <= k < |segs| => segs[k].nodes)
  }

  /** Stitching segments back together: the first segment whole, every later
      one without its first node (the cut node it shares with its predecessor). */
  function Glue(parts: seq<seq<int>>): seq<int>
  {
    if parts == [] then [] else parts[0] + DropFirsts(parts[1..])
  }

  function DropFirsts(parts: seq<seq<int>>): seq<int>
  {
    if parts == [] then [] else (if parts[0] == [] then [] else parts[0][1..]) + DropFirsts(parts[1..])
  }

  lemma DropFirstsOfGlue(parts: seq<seq<int>>)
    requires parts != [] && parts[0] != []
    ensures DropFirsts(parts) == Glue(parts)[1..]
  {
  }

  /** The first segment still to be emitted starts at the current start node. */
  lemma {:induction false} CutFromFirst(way: int, s: seq<int>, c: map<int, nat>, start: nat, i: nat)
    requires start <= i <= |s| && start < |s|
    ensures CutFrom(way, s, c, start, i) != []
    ensures CutFrom(way, s, c, start, i)[0].nodes != []
    ensures CutFrom(way, s, c, start, i)[0].nodes[0] == s[start]
    decreases |s| - i
  {
    if i < |s| && !IsJunction(c, s[i]) {
      CutFromFirst(way, s, c, start, i + 1);
    }
  }

  lemma {:induction false} CutFromGlue(way: int, s: seq<int>, c: map<int, nat>, start: nat, i: nat)
    requires start <= i <= |s|
    ensures Glue(NodeLists(CutFrom(way, s, c, start, i))) == s[start..]
    decreases |s| - i
  {
    if i == |s| {
    } else if IsJunction(c, s[i]) {
      var rest := CutFrom(way, s, c, i, i + 1);
      CutFromGlue(way, s, c, i, i + 1);
      CutFromFirst(way, s, c, i, i + 1);
      DropFirstsOfGlue(NodeLists(rest));
      assert NodeLists([Segment(SegmentId(way, At(i)), s[start..i + 1])] + rest)[1..] == NodeLists(rest);
      assert s[start..i + 1] + s[i..][1..] == s[start..];
    } else {
      CutFromGlue(way, s, c, start, i + 1);
    }
  }

  /** Round trip: gluing a way's segments back together, dropping the shared
      first node of every segment after the first, gives the way's node list. */
  lemma CutWayGlue(way: int, s: seq<int>, c: map<int, nat>)
    ensures Glue(NodeLists(CutWay(way, s, c))) == s
  {
    CutFromGlue(way, s, c, 0, 0);
  }

  lemma {:induction false} CutFromNonEmpty(way: int, s: seq<int>, c: map<int, nat>, start: nat, i: nat)
    requires start <= i <= |s| && start < |s|
    ensures forall k | 0 <= k < |CutFrom(way, s, c, start, i)| :: CutFrom(way, s, c, start, i)[k].nodes != []
    decreases |s| - i
  {
    if i == |s| {
    } else if IsJunction(c, s[i]) {
      CutFromNonEmpty(way, s, c, i, i + 1);
    } else {
      CutFromNonEmpty(way, s, c, start, i + 1);
    }
  }

  /** Every segment of a non-empty way is non-empty. */
  lemma CutWayNonEmpty(way: int, s: seq<int>, c: map<int, nat>)
    requires s != []
    ensures forall k | 0 <= k < |CutWay(way, s, c)| :: CutWay(way, s, c)[k].nodes != []
  {
    CutFromNonEmpty(way, s, c, 0, 0);
  }

  /** Number of junction nodes in `s`, counted by position. */
  function Junctions(s: seq<int>, c: map<int, nat>): nat
  {
    if s == [] then 0 else (if IsJunction(c, s[0]) then 1 else 0) + Junctions(s[1..], c)
  }

  lemma {:induction false} CutFromCount(way: int, s: seq<int>, c: map<int, nat>, start: nat, i: nat)
    requires start <= i <= |s|
    ensures |CutFrom(way, s, c, start, i)| == 1 + Junctions(s[i..], c)
    decreases |s| - i
  {
    if i < |s| {
      assert s[i..][1..] == s[i + 1..];
      if IsJunction(c, s[i]) {
        CutFromCount(way, s, c, i, i + 1);
      } else {
        CutFromCount(way, s, c, start, i + 1);
      }
    }
  }

  /** A way yields one segment per junction position plus the trailing one. */
  lemma CutWayCount(way: int, s: seq<int>, c: map<int, nat>)
    ensures |CutWay(way, s, c)| == 1 + Junctions(s, c)
  {
    CutFromCount(way, s, c, 0, 0);
    assert s[0..] == s;
  }

  /** A way without junction nodes is one segment, the whole way. */
  lemma NoJunctionWholeWay(way: int, s: seq<int>, c: map<int, nat>)
    requires forall k | 0 <= k < |s| :: !IsJunction(c, s[k])
    ensures CutWay(way, s, c) == [Segment(SegmentId(way, Tail), s)]
  {
    CutWayCount(way, s, c);
    NoJunctionsCounted(s, c);
    CutWayGlue(way, s, c);
    CutFromIds(way, s, c, 0, 0);
    assert CutWay(way, s, c)[0].nodes == Glue(NodeLists(CutWay(way, s, c)));
  }

  lemma {:induction false} NoJunctionsCounted(s: seq<int>, c: map<int, nat>)
    requires forall k | 0 <= k < |s| :: !IsJunction(c, s[k])
    ensures Junctions(s, c) == 0
  {
    if s != [] {
      assert forall k | 0 <= k < |s[1..]| :: s[1..][k] == s[k + 1];
      NoJunctionsCounted(s[1..], c);
    }
  }

  lemma {:induction false} CutFromInterior(way: int, s: seq<int>, c: map<int, nat>, start: nat, i: nat)
    requires start <= i <= |s|
    requires forall k | start < k < i :: !IsJunction(c, s[k])
    ensures forall seg, k | seg in CutFrom(way, s, c, start, i) && 0 < k < |seg.nodes| - 1 ::
              !IsJunction(c, seg.nodes[k])
    decreases |s| - i
  {
    if i == |s| {
      var seg := Segment(SegmentId(way, Tail), s[start..]);
      assert forall k | 0 < k < |seg.nodes| - 1 :: seg.nodes[k] == s[start + k];
    } else if IsJunction(c, s[i]) {
      var seg := Segment(SegmentId(way, At(i)), s[start..i + 1]);
      assert forall k | 0 < k < |seg.nodes| - 1 :: seg.nodes[k] == s[start + k];
      CutFromInterior(way, s, c, i, i + 1);
    } else {
      CutFromInterior(way, s, c, start, i + 1);
    }
  }

  /** No node strictly inside a segment is a junction. */
  lemma CutWayInterior(way: int, s: seq<int>, c: map<int, nat>)
    ensures forall seg, k | seg in CutWay(way, s, c) && 0 < k < |seg.nodes| - 1 :: !IsJunction(c, seg.nodes[k])
  {
    CutFromInterior(way, s, c, 0, 0);
  }

  /** The last node of every segment is the first node of the next one. */
  ghost predicate Chained(r: seq<Segment>)
  {
    forall k | 0 <= k < |r| - 1 :: Joins(r[k], r[k + 1])
  }

  /** `b` starts with the node `a` ends with. */
  predicate Joins(a: Segment, b: Segment)
  {
    a.nodes != [] && b.nodes != [] && a.nodes[|a.nodes| - 1] == b.nodes[0]
  }

  lemma {:induction false} CutFromShared(way: int, s: seq<int>, c: map<int, nat>, start: nat, i: nat)
    requires start <= i <= |s| && start < |s|
    ensures Chained(CutFrom(way, s, c, start, i))
    decreases |s| - i
  {
    if i < |s| {
      if IsJunction(c, s[i]) {
        var seg := Segment(SegmentId(way, At(i)), s[start..i + 1]);
        var rest := CutFrom(way, s, c, i, i + 1);
        CutFromShared(way, s, c, i, i + 1);
        CutFromFirst(way, s, c, i, i + 1);
        var r := [seg] + rest;
        forall k | 0 <= k < |r| - 1 ensures Joins(r[k], r[k + 1]) {
          if k > 0 {
            assert r[k] == rest[k - 1] && r[k + 1] == rest[k];
          }
        }
      } else {
        CutFromShared(way, s, c, start, i + 1);
      }
    }
  }

  /** Consecutive segments of a non-empty way share exactly their cut node: the
      last node of one is the first node of the next. */
  lemma CutWayShared(way: int, s: seq<int>, c: map<int, nat>)
    requires s != []
    ensures Chained(CutWay(way, s, c))
  {
    CutFromShared(way, s, c, 0, 0);
  }

  lemma {:induction false} CutFromIds(way: int, s: seq<int>, c: map<int, nat>, start: nat, i: nat)
    requires start <= i <= |s|
    ensures var r := CutFrom(way, s, c, start, i);
      && r != []
      && r[|r| - 1].id == SegmentId(way, Tail)
      && (forall k | 0 <= k < |r| :: r[k].id.way == way)
      && (forall k | 0 <= k < |r| - 1 ::
            && r[k].id.cut.At? && i <= r[k].id.cut.index < |s|
            && IsJunction(c, s[r[k].id.cut.index])
            && r[k].nodes != [] && r[k].nodes[|r[k].nodes| - 1] == s[r[k].id.cut.index])
    decreases |s| - i
  {
    if i < |s| {
      if IsJunction(c, s[i]) {
        CutFromIds(way, s, c, i, i + 1);
      } else {
        CutFromIds(way, s, c, start, i + 1);
      }
    }
  }

  /** The cut indices of all but the last segment strictly increase. */
  ghost predicate IncreasingCuts(r: seq<Segment>)
  {
    forall k1, k2 | 0 <= k1 < k2 < |r| - 1 :: r[k1].id.cut.At? && r[k2].id.cut.At? && r[k1].id.cut.index < r[k2].id.cut.index
  }

  /** No two segments have the same id. */
  ghost predicate DistinctIds(r: seq<Segment>)
  {
    forall p, q | 0 <= p < q < |r| :: r[p].id != r[q].id
  }

  lemma {:induction false} CutFromIncreasing(way: int, s: seq<int>, c: map<int, nat>, start: nat, i: nat)
    requires start <= i <= |s|
    ensures IncreasingCuts(CutFrom(way, s, c, start, i))
    decreases |s| - i
  {
    if i < |s| {
      if IsJunction(c, s[i]) {
        var rest := CutFrom(way, s, c, i, i + 1);
        CutFromIncreasing(way, s, c, i, i + 1);
        CutFromIds(way, s, c, i, i + 1);
        var r := [Segment(SegmentId(way, At(i)), s[start..i + 1])] + rest;
        forall k1, k2 | 0 <= k1 < k2 < |r| - 1
          ensures r[k1].id.cut.At? && r[k2].id.cut.At? && r[k1].id.cut.index < r[k2].id.cut.index
        {
          assert r[k2] == rest[k2 - 1];
          if k1 > 0 {
            assert r[k1] == rest[k1 - 1];
          }
        }
      } else {
        CutFromIncreasing(way, s, c, start, i + 1);
        assert CutFrom(way, s, c, start, i) == CutFrom(way, s, c, start, i + 1);
      }
    }
  }

  /** Each way emits exactly one trailing `${id}-X` segment, and it comes last;
      every other segment is `${id}-${i}` for a junction index `i`, ends at the
      node at that index, and the cut indices strictly increase, so the
      segment ids of one way are distinct. */
  lemma CutWayIds(way: int, s: seq<int>, c: map<int, nat>)
    ensures var r := CutWay(way, s, c);
      && r != []
      && r[|r| - 1].id == SegmentId(way, Tail)
      && (forall k | 0 <= k < |r| :: r[k].id.way == way)
      && (forall k | 0 <= k < |r| - 1 ::
            && r[k].id.cut.At? && r[k].id.cut.index < |s|
            && IsJunction(c, s[r[k].id.cut.index])
            && r[k].nodes != [] && r[k].nodes[|r[k].nodes| - 1] == s[r[k].id.cut.index])
      && DistinctIds(r)
  {
    CutFromIds(way, s, c, 0, 0);
    CutFromIncreasing(way, s, c, 0, 0);
    var r := CutWay(way, s, c);
    forall k1, k2 | 0 <= k1 < k2 < |r| ensures r[k1].id != r[k2].id {
      assert r[k1].id.cut.At?;
    }
  }

  lemma {:induction false} SegmentsOfWays(ids: seq<int>, ways: WayMap, c: map<int, nat>)
    requires forall i | 0 <= i < |ids| :: ids[i] in ways
    ensures forall seg | seg in SegmentsOf(ids, ways, c) :: seg.id.way in ids
  {
    if ids != [] {
      var w := ids[|ids| - 1];
      SegmentsOfWays(ids[..|ids| - 1], ways, c);
      CutWayIds(w, ways[w], c);
    }
  }

  lemma {:induction false} SegmentsOfDistinct(ids: seq<int>, ways: WayMap, c: map<int, nat>)
    requires forall i | 0 <= i < |ids| :: ids[i] in ways
    requires forall i, j | 0 <= i < j < |ids| :: ids[i] != ids[j]
    ensures DistinctIds(SegmentsOf(ids, ways, c))
  {
    if ids != [] {
      var w := ids[|ids| - 1];
      var init := ids[..|ids| - 1];
      SegmentsOfDistinct(init, ways, c);
      SegmentsOfWays(init, ways, c);
      CutWayIds(w, ways[w], c);
      var a, b := SegmentsOf(init, ways, c), CutWay(w, ways[w], c);
      var r := a + b;
      forall p, q | 0 <= p < q < |r| ensures r[p].id != r[q].id {
        if q >= |a| {
          assert r[q] == b[q - |a|];
          if p < |a| {
            assert r[p] == a[p] && a[p] in a;
            assert w !in init;
          } else {
            assert r[p] == b[p - |a|];
          }
        } else {
          assert r[p] == a[p] && r[q] == a[q];
        }
      }
    }
  }

  /** Segment identifiers are unique, so the emitted entries form a dictionary
      in which no segment overwrites another. */
  lemma SegmentsDistinct(ways: WayMap)
    ensures DistinctIds(Segments(ways))
  {
    var ids := SortedIds(ways.Keys);
    SortedIdsInMap(ways);
    SegmentsOfDistinct(ids, ways, CountsOf(Flatten(WayLists(ids, ways))));
  }

  /** Every segment carries its way id and the way's node list glued back from
      all of that way's segments. */
  lemma SegmentsOfWay(ways: WayMap, w: int)
    requires w in ways
    ensures var ids := SortedIds(ways.Keys);
      var c := CountsOf(Flatten(WayLists(ids, ways)));
      Glue(NodeLists(CutWay(w, ways[w], c))) == ways[w]
  {
    var ids := SortedIds(ways.Keys);
    CutWayGlue(w, ways[w], CountsOf(Flatten(WayLists(ids, ways))));
  }

  lemma SortedPair()
    ensures SortedIds({1, 2}) == [1, 2]
  {
    var ids := SortedIds({1, 2});
    assert |{1, 2}| == 2;
    assert ids[0] in {1, 2} && ids[1] in {1, 2} && ids[0] < ids[1];
  }

  lemma CountsOfPrefix(all: seq<int>, k: nat)
    requires k < |all|
    ensures CountsOf(all[..k + 1]) == Bump(CountsOf(all[..k]), all[k])
  {
    assert all[..k + 1][..k] == all[..k];
  }

  /** The counts of the first three nodes of the unit test's node list. */
  lemma ExampleCountsStart(all: seq<int>)
    requires all == [1, 2, 3, 4, 5, 6, 7, 3, 8, 9]
    ensures CountsOf(all[..3]) == map[1 := 1, 2 := 1, 3 := 1]
  {
    assert CountsOf(all[..0]) == map[];
    assert CountsOf(all[..1]) == map[1 := 1] by { CountsOfPrefix(all, 0); }
    assert CountsOf(all[..2]) == map[1 := 1, 2 := 1] by { CountsOfPrefix(all, 1); }
    CountsOfPrefix(all, 2);
  }

  /** The counts of the first half of the unit test's node list. */
  lemma ExampleCountsFirst(all: seq<int>)
    requires all == [1, 2, 3, 4, 5, 6, 7, 3, 8, 9]
    ensures CountsOf(all[..5]) == map[1 := 1, 2 := 1, 3 := 1, 4 := 1, 5 := 1]
  {
    ExampleCountsStart(all);
    assert CountsOf(all[..4]) == map[1 := 1, 2 := 1, 3 := 1, 4 := 1] by { CountsOfPrefix(all, 3); }
    CountsOfPrefix(all, 4);
  }

  /** The counts of the first seven nodes. */
  lemma ExampleCountsMiddle(all: seq<int>)
    requires all == [1, 2, 3, 4, 5, 6, 7, 3, 8, 9]
    ensures CountsOf(all[..7]) == map[1 := 1, 2 := 1, 3 := 1, 4 := 1, 5 := 1, 6 := 1, 7 := 1]
  {
    ExampleCountsFirst(all);
    assert CountsOf(all[..6]) == map[1 := 1, 2 := 1, 3 := 1, 4 := 1, 5 := 1, 6 := 1] by { CountsOfPrefix(all, 5); }
    CountsOfPrefix(all, 6);
  }

  /** The counts of the first eight nodes: 3 has been seen twice. */
  lemma ExampleCountsSecond(all: seq<int>)
    requires all == [1, 2, 3, 4, 5, 6, 7, 3, 8, 9]
    ensures CountsOf(all[..8]) == map[1 := 1, 2 := 1, 3 := 2, 4 := 1, 5 := 1, 6 := 1, 7 := 1]
  {
    ExampleCountsMiddle(all);
    CountsOfPrefix(all, 7);
  }

  /** The counts of the unit test's two ways, 3 being the only shared node. */
  lemma ExampleCounts(all: seq<int>)
    requires all == [1, 2, 3, 4, 5, 6, 7, 3, 8, 9]
    ensures CountsOf(all) == map[1 := 1, 2 := 1, 3 := 2, 4 := 1, 5 := 1, 6 := 1, 7 := 1, 8 := 1, 9 := 1]
  {
    ExampleCountsSecond(all);
    assert CountsOf(all[..9]) == map[1 := 1, 2 := 1, 3 := 2, 4 := 1, 5 := 1, 6 := 1, 7 := 1, 8 := 1] by { CountsOfPrefix(all, 8); }
    assert CountsOf(all[..10]) == map[1 := 1, 2 := 1, 3 := 2, 4 := 1, 5 := 1, 6 := 1, 7 := 1, 8 := 1, 9 := 1] by { CountsOfPrefix(all, 9); }
    assert all[..10] == all;
  }

  lemma ExampleCut(way: int, s: seq<int>, c: map<int, nat>)
    requires |s| == 5 && IsJunction(c, s[2])
    requires !IsJunction(c, s[0]) && !IsJunction(c, s[1]) && !IsJunction(c, s[3]) && !IsJunction(c, s[4])
    ensures CutWay(way, s, c) == [Segment(SegmentId(way, At(2)), s[..3]), Segment(SegmentId(way, Tail), s[2..])]
  {
    assert CutFrom(way, s, c, 2, 3) == CutFrom(way, s, c, 2, 4) == CutFrom(way, s, c, 2, 5);
    assert CutFrom(way, s, c, 0, 0) == CutFrom(way, s, c, 0, 1) == CutFrom(way, s, c, 0, 2);
  }

  /** The repository's unit test: ways 1 = [1,2,3,4,5] and 2 = [6,7,3,8,9]
      share node 3 and give `1-2`, `1-X`, `2-2`, `2-X`. */
  lemma SegmentsExample(ways: WayMap)
    requires ways == map[1 := [1, 2, 3, 4, 5], 2 := [6, 7, 3, 8, 9]]
    ensures Segments(ways) ==
      [ Segment(SegmentId(1, At(2)), [1, 2, 3]), Segment(SegmentId(1, Tail), [3, 4, 5]),
        Segment(SegmentId(2, At(2)), [6, 7, 3]), Segment(SegmentId(2, Tail), [3, 8, 9]) ]
  {
    assert ways.Keys == {1, 2};
    SortedPair();
    var ids := SortedIds(ways.Keys);
    var all := Flatten(WayLists(ids, ways));
    ExampleFlatten(ids, ways);
    ExampleCounts(all);
    ExampleSegmentsOf(ids, ways, CountsOf(all));
  }

  lemma ExampleSegmentsOf(ids: seq<int>, ways: WayMap, c: map<int, nat>)
    requires ids == [1, 2] && ways == map[1 := [1, 2, 3, 4, 5], 2 := [6, 7, 3, 8, 9]]
    requires c == map[1 := 1, 2 := 1, 3 := 2, 4 := 1, 5 := 1, 6 := 1, 7 := 1, 8 := 1, 9 := 1]
    ensures SegmentsOf(ids, ways, c) ==
      [ Segment(SegmentId(1, At(2)), [1, 2, 3]), Segment(SegmentId(1, Tail), [3, 4, 5]),
        Segment(SegmentId(2, At(2)), [6, 7, 3]), Segment(SegmentId(2, Tail), [3, 8, 9]) ]
  {
    ExampleCut(1, ways[1], c);
    ExampleCut(2, ways[2], c);
    ExamplePair(ids, ways, c);
    assert ways[1][..3] == [1, 2, 3] && ways[1][2..] == [3, 4, 5];
    assert ways[2][..3] == [6, 7, 3] && ways[2][2..] == [3, 8, 9];
  }

  lemma ExampleFlatten(ids: seq<int>, ways: WayMap)
    requires ids == [1, 2] && ways == map[1 := [1, 2, 3, 4, 5], 2 := [6, 7, 3, 8, 9]]
    ensures Flatten(WayLists(ids, ways)) == [1, 2, 3, 4, 5, 6, 7, 3, 8, 9]
  {
    var lists := WayLists(ids, ways);
    assert lists == [[1, 2, 3, 4, 5], [6, 7, 3, 8, 9]];
    assert lists[..1][..0] == [];
    assert Flatten(lists[..1]) == [1, 2, 3, 4, 5];
  }

  lemma ExamplePair(ids: seq<int>, ways: WayMap, c: map<int, nat>)
    requires ids == [1, 2] && 1 in ways && 2 in ways
    ensures SegmentsOf(ids, ways, c) == CutWay(1, ways[1], c) + CutWay(2, ways[2], c)
  {
    assert ids[..1] == [1] && ids[..1][..0] == [];
    assert SegmentsOf(ids[..1], ways, c) == CutWay(1, ways[1], c);
  }
}
