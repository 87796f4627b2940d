/** generateRandomPath of src/App.tsx: the loop route through the waypoints.

    For every waypoint that has a successor, the route runs findPathAstar from
    the waypoint's node to the successor's, passing the nodes of all earlier
    legs as the history whose revisits cost more. Each found path is appended
    to that history, turned into `[lat, lon, id]` points and recorded edge by
    edge, in both directions, in a visited-edge map. */
module Route {
  import opened Wrappers
  import opened Parser
  import opened Graph
  import opened Helpers
  import opened Search

  /** Every node an adjacency list names has a position in the node map. */
  ghost predicate NeighborsHaveCoords(g: Graph, nodes: NodeMap)
  {
    forall a, k | 0 <= k < |Adj(g, a)| :: Adj(g, a)[k] in nodes
  }

  /** Every present waypoint names a node with a position. */
  ghost predicate WaypointsHaveCoords(points: seq<Option<Point>>, nodes: NodeMap)
  {
    forall i | 0 <= i < |points| && points[i].Some? :: points[i].value.id in nodes
  }

  ghost predicate HaveCoords(nodes: NodeMap, ids: seq<int>)
  {
    forall j | 0 <= j < |ids| :: ids[j] in nodes
  }

  /** The `[lat, lon, id]` points of a list of node ids. */
  function Coords(nodes: NodeMap, ids: seq<int>): seq<Point>
    requires HaveCoords(nodes, ids)
  {
    if ids == [] then []
    else Coords(nodes, ids[..|ids| - 1]) + [GetNodeCoordinates(nodes, ids[|ids| - 1])]
  }

  /** Point `j` is the position and id of node `j`. */
  lemma {:induction false} CoordsMeaning(nodes: NodeMap, ids: seq<int>)
    requires HaveCoords(nodes, ids)
    ensures |Coords(nodes, ids)| == |ids|
    ensures forall j | 0 <= j < |ids| :: Coords(nodes, ids)[j] == GetNodeCoordinates(nodes, ids[j])
  {
    if ids != [] {
      var init := ids[..|ids| - 1];
      CoordsMeaning(nodes, init);
      assert forall j | 0 <= j < |init| :: init[j] == ids[j];
    }
  }

  /** Points of a concatenation are the concatenated points. */
  lemma {:induction false} CoordsAppend(nodes: NodeMap, a: seq<int>, b: seq<int>)
    requires HaveCoords(nodes, a) && HaveCoords(nodes, b)
    ensures HaveCoords(nodes, a + b)
    ensures Coords(nodes, a + b) == Coords(nodes, a) + Coords(nodes, b)
    decreases |b|
  {
    assert HaveCoords(nodes, a + b) by {
      forall j | 0 <= j < |a + b|
        ensures (a + b)[j] in nodes
      {
        if j < |a| { assert (a + b)[j] == a[j]; } else { assert (a + b)[j] == b[j - |a|]; }
      }
    }
    if b == [] {
      assert a + b == a;
    } else {
      var init := b[..|b| - 1];
      assert (a + b)[..|a + b| - 1] == a + init;
      assert (a + b)[|a + b| - 1] == b[|b| - 1];
      CoordsAppend(nodes, a, init);
    }
  }

  /** A walk from a node with a position stays among nodes with positions. */
  lemma WalkHasCoords(g: Graph, nodes: NodeMap, p: seq<int>)
    requires NeighborsHaveCoords(g, nodes) && IsWalk(g, p) && p[0] in nodes
    ensures HaveCoords(nodes, p)
  {
    forall j | 0 < j < |p|
      ensures p[j] in nodes
    {
      assert p[j] in Adj(g, p[j - 1]);
      var k :| 0 <= k < |Adj(g, p[j - 1])| && Adj(g, p[j - 1])[k] == p[j];
    }
  }

  /** The leg test as written: `mainPathPoints[index + 1] && graph`. An empty
      waypoint `[]` is truthy, so it does not stop the leg. */
  predicate LegRunsAsWritten(graph: Option<Graph>, points: seq<Option<Point>>, i: nat)
  {
    i + 1 < |points| && graph.Some?
  }

  /** The leg test of this model: as written, and both waypoints present. */
  predicate LegRuns(graph: Option<Graph>, points: seq<Option<Point>>, i: nat)
  {
    LegRunsAsWritten(graph, points, i) && points[i].Some? && points[i + 1].Some?
  }

  /** The nodes of the found legs, in leg order. */
  function FlattenFound(outcomes: seq<Option<seq<int>>>): seq<int>
  {
    if outcomes == [] then []
    else
      FlattenFound(outcomes[..|outcomes| - 1]) +
        FoundNodes(outcomes[|outcomes| - 1])
  }

  /** Earlier history is a prefix of later history: the node history is only
      ever appended to. */
  lemma {:induction false} FlattenFoundAppend(a: seq<Option<seq<int>>>, b: seq<Option<seq<int>>>)
    ensures FlattenFound(a + b) == FlattenFound(a) + FlattenFound(b)
    decreases |b|
  {
    if b == [] {
      assert a + b == a;
    } else {
      var init, last := b[..|b| - 1], b[|b| - 1];
      var ab := a + b;
      assert ab[..|ab| - 1] == a + init && ab[|ab| - 1] == last;
      calc {
        FlattenFound(ab);
        FlattenFound(a + init) + FoundNodes(last);
        { FlattenFoundAppend(a, init); }
        FlattenFound(a) + FlattenFound(init) + FoundNodes(last);
        FlattenFound(a) + (FlattenFound(init) + FoundNodes(last));
      }
    }
  }

  /** A leg that found nothing adds nothing to the history. */
  lemma SkippedLegAddsNothing(outcomes: seq<Option<seq<int>>>, i: nat)
    requires i < |outcomes| && outcomes[i].None?
    ensures FlattenFound(outcomes[..i + 1]) == FlattenFound(outcomes[..i])
  {
    assert outcomes[..i + 1][..i] == outcomes[..i];
  }

  /** Every recorded edge follows an adjacency entry of the graph, in one
      direction or the other. */
  ghost predicate EdgesOfGraph(g: Graph, visitedEdges: Graph)
  {
    forall a, k | 0 <= k < |Adj(visitedEdges, a)| ::
      Adj(visitedEdges, a)[k] in Adj(g, a) || a in Adj(g, Adj(visitedEdges, a)[k])
  }

  /** The inner forEach over one found path: each node is appended to the
      history and to the points, and each step after the first records the
      edge to its predecessor in both directions. */
  method RecordPath(ghost g: Graph, nodes: NodeMap, path: seq<int>, pathPoints: seq<Point>,
                    visitedNodes: seq<int>, visitedEdges: Graph)
    returns (pathPoints': seq<Point>, visitedNodes': seq<int>, visitedEdges': Graph)
    requires HaveCoords(nodes, path)
    ensures visitedNodes' == visitedNodes + path
    ensures pathPoints' == pathPoints + Coords(nodes, path)
    ensures Symmetric(visitedEdges) ==> Symmetric(visitedEdges')
    ensures IsWalk(g, path) && EdgesOfGraph(g, visitedEdges) ==> EdgesOfGraph(g, visitedEdges')
  {
    pathPoints', visitedNodes', visitedEdges' := pathPoints, visitedNodes, visitedEdges;
    for index := 0 to |path|
      invariant visitedNodes' == visitedNodes + path[..index]
      invariant HaveCoords(nodes, path[..index])
      invariant pathPoints' == pathPoints + Coords(nodes, path[..index])
      invariant Symmetric(visitedEdges) ==> Symmetric(visitedEdges')
      invariant IsWalk(g, path) && EdgesOfGraph(g, visitedEdges) ==> EdgesOfGraph(g, visitedEdges')
    {
      var nodeId := path[index];
      CoordsSnoc(nodes, path, index);
      ghost var point := Point(nodes[nodeId].lat, nodes[nodeId].lon, nodeId);
      assert pathPoints' + [point] == pathPoints + Coords(nodes, path[..index + 1]);
      assert visitedNodes' + [nodeId] == visitedNodes + path[..index + 1];
      visitedNodes' := visitedNodes' + [nodeId];
      pathPoints' := pathPoints' + [Point(nodes[nodeId].lat, nodes[nodeId].lon, nodeId)];
      if index != 0 {
        visitedEdges' := RecordStep(g, path, index, visitedEdges');
      }
    }
    assert path[..|path|] == path;
  }

  /** Taking one more node of a positioned path appends its point. */
  lemma CoordsSnoc(nodes: NodeMap, path: seq<int>, index: nat)
    requires HaveCoords(nodes, path) && index < |path|
    ensures path[..index + 1] == path[..index] + [path[index]]
    ensures HaveCoords(nodes, path[..index]) && HaveCoords(nodes, path[..index + 1])
    ensures Coords(nodes, path[..index + 1]) ==
      Coords(nodes, path[..index]) + [Point(nodes[path[index]].lat, nodes[path[index]].lon, path[index])]
  {
    assert path[..index + 1][..index] == path[..index];
  }

  /** The edge into `path[index]` from its predecessor, added in both
      directions with addEdge's effect. */
  method RecordStep(ghost g: Graph, path: seq<int>, index: nat, visitedEdges: Graph) returns (visitedEdges': Graph)
    requires 0 < index < |path|
    ensures forall n :: Adj(visitedEdges', n) == Adj(visitedEdges, n) + Link(path[index], path[index - 1], n)
    ensures Symmetric(visitedEdges) ==> Symmetric(visitedEdges')
    ensures IsWalk(g, path) && EdgesOfGraph(g, visitedEdges) ==> EdgesOfGraph(g, visitedEdges')
  {
    visitedEdges' := AddEdge(path[index], path[index - 1], visitedEdges);
    if Symmetric(visitedEdges) {
      AddEdgeSymmetric(visitedEdges, visitedEdges', path[index], path[index - 1]);
    }
    if IsWalk(g, path) && EdgesOfGraph(g, visitedEdges) {
      StepEdgeOfGraph(g, visitedEdges, visitedEdges', path, index);
    }
  }

  /** Recording the step into `path[index]` keeps every edge a graph edge. */
  lemma StepEdgeOfGraph(g: Graph, before: Graph, after: Graph, path: seq<int>, index: nat)
    requires IsWalk(g, path) && 0 < index < |path|
    requires EdgesOfGraph(g, before)
    requires forall n :: Adj(after, n) == Adj(before, n) + Link(path[index], path[index - 1], n)
    ensures EdgesOfGraph(g, after)
  {
    var x, y := path[index], path[index - 1];
    assert x in Adj(g, y);
    forall a, k | 0 <= k < |Adj(after, a)|
      ensures Adj(after, a)[k] in Adj(g, a) || a in Adj(g, Adj(after, a)[k])
    {
      var b := Adj(after, a)[k];
      if k >= |Adj(before, a)| {
        var l := Link(x, y, a);
        assert b == l[k - |Adj(before, a)|];
        assert (a == x && b == y) || (a == y && b == x);
      } else {
        assert b == Adj(before, a)[k];
      }
    }
  }

  /** What leg `i` may have found: a path only when the leg ran, and then a
      duplicate-free walk from the waypoint's node to the next waypoint's;
      nothing from a leg that ran only when no walk exists. */
  ghost predicate LegOk(graph: Option<Graph>, points: seq<Option<Point>>, i: nat, outcome: Option<seq<int>>)
  {
    (outcome.Some? ==>
      LegRuns(graph, points, i) &&
      var p := outcome.value;
      IsWalk(graph.value, p) && Distinct(p) && p[0] == points[i].value.id && p[|p| - 1] == points[i + 1].value.id) &&
    (LegRuns(graph, points, i) && outcome.None? ==>
      !Reachable(graph.value, points[i].value.id, points[i + 1].value.id))
  }

  /** LegOk for every leg so far, leg by leg from the back. */
  ghost predicate AllLegsOk(graph: Option<Graph>, points: seq<Option<Point>>, outcomes: seq<Option<seq<int>>>)
  {
    outcomes == [] ||
    (AllLegsOk(graph, points, outcomes[..|outcomes| - 1]) &&
     LegOk(graph, points, |outcomes| - 1, outcomes[|outcomes| - 1]))
  }

  lemma {:induction false} AllLegsOkMeaning(graph: Option<Graph>, points: seq<Option<Point>>,
                                            outcomes: seq<Option<seq<int>>>)
    requires AllLegsOk(graph, points, outcomes)
    ensures forall i | 0 <= i < |outcomes| :: LegOk(graph, points, i, outcomes[i])
  {
    if outcomes != [] {
      var init := outcomes[..|outcomes| - 1];
      AllLegsOkMeaning(graph, points, init);
      assert forall i | 0 <= i < |init| :: outcomes[i] == init[i];
    }
  }

  /** Leg `i` was given the nodes of the found legs before it, leg by leg
      from the back. */
  ghost predicate HistoriesOk(histories: seq<seq<int>>, outcomes: seq<Option<seq<int>>>)
  {
    |histories| == |outcomes| &&
    (outcomes == [] ||
     (HistoriesOk(histories[..|histories| - 1], outcomes[..|outcomes| - 1]) &&
      histories[|histories| - 1] == FlattenFound(outcomes[..|outcomes| - 1])))
  }

  lemma {:induction false} HistoriesOkMeaning(histories: seq<seq<int>>, outcomes: seq<Option<seq<int>>>)
    requires HistoriesOk(histories, outcomes)
    ensures forall i | 0 <= i < |outcomes| :: histories[i] == FlattenFound(outcomes[..i])
  {
    if outcomes != [] {
      var n := |outcomes| - 1;
      HistoriesOkMeaning(histories[..n], outcomes[..n]);
      forall i | 0 <= i < n
        ensures histories[i] == FlattenFound(outcomes[..i])
      {
        assert histories[..n][i] == histories[i];
        assert outcomes[..n][..i] == outcomes[..i];
      }
    }
  }

  /** A path found by leg `i` carries the cost the search gives it under the
      history `history` that leg was handed. */
  ghost predicate LegPriced(points: seq<Option<Point>>, i: nat, outcome: Option<seq<int>>,
                            history: seq<int>, cost: real, h: (int, int) -> real)
  {
    outcome.Some? && |outcome.value| > 0 && i + 1 < |points| && points[i + 1].Some? ==>
      cost == PathCost(h, points[i + 1].value.id, history, outcome.value)
  }

  /** LegPriced for every leg so far, leg by leg from the back. */
  ghost predicate AllLegsPriced(points: seq<Option<Point>>, outcomes: seq<Option<seq<int>>>,
                                histories: seq<seq<int>>, costs: seq<real>, h: (int, int) -> real)
  {
    |histories| == |outcomes| && |costs| == |outcomes| &&
    (outcomes == [] ||
     (AllLegsPriced(points, outcomes[..|outcomes| - 1], histories[..|histories| - 1], costs[..|costs| - 1], h) &&
      LegPriced(points, |outcomes| - 1, outcomes[|outcomes| - 1], histories[|histories| - 1], costs[|costs| - 1], h)))
  }

  lemma {:induction false} AllLegsPricedMeaning(points: seq<Option<Point>>, outcomes: seq<Option<seq<int>>>,
                                                histories: seq<seq<int>>, costs: seq<real>, h: (int, int) -> real)
    requires AllLegsPriced(points, outcomes, histories, costs, h)
    ensures forall i | 0 <= i < |outcomes| :: LegPriced(points, i, outcomes[i], histories[i], costs[i], h)
  {
    if outcomes != [] {
      var n := |outcomes| - 1;
      AllLegsPricedMeaning(points, outcomes[..n], histories[..n], costs[..n], h);
      forall i | 0 <= i < n
        ensures LegPriced(points, i, outcomes[i], histories[i], costs[i], h)
      {
        assert outcomes[..n][i] == outcomes[i] && histories[..n][i] == histories[i] && costs[..n][i] == costs[i];
      }
    }
  }

  /** Appending one priced leg keeps every leg priced. */
  lemma PricedAppend(points: seq<Option<Point>>, prev: seq<Option<seq<int>>>, outcome: Option<seq<int>>,
                     prevHistories: seq<seq<int>>, given: seq<int>, prevCosts: seq<real>, cost: real,
                     h: (int, int) -> real)
    requires AllLegsPriced(points, prev, prevHistories, prevCosts, h)
    requires LegPriced(points, |prev|, outcome, given, cost, h)
    ensures AllLegsPriced(points, prev + [outcome], prevHistories + [given], prevCosts + [cost], h)
  {
    assert (prev + [outcome])[..|prev|] == prev;
    assert (prevHistories + [given])[..|prevHistories|] == prevHistories;
    assert (prevCosts + [cost])[..|prevCosts|] == prevCosts;
  }

  /** Each found leg was priced by the search with the nodes of every earlier
      found leg as its history. */
  lemma LegCostsFromHistory(points: seq<Option<Point>>, outcomes: seq<Option<seq<int>>>,
                            histories: seq<seq<int>>, costs: seq<real>, h: (int, int) -> real)
    requires HistoriesOk(histories, outcomes) && AllLegsPriced(points, outcomes, histories, costs, h)
    ensures forall i | 0 <= i < |outcomes| && outcomes[i].Some? && |outcomes[i].value| > 0 &&
                       i + 1 < |points| && points[i + 1].Some? ::
      costs[i] == PathCost(h, points[i + 1].value.id, FlattenFound(outcomes[..i]), outcomes[i].value)
  {
    HistoriesOkMeaning(histories, outcomes);
    AllLegsPricedMeaning(points, outcomes, histories, costs, h);
    forall i | 0 <= i < |outcomes| && outcomes[i].Some? && |outcomes[i].value| > 0 &&
               i + 1 < |points| && points[i + 1].Some?
      ensures costs[i] == PathCost(h, points[i + 1].value.id, FlattenFound(outcomes[..i]), outcomes[i].value)
    {
      assert LegPriced(points, i, outcomes[i], histories[i], costs[i], h);
    }
  }

  /** The points are the positions of the history's nodes, one for one. */
  ghost predicate PointsMatch(nodes: NodeMap, pathPoints: seq<Point>, visitedNodes: seq<int>)
  {
    HaveCoords(nodes, visitedNodes) && pathPoints == Coords(nodes, visitedNodes)
  }

  function FoundNodes(outcome: Option<seq<int>>): seq<int>
  {
    match outcome case None => [] case Some(p) => p
  }

  /** The body of the outer forEach for waypoint `index`: when the leg runs,
      A* is called with the history so far and a found path is recorded. */
  method RunLeg(graph: Option<Graph>, nodes: NodeMap, mainPathPoints: seq<Option<Point>>, index: nat,
                h: (int, int) -> real, pathPoints: seq<Point>, visitedNodes: seq<int>, visitedEdges: Graph)
    returns (pathPoints': seq<Point>, visitedNodes': seq<int>, visitedEdges': Graph,
             ghost outcome: Option<seq<int>>, ghost cost: real)
    requires index < |mainPathPoints|
    requires graph.Some? ==> NeighborsHaveCoords(graph.value, nodes)
    requires WaypointsHaveCoords(mainPathPoints, nodes)
    requires PointsMatch(nodes, pathPoints, visitedNodes)
    ensures LegOk(graph, mainPathPoints, index, outcome)
    ensures LegPriced(mainPathPoints, index, outcome, visitedNodes, cost, h)
    ensures visitedNodes' == visitedNodes + FoundNodes(outcome)
    ensures PointsMatch(nodes, pathPoints', visitedNodes')
    ensures Symmetric(visitedEdges) ==> Symmetric(visitedEdges')
    ensures graph.Some? && EdgesOfGraph(graph.value, visitedEdges) ==> EdgesOfGraph(graph.value, visitedEdges')
  {
    pathPoints', visitedNodes', visitedEdges' := pathPoints, visitedNodes, visitedEdges;
    outcome, cost := None, 0.0;
    if LegRuns(graph, mainPathPoints, index) {
      var start := mainPathPoints[index].value.id;
      var end := mainPathPoints[index + 1].value.id;
      var path;
      path, cost := FindPathAstar(graph.value, start, end, visitedNodes, h);
      if path.Some? {
        WalkHasCoords(graph.value, nodes, path.value);
        pathPoints', visitedNodes', visitedEdges' :=
          RecordPath(graph.value, nodes, path.value, pathPoints, visitedNodes, visitedEdges);
        CoordsAppend(nodes, visitedNodes, path.value);
      }
      outcome := path;
    }
  }

  /** Appending leg `|prev|`'s outcome, and the history it was given, keeps
      both leg-by-leg records and extends the flattened history by that
      leg's nodes. */
  lemma LegsAppend(graph: Option<Graph>, points: seq<Option<Point>>, prev: seq<Option<seq<int>>>,
                   outcome: Option<seq<int>>, prevHistories: seq<seq<int>>, given: seq<int>)
    requires AllLegsOk(graph, points, prev) && LegOk(graph, points, |prev|, outcome)
    requires HistoriesOk(prevHistories, prev) && given == FlattenFound(prev)
    ensures AllLegsOk(graph, points, prev + [outcome])
    ensures HistoriesOk(prevHistories + [given], prev + [outcome])
    ensures FlattenFound(prev + [outcome]) == given + FoundNodes(outcome)
  {
    var outcomes, histories := prev + [outcome], prevHistories + [given];
    assert outcomes[..|outcomes| - 1] == prev;
    assert histories[..|histories| - 1] == prevHistories;
  }

  /** generateRandomPath. `outcomes[i]` is what leg `i` found and
      `histories[i]` the node history leg `i` was given (AllLegsOk and
      HistoriesOk, read pointwise through AllLegsOkMeaning and
      HistoriesOkMeaning); a leg that finds nothing does not stop later legs.
      The final history is all found legs' nodes, the points are their
      positions, and the visited-edge map is symmetric and holds graph edges
      only. */
  method GenerateRandomPath(graph: Option<Graph>, nodes: NodeMap, mainPathPoints: seq<Option<Point>>,
                            h: (int, int) -> real)
    returns (pathPoints: seq<Point>, visitedNodes: seq<int>, visitedEdges: Graph,
             ghost outcomes: seq<Option<seq<int>>>, ghost histories: seq<seq<int>>, ghost costs: seq<real>)
    requires graph.Some? ==> NeighborsHaveCoords(graph.value, nodes)
    requires WaypointsHaveCoords(mainPathPoints, nodes)
    ensures |outcomes| == |mainPathPoints|
    ensures HistoriesOk(histories, outcomes)
    ensures AllLegsOk(graph, mainPathPoints, outcomes)
    ensures AllLegsPriced(mainPathPoints, outcomes, histories, costs, h)
    ensures graph.None? ==> pathPoints == [] && visitedNodes == []
    ensures visitedNodes == FlattenFound(outcomes)
    ensures PointsMatch(nodes, pathPoints, visitedNodes)
    ensures Symmetric(visitedEdges)
    ensures graph.Some? ==> EdgesOfGraph(graph.value, visitedEdges)
  {
    visitedEdges := map[];
    pathPoints := [];
    visitedNodes := [];
    outcomes, histories, costs := [], [], [];
    for index := 0 to |mainPathPoints|
      invariant |outcomes| == index
      invariant HistoriesOk(histories, outcomes)
      invariant AllLegsOk(graph, mainPathPoints, outcomes)
      invariant AllLegsPriced(mainPathPoints, outcomes, histories, costs, h)
      invariant visitedNodes == FlattenFound(outcomes)
      invariant graph.None? ==> visitedNodes == []
      invariant PointsMatch(nodes, pathPoints, visitedNodes)
      invariant Symmetric(visitedEdges)
      invariant graph.Some? ==> EdgesOfGraph(graph.value, visitedEdges)
    {
      ghost var given := visitedNodes;
      ghost var outcome, cost;
      pathPoints, visitedNodes, visitedEdges, outcome, cost :=
        RunLeg(graph, nodes, mainPathPoints, index, h, pathPoints, visitedNodes, visitedEdges);
      LegsAppend(graph, mainPathPoints, outcomes, outcome, histories, given);
      PricedAppend(mainPathPoints, outcomes, outcome, histories, given, costs, cost, h);
      outcomes, histories, costs := outcomes + [outcome], histories + [given], costs + [cost];
    }
  }

  // ---------------------------------------------------------------------------
  // An empty waypoint, as written
  // ---------------------------------------------------------------------------

  /** What one leg can end in when the leg test is the one as written. */
  datatype LegOutcome = Found(path: seq<int>) | NoPath | Throws

  /** One leg as written, with an empty waypoint let through. Its `[2]` is
      undefined, modelled by `undefinedId`, an id that is neither a graph key
      nor a positioned node: `graph[undefined]` and `nodes[undefined]` find
      nothing. The first expansion of a search towards an undefined goal asks
      the heuristic for the goal's position, which throws, as does reading the
      position of a path node that has none. */
  method LegAsWritten(graph: Graph, nodes: NodeMap, point: Option<Point>, next: Option<Point>,
                      visitedNodes: seq<int>, h: (int, int) -> real, undefinedId: int)
    returns (r: LegOutcome)
    requires undefinedId !in nodes && undefinedId !in graph
    requires point.Some? ==> point.value.id in nodes
    requires next.Some? ==> next.value.id in nodes
    ensures point.None? && next.None? ==> r == Throws
    ensures point.None? && next.Some? ==> r == NoPath
    ensures point.Some? && next.None? ==>
      (r == Throws <==> exists nb | nb in Adj(graph, point.value.id) :: nb != point.value.id) &&
      (r != Throws ==> r == NoPath)
    ensures r.Found? ==> point.Some? && next.Some? && forall j | 0 <= j < |r.path| :: r.path[j] in nodes
  {
    var start := if point.Some? then point.value.id else undefinedId;
    var end := if next.Some? then next.value.id else undefinedId;
    if point.Some? && next.None? && exists nb | nb in Adj(graph, start) :: nb != start {
      // start is popped first and not the goal; its unclosed neighbour
      // makes the loop call the heuristic with the undefined goal
      return Throws;
    }
    var path, _ := FindPathAstar(graph, start, end, visitedNodes, h);
    if path.None? {
      return NoPath;
    }
    var p := path.value;
    if point.None? || next.None? {
      // start has no neighbour but itself, so the walk found ends at start
      StuckWalk(graph, p);
    }
    for j := 0 to |p|
      invariant forall i | 0 <= i < j :: p[i] in nodes
    {
      if p[j] !in nodes {
        return Throws;
      }
    }
    r := Found(p);
  }

  /** A walk from a node whose only neighbour, if any, is itself ends there. */
  lemma StuckWalk(g: Graph, p: seq<int>)
    requires IsWalk(g, p)
    requires forall nb | nb in Adj(g, p[0]) :: nb == p[0]
    ensures p[|p| - 1] == p[0]
  {
    forall k | 0 <= k < |Adj(g, p[0])|
      ensures Adj(g, p[0])[k] in {p[0]}
    {
      assert Adj(g, p[0])[k] in Adj(g, p[0]);
    }
    WalkStaysInClosed(g, {p[0]}, p);
    assert p[|p| - 1] in {p[0]};
  }

  /** With both top quadrants empty and no start override, the first and
      second waypoints are both empty, so the first leg pairs two empty
      waypoints. */
  lemma EmptyTopQuadrants(center: Center, quadrants: Quadrants, nodes: NodeMap,
                          startNode: Option<int>, connectedNodes: Option<seq<int>>, picks: seq<nat>)
    requires PicksOk(quadrants, picks)
    requires quadrants.topLeft == [] && quadrants.topRight == []
    requires !Overrides(startNode, connectedNodes)
    ensures var r := MainPathPoints(Some(center), quadrants, nodes, startNode, connectedNodes, picks);
      |r| == 5 && LegRunsAsWritten(Some(map[]), r, 0) && r[0].None? && r[1].None? &&
      !LegRuns(Some(map[]), r, 0)
  {
    assert Corner(0) == TopLeft && Corner(1) == TopRight;
  }
}
