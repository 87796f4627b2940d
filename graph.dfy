/** The junction graph of useGraph.ts: an adjacency list built from segment
    endpoints (addEdge, buildGraph) and the depth-first search that collects
    the nodes connected to a start node (findConnectedMarkers). */
module Graph {
  import opened Wrappers
  import opened Parser

  /** Node id -> neighbour list; a list may hold repeats (parallel edges). */
  type Graph = map<int, seq<int>>

  /** The neighbour list of `n`, empty when `n` has no entry. */
  function Adj(g: Graph, n: int): seq<int>
  {
    if n in g then g[n] else []
  }

  /** The neighbours one edge between `a` and `b` contributes to node `n`:
      `b` to `a`'s list and `a` to `b`'s list, so a self-edge gives `a` twice. */
  function Link(a: int, b: int, n: int): seq<int>
  {
    (if n == a then [b] else []) + (if n == b then [a] else [])
  }

  /** Edge multiplicities agree in both directions: `b` occurs in `a`'s list as
      often as `a` occurs in `b`'s. */
  ghost predicate Symmetric(g: Graph)
  {
    forall a, b :: multiset(Adj(g, a))[b] == multiset(Adj(g, b))[a]
  }

  // ---------------------------------------------------------------------------
  // addEdge and buildGraph
  // ---------------------------------------------------------------------------

  /** addEdge: creates the missing lists, then appends `nodeB` to `nodeA`'s list
      and `nodeA` to `nodeB`'s; no other entry changes. */
  method AddEdge(nodeA: int, nodeB: int, graph: Graph) returns (g: Graph)
    ensures g.Keys == graph.Keys + {nodeA, nodeB}
    ensures forall n :: Adj(g, n) == Adj(graph, n) + Link(nodeA, nodeB, n)
  {
    g := graph;
    if nodeA !in g {
      g := g[nodeA := []];
    }
    if nodeB !in g {
      g := g[nodeB := []];
    }
    g := g[nodeA := g[nodeA] + [nodeB]];
    g := g[nodeB := g[nodeB] + [nodeA]];
  }

  /** One edge contributes symmetric multiplicities. */
  lemma LinkSymmetric(x: int, y: int, a: int, b: int)
    ensures multiset(Link(x, y, a))[b] == multiset(Link(x, y, b))[a]
  {
  }

  /** Adding an edge keeps the graph symmetric. */
  lemma AddEdgeSymmetric(graph: Graph, g: Graph, x: int, y: int)
    requires Symmetric(graph)
    requires forall n :: Adj(g, n) == Adj(graph, n) + Link(x, y, n)
    ensures Symmetric(g)
  {
    forall a, b
      ensures multiset(Adj(g, a))[b] == multiset(Adj(g, b))[a]
    {
      assert multiset(Adj(g, a)) == multiset(Adj(graph, a)) + multiset(Link(x, y, a));
      assert multiset(Adj(g, b)) == multiset(Adj(graph, b)) + multiset(Link(x, y, b));
      LinkSymmetric(x, y, a, b);
    }
  }

  /** Whether buildGraph adds an edge for this node list: it needs two nodes. */
  predicate HasEdge(nodes: seq<int>)
  {
    |nodes| > 1
  }

  /** The neighbours of `n` in the graph built from `segs`, in the order the
      edges are added. */
  function NeighborList(segs: seq<Segment>, n: int): seq<int>
  {
    if segs == [] then []
    else
      var s := segs[|segs| - 1].nodes;
      NeighborList(segs[..|segs| - 1], n) + (if HasEdge(s) then Link(s[0], s[|s| - 1], n) else [])
  }

  /** The nodes that get an entry in the graph built from `segs`: the two
      endpoints of every segment with at least two nodes. */
  ghost function EndpointSet(segs: seq<Segment>): set<int>
  {
    (set k | 0 <= k < |segs| && HasEdge(segs[k].nodes) :: segs[k].nodes[0]) +
    (set k | 0 <= k < |segs| && HasEdge(segs[k].nodes) :: segs[k].nodes[|segs[k].nodes| - 1])
  }

  /** buildGraph: one undirected edge per segment of two or more nodes, between
      its first and last node. */
  method BuildGraph(segments: seq<Segment>) returns (graph: Graph)
    ensures graph.Keys == EndpointSet(segments)
    ensures forall n :: Adj(graph, n) == NeighborList(segments, n)
    ensures Symmetric(graph)
  {
    graph := map[];
    for k := 0 to |segments|
      invariant graph.Keys == EndpointSet(segments[..k])
      invariant forall n :: Adj(graph, n) == NeighborList(segments[..k], n)
      invariant Symmetric(graph)
    {
      var nodeIds := segments[k].nodes;
      assert segments[..k + 1] == segments[..k] + [segments[k]];
      EndpointSetSnoc(segments[..k], segments[k]);
      NeighborListSnoc(segments[..k], segments[k]);
      if |nodeIds| > 1 {
        var g := AddEdge(nodeIds[0], nodeIds[|nodeIds| - 1], graph);
        AddEdgeSymmetric(graph, g, nodeIds[0], nodeIds[|nodeIds| - 1]);
        graph := g;
      }
    }
    assert segments[..|segments|] == segments;
  }

  lemma NeighborListSnoc(segs: seq<Segment>, s: Segment)
    ensures forall n ::
      NeighborList(segs + [s], n) ==
      NeighborList(segs, n) + (if HasEdge(s.nodes) then Link(s.nodes[0], s.nodes[|s.nodes| - 1], n) else [])
  {
    assert (segs + [s])[..|segs|] == segs;
  }

  lemma EndpointSetSnoc(segs: seq<Segment>, s: Segment)
    ensures EndpointSet(segs + [s]) ==
      EndpointSet(segs) + (if HasEdge(s.nodes) then {s.nodes[0], s.nodes[|s.nodes| - 1]} else {})
  {
    var t := segs + [s];
    assert forall k | 0 <= k < |segs| :: t[k] == segs[k];
    assert t[|segs|] == s;
  }

  /** `b` is a neighbour of `a` exactly when some segment of two or more nodes
      runs between them, in either direction. */
  lemma {:induction false} NeighborListEdge(segs: seq<Segment>, a: int, b: int)
    ensures b in NeighborList(segs, a) <==>
      exists k :: 0 <= k < |segs| && EdgeBetween(segs[k].nodes, a, b)
  {
    if segs != [] {
      var init := segs[..|segs| - 1];
      var s := segs[|segs| - 1].nodes;
      NeighborListEdge(init, a, b);
      if b in NeighborList(segs, a) {
        if b in NeighborList(init, a) {
          var k :| 0 <= k < |init| && EdgeBetween(init[k].nodes, a, b);
          assert segs[k] == init[k];
        } else {
          assert EdgeBetween(segs[|segs| - 1].nodes, a, b);
        }
      }
      if exists k :: 0 <= k < |segs| && EdgeBetween(segs[k].nodes, a, b) {
        var k :| 0 <= k < |segs| && EdgeBetween(segs[k].nodes, a, b);
        if k < |init| {
          assert init[k] == segs[k];
        }
      }
    }
  }

  /** A node list of two or more nodes whose endpoints are `a` and `b`. */
  predicate EdgeBetween(nodes: seq<int>, a: int, b: int)
  {
    HasEdge(nodes) &&
    ((nodes[0] == a && nodes[|nodes| - 1] == b) || (nodes[0] == b && nodes[|nodes| - 1] == a))
  }

  // ---------------------------------------------------------------------------
  // Walks and reachability
  // ---------------------------------------------------------------------------

  /** A non-empty node sequence each of whose steps follows an adjacency entry. */
  predicate IsWalk(g: Graph, p: seq<int>)
  {
    |p| > 0 && forall i {:trigger Adj(g, p[i])} | 0 <= i < |p| - 1 :: p[i + 1] in Adj(g, p[i])
  }

  ghost predicate Reachable(g: Graph, a: int, b: int)
  {
    exists p {:trigger IsWalk(g, p)} :: IsWalk(g, p) && p[0] == a && p[|p| - 1] == b
  }

  lemma ReachableRefl(g: Graph, a: int)
    ensures Reachable(g, a, a)
  {
    assert IsWalk(g, [a]);
  }

  /** A walk from a neighbour of `a` extends to a walk from `a`. */
  lemma ReachableStep(g: Graph, a: int, b: int, c: int)
    requires b in Adj(g, a) && Reachable(g, b, c)
    ensures Reachable(g, a, c)
  {
    var p :| IsWalk(g, p) && p[0] == b && p[|p| - 1] == c;
    var q := [a] + p;
    assert forall i | 0 < i < |q| :: q[i] == p[i - 1];
    assert IsWalk(g, q);
  }

  /** Every neighbour of a member of `c` is in `c`. */
  ghost predicate ClosedUnderAdj(g: Graph, c: set<int>)
  {
    forall x | x in c :: forall k | 0 <= k < |Adj(g, x)| :: Adj(g, x)[k] in c
  }

  /** A set closed under adjacency holds every node of a walk that starts in it. */
  lemma {:induction false} WalkStaysInClosed(g: Graph, c: set<int>, p: seq<int>)
    requires ClosedUnderAdj(g, c) && IsWalk(g, p) && p[0] in c
    ensures forall i | 0 <= i < |p| :: p[i] in c
  {
    if |p| > 1 {
      var q := p[1..];
      assert p[1] in Adj(g, p[0]);
      assert IsWalk(g, q) by {
        forall i | 0 <= i < |q| - 1
          ensures q[i + 1] in Adj(g, q[i])
        {
          assert q[i] == p[i + 1] && q[i + 1] == p[i + 2];
        }
      }
      WalkStaysInClosed(g, c, q);
      forall i | 0 <= i < |p|
        ensures p[i] in c
      {
        if i > 0 {
          assert p[i] == q[i - 1];
        }
      }
    }
  }

  // ---------------------------------------------------------------------------
  // findConnectedMarkers
  // ---------------------------------------------------------------------------

  /** Every node in `g` together with every node in a neighbour list. */
  ghost function Nodes(g: Graph): set<int>
  {
    g.Keys + set a, k | a in g && 0 <= k < |g[a]| :: g[a][k]
  }

  predicate Distinct(s: seq<int>)
  {
    forall i, j | 0 <= i < j < |s| :: s[i] != s[j]
  }

  /** The visited map and the result list hold the same nodes, each once:
      the last marker is visited, and the rest track the other visited nodes. */
  ghost predicate Tracks(visited: set<int>, markers: seq<int>)
    decreases |markers|
  {
    if markers == [] then visited == {}
    else
      var x := markers[|markers| - 1];
      x in visited && Tracks(visited - {x}, markers[..|markers| - 1])
  }

  lemma {:induction false} TracksMeaning(visited: set<int>, markers: seq<int>)
    requires Tracks(visited, markers)
    ensures Distinct(markers)
    ensures forall y :: y in visited <==> y in markers
    decreases |markers|
  {
    if markers != [] {
      var x := markers[|markers| - 1];
      var init := markers[..|markers| - 1];
      TracksMeaning(visited - {x}, init);
      assert markers == init + [x];
      forall i, j | 0 <= i < j < |markers|
        ensures markers[i] != markers[j]
      {
        if j == |markers| - 1 {
          assert markers[i] in init;
        } else {
          assert markers[i] == init[i] && markers[j] == init[j];
        }
      }
    }
  }

  /** Every visited node off the stack has all its neighbours visited. */
  ghost predicate Finished(g: Graph, visited: set<int>, stack: set<int>)
  {
    forall x, k | x in visited && x !in stack && 0 <= k < |Adj(g, x)| :: Adj(g, x)[k] in visited
  }

  ghost predicate AllReachable(g: Graph, n: int, s: set<int>)
  {
    forall x {:trigger Reachable(g, n, x)} | x in s :: Reachable(g, n, x)
  }

  lemma TracksAppend(visited: set<int>, markers: seq<int>, x: int)
    requires Tracks(visited, markers) && x !in visited
    ensures Tracks(visited + {x}, markers + [x])
  {
    assert (markers + [x])[..|markers|] == markers;
    assert (visited + {x}) - {x} == visited;
  }

  /** Nodes reachable from a neighbour of `n` are reachable from `n`. */
  lemma AllReachableStep(g: Graph, n: int, nb: int, s: set<int>)
    requires nb in Adj(g, n) && AllReachable(g, nb, s)
    ensures AllReachable(g, n, s)
  {
    forall x | x in s
      ensures Reachable(g, n, x)
    {
      ReachableStep(g, n, nb, x);
    }
  }

  lemma Shrinks(universe: set<int>, a: set<int>, b: set<int>, x: int)
    requires a <= b && x in b && x !in a && x in universe
    ensures |universe - b| < |universe - a|
  {
    var rest := (universe - a) - (universe - b);
    assert universe - a == (universe - b) + rest;
    assert (universe - b) * rest == {};
    assert x in rest;
  }

  /** `universe` holds every neighbour in `g`. */
  ghost predicate InUniverse(g: Graph, universe: set<int>)
  {
    forall x, k | 0 <= k < |Adj(g, x)| :: Adj(g, x)[k] in universe
  }

  lemma NodesInUniverse(g: Graph, extra: set<int>)
    ensures InUniverse(g, Nodes(g) + extra)
  {
    forall x, k | 0 <= k < |Adj(g, x)|
      ensures Adj(g, x)[k] in Nodes(g)
    {
      assert x in g;
    }
  }

  /** The recursive `dfs` of findConnectedMarkers: `visited` and `markers` are
      the closure's visited map and result list, threaded through the calls.
      `stack` (ghost) holds the nodes whose neighbour loop is still running;
      every other visited node already has all its neighbours visited. */
  method Dfs(g: Graph, nodeId: int, visited: set<int>, markers: seq<int>,
             ghost stack: set<int>, ghost universe: set<int>)
    returns (visited': set<int>, markers': seq<int>)
    requires InUniverse(g, universe) && nodeId in universe && visited <= universe
    requires stack <= visited && Tracks(visited, markers) && Finished(g, visited, stack)
    ensures nodeId in visited' && visited <= visited' <= universe
    ensures Tracks(visited', markers') && markers <= markers' && Finished(g, visited', stack)
    ensures AllReachable(g, nodeId, visited' - visited)
    ensures nodeId !in visited ==> |markers| < |markers'| && markers'[|markers|] == nodeId
    ensures nodeId !in visited && nodeId !in g ==> markers' == markers + [nodeId]
    decreases |universe - visited|
  {
    if nodeId in visited {
      return visited, markers;
    }
    TracksAppend(visited, markers, nodeId);
    visited' := visited + {nodeId};
    markers' := markers + [nodeId];
    ReachableRefl(g, nodeId);
    var neighbors := Adj(g, nodeId);
    ghost var inner := stack + {nodeId};
    for k := 0 to |neighbors|
      invariant nodeId in visited' && visited + {nodeId} <= visited' <= universe
      invariant Tracks(visited', markers') && markers + [nodeId] <= markers'
      invariant Finished(g, visited', inner)
      invariant forall j | 0 <= j < k :: neighbors[j] in visited'
      invariant AllReachable(g, nodeId, visited' - visited)
      invariant nodeId !in g ==> markers' == markers + [nodeId]
    {
      ghost var before := visited';
      Shrinks(universe, visited, visited', nodeId);
      visited', markers' := Dfs(g, neighbors[k], visited', markers', inner, universe);
      AllReachableStep(g, nodeId, neighbors[k], visited' - before);
      assert visited' - visited == (before - visited) + (visited' - before);
    }
    assert (markers + [nodeId])[|markers|] == nodeId;
  }

  /** findConnectedMarkers: the nodes connected to `startNodeId`, in the order
      the search first reaches them. A missing graph gives only the start. */
  method FindConnectedMarkers(startNodeId: int, localGraph: Option<Graph>) returns (markers: seq<int>)
    ensures |markers| > 0 && markers[0] == startNodeId
    ensures Distinct(markers)
    ensures forall x :: x in markers <==> (localGraph.Some? && Reachable(localGraph.value, startNodeId, x)) || x == startNodeId
    ensures localGraph.None? || startNodeId !in localGraph.value ==> markers == [startNodeId]
  {
    var g := if localGraph.Some? then localGraph.value else map[];
    var visited;
    NodesInUniverse(g, {startNodeId});
    visited, markers := Dfs(g, startNodeId, {}, [], {}, Nodes(g) + {startNodeId});
    TracksMeaning(visited, markers);
    assert ClosedUnderAdj(g, visited);
    forall x | Reachable(g, startNodeId, x)
      ensures x in markers
    {
      var p :| IsWalk(g, p) && p[0] == startNodeId && p[|p| - 1] == x;
      WalkStaysInClosed(g, visited, p);
      assert x in visited;
    }
  }
}
