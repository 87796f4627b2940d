# randowalker core, modelled in Dafny

randowalker builds a random walking loop on a street map. It has five steps:

1. A geodata response is split into a node map and a way map (`parser.ts`).
2. Each way is cut at its junctions into segments.
3. The segment endpoints become an undirected junction graph (`useGraph.ts`).
4. The nodes connected to a start node are classified into four quadrants around their centre of mass. One waypoint is picked per quadrant, and the first is repeated to close the loop (`helpers.ts`).
5. The route joins consecutive waypoints with an A* search. A path that revisits nodes of earlier legs costs more (`findPathAstar`, and `generateRandomPath` in `App.tsx`).

The project models these steps. It has six modules:

- `Parser` (`parser.dfy`): extractNodesAndWays and extractSegmentsAndPoints. `Object.entries` visits array-index keys (0 through 4294967294) in ascending order, and the model visits every way id in ascending order (`SortedIds`). Segments are kept as a list in insertion order.
- `Graph` (`graph.dfy`): addEdge, buildGraph, and the depth-first findConnectedMarkers.
- `PriorityQueues` (`priority_queue.dfy`): the heap class `PriorityQueue`. It is a class with `elements` and `count` fields that its methods update.
- `Search` (`search.dfy`): findPathAstar, with the open-set entries kept as duplicates and re-expansion on stale pops, as the source does. The heuristic is a parameter `h`.
- `Helpers` (`helpers.dfy`): determineNodePosition, getNodeCoordinates, getRandomPointFromQuadrant, generateQuadrants and generateMainPathPoints. The random index is a parameter.
- `Route` (`route.dfy`): generateRandomPath.

Conventions:

- An empty waypoint `[]` is `None`.
- A JavaScript `null` argument is `None`.
- A node id is an `int`.
- Coordinates and costs are `real`, exact rationals.

## Model

| member | source | states |
|---|---|---|
| Parser.ExtractNodesAndWays | src/util/parser.ts:3-26 | A missing response or a missing `elements` gives two empty maps. Otherwise the node map has exactly the ids of node elements, each bound to the position of its last occurrence. The way map has exactly the ids of way elements, each bound to the node list of its last occurrence. Other element types are ignored. |
| Parser.NodeRecorded | src/util/parser.ts:13-17 | Storing a node element extends the node map invariant by one element. |
| Parser.WayRecorded | src/util/parser.ts:18-21 | Storing a way element extends the way map invariant by one element. |
| Parser.ExtractExample | tests/parser.test.ts:7-26 | The unit test's response (node 1 at (1, 1), way 2 over [1, 2]) determines exactly the maps the test expects. |
| Parser.Min | src/util/parser.ts:29 | The least id of a non-empty set: it is a member and no larger than any member. |
| Parser.SortedIds | src/util/parser.ts:29 | The order in which `Object.entries` visits array-index keys: every key exactly once, strictly ascending. |
| Parser.SortedCons | src/util/parser.ts:29 | The least key in front of the ascending others is the ascending list of all keys. |
| Parser.SortedPair | src/util/parser.ts:29 | Keys {1, 2} are visited as [1, 2]. |
| Parser.WayLists | src/util/parser.ts:32-34 | The node lists of the visited ways, one per id, in visiting order. |
| Parser.CountsOfOccurrences | src/util/parser.ts:31-42 | The counting loop's dictionary has a key exactly for the nodes that occur. Each value is the node's number of occurrences, counting repeats within one way. |
| Parser.CountOccurrences | src/util/parser.ts:31-42 | The nested counting loops compute that dictionary over all ways in `Object.entries` order. The keys are the occurring nodes and the values their occurrence counts. |
| Parser.FlattenSnoc | src/util/parser.ts:32-35 | Counting one more way continues over that way's node list. |
| Parser.FlattenNext | src/util/parser.ts:32-35 | The flattened lists of the first w+1 ways are those of the first w, then way w's list. |
| Parser.CountsOfPrefix | src/util/parser.ts:35-40 | Counting one more node bumps that node's count: set to 1 when the entry is missing or zero, else incremented. |
| Parser.SegmentWay | src/util/parser.ts:47-63 | The per-way cutting loop emits exactly the reference segment list CutWay: one `${id}-${i}` segment ending at every junction index `i`, then the trailing `${id}-X`. |
| Parser.SegmentWays | src/util/parser.ts:45-64 | Cutting every way in turn yields the ways' segment lists concatenated in visiting order. |
| Parser.SegmentsOfSnoc | src/util/parser.ts:45-64 | One more way appends exactly that way's segments. |
| Parser.ExtractSegmentsAndPoints | src/util/parser.ts:28-67 | The result is the segments of every way, in `Object.entries` order, cut at the nodes that occur more than once. |
| Parser.SortedIdsInMap | src/util/parser.ts:29 | Every visited id is a key of the way map. |
| Parser.NodeLists | src/util/parser.ts:55-63 | The node lists of the emitted segments, one per segment. |
| Parser.DropFirstsOfGlue | src/util/parser.ts:55-57 | Dropping the shared first nodes of the later segments is the glued list without its first node. |
| Parser.CutFromFirst | src/util/parser.ts:55-57 | The next segment begins with the node at the current start index. |
| Parser.CutFromGlue | src/util/parser.ts:48-63 | Gluing the remaining segments gives the node list from `start` onward. |
| Parser.CutWayGlue | src/util/parser.ts:48-63 | Round trip: gluing a way's segments, with every later segment's shared first node dropped, gives back the way's node list. |
| Parser.CutFromNonEmpty | src/util/parser.ts:55-62 | Every remaining segment of a non-empty way is non-empty. |
| Parser.CutWayNonEmpty | src/util/parser.ts:55-62 | Every segment of a non-empty way is non-empty. |
| Parser.CutFromCount | src/util/parser.ts:50-63 | The remaining segments are one per junction position still ahead, plus one. |
| Parser.CutWayCount | src/util/parser.ts:50-63 | A way yields one segment per junction position plus the trailing one. |
| Parser.NoJunctionWholeWay | src/util/parser.ts:52-63 | A way without junction nodes is a single `${id}-X` segment holding the whole way. |
| Parser.NoJunctionsCounted | src/util/parser.ts:52 | No junction position means a junction count of zero. |
| Parser.CutFromInterior | src/util/parser.ts:52-57 | No node strictly inside a remaining segment is a junction. |
| Parser.CutWayInterior | src/util/parser.ts:52-57 | No node strictly inside any segment of a way is a junction. |
| Parser.CutFromShared | src/util/parser.ts:55-57 | Each remaining segment ends with the node the next one starts with. |
| Parser.CutWayShared | src/util/parser.ts:55-62 | Consecutive segments of a way share exactly their cut node. |
| Parser.CutFromIds | src/util/parser.ts:52-63 | The last remaining segment is `${id}-X`. Every earlier one is `${id}-${i}` for a junction index `i` still ahead, and ends at node `i`. |
| Parser.CutFromIncreasing | src/util/parser.ts:50-58 | The cut indices of the remaining segments strictly increase. |
| Parser.CutWayIds | src/util/parser.ts:52-63 | A way has exactly one trailing `-X` segment, and it comes last. The others name junction indices that strictly increase, so a way's segment ids are distinct. |
| Parser.SegmentsOfWays | src/util/parser.ts:45-64 | Every segment names a visited way. |
| Parser.SegmentsOfDistinct | src/util/parser.ts:45-64 | Segments of distinct ways have distinct ids. |
| Parser.SegmentsDistinct | src/util/parser.ts:44-66 | No two emitted segments share an id, so no entry of the result overwrites another. |
| Parser.SegmentsOfWay | src/util/parser.ts:44-66 | For every way, its emitted segments glue back to its node list. |
| Parser.ExampleCountsStart | tests/parser.test.ts:27-45 | The counts of the first three nodes of the test's ways. |
| Parser.ExampleCountsFirst | tests/parser.test.ts:27-45 | The counts of the test's first way. |
| Parser.ExampleCountsMiddle | tests/parser.test.ts:27-45 | The counts of the first seven test nodes. |
| Parser.ExampleCountsSecond | tests/parser.test.ts:27-45 | After eight test nodes, node 3 has been counted twice. |
| Parser.ExampleCounts | tests/parser.test.ts:27-45 | In the test's ways, node 3 occurs twice and every other node once. |
| Parser.ExampleCut | tests/parser.test.ts:27-45 | A five-node way whose only junction is in the middle gives `-2` over the first three nodes and `-X` over the last three. |
| Parser.ExampleFlatten | tests/parser.test.ts:27-45 | The test's ways flatten to [1,2,3,4,5,6,7,3,8,9]. |
| Parser.ExamplePair | tests/parser.test.ts:27-45 | Two ways give the first way's segments, then the second's. |
| Parser.ExampleSegmentsOf | tests/parser.test.ts:27-45 | With the test's counts, the segments are `1-2`, `1-X`, `2-2` and `2-X` with the expected node lists. |
| Parser.SegmentsExample | tests/parser.test.ts:27-45 | The unit test: ways 1 = [1,2,3,4,5] and 2 = [6,7,3,8,9] give exactly `1-2` [1,2,3], `1-X` [3,4,5], `2-2` [6,7,3] and `2-X` [3,8,9], in that order. |
| Graph.AddEdge | src/util/useGraph.ts:6-15 | Missing entries for both endpoints are created. `nodeB` is appended to `nodeA`'s list and `nodeA` to `nodeB`'s, so a self-edge appears twice. No other list changes. |
| Graph.LinkSymmetric | src/util/useGraph.ts:13-14 | One edge adds `b` to `a`'s list as often as it adds `a` to `b`'s. |
| Graph.AddEdgeSymmetric | src/util/useGraph.ts:6-15 | addEdge keeps the adjacency lists symmetric, multiplicities included. |
| Graph.BuildGraph | src/util/useGraph.ts:17-30 | Keys are exactly the endpoints of segments with more than one node. Each node's list is its reference neighbour list over the segments, in order. The graph is symmetric. |
| Graph.NeighborListSnoc | src/util/useGraph.ts:20-26 | One more segment appends its endpoint edge, if it has one, to the neighbour lists. |
| Graph.EndpointSetSnoc | src/util/useGraph.ts:20-26 | One more segment of more than one node adds its two endpoints to the keys. |
| Graph.NeighborListEdge | src/util/useGraph.ts:17-30 | `b` is a neighbour of `a` exactly when some segment runs between `a` and `b`, in either direction. |
| Graph.ReachableRefl | src/util/useGraph.ts:32-50 | Every node reaches itself. |
| Graph.ReachableStep | src/util/useGraph.ts:41-43 | A neighbour's reachable nodes are reachable. |
| Graph.WalkStaysInClosed | src/util/useGraph.ts:32-50 | A walk that starts in a set closed under adjacency stays in it. |
| Graph.TracksMeaning | src/util/useGraph.ts:33-39 | The markers are duplicate-free and are exactly the visited nodes. |
| Graph.TracksAppend | src/util/useGraph.ts:37-39 | Marking an unvisited node keeps markers and visited set in step. |
| Graph.AllReachableStep | src/util/useGraph.ts:41-43 | Nodes reachable from a neighbour are reachable from the node. |
| Graph.NodesInUniverse | src/util/useGraph.ts:32-50 | The graph's nodes and neighbours, plus any extra set, bound the search. |
| Graph.Dfs | src/util/useGraph.ts:36-46 | `nodeId` ends up visited. An unvisited node is marked next, and every node marked by the call is reachable from it. The visited set and the markers stay in step, and every finished node has all its neighbours visited. A node without a list is marked alone. |
| Graph.FindConnectedMarkers | src/util/useGraph.ts:32-50 | The markers start with the start node and have no repeats. They are exactly the nodes reachable from it, or the start node alone when the graph is null or has no entry for it. |
| PriorityQueues.ParentChild | src/util/useGraph.ts:155-175 | The parent formula `floor((n+1)/2)-1` inverts the child indices `2n+1` and `2n+2`. |
| PriorityQueues.HeapRootMin | src/util/useGraph.ts:131-145 | In a heap-ordered list the root costs no more than any entry. |
| PriorityQueues.HeapMin | src/util/useGraph.ts:136 | The root of a non-empty heap is a least-cost entry. |
| PriorityQueues.Swap | src/util/useGraph.ts:162-194 | Exchanging two entries changes nothing else and keeps the multiset. |
| PriorityQueues.FirstIndex | src/util/useGraph.ts:117 | The first index holding an entry for the node, as Array.find scans. It is none exactly when no entry holds the node. |
| PriorityQueues.PriorityQueue.constructor | src/util/useGraph.ts:107-110 | An empty queue with count 0. |
| PriorityQueues.PriorityQueue.Contains | src/util/useGraph.ts:112-114 | True exactly when some entry is for the node. |
| PriorityQueues.PriorityQueue.GetCost | src/util/useGraph.ts:116-119 | Nothing exactly when no entry is for the node. Otherwise the cost of the first entry for it. |
| PriorityQueues.PriorityQueue.GetCount | src/util/useGraph.ts:127-129 | The number of pushes, which pops do not lower. |
| PriorityQueues.PriorityQueue.IsEmpty | src/util/useGraph.ts:147-149 | True exactly when there are no entries. |
| PriorityQueues.PriorityQueue.Push | src/util/useGraph.ts:121-125 | Adds exactly the element, keeps the heap order and counts one more push. |
| PriorityQueues.PriorityQueue.Pop | src/util/useGraph.ts:131-145 | On an empty queue, nothing (the source throws). Otherwise it returns an entry of least cost and removes exactly that entry once. The heap order is kept and the count is unchanged. |
| PriorityQueues.PriorityQueue.BubbleUp | src/util/useGraph.ts:151-166 | Restores the heap order when only entry `n` may be cheaper than its parent. The multiset is kept. |
| PriorityQueues.PriorityQueue.SinkDown | src/util/useGraph.ts:168-197 | Restores the heap order when only entry `n` may be dearer than its children. The multiset and the count are kept. |
| PriorityQueues.RootReplaced | src/util/useGraph.ts:137-140 | Moving the last entry to the root removes the old root once and leaves only the root out of order. |
| PriorityQueues.BubbleStep | src/util/useGraph.ts:154-165 | One bubbleUp swap moves the exception one level up. |
| PriorityQueues.SinkDone | src/util/useGraph.ts:191 | When no child is cheaper, the heap is whole. |
| PriorityQueues.SinkStep | src/util/useGraph.ts:173-195 | One sinkDown swap with the cheaper child moves the exception one level down. |
| Search.StepCost | src/util/useGraph.ts:224-228 | A step adds `11 h` to the cost when the neighbour was visited by an earlier leg, else `h + 1`. It never lowers the cost when `h >= 0`. |
| Search.PathCostSnoc | src/util/useGraph.ts:223-228 | The cost of a path extended by one node is the step cost from the path's cost, with the heuristic of the node it leaves and the penalty decided by the history. |
| Search.HistoryRaisesCost | src/util/useGraph.ts:224-228 | A history holding more nodes never makes a path cheaper, as long as every heuristic value along it is at least one tenth. |
| Search.RevisitPenalty | src/util/useGraph.ts:225-228 | A revisited neighbour costs more than a fresh one exactly when `10 h > 1`. |
| Search.CostOrInfinity | src/util/useGraph.ts:232 | `getCost(n) \|\| Infinity`: infinity (none) exactly when there is no entry or the recorded cost is 0. |
| Search.StaleCountAppend | src/util/useGraph.ts:212-238 | Entries for closed nodes count additively over concatenation. |
| Search.StaleCountPerm | src/util/useGraph.ts:212-238 | The number of entries for closed nodes depends only on the multiset. |
| Search.RemoveAt | src/util/useGraph.ts:213 | Removing one entry removes it from the multiset and from the stale count. |
| Search.StaleAfterPop | src/util/useGraph.ts:213 | A pop lowers the stale count by one exactly when the popped node was closed. |
| Search.HasEntryAfterPop | src/util/useGraph.ts:213 | A pop keeps the entries for every other node. |
| Search.HasEntryAfterPush | src/util/useGraph.ts:234 | A push keeps every entry and adds one for the pushed node. |
| Search.HasEntrySub | src/util/useGraph.ts:221-237 | A node with an entry keeps one when entries are only added. |
| Search.Consider | src/util/useGraph.ts:222-236 | An entry for the neighbour, with the current path extended by it and the step cost, is pushed exactly when the neighbour is not closed and the open set either has no entry for it or has its first entry at a cost that, read as infinity when 0, exceeds the new cost. Nothing else is pushed. Afterwards the neighbour is closed or has an entry, and the heap order is kept. |
| Search.ConsiderAll | src/util/useGraph.ts:221-237 | After the neighbour loop every neighbour is closed or has an entry. Each unclosed neighbour that had no entry before has one among the pushes. The open set grows by the pushes only, each for an unclosed neighbour with the extended path and the step cost. |
| Search.FreshNeighbourPushed | src/util/useGraph.ts:231-236 | A neighbour with no entry from before the loop gets one among the pushes once it has been considered, whether the open set found an earlier push for it or none. |
| Search.Expand | src/util/useGraph.ts:221-237 | After expanding the current node, every neighbour is closed or has an entry, and every unclosed neighbour that had no entry has one among the pushes. The open set grows by the pushed entries only, each for an unclosed neighbour, with the current path extended and the step cost. Every entry's path is a duplicate-free walk over closed nodes from the start. The stale count is unchanged. |
| Search.CoveredKept | src/util/useGraph.ts:221-237 | Neighbours already covered stay covered as entries are added. |
| Search.FrontierClose | src/util/useGraph.ts:220-237 | Once all neighbours of the current node are covered, every closed node has all its neighbours closed or open. |
| Search.StaleCountFresh | src/util/useGraph.ts:230-235 | Entries for unclosed nodes add nothing to the stale count. |
| Search.AddedKeeps | src/util/useGraph.ts:221-237 | The entries the neighbour loop pushes keep the open-set invariants. |
| Search.NewEntryOk | src/util/useGraph.ts:223 | Extending the current path by an unclosed neighbour gives a valid entry at any cost. |
| Search.CloseAndExpand | src/util/useGraph.ts:220-237 | Closing the popped node and expanding it keeps the invariants. Either one more node is closed, or the pop was stale and the stale count dropped. |
| Search.PopKeeps | src/util/useGraph.ts:213-220 | Popping and closing the current node keeps the open-set invariants. |
| Search.PricedAfterPop | src/util/useGraph.ts:213 | After a pop, the popped entry and the entries left each cost their path's `PathCost` under the history. |
| Search.PricedKeeps | src/util/useGraph.ts:221-237 | Every entry the neighbour loop pushes costs its path's `PathCost` under the history, so every open entry still does. |
| Search.Exhausted | src/util/useGraph.ts:212-240 | An empty open set with the start closed and the end not closed means the end is unreachable. |
| Search.StartClosed | src/util/useGraph.ts:220 | Once any entry's node is closed, the start is closed. |
| Search.FindPathAstar | src/util/useGraph.ts:200-241 | A returned path is a duplicate-free walk from `start` to `end`. Its entry's cost is the path's `PathCost` under the `visitedNodes` passed in. `start == end` returns `[start]`. `null` only when `end` is unreachable, so a reachable end is always found. |
| Helpers.DeterminePosition | src/util/helpers.ts:89-94 | "top" exactly when the latitude is strictly below the centre's. "left" exactly when the longitude is strictly below the centre's. |
| Helpers.PositionUnique | src/util/helpers.ts:89-94 | The two comparisons determine the position. |
| Helpers.GetNodeCoordinates | src/util/helpers.ts:96-98 | The node's own latitude and longitude, with its id. |
| Helpers.GetRandomPoint | src/util/helpers.ts:100-104 | The empty entry exactly for an empty quadrant. Otherwise the entry at the random index. |
| Helpers.GenerateQuadrants | src/util/helpers.ts:53-87 | Four empty lists when the nodes or the centre are null. Otherwise each quadrant is the coordinates of the connected nodes in it, in input order. |
| Helpers.PlacedSizes | src/util/helpers.ts:67-84 | The four quadrant sizes add up to the number of connected nodes. |
| Helpers.PlacedMembers | src/util/helpers.ts:67-84 | A point is in quadrant `p` exactly when it is the coordinates of a connected node positioned in `p`. |
| Helpers.ExactlyOneQuadrant | src/util/helpers.ts:67-84 | Each connected node's entry is in its own quadrant and in no other. |
| Helpers.PlacedAppend | src/util/helpers.ts:67-84 | Classifying a concatenation concatenates the classifications, so order is kept. |
| Helpers.Corner | src/util/helpers.ts:14-19 | Slot `k` picks from top-left, top-right, bottom-right, bottom-left, and Slot inverts it. |
| Helpers.Slot | src/util/helpers.ts:24-37 | The override slot of each position: 0, 1, 2 or 3. |
| Helpers.SlotCorner | src/util/helpers.ts:14-37 | The override slot of a position is the slot that picks from that position's quadrant. |
| Helpers.GenerateMainPathPoints | src/util/helpers.ts:5-43 | The waypoint list is the reference MainPathPoints: four picks, the start node's slot overwritten, the first pushed again. |
| Helpers.MainPathShape | src/util/helpers.ts:5-43 | No centre gives no waypoints. Otherwise there are five, the last repeating the first. Each slot is its quadrant's pick, or the start node for the start node's slot. |
| Helpers.StartOverride | src/util/helpers.ts:21-37 | With the override, the start node's slot holds the start node and the other slots hold their picks. |
| Helpers.TopLeftStartClosesLoop | src/util/helpers.ts:21-40 | A top-left start node begins and ends the loop. |
| Helpers.ZeroStartIgnored | src/util/helpers.ts:21 | A start id of 0 is falsy and never overrides a slot. |
| Route.CoordsMeaning | src/App.tsx:137-141 | Point `j` is the position and id of node `j`. |
| Route.CoordsAppend | src/App.tsx:135-141 | The points of a concatenation are the concatenated points. |
| Route.WalkHasCoords | src/App.tsx:137-141 | A walk from a positioned node visits positioned nodes only. |
| Route.FlattenFoundAppend | src/App.tsx:124-136 | The node history is only ever appended to. |
| Route.SkippedLegAddsNothing | src/App.tsx:134 | A leg that finds nothing adds nothing to the history. |
| Route.RecordPath | src/App.tsx:135-152 | The history grows by the path's nodes and the points by their coordinates. The edge map stays symmetric and stays a set of graph edges. |
| Route.RecordStep | src/App.tsx:142-151 | The step into `path[index]` appends each endpoint to the other's list. It keeps symmetry and graph edges. |
| Route.StepEdgeOfGraph | src/App.tsx:142-151 | A step of a walk records an edge of the graph. |
| Route.AllLegsOkMeaning | src/App.tsx:125-155 | Every leg's outcome is correct: a found path is a duplicate-free walk between its waypoints, and nothing is found only when no walk exists. |
| Route.HistoriesOkMeaning | src/App.tsx:124-136 | Leg `i` was passed the nodes of every earlier found leg, in order. |
| Route.RunLeg | src/App.tsx:126-154 | One leg's outcome is correct. A found path was priced by the search with the history this leg was handed. Only a found path grows the history, the points and the edges. |
| Route.AllLegsPricedMeaning | src/App.tsx:125-133 | Every found leg carries the cost the search gave it under the history that leg received. |
| Route.PricedAppend | src/App.tsx:125-133 | Appending one priced leg keeps every leg priced. |
| Route.LegCostsFromHistory | src/App.tsx:124-133 | Each found leg was priced by the search with the nodes of every earlier found leg as its history. |
| Route.LegsAppend | src/App.tsx:125-155 | Appending one leg keeps both per-leg records and extends the history by that leg's nodes. |
| Route.GenerateRandomPath | src/App.tsx:120-158 | Every leg's outcome is correct. Each leg got the history of the earlier found legs, and its found path carries the cost the search gave it under that history. The final history is all found legs' nodes, and the points are their positions in order. No graph gives nothing. The edge map is symmetric and holds graph edges only. |
| Route.LegAsWritten | src/App.tsx:126-141 | The leg as written, with `undefined` an id that is neither a graph key nor a positioned node. Two empty waypoints throw. An empty start gives no path. An empty goal throws exactly when the start has a neighbour other than itself, since the heuristic then reads the goal's position, and gives no path otherwise. A completed leg joins two present waypoints and gives positioned nodes only. |
| Route.StuckWalk | src/util/useGraph.ts:221 | A walk from a node with no neighbour but itself ends at that node. |
| Route.EmptyTopQuadrants | src/util/helpers.ts:14-40 | With both top quadrants empty and no override, waypoints 0 and 1 are both empty. The test as written still runs that first leg, and the model's test does not. |

## Left out

- The haversine heuristic and distance (`src/util/useGraph.ts:243-266`) use floating-point trigonometry. The search takes the heuristic as an arbitrary function `h`.
- A heuristic call with an undefined goal looks up a missing node (`src/util/useGraph.ts:245`) and throws when reading its latitude (`src/util/useGraph.ts:253`). This happens when a leg's end waypoint is empty and its start has a neighbour other than itself. An empty start waypoint does not crash: `graph[undefined] || []` (`src/util/useGraph.ts:221`) gives no neighbours and the search returns null. `Search.FindPathAstar` takes `h` as a total function, so it does not capture the crash. `Route.LegAsWritten` models it, in the leg before the search.
- Costs are JavaScript doubles in the source. The model adds them exactly (`src/util/useGraph.ts:224-228`), so it does not capture float rounding in those sums. It also does not capture rounding's effect on the strict `<` (`src/util/useGraph.ts:232`) that decides pushes. No contract depends on the rounding.
- Math.random is replaced by an index parameter.
- `PicksOk` states the range `[0, length)` that `Math.floor(Math.random() * length)` keeps.
- getCenterOfMass calls a geometry library, so the centre is an input.
- React state, Redux slices, the fetching hook, console logging, the UI components and the commented-out BFS are left out.
- Search.FindPathAstar: the result is not claimed shortest or cheapest. The source's heuristic is not admissible and the source re-expands stale entries, so it promises no optimality.
- Graph.BuildGraph: takes the segment list in entry order rather than the keyed object of segments. `Parser.SegmentsDistinct` shows the keys never collide, so the two agree.
- Route.GenerateRandomPath: requires every neighbour and waypoint node to have a position. JavaScript would throw on a missing one. The empty-waypoint crash is modelled separately, in `Route.LegAsWritten`.
- Helpers.GenerateQuadrants and Helpers.GenerateMainPathPoints: require the nodes they read to be in the node map, where the source would throw on `undefined.lat`.
- Route.GenerateRandomPath: its `outcomes` and `histories` outputs, which record each leg's result and the visited nodes it was given, are ghost. The source returns only the points, and only `pathPoints`, `visitedNodes` and `visitedEdges` are real outputs. `Route.LegOutcome`, the three-way result of `Route.LegAsWritten`, is an ordinary datatype.
- Parser.SortedIds: visits every way id in ascending order. JavaScript does so only for ids from 0 through 4294967294. A negative or larger id would be visited after those, in insertion order, and the model does not keep insertion order. OpenStreetMap way ids are positive and below that bound.
- PriorityQueues.PriorityQueue: `elements` is a sequence field that the methods reassign, not a JavaScript array mutated in place. Aliasing of the array is not modelled.

## Findings

| source | as written | input that shows it | evidently intended | confidence | as-written member | corrected member |
|---|---|---|---|---|---|---|
| src/App.tsx:126 | The leg test `mainPathPoints[index + 1] && graph` passes an empty waypoint `[]`, which is truthy. Then `point[2]` is undefined, `findPathAstar(undefined, undefined)` returns `[undefined]`, and `nodes[undefined].lat` throws. | Top-left and top-right quadrants both empty and no start override. Waypoints 0 and 1 are then both `[]`, so the first leg throws at `src/App.tsx:138`. | Run a leg only when both waypoints are present. | not executed | Route.LegAsWritten | Route.GenerateRandomPath |
