/** findPathAstar of useGraph.ts: a best-first search over the junction graph
    whose open set is the binary heap of PriorityQueues. The heuristic is an
    arbitrary function `h`; the search keeps duplicate open-set entries and
    expands a node again when a stale entry for it is popped. */
module Search {
  import opened Wrappers
  import opened Graph
  import opened PriorityQueues

  /** The cost of stepping from an entry of cost `currentCost` to a neighbour:
      the heuristic `heu` of the current node, plus `10 * heu` when the
      neighbour was visited by an earlier leg and `1` otherwise. */
  function StepCost(currentCost: real, heu: real, revisit: bool): (r: real)
    ensures heu >= 0.0 ==> r >= currentCost
    ensures revisit ==> r - currentCost == 11.0 * heu
    ensures !revisit ==> r - currentCost == heu + 1.0
  {
    currentCost + heu + (if revisit then heu * 10.0 else 1.0)
  }

  /** A revisited neighbour costs more than a fresh one exactly when the
      heuristic exceeds one tenth. */
  lemma RevisitPenalty(currentCost: real, heu: real)
    ensures StepCost(currentCost, heu, true) > StepCost(currentCost, heu, false) <==> heu * 10.0 > 1.0
  {
  }

  /** The cost the search gives a path from its start: 0 for the start alone,
      and each step adds `StepCost` with the heuristic of the node it leaves,
      penalised when the node it enters is in the history `visited`. */
  ghost function PathCost(h: (int, int) -> real, end: int, visited: seq<int>, p: seq<int>): real
    requires |p| > 0
    decreases |p|
  {
    if |p| == 1 then 0.0
    else StepCost(PathCost(h, end, visited, p[..|p| - 1]), h(p[|p| - 2], end), p[|p| - 1] in visited)
  }

  /** Extending a path by one node adds that step's cost. */
  lemma PathCostSnoc(h: (int, int) -> real, end: int, visited: seq<int>, q: seq<int>, n: int)
    requires |q| > 0
    ensures PathCost(h, end, visited, q + [n]) ==
      StepCost(PathCost(h, end, visited, q), h(q[|q| - 1], end), n in visited)
  {
    assert (q + [n])[..|q|] == q;
  }

  /** A longer history never makes a path cheaper while every heuristic value
      along it is at least one tenth, the point where a revisit starts to cost
      more than a fresh step. */
  lemma {:induction false} HistoryRaisesCost(h: (int, int) -> real, end: int,
                                             visited: seq<int>, visited': seq<int>, p: seq<int>)
    requires |p| > 0
    requires forall x | x in visited :: x in visited'
    requires forall k | 0 <= k < |p| - 1 :: h(p[k], end) * 10.0 >= 1.0
    ensures PathCost(h, end, visited, p) <= PathCost(h, end, visited', p)
    decreases |p|
  {
    if |p| > 1 {
      var q := p[..|p| - 1];
      forall k | 0 <= k < |q| - 1
        ensures h(q[k], end) * 10.0 >= 1.0
      {
        assert q[k] == p[k];
      }
      HistoryRaisesCost(h, end, visited, visited', q);
      assert h(p[|p| - 2], end) * 10.0 >= 1.0;
    }
  }

  /** Every entry of `s` carries the cost of its path under the history. */
  ghost predicate Priced(h: (int, int) -> real, end: int, visited: seq<int>, s: seq<Item>)
  {
    forall e | e in s :: |e.path| > 0 && e.cost == PathCost(h, end, visited, e.path)
  }

  /** `getCost(n) || Infinity`: a missing cost and a recorded cost of zero are
      both falsy and read as Infinity, written here as None. */
  function CostOrInfinity(c: Option<real>): (r: Option<real>)
    ensures r.None? <==> c.None? || c.value == 0.0
    ensures r.Some? ==> r == c
  {
    if c.None? || c.value == 0.0 then None else c
  }

  /** `x < bound` where None stands for Infinity. */
  predicate Below(x: real, bound: Option<real>)
  {
    bound.None? || x < bound.value
  }

  /** Some open-set entry is for `y`. */
  ghost predicate HasEntry(s: seq<Item>, y: int)
  {
    exists i :: 0 <= i < |s| && s[i].node == y
  }

  /** An open-set entry holds a duplicate-free walk from `start` to its node,
      every node of which but the last is already closed. */
  ghost predicate EntryOk(g: Graph, start: int, closed: set<int>, e: Item)
  {
    IsWalk(g, e.path) && e.path[0] == start && e.path[|e.path| - 1] == e.node &&
    Distinct(e.path) && forall k | 0 <= k < |e.path| - 1 :: e.path[k] in closed
  }

  ghost predicate EntriesOk(g: Graph, start: int, closed: set<int>, universe: set<int>, s: seq<Item>)
  {
    forall e | e in s :: EntryOk(g, start, closed, e) && e.node in universe
  }

  /** Every neighbour of an expanded node is closed or has an open-set entry. */
  ghost predicate Frontier(g: Graph, expanded: set<int>, closed: set<int>, s: seq<Item>)
  {
    forall x, k | x in expanded && 0 <= k < |Adj(g, x)| :: Adj(g, x)[k] in closed || HasEntry(s, Adj(g, x)[k])
  }

  /** The number of open-set entries for closed nodes. */
  function StaleCount(s: seq<Item>, closed: set<int>): nat
  {
    if s == [] then 0 else (if s[0].node in closed then 1 else 0) + StaleCount(s[1..], closed)
  }

  lemma {:induction false} StaleCountAppend(a: seq<Item>, b: seq<Item>, closed: set<int>)
    ensures StaleCount(a + b, closed) == StaleCount(a, closed) + StaleCount(b, closed)
    decreases |a|
  {
    if a != [] {
      assert (a + b)[0] == a[0] && (a + b)[1..] == a[1..] + b;
      StaleCountAppend(a[1..], b, closed);
      assert StaleCount(a + b, closed) == (if a[0].node in closed then 1 else 0) + StaleCount(a[1..] + b, closed);
    } else {
      assert a + b == b;
    }
  }

  /** The stale count depends only on the multiset of entries, so the heap's
      reordering leaves it alone. */
  lemma {:induction false} StaleCountPerm(a: seq<Item>, b: seq<Item>, closed: set<int>)
    requires multiset(a) == multiset(b)
    ensures StaleCount(a, closed) == StaleCount(b, closed)
    decreases |a|
  {
    if a == [] {
      assert |b| == |multiset(b)| == 0;
    } else {
      var x, tail := a[0], a[1..];
      assert a == [x] + tail;
      assert multiset(a) == multiset{x} + multiset(tail);
      assert x in multiset(b);
      var j :| 0 <= j < |b| && b[j] == x;
      var rest := b[..j] + b[j + 1..];
      RemoveAt(b, j, closed);
      assert multiset(tail) == multiset(rest);
      StaleCountPerm(tail, rest, closed);
      assert StaleCount(a, closed) == (if x.node in closed then 1 else 0) + StaleCount(tail, closed);
    }
  }

  /** Removing the entry at index `j`. */
  lemma RemoveAt(b: seq<Item>, j: nat, closed: set<int>)
    requires j < |b|
    ensures multiset(b[..j] + b[j + 1..]) == multiset(b) - multiset{b[j]}
    ensures StaleCount(b, closed) == StaleCount(b[..j] + b[j + 1..], closed) + (if b[j].node in closed then 1 else 0)
  {
    var x := b[j];
    assert b == b[..j] + [x] + b[j + 1..];
    StaleCountAppend(b[..j] + [x], b[j + 1..], closed);
    StaleCountAppend(b[..j], [x], closed);
    StaleCountAppend(b[..j], b[j + 1..], closed);
  }

  lemma StaleAfterPop(before: seq<Item>, after: seq<Item>, r: Item, closed: set<int>)
    requires r in multiset(before) && multiset(after) == multiset(before) - multiset{r}
    ensures StaleCount(before, closed) == StaleCount(after, closed) + (if r.node in closed then 1 else 0)
  {
    assert multiset([r] + after) == multiset(before);
    StaleCountPerm([r] + after, before, closed);
    StaleCountAppend([r], after, closed);
  }

  lemma HasEntryAfterPop(before: seq<Item>, after: seq<Item>, r: Item, y: int)
    requires multiset(after) == multiset(before) - multiset{r}
    requires HasEntry(before, y) && y != r.node
    ensures HasEntry(after, y)
  {
    var i :| 0 <= i < |before| && before[i].node == y;
    assert before[i] in multiset(after);
    var j :| 0 <= j < |after| && after[j] == before[i];
  }

  lemma HasEntryAfterPush(before: seq<Item>, after: seq<Item>, e: Item, y: int)
    requires multiset(after) == multiset(before) + multiset{e}
    requires HasEntry(before, y) || y == e.node
    ensures HasEntry(after, y)
  {
    var x := e;
    if HasEntry(before, y) {
      var i :| 0 <= i < |before| && before[i].node == y;
      x := before[i];
    }
    assert x in multiset(after);
    var j :| 0 <= j < |after| && after[j] == x;
  }

  lemma HasEntrySub(before: seq<Item>, after: seq<Item>, y: int)
    requires multiset(before) <= multiset(after) && HasEntry(before, y)
    ensures HasEntry(after, y)
  {
    var i :| 0 <= i < |before| && before[i].node == y;
    assert before[i] in multiset(after);
    var j :| 0 <= j < |after| && after[j] == before[i];
  }

  /** An entry the neighbour loop pushes for `current`: an unclosed
      neighbour, reached by extending the current path, at the step cost. */
  ghost predicate PushedFor(g: Graph, end: int, visitedNodes: seq<int>, h: (int, int) -> real,
                            current: Item, closed: set<int>, e: Item)
  {
    e.node in Adj(g, current.node) && e.node !in closed && e.path == current.path + [e.node] &&
    e.cost == StepCost(current.cost, h(current.node, end), e.node in visitedNodes)
  }

  /** The neighbour loop of findPathAstar for the popped entry `current`,
      whose node has just been closed: every neighbour that is not closed is
      pushed, unless the open set already has it at a cost it does not beat. */
  method Expand(graph: Graph, start: int, end: int, visitedNodes: seq<int>, h: (int, int) -> real,
                openSet: PriorityQueue, current: Item, closed: set<int>, ghost universe: set<int>)
    returns (ghost added: seq<Item>)
    requires openSet.Valid() && InUniverse(graph, universe)
    requires current.node in closed && EntryOk(graph, start, closed, current)
    requires EntriesOk(graph, start, closed, universe, openSet.elements)
    requires Frontier(graph, closed - {current.node}, closed, openSet.elements)
    requires Priced(h, end, visitedNodes, openSet.elements) && Priced(h, end, visitedNodes, [current])
    modifies openSet
    ensures openSet.Valid()
    ensures EntriesOk(graph, start, closed, universe, openSet.elements)
    ensures Priced(h, end, visitedNodes, openSet.elements)
    ensures Frontier(graph, closed, closed, openSet.elements)
    ensures StaleCount(openSet.elements, closed) == old(StaleCount(openSet.elements, closed))
    ensures multiset(openSet.elements) == old(multiset(openSet.elements)) + multiset(added)
    ensures forall i | 0 <= i < |added| :: PushedFor(graph, end, visitedNodes, h, current, closed, added[i])
    ensures forall nb | nb in Adj(graph, current.node) && nb !in closed && !HasEntry(old(openSet.elements), nb) ::
      HasEntry(added, nb)
  {
    ghost var s0 := openSet.elements;
    added := ConsiderAll(graph, end, visitedNodes, h, openSet, current, closed);
    AddedKeeps(graph, start, end, visitedNodes, h, closed, universe, current, s0, openSet.elements, added);
    PricedKeeps(graph, start, end, visitedNodes, h, closed, current, s0, openSet.elements, added);
    FrontierClose(graph, closed, current.node, openSet.elements);
  }

  /** The loop's pushes carry the cost of their paths under the history. */
  lemma PricedKeeps(g: Graph, start: int, end: int, visitedNodes: seq<int>, h: (int, int) -> real,
                    closed: set<int>, current: Item, s0: seq<Item>, s: seq<Item>, added: seq<Item>)
    requires EntryOk(g, start, closed, current) && Priced(h, end, visitedNodes, [current])
    requires Priced(h, end, visitedNodes, s0)
    requires multiset(s) == multiset(s0) + multiset(added)
    requires forall i | 0 <= i < |added| :: PushedFor(g, end, visitedNodes, h, current, closed, added[i])
    ensures Priced(h, end, visitedNodes, s)
  {
    assert current in [current];
    forall e | e in s
      ensures |e.path| > 0 && e.cost == PathCost(h, end, visitedNodes, e.path)
    {
      assert e in multiset(s);
      if e !in multiset(s0) {
        assert e in multiset(added);
        var i :| 0 <= i < |added| && added[i] == e;
        assert PushedFor(g, end, visitedNodes, h, current, closed, added[i]);
        PathCostSnoc(h, end, visitedNodes, current.path, e.node);
      } else {
        assert e in s0;
      }
    }
  }

  /** The entries left by a pop, and the popped entry, keep their costs. */
  lemma PricedAfterPop(h: (int, int) -> real, end: int, visitedNodes: seq<int>,
                       before: seq<Item>, after: seq<Item>, current: Item)
    requires Priced(h, end, visitedNodes, before)
    requires current in multiset(before) && multiset(after) == multiset(before) - multiset{current}
    ensures Priced(h, end, visitedNodes, after) && Priced(h, end, visitedNodes, [current])
  {
    assert current in before;
    forall e | e in after
      ensures |e.path| > 0 && e.cost == PathCost(h, end, visitedNodes, e.path)
    {
      assert e in multiset(after);
      assert e in before;
    }
  }

  /** The neighbour loop: every neighbour of the current node is considered
      in adjacency order; afterwards each is closed or has an entry, and each
      that had none before has one among the pushes. */
  method ConsiderAll(graph: Graph, end: int, visitedNodes: seq<int>, h: (int, int) -> real,
                     openSet: PriorityQueue, current: Item, closed: set<int>)
    returns (ghost added: seq<Item>)
    requires openSet.Valid()
    modifies openSet
    ensures openSet.Valid()
    ensures forall nb | nb in Adj(graph, current.node) :: nb in closed || HasEntry(openSet.elements, nb)
    ensures multiset(openSet.elements) == old(multiset(openSet.elements)) + multiset(added)
    ensures forall i | 0 <= i < |added| :: PushedFor(graph, end, visitedNodes, h, current, closed, added[i])
    ensures forall nb | nb in Adj(graph, current.node) && nb !in closed && !HasEntry(old(openSet.elements), nb) ::
      HasEntry(added, nb)
  {
    added := [];
    ghost var s0 := openSet.elements;
    var neighbors := Adj(graph, current.node);
    for k := 0 to |neighbors|
      invariant openSet.Valid()
      invariant forall j | 0 <= j < k :: neighbors[j] in closed || HasEntry(openSet.elements, neighbors[j])
      invariant multiset(openSet.elements) == multiset(s0) + multiset(added)
      invariant forall i | 0 <= i < |added| :: PushedFor(graph, end, visitedNodes, h, current, closed, added[i])
      invariant forall j | 0 <= j < k && neighbors[j] !in closed && !HasEntry(s0, neighbors[j]) ::
        HasEntry(added, neighbors[j])
    {
      ghost var before := openSet.elements;
      ghost var pushed := Consider(graph, end, visitedNodes, h, openSet, current, closed, neighbors[k]);
      CoveredKept(before, openSet.elements, neighbors, k, closed);
      FreshKept(s0, added, before, pushed, neighbors, k, closed,
                StepCost(current.cost, h(current.node, end), neighbors[k] in visitedNodes), current.path + [neighbors[k]]);
      PushedAppend(graph, end, visitedNodes, h, current, closed, added, pushed);
      assert multiset(added + pushed) == multiset(added) + multiset(pushed);
      added := added + pushed;
    }
    forall nb | nb in neighbors
      ensures nb in closed || HasEntry(openSet.elements, nb)
      ensures nb !in closed && !HasEntry(s0, nb) ==> HasEntry(added, nb)
    {
      var j :| 0 <= j < |neighbors| && neighbors[j] == nb;
    }
  }

  /** Pushes that each fit the neighbour loop still do when concatenated. */
  lemma PushedAppend(g: Graph, end: int, visitedNodes: seq<int>, h: (int, int) -> real,
                     current: Item, closed: set<int>, added: seq<Item>, pushed: seq<Item>)
    requires forall i | 0 <= i < |added| :: PushedFor(g, end, visitedNodes, h, current, closed, added[i])
    requires forall i | 0 <= i < |pushed| :: PushedFor(g, end, visitedNodes, h, current, closed, pushed[i])
    ensures forall i | 0 <= i < |added + pushed| ::
      PushedFor(g, end, visitedNodes, h, current, closed, (added + pushed)[i])
  {
    forall i | 0 <= i < |added + pushed|
      ensures PushedFor(g, end, visitedNodes, h, current, closed, (added + pushed)[i])
    {
      if i < |added| {
        assert (added + pushed)[i] == added[i];
      } else {
        assert (added + pushed)[i] == pushed[i - |added|];
      }
    }
  }

  /** Considering neighbour `k` extends to it the pushes of every fresh
      neighbour so far. */
  lemma FreshKept(s0: seq<Item>, added: seq<Item>, before: seq<Item>, pushed: seq<Item>,
                  neighbors: seq<int>, k: nat, closed: set<int>, newCost: real, path: seq<int>)
    requires k < |neighbors| && multiset(before) == multiset(s0) + multiset(added)
    requires pushed == if ShouldPush(before, closed, neighbors[k], newCost)
      then [Item(neighbors[k], path, newCost)] else []
    requires forall j | 0 <= j < k && neighbors[j] !in closed && !HasEntry(s0, neighbors[j]) ::
      HasEntry(added, neighbors[j])
    ensures forall j | 0 <= j < k + 1 && neighbors[j] !in closed && !HasEntry(s0, neighbors[j]) ::
      HasEntry(added + pushed, neighbors[j])
  {
    forall j | 0 <= j < k + 1 && neighbors[j] !in closed && !HasEntry(s0, neighbors[j])
      ensures HasEntry(added + pushed, neighbors[j])
    {
      if j < k {
        HasEntryGrow(added, pushed, neighbors[j]);
      } else {
        FreshNeighbourPushed(s0, added, before, pushed, closed, neighbors[k], newCost, path);
      }
    }
  }

  /** Entries only added keep every neighbour so far covered. */
  lemma CoveredKept(before: seq<Item>, after: seq<Item>, neighbors: seq<int>, k: nat, closed: set<int>)
    requires multiset(before) <= multiset(after) && k <= |neighbors|
    requires forall j | 0 <= j < k :: neighbors[j] in closed || HasEntry(before, neighbors[j])
    ensures forall j | 0 <= j < k :: neighbors[j] in closed || HasEntry(after, neighbors[j])
  {
    forall j | 0 <= j < k && neighbors[j] !in closed
      ensures HasEntry(after, neighbors[j])
    {
      HasEntrySub(before, after, neighbors[j]);
    }
  }

  /** Covering the neighbours of `cur` extends the frontier to `cur`. */
  lemma FrontierClose(g: Graph, closed: set<int>, cur: int, s: seq<Item>)
    requires cur in closed && Frontier(g, closed - {cur}, closed, s)
    requires forall j | 0 <= j < |Adj(g, cur)| :: Adj(g, cur)[j] in closed || HasEntry(s, Adj(g, cur)[j])
    ensures Frontier(g, closed, closed, s)
  {
    forall x, k | x in closed && 0 <= k < |Adj(g, x)|
      ensures Adj(g, x)[k] in closed || HasEntry(s, Adj(g, x)[k])
    {
      if x != cur {
        assert x in closed - {cur};
      }
    }
  }

  /** Entries none of whose nodes is closed add nothing to the stale count. */
  lemma {:induction false} StaleCountFresh(s: seq<Item>, closed: set<int>)
    requires forall i | 0 <= i < |s| :: s[i].node !in closed
    ensures StaleCount(s, closed) == 0
  {
    if s != [] {
      StaleCountFresh(s[1..], closed);
    }
  }

  /** Adding pushed entries to the open set keeps the per-entry invariants,
      the frontier and the stale count. */
  lemma AddedKeeps(g: Graph, start: int, end: int, visitedNodes: seq<int>, h: (int, int) -> real,
                   closed: set<int>, universe: set<int>, current: Item,
                   s0: seq<Item>, s: seq<Item>, added: seq<Item>)
    requires InUniverse(g, universe) && current.node in closed && EntryOk(g, start, closed, current)
    requires EntriesOk(g, start, closed, universe, s0)
    requires Frontier(g, closed - {current.node}, closed, s0)
    requires multiset(s) == multiset(s0) + multiset(added)
    requires forall i | 0 <= i < |added| :: PushedFor(g, end, visitedNodes, h, current, closed, added[i])
    ensures EntriesOk(g, start, closed, universe, s)
    ensures Frontier(g, closed - {current.node}, closed, s)
    ensures StaleCount(s, closed) == StaleCount(s0, closed)
  {
    forall x | x in s
      ensures EntryOk(g, start, closed, x) && x.node in universe
    {
      assert x in multiset(s);
      if x !in multiset(s0) {
        assert x in multiset(added);
        var i :| 0 <= i < |added| && added[i] == x;
        assert PushedFor(g, end, visitedNodes, h, current, closed, added[i]);
        NewEntryOk(g, start, closed, universe, current, x.node);
        assert x == Item(x.node, current.path + [x.node], x.cost);
      }
    }
    forall x, k | x in closed - {current.node} && 0 <= k < |Adj(g, x)| && Adj(g, x)[k] !in closed
      ensures HasEntry(s, Adj(g, x)[k])
    {
      HasEntrySub(s0, s, Adj(g, x)[k]);
    }
    StaleCountPerm(s, s0 + added, closed);
    StaleCountAppend(s0, added, closed);
    StaleCountFresh(added, closed);
  }

  /** The push test of the neighbour loop, on the open set `s` as it stands:
      the neighbour is not closed, and the open set either has no entry for it
      or its first entry's cost, read through `|| Infinity`, exceeds `newCost`. */
  predicate ShouldPush(s: seq<Item>, closed: set<int>, neighbor: int, newCost: real)
  {
    neighbor !in closed &&
    match FirstIndex(s, neighbor)
    case None => true
    case Some(i) => Below(newCost, CostOrInfinity(Some(s[i].cost)))
  }

  /** One step of the neighbour loop: a neighbour that is not closed is pushed
      when the open set lacks it or holds it only at a cost the new one beats;
      afterwards it is closed or has an entry. */
  method Consider(graph: Graph, end: int, visitedNodes: seq<int>, h: (int, int) -> real,
                  openSet: PriorityQueue, current: Item, closed: set<int>, neighbor: int)
    returns (ghost pushed: seq<Item>)
    requires openSet.Valid()
    requires neighbor in Adj(graph, current.node)
    modifies openSet
    ensures openSet.Valid()
    ensures var newCost := StepCost(current.cost, h(current.node, end), neighbor in visitedNodes);
      pushed == if ShouldPush(old(openSet.elements), closed, neighbor, newCost)
        then [Item(neighbor, current.path + [neighbor], newCost)] else []
    ensures neighbor in closed || HasEntry(openSet.elements, neighbor)
    ensures multiset(openSet.elements) == old(multiset(openSet.elements)) + multiset(pushed)
    ensures forall i | 0 <= i < |pushed| :: PushedFor(graph, end, visitedNodes, h, current, closed, pushed[i])
  {
    pushed := [];
    if neighbor !in closed {
      var newPath := current.path + [neighbor];
      var heuCost := h(current.node, end);
      var newCost := StepCost(current.cost, heuCost, neighbor in visitedNodes);
      if !openSet.Contains(neighbor) || Below(newCost, CostOrInfinity(openSet.GetCost(neighbor))) {
        var e := Item(neighbor, newPath, newCost);
        ghost var before := openSet.elements;
        openSet.Push(e);
        pushed := [e];
        HasEntryAfterPush(before, openSet.elements, e, neighbor);
      } else {
        assert HasEntry(openSet.elements, neighbor);
      }
    }
  }

  /** A neighbour without an entry before the neighbour loop has one among the
      loop's pushes once it has been considered. */
  lemma FreshNeighbourPushed(s0: seq<Item>, added: seq<Item>, before: seq<Item>, pushed: seq<Item>,
                             closed: set<int>, nb: int, newCost: real, path: seq<int>)
    requires multiset(before) == multiset(s0) + multiset(added)
    requires pushed == if ShouldPush(before, closed, nb, newCost) then [Item(nb, path, newCost)] else []
    requires nb !in closed && !HasEntry(s0, nb)
    ensures HasEntry(added + pushed, nb)
  {
    var t := added + pushed;
    if HasEntry(before, nb) {
      var i :| 0 <= i < |before| && before[i].node == nb;
      assert before[i] in multiset(before);
      NotInMultiset(s0, before[i]);
      assert before[i] in multiset(added);
      var j :| 0 <= j < |added| && added[j] == before[i];
      assert t[j] == added[j];
    } else {
      assert FirstIndex(before, nb).None?;
      assert t[|added|] == Item(nb, path, newCost);
    }
  }

  /** A sequence without an entry for a node holds no item of that node. */
  lemma NotInMultiset(s: seq<Item>, x: Item)
    requires !HasEntry(s, x.node)
    ensures x !in multiset(s)
  {
    assert forall j | 0 <= j < |s| :: s[j] != x;
    assert x !in s;
  }

  /** Pushes already made stay among the pushes. */
  lemma HasEntryGrow(added: seq<Item>, pushed: seq<Item>, nb: int)
    requires HasEntry(added, nb)
    ensures HasEntry(added + pushed, nb)
  {
    var i :| 0 <= i < |added| && added[i].node == nb;
    assert (added + pushed)[i] == added[i];
  }

  /** The entry pushed for an unclosed neighbour extends the current walk. */
  lemma NewEntryOk(g: Graph, start: int, closed: set<int>, universe: set<int>, current: Item, nb: int)
    requires InUniverse(g, universe) && current.node in closed && EntryOk(g, start, closed, current)
    requires nb in Adj(g, current.node) && nb !in closed
    ensures forall c: real :: EntryOk(g, start, closed, Item(nb, current.path + [nb], c)) && nb in universe
  {
    var p := current.path;
    var q := p + [nb];
    assert forall i | 0 <= i < |p| :: q[i] == p[i];
    assert forall i | 0 <= i < |p| :: p[i] in closed by {
      assert p[|p| - 1] == current.node;
    }
    assert Distinct(q);
    assert IsWalk(g, q);
    var k :| 0 <= k < |Adj(g, current.node)| && Adj(g, current.node)[k] == nb;
  }

  /** findPathAstar. A returned path is a duplicate-free walk from `start` to
      `end`; `start == end` returns `[start]`; and the search gives up only when
      `end` cannot be reached from `start`. */
  method FindPathAstar(graph: Graph, start: int, end: int, visitedNodes: seq<int>, h: (int, int) -> real)
    returns (r: Option<seq<int>>, ghost cost: real)
    ensures r.Some? ==> IsWalk(graph, r.value) && r.value[0] == start && r.value[|r.value| - 1] == end
    ensures r.Some? ==> cost == PathCost(h, end, visitedNodes, r.value)
    ensures r.Some? ==> Distinct(r.value)
    ensures start == end ==> r == Some([start])
    ensures r.None? ==> !Reachable(graph, start, end)
  {
    ghost var universe := Nodes(graph) + {start};
    NodesInUniverse(graph, {start});
    var openSet := new PriorityQueue();
    var first := Item(start, [start], 0.0);
    assert IsWalk(graph, [start]);
    openSet.Push(first);
    assert openSet.elements == [first] by {
      assert multiset(openSet.elements) == multiset{first};
      assert |openSet.elements| == 1;
    }
    var closed: set<int> := {};
    while !openSet.IsEmpty()
      invariant openSet.Valid() && closed <= universe && end !in closed
      invariant EntriesOk(graph, start, closed, universe, openSet.elements)
      invariant Frontier(graph, closed, closed, openSet.elements)
      invariant start in closed || HasEntry(openSet.elements, start)
      invariant start == end ==> openSet.elements == [first]
      invariant Priced(h, end, visitedNodes, openSet.elements)
      decreases |universe - closed|, StaleCount(openSet.elements, closed)
    {
      ghost var before := openSet.elements;
      ghost var closedBefore := closed;
      var popped := openSet.Pop();
      var current := popped.value;
      assert current in before;
      if current.node == end {
        return Some(current.path), current.cost;
      }
      closed := CloseAndExpand(graph, start, end, visitedNodes, h, openSet, current, closed, universe, before);
    }
    Exhausted(graph, start, end, closed);
    r, cost := None, 0.0;
  }

  /** The rest of one round of the search loop, after the pop of `current`
      (off `before`) found another node than `end`: close its node and push
      its neighbours. Either the closed set grows, or it stays and one stale
      entry has gone. */
  method CloseAndExpand(graph: Graph, start: int, end: int, visitedNodes: seq<int>, h: (int, int) -> real,
                        openSet: PriorityQueue, current: Item, closed: set<int>, ghost universe: set<int>,
                        ghost before: seq<Item>)
    returns (closed': set<int>)
    requires openSet.Valid() && InUniverse(graph, universe) && closed <= universe && current.node != end
    requires current in multiset(before) && multiset(openSet.elements) == multiset(before) - multiset{current}
    requires EntriesOk(graph, start, closed, universe, before)
    requires Frontier(graph, closed, closed, before)
    requires Priced(h, end, visitedNodes, before)
    modifies openSet
    ensures closed' == closed + {current.node}
    ensures Priced(h, end, visitedNodes, openSet.elements)
    ensures openSet.Valid() && closed' <= universe && start in closed'
    ensures EntriesOk(graph, start, closed', universe, openSet.elements)
    ensures Frontier(graph, closed', closed', openSet.elements)
    ensures |universe - closed'| < |universe - closed| ||
      (closed' == closed && StaleCount(openSet.elements, closed') < StaleCount(before, closed))
  {
    closed' := closed + {current.node};
    StaleAfterPop(before, openSet.elements, current, closed);
    PopKeeps(graph, start, closed, closed', universe, before, openSet.elements, current);
    PricedAfterPop(h, end, visitedNodes, before, openSet.elements, current);
    ghost var added := Expand(graph, start, end, visitedNodes, h, openSet, current, closed', universe);
    StartClosed(graph, start, closed', current);
    if current.node in closed {
      AddPresent(closed, current.node);
    } else {
      Shrinks(universe, closed, closed', current.node);
    }
  }

  /** An empty open set whose frontier is covered leaves the closed nodes
      closed under adjacency, so `end`, never closed, is out of reach. */
  lemma Exhausted(g: Graph, start: int, end: int, closed: set<int>)
    requires Frontier(g, closed, closed, []) && start in closed && end !in closed
    ensures !Reachable(g, start, end)
  {
    forall x, k | x in closed && 0 <= k < |Adj(g, x)|
      ensures Adj(g, x)[k] in closed
    {
    }
    assert ClosedUnderAdj(g, closed);
    if Reachable(g, start, end) {
      var p :| IsWalk(g, p) && p[0] == start && p[|p| - 1] == end;
      WalkStaysInClosed(g, closed, p);
      assert false;
    }
  }

  lemma AddPresent(a: set<int>, x: int)
    requires x in a
    ensures a + {x} == a
  {
  }

  /** Once an entry's node is closed, so is the start of its walk. */
  lemma StartClosed(g: Graph, start: int, closed: set<int>, e: Item)
    requires EntryOk(g, start, closed, e) && e.node in closed
    ensures start in closed
  {
    if |e.path| > 1 {
      assert e.path[0] in closed;
    }
  }

  /** Popping `current` and closing its node keeps the per-entry invariants,
      and the frontier of every node other than `current.node`. */
  lemma PopKeeps(g: Graph, start: int, closedBefore: set<int>, closed: set<int>, universe: set<int>,
                 before: seq<Item>, after: seq<Item>, current: Item)
    requires current in multiset(before) && multiset(after) == multiset(before) - multiset{current}
    requires closed == closedBefore + {current.node}
    requires EntriesOk(g, start, closedBefore, universe, before)
    requires Frontier(g, closedBefore, closedBefore, before)
    ensures EntriesOk(g, start, closed, universe, after)
    ensures current.node in universe && EntryOk(g, start, closed, current)
    ensures Frontier(g, closed - {current.node}, closed, after)
    ensures StaleCount(before, closed) >= StaleCount(after, closed)
  {
    forall x | x in after
      ensures EntryOk(g, start, closed, x) && x.node in universe
    {
      assert x in multiset(after);
      assert x in before;
    }
    assert current in before;
    forall x, k | x in closed - {current.node} && 0 <= k < |Adj(g, x)| && Adj(g, x)[k] !in closed
      ensures HasEntry(after, Adj(g, x)[k])
    {
      HasEntryAfterPop(before, after, current, Adj(g, x)[k]);
    }
    StaleAfterPop(before, after, current, closed);
  }
}
