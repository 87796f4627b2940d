/** The array-backed binary min-heap that findPathAstar uses as its open set
    (class PriorityQueue of useGraph.ts). */
module PriorityQueues {
  import opened Wrappers

  /** One open-set entry: a node, the path that reached it and its cost. */
  datatype Item = Item(node: int, path: seq<int>, cost: real)

  /** The heap parent of index `i > 0`: floor((i + 1) / 2) - 1. */
  function Parent(i: nat): nat
    requires i > 0
  {
    (i + 1) / 2 - 1
  }

  /** The children of `n` are `2n + 1` and `2n + 2`. */
  lemma ParentChild(d: nat, n: nat)
    requires d > 0
    ensures Parent(d) == n <==> d == (n + 1) * 2 - 1 || d == (n + 1) * 2
  {
  }

  /** Every entry costs at least as much as its parent. */
  ghost predicate HeapOrdered(s: seq<Item>)
  {
    forall i {:trigger Parent(i)} | 0 < i < |s| :: s[Parent(i)].cost <= s[i].cost
  }

  /** The root of a heap-ordered sequence has the least cost. */
  lemma {:induction false} HeapRootMin(s: seq<Item>, i: nat)
    requires HeapOrdered(s) && i < |s|
    ensures s[0].cost <= s[i].cost
    decreases i
  {
    if i > 0 {
      HeapRootMin(s, Parent(i));
    }
  }

  /** `s` with the entries at `i` and `j` exchanged. */
  function Swap(s: seq<Item>, i: nat, j: nat): (r: seq<Item>)
    requires i < |s| && j < |s|
    ensures |r| == |s| && r[i] == s[j] && r[j] == s[i]
    ensures forall k | 0 <= k < |s| && k != i && k != j :: r[k] == s[k]
    ensures multiset(r) == multiset(s)
  {
    s[i := s[j]][j := s[i]]
  }

  /** Heap-ordered except that the entry at `n` may be cheaper than its parent,
      while the parent of `n` is no dearer than the children of `n`. */
  ghost predicate HeapExceptUp(s: seq<Item>, n: nat)
  {
    (forall i {:trigger Parent(i)} | 0 < i < |s| && i != n :: s[Parent(i)].cost <= s[i].cost) &&
    (n > 0 && n < |s| ==> forall c {:trigger Parent(c)} | 0 < c < |s| && Parent(c) == n :: s[Parent(n)].cost <= s[c].cost)
  }

  /** Heap-ordered except that the entry at `n` may be dearer than its
      children, while the parent of `n` is no dearer than those children. */
  ghost predicate HeapExceptDown(s: seq<Item>, n: nat)
  {
    (forall i {:trigger Parent(i)} | 0 < i < |s| && Parent(i) != n :: s[Parent(i)].cost <= s[i].cost) &&
    (n > 0 && n < |s| ==> forall c {:trigger Parent(c)} | 0 < c < |s| && Parent(c) == n :: s[Parent(n)].cost <= s[c].cost)
  }

  /** Index of the first entry for `node`, the scan order of Array.find. */
  function FirstIndex(s: seq<Item>, node: int): (r: Option<nat>)
    ensures r.None? <==> forall i | 0 <= i < |s| :: s[i].node != node
    ensures r.Some? ==>
      r.value < |s| && s[r.value].node == node && forall i | 0 <= i < r.value :: s[i].node != node
  {
    if s == [] then None
    else if s[0].node == node then Some(0)
    else
      match FirstIndex(s[1..], node)
      case None => None
      case Some(k) => Some(k + 1)
  }

  class PriorityQueue {
    var elements: seq<Item>
    var count: nat

    ghost predicate Valid()
      reads this
    {
      HeapOrdered(elements)
    }

    constructor()
      ensures Valid() && elements == [] && count == 0
    {
      count := 0;
      elements := [];
    }

    /** contains: some live entry is for `node`. */
    function Contains(node: int): (r: bool)
      reads this
      ensures r <==> exists i :: 0 <= i < |elements| && elements[i].node == node
    {
      FirstIndex(elements, node).Some?
    }

    /** getCost: the cost of the first entry for `node` in array order, or
        nothing when there is none. */
    function GetCost(node: int): (r: Option<real>)
      reads this
      ensures r.None? <==> !Contains(node)
      ensures r.Some? ==>
        exists i :: 0 <= i < |elements| && elements[i].node == node && elements[i].cost == r.value &&
          forall j | 0 <= j < i :: elements[j].node != node
    {
      match FirstIndex(elements, node)
      case None => None
      case Some(i) => Some(elements[i].cost)
    }

    /** getCount: the number of pushes so far; pops do not lower it. */
    function GetCount(): (r: nat)
      reads this
      ensures r == count
    {
      count
    }

    function IsEmpty(): (r: bool)
      reads this
      ensures r <==> |elements| == 0
    {
      |elements| == 0
    }

    /** push: adds exactly one entry and counts the push. */
    method Push(element: Item)
      requires Valid()
      modifies this
      ensures Valid()
      ensures multiset(elements) == old(multiset(elements)) + multiset{element}
      ensures count == old(count) + 1
    {
      elements := elements + [element];
      count := count + 1;
      BubbleUp(|elements| - 1);
    }

    /** pop: nothing on an empty queue (the source throws); otherwise the root,
        an entry of least cost, removed once. */
    method Pop() returns (r: Option<Item>)
      requires Valid()
      modifies this
      ensures Valid() && count == old(count)
      ensures old(elements) == [] ==> r.None? && elements == []
      ensures old(elements) != [] ==>
        r.Some? && r.value in old(multiset(elements)) &&
        multiset(elements) == old(multiset(elements)) - multiset{r.value} &&
        forall i | 0 <= i < |old(elements)| :: r.value.cost <= old(elements)[i].cost
    {
      if IsEmpty() {
        return None;
      }
      HeapMin(elements);
      var first := elements[0];
      var end := elements[|elements| - 1];
      ghost var before := elements;
      elements := elements[..|elements| - 1];
      if |elements| > 0 {
        elements := elements[0 := end];
        RootReplaced(before);
        SinkDown(0);
      } else {
        assert before == [first];
      }
      r := Some(first);
    }

    /** bubbleUp: moves the entry at `n` towards the root while it is cheaper
        than its parent. */
    method BubbleUp(n0: nat)
      requires n0 < |elements| && HeapExceptUp(elements, n0)
      modifies this
      ensures Valid() && multiset(elements) == old(multiset(elements)) && count == old(count)
    {
      var n := n0;
      var element := elements[n];
      while n > 0
        invariant n < |elements| && elements[n] == element
        invariant HeapExceptUp(elements, n)
        invariant multiset(elements) == old(multiset(elements)) && count == old(count)
        decreases n
      {
        var parentN := Parent(n);
        var parent := elements[parentN];
        if element.cost >= parent.cost {
          break;
        }
        ghost var s := elements;
        elements := Swap(elements, parentN, n);
        BubbleStep(s, n);
        n := parentN;
      }
    }

    /** sinkDown: moves the entry at `n` towards the leaves while a child is
        cheaper, swapping it with the cheaper child (the left one on a tie). */
    method SinkDown(n0: nat)
      requires n0 < |elements| && HeapExceptDown(elements, n0)
      modifies this
      ensures Valid() && multiset(elements) == old(multiset(elements)) && count == old(count)
    {
      var n := n0;
      var length := |elements|;
      var element := elements[n];
      while true
        invariant |elements| == length && n < length && elements[n] == element
        invariant HeapExceptDown(elements, n)
        invariant multiset(elements) == old(multiset(elements)) && count == old(count)
        decreases length - n
      {
        var swap: Option<nat> := None;
        var rightN := (n + 1) * 2;
        var leftN := rightN - 1;
        if leftN < length {
          var left := elements[leftN];
          if left.cost < element.cost {
            swap := Some(leftN);
          }
        }
        if rightN < length {
          var right := elements[rightN];
          if right.cost < (if swap.None? then element.cost else elements[leftN].cost) {
            swap := Some(rightN);
          }
        }
        if swap.None? {
          SinkDone(elements, n);
          break;
        }
        ghost var s := elements;
        var c := swap.value;
        assert c == leftN || c == rightN;
        assert s[c].cost < s[n].cost;
        assert leftN < length ==> s[c].cost <= s[leftN].cost;
        assert rightN < length ==> s[c].cost <= s[rightN].cost;
        elements := Swap(elements, n, c);
        SinkStep(s, n, c);
        n := c;
      }
    }
  }

  /** The root of a heap-ordered sequence is no dearer than any entry. */
  lemma HeapMin(s: seq<Item>)
    requires HeapOrdered(s) && s != []
    ensures forall i | 0 <= i < |s| :: s[0].cost <= s[i].cost
  {
    forall i | 0 <= i < |s|
      ensures s[0].cost <= s[i].cost
    {
      HeapRootMin(s, i);
    }
  }

  /** Moving the last entry of a heap to its root, in place of the root,
      removes the root once and leaves only the new root out of order. */
  lemma RootReplaced(s: seq<Item>)
    requires HeapOrdered(s) && |s| > 1
    ensures var t := s[..|s| - 1][0 := s[|s| - 1]];
      HeapExceptDown(t, 0) && multiset(t) == multiset(s) - multiset{s[0]}
  {
    var last := s[|s| - 1];
    var rest := s[..|s| - 1];
    var t := rest[0 := last];
    forall i | 0 < i < |t| && Parent(i) != 0
      ensures t[Parent(i)].cost <= t[i].cost
    {
      assert t[i] == s[i] && t[Parent(i)] == s[Parent(i)];
    }
    calc {
      multiset(t);
      { assert t == [last] + rest[1..]; }
      multiset([last] + rest[1..]);
      multiset{last} + multiset(rest[1..]);
    }
    calc {
      multiset(s);
      { assert s == [s[0]] + rest[1..] + [last]; }
      multiset{s[0]} + multiset(rest[1..]) + multiset{last};
    }
  }

  /** One bubbleUp swap keeps the heap-except-one shape, one level higher. */
  lemma BubbleStep(s: seq<Item>, n: nat)
    requires 0 < n < |s| && HeapExceptUp(s, n) && s[n].cost < s[Parent(n)].cost
    ensures HeapExceptUp(Swap(s, Parent(n), n), Parent(n))
  {
    var p := Parent(n);
    var t := Swap(s, p, n);
    forall i | 0 < i < |t| && i != p
      ensures t[Parent(i)].cost <= t[i].cost
    {
      if i == n {
      } else if Parent(i) == n {
        assert t[i] == s[i];
      } else if Parent(i) == p {
        assert t[i] == s[i];
      } else {
        assert t[i] == s[i];
        if i > 0 && Parent(i) > 0 {
          assert t[Parent(i)] == s[Parent(i)];
        }
      }
    }
    if p > 0 {
      forall c | 0 < c < |t| && Parent(c) == p
        ensures t[Parent(p)].cost <= t[c].cost
      {
        assert t[Parent(p)] == s[Parent(p)];
        assert s[Parent(p)].cost <= s[p].cost;
        if c != n {
          assert t[c] == s[c];
        }
      }
    }
  }

  /** When no child of `n` is cheaper than the entry at `n`, the heap is whole. */
  lemma SinkDone(s: seq<Item>, n: nat)
    requires n < |s| && HeapExceptDown(s, n)
    requires (n + 1) * 2 - 1 < |s| ==> s[(n + 1) * 2 - 1].cost >= s[n].cost
    requires (n + 1) * 2 < |s| ==> s[(n + 1) * 2].cost >= s[n].cost
    ensures HeapOrdered(s)
  {
    forall i | 0 < i < |s| && Parent(i) == n
      ensures s[n].cost <= s[i].cost
    {
      ParentChild(i, n);
    }
  }

  /** One sinkDown swap with the cheaper child `c` keeps the
      heap-except-one shape, one level lower. */
  lemma SinkStep(s: seq<Item>, n: nat, c: nat)
    requires n < c < |s| && HeapExceptDown(s, n)
    requires c == (n + 1) * 2 - 1 || c == (n + 1) * 2
    requires s[c].cost < s[n].cost
    requires (n + 1) * 2 - 1 < |s| ==> s[c].cost <= s[(n + 1) * 2 - 1].cost
    requires (n + 1) * 2 < |s| ==> s[c].cost <= s[(n + 1) * 2].cost
    ensures HeapExceptDown(Swap(s, n, c), c)
  {
    var t := Swap(s, n, c);
    forall d | 0 < d < |s| && Parent(d) == n
      ensures s[c].cost <= s[d].cost
    {
      ParentChild(d, n);
    }
    assert Parent(c) == n;
    forall i | 0 < i < |t| && Parent(i) != c
      ensures t[Parent(i)].cost <= t[i].cost
    {
      if i == c {
      } else if i == n {
        assert t[Parent(i)] == s[Parent(i)];
      } else if Parent(i) == n {
        assert t[i] == s[i];
      } else {
        assert t[i] == s[i];
        if Parent(i) != n && Parent(i) != c {
          assert t[Parent(i)] == s[Parent(i)];
        }
      }
    }
    forall d | 0 < d < |t| && Parent(d) == c
      ensures t[Parent(c)].cost <= t[d].cost
    {
      assert t[d] == s[d] && t[n] == s[c];
    }
  }
}
