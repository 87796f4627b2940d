/** Quadrant classification and loop waypoints of src/util/helpers.ts.

    The connected nodes are sorted into four quadrants around a centre point;
    one point is picked from each quadrant, in the order top-left, top-right,
    bottom-right, bottom-left, and the first is repeated at the end so that
    the waypoints close a loop. The centre of mass (a geometry library call)
    is an input, and the random pick is an index parameter. */
module Helpers {
  import opened Wrappers
  import opened Parser

  /** The centre of mass, as latitude and longitude. */
  datatype Center = Center(lat: real, lon: real)

  /** An entry `[lat, lon, id]` of a quadrant or of the waypoint list. */
  datatype Point = Point(lat: real, lon: real, id: int)

  datatype Position = TopLeft | TopRight | BottomLeft | BottomRight
  {
    predicate IsTop() { this == TopLeft || this == TopRight }
    predicate IsLeft() { this == TopLeft || this == BottomLeft }
  }

  /** The four quadrant lists of generateQuadrants. */
  datatype Quadrants = Quadrants(topLeft: seq<Point>, topRight: seq<Point>,
                                 bottomLeft: seq<Point>, bottomRight: seq<Point>)
  {
    function Get(p: Position): seq<Point>
    {
      match p
      case TopLeft => topLeft
      case TopRight => topRight
      case BottomLeft => bottomLeft
      case BottomRight => bottomRight
    }
  }

  /** determineNodePosition: "top" exactly when the node's latitude is strictly
      below the centre's, "left" exactly when its longitude is strictly below
      the centre's; a tie falls to bottom or right. */
  function DeterminePosition(node: Node, center: Center): (r: Position)
    ensures r.IsTop() <==> node.lat < center.lat
    ensures r.IsLeft() <==> node.lon < center.lon
  {
    var isTop := node.lat < center.lat;
    var isLeft := node.lon < center.lon;
    if isTop then (if isLeft then TopLeft else TopRight)
    else if isLeft then BottomLeft else BottomRight
  }

  /** The two tests fix the position: any position with the same answers is
      the one returned. */
  lemma PositionUnique(node: Node, center: Center, p: Position)
    requires p.IsTop() <==> node.lat < center.lat
    requires p.IsLeft() <==> node.lon < center.lon
    ensures DeterminePosition(node, center) == p
  {
  }

  /** getNodeCoordinates: the node's latitude, longitude and its own id. */
  function GetNodeCoordinates(nodes: NodeMap, nodeId: int): (r: Point)
    requires nodeId in nodes
    ensures r.id == nodeId && Node(r.lat, r.lon) == nodes[nodeId]
  {
    Point(nodes[nodeId].lat, nodes[nodeId].lon, nodeId)
  }

  /** The random index `floor(random * length)` lies in `[0, length)`. */
  predicate ValidPick(quadrant: seq<Point>, index: nat)
  {
    quadrant == [] || index < |quadrant|
  }

  /** getRandomPointFromQuadrant: the empty entry `[]` (None) for an empty
      quadrant, otherwise the quadrant's entry at the random index. */
  function GetRandomPoint(quadrant: seq<Point>, index: nat): (r: Option<Point>)
    requires ValidPick(quadrant, index)
    ensures r.None? <==> quadrant == []
    ensures r.Some? ==> r.value in quadrant && r.value == quadrant[index]
  {
    if |quadrant| == 0 then None else Some(quadrant[index])
  }

  /** The entries that generateQuadrants puts into quadrant `p`, in input
      order. */
  function Placed(ids: seq<int>, nodes: NodeMap, center: Center, p: Position): seq<Point>
    requires forall i | 0 <= i < |ids| :: ids[i] in nodes
  {
    if ids == [] then []
    else
      var last := ids[|ids| - 1];
      Placed(ids[..|ids| - 1], nodes, center, p) +
        (if DeterminePosition(nodes[last], center) == p then [GetNodeCoordinates(nodes, last)] else [])
  }

  /** generateQuadrants: four empty lists when there are no connected nodes or
      no centre; otherwise each quadrant is the coordinates of the connected
      nodes in it, in input order. */
  method GenerateQuadrants(connectedNodes: Option<seq<int>>, nodes: NodeMap, centerOfMass: Option<Center>)
    returns (quadrants: Quadrants)
    requires connectedNodes.Some? && centerOfMass.Some? ==>
      forall i | 0 <= i < |connectedNodes.value| :: connectedNodes.value[i] in nodes
    ensures connectedNodes.None? || centerOfMass.None? ==> quadrants == Quadrants([], [], [], [])
    ensures connectedNodes.Some? && centerOfMass.Some? ==>
      forall p :: quadrants.Get(p) == Placed(connectedNodes.value, nodes, centerOfMass.value, p)
  {
    quadrants := Quadrants([], [], [], []);
    if connectedNodes.None? || centerOfMass.None? {
      return;
    }
    var ids := connectedNodes.value;
    var center := centerOfMass.value;
    for k := 0 to |ids|
      invariant forall p :: quadrants.Get(p) == Placed(ids[..k], nodes, center, p)
    {
      var nodeId := ids[k];
      assert ids[..k + 1][..k] == ids[..k];
      var point := GetNodeCoordinates(nodes, nodeId);
      match DeterminePosition(nodes[nodeId], center)
      case TopLeft => quadrants := quadrants.(topLeft := quadrants.topLeft + [point]);
      case TopRight => quadrants := quadrants.(topRight := quadrants.topRight + [point]);
      case BottomLeft => quadrants := quadrants.(bottomLeft := quadrants.bottomLeft + [point]);
      case BottomRight => quadrants := quadrants.(bottomRight := quadrants.bottomRight + [point]);
    }
    assert ids[..|ids|] == ids;
  }

  /** Every connected node lands in exactly one quadrant, so the four sizes
      add up to the number of connected nodes. */
  lemma {:induction false} PlacedSizes(ids: seq<int>, nodes: NodeMap, center: Center)
    requires forall i | 0 <= i < |ids| :: ids[i] in nodes
    ensures |Placed(ids, nodes, center, TopLeft)| + |Placed(ids, nodes, center, TopRight)| +
            |Placed(ids, nodes, center, BottomLeft)| + |Placed(ids, nodes, center, BottomRight)| == |ids|
  {
    if ids != [] {
      PlacedSizes(ids[..|ids| - 1], nodes, center);
    }
  }

  /** Quadrant `p` holds exactly the coordinates of the connected nodes whose
      position is `p`. */
  lemma {:induction false} PlacedMembers(ids: seq<int>, nodes: NodeMap, center: Center, p: Position, x: Point)
    requires forall i | 0 <= i < |ids| :: ids[i] in nodes
    ensures x in Placed(ids, nodes, center, p) <==>
      exists i :: 0 <= i < |ids| && x == GetNodeCoordinates(nodes, ids[i]) && DeterminePosition(nodes[ids[i]], center) == p
  {
    if ids != [] {
      var init := ids[..|ids| - 1];
      PlacedMembers(init, nodes, center, p, x);
      if x in Placed(ids, nodes, center, p) {
        if x in Placed(init, nodes, center, p) {
          var i :| 0 <= i < |init| && x == GetNodeCoordinates(nodes, init[i]) && DeterminePosition(nodes[init[i]], center) == p;
          assert ids[i] == init[i];
        } else {
          assert ids[|ids| - 1] == ids[|ids| - 1];
        }
      } else {
        forall i | 0 <= i < |ids| && x == GetNodeCoordinates(nodes, ids[i])
          ensures DeterminePosition(nodes[ids[i]], center) != p
        {
          if i < |init| {
            assert init[i] == ids[i];
          }
        }
      }
    }
  }

  /** A connected node's entry is in its own quadrant and in no other. */
  lemma ExactlyOneQuadrant(ids: seq<int>, nodes: NodeMap, center: Center, i: nat, p: Position)
    requires forall j | 0 <= j < |ids| :: ids[j] in nodes
    requires i < |ids|
    ensures GetNodeCoordinates(nodes, ids[i]) in Placed(ids, nodes, center, p) <==>
      p == DeterminePosition(nodes[ids[i]], center)
  {
    var x := GetNodeCoordinates(nodes, ids[i]);
    PlacedMembers(ids, nodes, center, p, x);
    if x in Placed(ids, nodes, center, p) {
      var j :| 0 <= j < |ids| && x == GetNodeCoordinates(nodes, ids[j]) && DeterminePosition(nodes[ids[j]], center) == p;
      assert ids[j] == x.id == ids[i];
    }
  }

  /** Each quadrant keeps input order: classifying a concatenation
      concatenates the classifications. */
  lemma {:induction false} PlacedAppend(a: seq<int>, b: seq<int>, nodes: NodeMap, center: Center, p: Position)
    requires forall i | 0 <= i < |a| :: a[i] in nodes
    requires forall i | 0 <= i < |b| :: b[i] in nodes
    ensures forall i | 0 <= i < |a + b| :: (a + b)[i] in nodes
    ensures Placed(a + b, nodes, center, p) == Placed(a, nodes, center, p) + Placed(b, nodes, center, p)
    decreases |b|
  {
    assert forall i | 0 <= i < |a + b| :: (a + b)[i] in nodes by {
      forall i | 0 <= i < |a + b|
        ensures (a + b)[i] in nodes
      {
        if i < |a| { assert (a + b)[i] == a[i]; } else { assert (a + b)[i] == b[i - |a|]; }
      }
    }
    if b == [] {
      assert a + b == a;
    } else {
      var init := b[..|b| - 1];
      assert (a + b)[..|a + b| - 1] == a + init;
      assert (a + b)[|a + b| - 1] == b[|b| - 1];
      PlacedAppend(a, init, nodes, center, p);
    }
  }

  /** The quadrant whose pick fills waypoint slot `k`: top-left, top-right,
      bottom-right, bottom-left. */
  function Corner(k: nat): (p: Position)
    requires k < 4
    ensures Slot(p) == k
  {
    [TopLeft, TopRight, BottomRight, BottomLeft][k]
  }

  /** The waypoint slot of a quadrant; the inverse of Corner. */
  function Slot(p: Position): (k: nat)
    ensures k < 4
  {
    match p
    case TopLeft => 0
    case TopRight => 1
    case BottomRight => 2
    case BottomLeft => 3
  }

  lemma SlotCorner(p: Position)
    ensures Corner(Slot(p)) == p
  {
  }

  /** The start-node override applies when startNode is truthy (not null and
      not 0) and connectedNodes is not null; an empty list is truthy. */
  predicate Overrides(startNode: Option<int>, connectedNodes: Option<seq<int>>)
  {
    startNode.Some? && startNode.value != 0 && connectedNodes.Some?
  }

  ghost predicate PicksOk(quadrants: Quadrants, picks: seq<nat>)
  {
    |picks| == 4 && forall k | 0 <= k < 4 :: ValidPick(quadrants.Get(Corner(k)), picks[k])
  }

  /** Waypoint slot `k` before the closing copy: the start node's coordinates
      when the override applies and `k` is its quadrant's slot, otherwise the
      pick from quadrant Corner(k). */
  function SlotPoint(center: Center, quadrants: Quadrants, nodes: NodeMap, startNode: Option<int>,
                     connectedNodes: Option<seq<int>>, picks: seq<nat>, k: nat): Option<Point>
    requires PicksOk(quadrants, picks) && k < 4
    requires Overrides(startNode, connectedNodes) ==> startNode.value in nodes
  {
    if Overrides(startNode, connectedNodes) && Slot(DeterminePosition(nodes[startNode.value], center)) == k
    then Some(GetNodeCoordinates(nodes, startNode.value))
    else GetRandomPoint(quadrants.Get(Corner(k)), picks[k])
  }

  /** The waypoint list generateMainPathPoints returns, slot by slot. */
  function MainPathPoints(centerOfMass: Option<Center>, quadrants: Quadrants, nodes: NodeMap,
                          startNode: Option<int>, connectedNodes: Option<seq<int>>, picks: seq<nat>)
    : seq<Option<Point>>
    requires PicksOk(quadrants, picks)
    requires centerOfMass.Some? && Overrides(startNode, connectedNodes) ==> startNode.value in nodes
  {
    if centerOfMass.None? then []
    else
      var c := centerOfMass.value;
      var slots := seq(4, k requires 0 <= k < 4 => SlotPoint(c, quadrants, nodes, startNode, connectedNodes, picks, k));
      slots + [slots[0]]
  }

  /** generateMainPathPoints: one pick per quadrant, the start node's slot
      overwritten, then the first entry pushed again. */
  method GenerateMainPathPoints(centerOfMass: Option<Center>, quadrants: Quadrants, nodes: NodeMap,
                                startNode: Option<int>, connectedNodes: Option<seq<int>>, picks: seq<nat>)
    returns (mainPathPoints: seq<Option<Point>>)
    requires PicksOk(quadrants, picks)
    requires centerOfMass.Some? && Overrides(startNode, connectedNodes) ==> startNode.value in nodes
    ensures mainPathPoints == MainPathPoints(centerOfMass, quadrants, nodes, startNode, connectedNodes, picks)
  {
    if centerOfMass.None? {
      return [];
    }
    var center := centerOfMass.value;
    mainPathPoints := [
      GetRandomPoint(quadrants.topLeft, picks[0]),
      GetRandomPoint(quadrants.topRight, picks[1]),
      GetRandomPoint(quadrants.bottomRight, picks[2]),
      GetRandomPoint(quadrants.bottomLeft, picks[3])
    ];
    if Overrides(startNode, connectedNodes) {
      var start := startNode.value;
      var slot := match DeterminePosition(nodes[start], center)
        case TopLeft => 0
        case TopRight => 1
        case BottomLeft => 3
        case BottomRight => 2;
      mainPathPoints := mainPathPoints[slot := Some(GetNodeCoordinates(nodes, start))];
    }
    mainPathPoints := mainPathPoints + [mainPathPoints[0]];
    assert forall k | 0 <= k < 4 ::
      mainPathPoints[k] == SlotPoint(center, quadrants, nodes, startNode, connectedNodes, picks, k);
  }

  /** Without a centre there are no waypoints; with one there are five, the
      last repeating the first, and each slot is either its quadrant's pick or,
      for the start node's quadrant only, the start node. */
  lemma MainPathShape(centerOfMass: Option<Center>, quadrants: Quadrants, nodes: NodeMap,
                      startNode: Option<int>, connectedNodes: Option<seq<int>>, picks: seq<nat>, k: nat)
    requires PicksOk(quadrants, picks) && k < 4
    requires centerOfMass.Some? && Overrides(startNode, connectedNodes) ==> startNode.value in nodes
    ensures centerOfMass.None? <==> MainPathPoints(centerOfMass, quadrants, nodes, startNode, connectedNodes, picks) == []
    ensures centerOfMass.Some? ==>
      var r := MainPathPoints(centerOfMass, quadrants, nodes, startNode, connectedNodes, picks);
      |r| == 5 && r[4] == r[0] &&
      (r[k] == GetRandomPoint(quadrants.Get(Corner(k)), picks[k]) ||
       (Overrides(startNode, connectedNodes) &&
        k == Slot(DeterminePosition(nodes[startNode.value], centerOfMass.value)) &&
        r[k] == Some(GetNodeCoordinates(nodes, startNode.value))))
  {
  }

  /** With the override, the start node's slot holds the start node, and the
      other three slots hold their quadrants' picks. */
  lemma StartOverride(center: Center, quadrants: Quadrants, nodes: NodeMap,
                      startNode: Option<int>, connectedNodes: Option<seq<int>>, picks: seq<nat>, k: nat)
    requires PicksOk(quadrants, picks) && k < 4
    requires Overrides(startNode, connectedNodes) && startNode.value in nodes
    ensures var r := MainPathPoints(Some(center), quadrants, nodes, startNode, connectedNodes, picks);
      var slot := Slot(DeterminePosition(nodes[startNode.value], center));
      r[slot] == Some(GetNodeCoordinates(nodes, startNode.value)) &&
      (k != slot ==> r[k] == GetRandomPoint(quadrants.Get(Corner(k)), picks[k]))
  {
  }

  /** A top-left start node begins and ends the loop. */
  lemma TopLeftStartClosesLoop(center: Center, quadrants: Quadrants, nodes: NodeMap,
                               startNode: Option<int>, connectedNodes: Option<seq<int>>, picks: seq<nat>)
    requires PicksOk(quadrants, picks)
    requires Overrides(startNode, connectedNodes) && startNode.value in nodes
    requires DeterminePosition(nodes[startNode.value], center) == TopLeft
    ensures var r := MainPathPoints(Some(center), quadrants, nodes, startNode, connectedNodes, picks);
      r[0] == r[4] == Some(GetNodeCoordinates(nodes, startNode.value))
  {
  }

  /** A start id of 0 is falsy and never overrides a slot. */
  lemma ZeroStartIgnored(center: Center, quadrants: Quadrants, nodes: NodeMap,
                         connectedNodes: Option<seq<int>>, picks: seq<nat>, k: nat)
    requires PicksOk(quadrants, picks) && k < 4
    ensures MainPathPoints(Some(center), quadrants, nodes, Some(0), connectedNodes, picks)[k] ==
      GetRandomPoint(quadrants.Get(Corner(k)), picks[k])
  {
  }
}
