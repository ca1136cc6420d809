/**
 * The complete directed distance graph over drone and delivery nodes, node
 * lookup, and the bounding-box no-fly-zone test (src/utils/graph.py).
 */
module Graphs {
  import opened Wrappers
  import opened Models

  /** A graph node: the source names it "drone_<id>" or "dp_<id>". */
  datatype Node = DroneNode(id: int) | DeliveryNode(id: int)

  function Digit(d: nat): char
    requires d < 10
  {
    "0123456789"[d]
  }

  function NatToString(n: nat): string
  {
    if n < 10 then [Digit(n)] else NatToString(n / 10) + [Digit(n % 10)]
  }

  /** `str(i)` for an integer: optional minus sign, then decimal digits. */
  function IntToString(i: int): string
  {
    if i < 0 then "-" + NatToString(-i) else NatToString(i)
  }

  /** The string the source uses for a node, `f"drone_{id}"` or `f"dp_{id}"`. */
  function NodeName(n: Node): string
  {
    match n
    case DroneNode(id) => "drone_" + IntToString(id)
    case DeliveryNode(id) => "dp_" + IntToString(id)
  }

  /** The node list of graph.py:17: every drone, then every delivery point, in list order. */
  function NodeList(drones: seq<Drone>, points: seq<DeliveryPoint>): (nodes: seq<Node>)
    ensures |nodes| == |drones| + |points|
    ensures forall i :: 0 <= i < |drones| ==> nodes[i] == DroneNode(drones[i].id)
    ensures forall i :: 0 <= i < |points| ==> nodes[|drones| + i] == DeliveryNode(points[i].id)
  {
    seq(|drones|, i requires 0 <= i < |drones| => DroneNode(drones[i].id)) +
    seq(|points|, i requires 0 <= i < |points| => DeliveryNode(points[i].id))
  }

  function NodeSet(drones: seq<Drone>, points: seq<DeliveryPoint>): set<Node>
  {
    set n | n in NodeList(drones, points)
  }

  lemma NodeSetMembers(drones: seq<Drone>, points: seq<DeliveryPoint>, n: Node)
    ensures n in NodeSet(drones, points) <==>
      match n
      case DroneNode(id) => exists i :: 0 <= i < |drones| && drones[i].id == id
      case DeliveryNode(id) => exists i :: 0 <= i < |points| && points[i].id == id
  {
    var nodes := NodeList(drones, points);
    if n in NodeSet(drones, points) {
      var k :| 0 <= k < |nodes| && nodes[k] == n;
      if k >= |drones| {
        assert nodes[|drones| + (k - |drones|)] == n;
      }
    } else {
      match n
      case DroneNode(id) =>
        forall i | 0 <= i < |drones| ensures drones[i].id != id {
          assert nodes[i] in NodeSet(drones, points);
        }
      case DeliveryNode(id) =>
        forall i | 0 <= i < |points| ensures points[i].id != id {
          assert nodes[|drones| + i] in NodeSet(drones, points);
        }
    }
  }

  /**
   * `get_node_position`: the start position of the first drone with the
   * node's id, or the position of the first delivery point with it; None
   * (the source raises) when no record has that id.
   */
  function NodePosition(drones: seq<Drone>, points: seq<DeliveryPoint>, n: Node): (r: Option<Point>)
    ensures r.Some? <==> n in NodeSet(drones, points)
    ensures r.Some? && n.DroneNode? ==>
      exists i :: 0 <= i < |drones| && drones[i].id == n.id && r.value == drones[i].startPos &&
                  forall j :: 0 <= j < i ==> drones[j].id != n.id
    ensures r.Some? && n.DeliveryNode? ==>
      exists i :: 0 <= i < |points| && points[i].id == n.id && r.value == points[i].pos &&
                  forall j :: 0 <= j < i ==> points[j].id != n.id
  {
    NodeSetMembers(drones, points, n);
    match n
    case DroneNode(id) =>
      var d := FindDrone(drones, id);
      if d.Some? then Some(d.value.startPos) else None
    case DeliveryNode(id) =>
      var p := FindDelivery(points, id);
      if p.Some? then Some(p.value.pos) else None
  }

  function Max(a: real, b: real): real { if a >= b then a else b }
  function Min(a: real, b: real): real { if a <= b then a else b }

  /** The overlap test of graph.py:51-52 between the boxes of segments p1-p2 and a-b. */
  predicate BoxesOverlap(p1: Point, p2: Point, a: Point, b: Point)
  {
    && Max(p1.x, p2.x) >= Min(a.x, b.x) && Max(a.x, b.x) >= Min(p1.x, p2.x)
    && Max(p1.y, p2.y) >= Min(a.y, b.y) && Max(a.y, b.y) >= Min(p1.y, p2.y)
  }

  /** Ring edge i of a polygon joins vertex i to vertex (i + 1) mod n. */
  predicate EdgeOverlaps(p1: Point, p2: Point, coordinates: seq<Point>, i: int)
    requires 0 <= i < |coordinates|
  {
    BoxesOverlap(p1, p2, coordinates[i], coordinates[(i + 1) % |coordinates|])
  }

  /** The loop of `_is_line_intersecting_no_fly_zone` from ring edge i on. */
  function HitsRingFrom(p1: Point, p2: Point, coordinates: seq<Point>, i: nat): (r: bool)
    requires i <= |coordinates|
    decreases |coordinates| - i
    ensures r <==> exists j :: i <= j < |coordinates| && EdgeOverlaps(p1, p2, coordinates, j)
  {
    if i == |coordinates| then false
    else if EdgeOverlaps(p1, p2, coordinates, i) then true
    else HitsRingFrom(p1, p2, coordinates, i + 1)
  }

  /**
   * `_is_line_intersecting_no_fly_zone`: true iff the box of the segment
   * overlaps the box of some ring edge; an empty ring is never hit.
   */
  function SegmentHitsRing(p1: Point, p2: Point, coordinates: seq<Point>): (r: bool)
    ensures r <==> exists j :: 0 <= j < |coordinates| && EdgeOverlaps(p1, p2, coordinates, j)
    ensures coordinates == [] ==> !r
  {
    HitsRingFrom(p1, p2, coordinates, 0)
  }

  lemma SegmentHitsRingIsSymmetric(p1: Point, p2: Point, coordinates: seq<Point>)
    ensures SegmentHitsRing(p1, p2, coordinates) == SegmentHitsRing(p2, p1, coordinates)
  {
    if SegmentHitsRing(p1, p2, coordinates) {
      var j :| 0 <= j < |coordinates| && EdgeOverlaps(p1, p2, coordinates, j);
      assert EdgeOverlaps(p2, p1, coordinates, j);
    }
    if SegmentHitsRing(p2, p1, coordinates) {
      var j :| 0 <= j < |coordinates| && EdgeOverlaps(p2, p1, coordinates, j);
      assert EdgeOverlaps(p1, p2, coordinates, j);
    }
  }

  /** The loop of `is_in_no_fly_zone`; it looks at every zone, active or not. */
  function AnyZoneHit(zones: seq<NoFlyZone>, p1: Point, p2: Point): (r: bool)
    ensures r <==> exists i :: 0 <= i < |zones| && SegmentHitsRing(p1, p2, zones[i].coordinates)
  {
    if zones == [] then false
    else if SegmentHitsRing(p1, p2, zones[0].coordinates) then true
    else
      var r := AnyZoneHit(zones[1..], p1, p2);
      assert r ==> exists i :: 0 <= i < |zones| && SegmentHitsRing(p1, p2, zones[i].coordinates) by {
        if r {
          var i :| 0 <= i < |zones| - 1 && SegmentHitsRing(p1, p2, zones[1..][i].coordinates);
          assert zones[i + 1] == zones[1..][i];
        }
      }
      assert (exists i :: 0 <= i < |zones| && SegmentHitsRing(p1, p2, zones[i].coordinates)) ==> r by {
        if exists i :: 0 <= i < |zones| && SegmentHitsRing(p1, p2, zones[i].coordinates) {
          var i :| 0 <= i < |zones| && SegmentHitsRing(p1, p2, zones[i].coordinates);
          assert i != 0 && zones[1..][i - 1] == zones[i];
        }
      }
      r
  }

  /** A weight for every ordered pair of nodes. */
  type Weight = (Node, Node) -> real

  /** The position of a node known to the graph. */
  function PositionOf(drones: seq<Drone>, points: seq<DeliveryPoint>, n: Node): Point
    requires n in NodeSet(drones, points)
  {
    NodePosition(drones, points, n).value
  }

  /** The distance between the positions of two nodes of the graph (0 when either is not one). */
  function Distances(drones: seq<Drone>, points: seq<DeliveryPoint>, dist: Metric): Weight
  {
    (a: Node, b: Node) =>
      if a in NodeSet(drones, points) && b in NodeSet(drones, points)
      then dist(PositionOf(drones, points, a), PositionOf(drones, points, b))
      else 0.0
  }

  /** The row of one node: an edge of weight `w` to every other target. */
  function Row(w: Weight, from: Node, targets: set<Node>): map<Node, real>
  {
    map to | to in targets && to != from :: w(from, to)
  }

  /** The rows of the given sources, each leading to every other node of `all`. */
  function Rows(w: Weight, sources: set<Node>, all: set<Node>): map<Node, map<Node, real>>
  {
    map from | from in sources :: Row(w, from, all)
  }

  /** The nodes of a list prefix, as a set. */
  function Prefix(nodes: seq<Node>, i: nat): set<Node>
    requires i <= |nodes|
  {
    set n | n in nodes[..i]
  }

  lemma PrefixStep(nodes: seq<Node>, i: nat)
    requires i < |nodes|
    ensures Prefix(nodes, i + 1) == Prefix(nodes, i) + {nodes[i]}
  {
    assert nodes[..i + 1] == nodes[..i] + [nodes[i]];
  }

  lemma PrefixAll(nodes: seq<Node>)
    ensures Prefix(nodes, |nodes|) == set n | n in nodes
  {
    assert nodes[..|nodes|] == nodes;
  }

  lemma RowStep(w: Weight, from: Node, targets: set<Node>, to: Node)
    ensures Row(w, from, targets + {to}) ==
      if to == from then Row(w, from, targets) else Row(w, from, targets)[to := w(from, to)]
  {
  }

  lemma RowsStep(w: Weight, sources: set<Node>, all: set<Node>, from: Node, base: map<Node, map<Node, real>>)
    ensures base + Rows(w, sources + {from}, all) == (base + Rows(w, sources, all))[from := Row(w, from, all)]
  {
  }

  lemma RowsShape(w: Weight, all: set<Node>, a: Node)
    ensures var e := Rows(w, all, all);
      && e.Keys == all
      && (a in e ==> e[a] == Row(w, a, all) && a !in e[a] && e[a].Keys == all - {a})
  {
  }

  /** The graph `_build_graph` produces. */
  function CompleteGraph(drones: seq<Drone>, points: seq<DeliveryPoint>, dist: Metric): map<Node, map<Node, real>>
  {
    Rows(Distances(drones, points, dist), NodeSet(drones, points), NodeSet(drones, points))
  }

  lemma CompleteGraphRows(drones: seq<Drone>, points: seq<DeliveryPoint>, dist: Metric, a: Node)
    ensures var e := CompleteGraph(drones, points, dist);
      && e.Keys == NodeSet(drones, points)
      && (a in e ==> a !in e[a] && e[a].Keys == NodeSet(drones, points) - {a})
  {
    RowsShape(Distances(drones, points, dist), NodeSet(drones, points), a);
  }

  lemma CompleteGraphWeight(drones: seq<Drone>, points: seq<DeliveryPoint>, dist: Metric, a: Node, b: Node)
    requires a in NodeSet(drones, points) && b in NodeSet(drones, points) && a != b
    ensures var e := CompleteGraph(drones, points, dist);
      a in e && b in e[a] && e[a][b] == dist(PositionOf(drones, points, a), PositionOf(drones, points, b))
  {
    var w := Distances(drones, points, dist);
    RowsShape(w, NodeSet(drones, points), a);
    assert Row(w, a, NodeSet(drones, points))[b] == w(a, b);
  }

  /**
   * Every node has a row; no node is its own neighbour; every ordered pair of
   * distinct nodes has an edge, whatever the no-fly zones; edge weights are
   * the node distance, hence non-negative and symmetric.
   */
  lemma CompleteGraphShape(drones: seq<Drone>, points: seq<DeliveryPoint>, dist: Metric, a: Node, b: Node)
    requires IsMetric(dist)
    ensures var e := CompleteGraph(drones, points, dist);
      && e.Keys == NodeSet(drones, points)
      && (a in e ==> a !in e[a] && e[a].Keys == NodeSet(drones, points) - {a})
      && (a in e && b in e[a] ==>
            && e[a][b] == dist(PositionOf(drones, points, a), PositionOf(drones, points, b))
            && 0.0 <= e[a][b]
            && b in e && a in e[b] && e[a][b] == e[b][a])
  {
    CompleteGraphRows(drones, points, dist, a);
    CompleteGraphRows(drones, points, dist, b);
    var e := CompleteGraph(drones, points, dist);
    if a in e && b in e[a] {
      CompleteGraphWeight(drones, points, dist, a, b);
      CompleteGraphWeight(drones, points, dist, b, a);
    }
  }

  class Graph {
    const drones: seq<Drone>
    const deliveryPoints: seq<DeliveryPoint>
    const noFlyZones: seq<NoFlyZone>
    /** Euclidean distance. */
    const dist: Metric
    var edges: map<Node, map<Node, real>>

    ghost predicate Valid()
      reads this
    {
      IsMetric(dist) && edges == CompleteGraph(drones, deliveryPoints, dist)
    }

    function Nodes(): set<Node>
    {
      NodeSet(drones, deliveryPoints)
    }

    constructor (drones: seq<Drone>, deliveryPoints: seq<DeliveryPoint>, noFlyZones: seq<NoFlyZone>, dist: Metric)
      requires IsMetric(dist)
      ensures this.drones == drones && this.deliveryPoints == deliveryPoints
      ensures this.noFlyZones == noFlyZones && this.dist == dist
      ensures Valid()
    {
      this.drones := drones;
      this.deliveryPoints := deliveryPoints;
      this.noFlyZones := noFlyZones;
      this.dist := dist;
      edges := map[];
      new;
      BuildGraph();
    }

    /**
     * `_build_graph`: for each node of the node list, a fresh row holding an
     * edge to every other node. The source fills `self.edges[node1]` in place
     * after storing it; here the row is filled first (`FillRow`) and then
     * stored, which nothing in between can observe.
     */
    method BuildGraph()
      modifies this
      ensures edges == old(edges) + CompleteGraph(drones, deliveryPoints, dist)
    {
      var nodes := NodeList(drones, deliveryPoints);
      ghost var w, all := Distances(drones, deliveryPoints, dist), Nodes();
      for i := 0 to |nodes|
        invariant edges == old(edges) + Rows(w, Prefix(nodes, i), all)
      {
        var node1 := nodes[i];
        var row := FillRow(nodes, node1);
        edges := edges[node1 := row];
        PrefixStep(nodes, i);
        RowsStep(w, Prefix(nodes, i), all, node1, old(edges));
      }
      PrefixAll(nodes);
    }

    /** The inner loop of `_build_graph`: the distance to every node of the list other than `node1`. */
    method FillRow(nodes: seq<Node>, node1: Node) returns (row: map<Node, real>)
      requires (set n | n in nodes) == Nodes() && node1 in nodes
      ensures row == Row(Distances(drones, deliveryPoints, dist), node1, Nodes())
    {
      ghost var w := Distances(drones, deliveryPoints, dist);
      row := map[];
      for j := 0 to |nodes|
        invariant row == Row(w, node1, Prefix(nodes, j))
      {
        var node2 := nodes[j];
        PrefixStep(nodes, j);
        RowStep(w, node1, Prefix(nodes, j), node2);
        if node1 != node2 {
          var pos1 := PositionOf(drones, deliveryPoints, node1);
          var pos2 := PositionOf(drones, deliveryPoints, node2);
          var distance := dist(pos1, pos2);
          assert distance == w(node1, node2);
          row := row[node2 := distance];
        }
      }
      PrefixAll(nodes);
    }

    /** `get_neighbors`: every other node; None (a KeyError in the source) for an unknown node. */
    function GetNeighbors(n: Node): (r: Option<set<Node>>)
      reads this
      requires Valid()
      ensures r.Some? <==> n in Nodes()
      ensures r.Some? ==> r.value == Nodes() - {n}
    {
      CompleteGraphRows(drones, deliveryPoints, dist, n);
      if n in edges then Some(edges[n].Keys) else None
    }

    /** `is_in_no_fly_zone`: some zone's ring passes the box test; activity times are ignored. */
    function IsInNoFlyZone(p1: Point, p2: Point): (r: bool)
      ensures r <==> exists i :: 0 <= i < |noFlyZones| && SegmentHitsRing(p1, p2, noFlyZones[i].coordinates)
    {
      AnyZoneHit(noFlyZones, p1, p2)
    }
  }
}
