/**
 * The A* search of src/algorithms/a_star.py: the edge cost, the heuristic
 * with its zone penalty, and `find_path` with its open list, `came_from` and
 * `g_score` maps and the path reconstruction.
 */
module AStarSearch {
  import opened Wrappers
  import opened ExtReals
  import opened Models
  import opened Graphs

  // ---------------------------------------------------------------------
  // Edge cost and heuristic

  /** The target is a delivery point heavier than the drone can carry. */
  predicate TooHeavy(g: Graph, target: Node, drone: Drone)
  {
    && target.DeliveryNode?
    && var dp := FindDelivery(g.deliveryPoints, target.id);
       dp.Some? && dp.value.weight > drone.maxWeight
  }

  /** The inputs under which no edge cost is negative. */
  predicate NonNegativeCosts(points: seq<DeliveryPoint>)
  {
    forall i :: 0 <= i < |points| ==> 0.0 <= points[i].weight && points[i].priority <= 6
  }

  function Distance(g: Graph, a: Node, b: Node): real
    requires a in g.Nodes() && b in g.Nodes()
  {
    g.dist(PositionOf(g.drones, g.deliveryPoints, a), PositionOf(g.drones, g.deliveryPoints, b))
  }

  /**
   * `_cost`: into a delivery point, infinite when the parcel is heavier than
   * the drone's capacity and otherwise distance times weight plus the
   * priority bonus (6 - priority) * 100; into a drone node, the distance.
   * A delivery node of the graph always has its point, so the fallback for
   * a missing one (the `except StopIteration` of lines 44-45) is dead code,
   * as it is in the source, where `get_node_position` fails first.
   */
  function EdgeCost(g: Graph, from: Node, to: Node, drone: Drone): (c: ExtReal)
    requires from in g.Nodes() && to in g.Nodes()
    ensures c.PosInf? <==> TooHeavy(g, to, drone)
    ensures !c.NegInf?
    ensures to.DeliveryNode? ==> FindDelivery(g.deliveryPoints, to.id).Some?
    ensures to.DroneNode? ==> c == Finite(Distance(g, from, to))
    ensures to.DeliveryNode? && !TooHeavy(g, to, drone) ==>
      c == Finite(DeliveryCost(Distance(g, from, to), FindDelivery(g.deliveryPoints, to.id).value))
  {
    NodeSetMembers(g.drones, g.deliveryPoints, to);
    var distance := Distance(g, from, to);
    match to
    case DeliveryNode(id) =>
      (match FindDelivery(g.deliveryPoints, id)
       case Some(dp) =>
         if dp.weight > drone.maxWeight then PosInf
         else Finite(DeliveryCost(distance, dp))
       case None => Finite(distance))
    case DroneNode(_) => Finite(distance)
  }

  /** The cost of flying `distance` into `dp`: distance times weight, plus (6 - priority) * 100. */
  function DeliveryCost(distance: real, dp: DeliveryPoint): real
  {
    distance * dp.weight + ((6 - dp.priority) * 100) as real
  }

  lemma DeliveryCostNonNegative(distance: real, dp: DeliveryPoint)
    requires 0.0 <= distance && 0.0 <= dp.weight && dp.priority <= 6
    ensures 0.0 <= DeliveryCost(distance, dp)
  {
    assert 0.0 <= distance * dp.weight;
  }

  lemma EdgeCostNonNegative(g: Graph, from: Node, to: Node, drone: Drone)
    requires IsMetric(g.dist) && NonNegativeCosts(g.deliveryPoints)
    requires from in g.Nodes() && to in g.Nodes()
    ensures EdgeCost(g, from, to, drone).Finite? ==> 0.0 <= EdgeCost(g, from, to, drone).value
  {
    var d := Distance(g, from, to);
    assert 0.0 <= d;
    if to.DeliveryNode? && FindDelivery(g.deliveryPoints, to.id).Some? {
      var dp := FindDelivery(g.deliveryPoints, to.id).value;
      assert 0.0 <= dp.weight && dp.priority <= 6;
      DeliveryCostNonNegative(d, dp);
    }
  }

  /** The zone loop of `_heuristic`: is some zone active at `t` with a ring that passes the box test? */
  function AnyActiveZoneHit(zones: seq<NoFlyZone>, t: int, p1: Point, p2: Point): bool
  {
    if zones == [] then false
    else if IsActive(zones[0], t) && SegmentHitsRing(p1, p2, zones[0].coordinates) then true
    else AnyActiveZoneHit(zones[1..], t, p1, p2)
  }

  lemma {:induction false} AnyActiveZoneHitMeaning(zones: seq<NoFlyZone>, t: int, p1: Point, p2: Point)
    ensures AnyActiveZoneHit(zones, t, p1, p2) <==>
      exists i :: 0 <= i < |zones| && IsActive(zones[i], t) && SegmentHitsRing(p1, p2, zones[i].coordinates)
  {
    if zones != [] {
      AnyActiveZoneHitMeaning(zones[1..], t, p1, p2);
      if AnyActiveZoneHit(zones[1..], t, p1, p2) {
        var i :| 0 <= i < |zones| - 1 && IsActive(zones[1..][i], t) && SegmentHitsRing(p1, p2, zones[1..][i].coordinates);
        assert zones[i + 1] == zones[1..][i];
      }
      if exists i :: 0 <= i < |zones| && IsActive(zones[i], t) && SegmentHitsRing(p1, p2, zones[i].coordinates) {
        var i :| 0 <= i < |zones| && IsActive(zones[i], t) && SegmentHitsRing(p1, p2, zones[i].coordinates);
        if i != 0 {
          assert zones[1..][i - 1] == zones[i];
        }
      }
    }
  }

  /** `_heuristic`: the distance to the goal, plus 1000 when the zone loop finds a hit. */
  function Heuristic(g: Graph, node: Node, goal: Node, drone: Drone, currentTime: int): real
    requires node in g.Nodes() && goal in g.Nodes()
  {
    var p1 := PositionOf(g.drones, g.deliveryPoints, node);
    var p2 := PositionOf(g.drones, g.deliveryPoints, goal);
    var distance := g.dist(p1, p2);
    var penalty := if AnyActiveZoneHit(g.noFlyZones, currentTime, p1, p2) then 1000.0 else 0.0;
    distance + penalty
  }

  /**
   * The heuristic is the distance from `node` to `goal`, plus 1000 exactly
   * when some zone active at `currentTime` passes the box test against the
   * straight segment; it is never below the distance.
   */
  lemma HeuristicPenalty(g: Graph, node: Node, goal: Node, drone: Drone, currentTime: int)
    requires node in g.Nodes() && goal in g.Nodes()
    ensures var p1 := PositionOf(g.drones, g.deliveryPoints, node);
            var p2 := PositionOf(g.drones, g.deliveryPoints, goal);
            var h := Heuristic(g, node, goal, drone, currentTime);
            var penalised := exists i :: 0 <= i < |g.noFlyZones| && IsActive(g.noFlyZones[i], currentTime) &&
                                         SegmentHitsRing(p1, p2, g.noFlyZones[i].coordinates);
            && (penalised ==> h == g.dist(p1, p2) + 1000.0)
            && (!penalised ==> h == g.dist(p1, p2))
            && g.dist(p1, p2) <= h
  {
    var p1 := PositionOf(g.drones, g.deliveryPoints, node);
    var p2 := PositionOf(g.drones, g.deliveryPoints, goal);
    AnyActiveZoneHitMeaning(g.noFlyZones, currentTime, p1, p2);
  }

  // ---------------------------------------------------------------------
  // The open list: a heap of (priority, node name) pairs

  /** Python's `<` on strings: lexicographic by code point. */
  predicate StringLess(a: string, b: string)
  {
    if a == [] then b != []
    else if b == [] then false
    else if a[0] != b[0] then a[0] < b[0]
    else StringLess(a[1..], b[1..])
  }

  lemma {:induction false} StringLessTransitive(a: string, b: string, c: string)
    requires StringLess(a, b) && StringLess(b, c)
    ensures StringLess(a, c)
  {
    if a != [] && a[0] == b[0] && b[0] == c[0] {
      StringLessTransitive(a[1..], b[1..], c[1..]);
    }
  }

  datatype Entry = Entry(priority: real, node: Node)

  /** The order of the heap's tuples: priority first, then node name. */
  predicate EntryLess(a: Entry, b: Entry)
  {
    a.priority < b.priority || (a.priority == b.priority && StringLess(NodeName(a.node), NodeName(b.node)))
  }

  lemma {:induction false} StringLessIrreflexive(a: string)
    ensures !StringLess(a, a)
  {
    if a != [] {
      StringLessIrreflexive(a[1..]);
    }
  }

  lemma EntryLessTransitive(a: Entry, b: Entry, c: Entry)
    requires EntryLess(a, b) && EntryLess(b, c)
    ensures EntryLess(a, c)
  {
    if a.priority == b.priority == c.priority {
      StringLessTransitive(NodeName(a.node), NodeName(b.node), NodeName(c.node));
    }
  }

  /** `heappop`: the position of a least entry of the open list. */
  method PopMinIndex(open: seq<Entry>) returns (k: nat)
    requires open != []
    ensures k < |open|
    ensures forall j :: 0 <= j < |open| ==> !EntryLess(open[j], open[k])
  {
    k := 0;
    StringLessIrreflexive(NodeName(open[0].node));
    for i := 1 to |open|
      invariant k < i
      invariant forall j :: 0 <= j < i ==> !EntryLess(open[j], open[k])
    {
      if EntryLess(open[i], open[k]) {
        NewMinimum(open, i, k);
        k := i;
      }
    }
  }

  /** An entry below the least of a prefix is the least of the prefix extended by it. */
  lemma NewMinimum(open: seq<Entry>, i: nat, k: nat)
    requires k < i < |open|
    requires forall j :: 0 <= j < i ==> !EntryLess(open[j], open[k])
    requires EntryLess(open[i], open[k])
    ensures forall j :: 0 <= j <= i ==> !EntryLess(open[j], open[i])
  {
    forall j | 0 <= j < i ensures !EntryLess(open[j], open[i]) {
      if EntryLess(open[j], open[i]) {
        EntryLessTransitive(open[j], open[i], open[k]);
      }
    }
    StringLessIrreflexive(NodeName(open[i].node));
  }

  predicate InOpen(open: seq<Entry>, n: Node)
  {
    exists i :: 0 <= i < |open| && open[i].node == n
  }

  // ---------------------------------------------------------------------
  // Paths

  /** An edge-cost function; `_cost` on one graph and drone is one of these. */
  type CostFn = (Node, Node) -> ExtReal

  /** `_cost` for `drone` on `g`, as a function of the two endpoints. */
  function CostOf(g: Graph, drone: Drone): CostFn
  {
    (a: Node, b: Node) => if a in g.Nodes() && b in g.Nodes() then EdgeCost(g, a, b, drone) else PosInf
  }

  ghost predicate NonNegative(w: CostFn)
  {
    forall a, b :: !w(a, b).NegInf? && (w(a, b).Finite? ==> 0.0 <= w(a, b).value)
  }

  lemma CostOfNonNegative(g: Graph, drone: Drone)
    requires IsMetric(g.dist) && NonNegativeCosts(g.deliveryPoints)
    ensures NonNegative(CostOf(g, drone))
  {
    forall a, b ensures !CostOf(g, drone)(a, b).NegInf? && (CostOf(g, drone)(a, b).Finite? ==> 0.0 <= CostOf(g, drone)(a, b).value) {
      if a in g.Nodes() && b in g.Nodes() {
        EdgeCostNonNegative(g, a, b, drone);
      }
    }
  }

  /** `w` is `_cost` for `drone` on `g` wherever both endpoints are nodes of `g`. */
  ghost predicate Agrees(g: Graph, drone: Drone, w: CostFn)
  {
    forall a, b {:trigger EdgeCost(g, a, b, drone)} ::
      a in g.Nodes() && b in g.Nodes() ==> w(a, b) == EdgeCost(g, a, b, drone)
  }

  lemma CostOfAgrees(g: Graph, drone: Drone)
    ensures Agrees(g, drone, CostOf(g, drone))
  {
  }

  /** Consecutive nodes are neighbours in the graph `get_neighbors` describes: distinct nodes of it. */
  predicate IsGraphPath(nodes: set<Node>, path: seq<Node>)
  {
    && (forall i :: 0 <= i < |path| ==> path[i] in nodes)
    && (forall i :: 0 <= i < |path| - 1 ==> path[i] != path[i + 1])
  }

  predicate NoDuplicates(path: seq<Node>)
  {
    forall i, j :: 0 <= i < j < |path| ==> path[i] != path[j]
  }

  /** The sum of the edge costs along a path. */
  function PathCost(w: CostFn, path: seq<Node>): ExtReal
  {
    if |path| < 2 then Finite(0.0)
    else Add(w(path[0], path[1]), PathCost(w, path[1..]))
  }

  /** Two cost functions that agree on the graph give every path of the graph the same cost. */
  lemma {:induction false} PathCostAgrees(g: Graph, drone: Drone, w: CostFn, path: seq<Node>)
    requires Agrees(g, drone, w)
    requires forall i :: 0 <= i < |path| ==> path[i] in g.Nodes()
    ensures PathCost(w, path) == PathCost(CostOf(g, drone), path)
  {
    if |path| >= 2 {
      assert w(path[0], path[1]) == EdgeCost(g, path[0], path[1], drone);
      PathCostAgrees(g, drone, w, path[1..]);
    }
  }

  /** `path[::-1]`. */
  function Reverse(s: seq<Node>): (r: seq<Node>)
    ensures |r| == |s|
  {
    if s == [] then [] else Reverse(s[1..]) + [s[0]]
  }

  lemma {:induction false} ReverseAppend(s: seq<Node>, x: Node)
    ensures Reverse(s + [x]) == [x] + Reverse(s)
  {
    if s != [] {
      assert (s + [x])[1..] == s[1..] + [x];
      ReverseAppend(s[1..], x);
    } else {
      assert s + [x] == [x];
    }
  }

  // ---------------------------------------------------------------------
  // The search state

  /** `a` was recorded earlier than `b` in the (g-score, update time) order. */
  ghost predicate Before(gScore: map<Node, real>, stamp: map<Node, nat>, a: Node, b: Node)
    requires a in gScore && b in gScore && a in stamp && b in stamp
  {
    gScore[a] < gScore[b] || (gScore[a] == gScore[b] && stamp[a] < stamp[b])
  }

  /** What the step that set `came_from[n]` and `g_score[n]` guarantees about them. */
  ghost predicate Link(w: CostFn, cameFrom: map<Node, Node>, gScore: map<Node, real>, stamp: map<Node, nat>, n: Node)
    requires n in cameFrom && n in gScore && n in stamp
  {
    var p := cameFrom[n];
    && p in gScore && p in stamp && p != n
    && w(p, n).Finite?
    && gScore[p] + w(p, n).value <= gScore[n]
    && Before(gScore, stamp, p, n)
  }

  /**
   * The invariant of `find_path`'s maps: every node with a g-score except the
   * start has a predecessor, the start has score 0 and none, scores are
   * non-negative, and each predecessor link is an edge of finite cost that
   * leads back in (g-score, update time) order, so no link chain cycles.
   */
  ghost predicate Forest(nodes: set<Node>, w: CostFn, start: Node, cameFrom: map<Node, Node>,
                         gScore: map<Node, real>, stamp: map<Node, nat>)
  {
    Shape(nodes, start, cameFrom, gScore, stamp) && Links(w, cameFrom, gScore, stamp)
  }

  /** The key sets and score bounds of the `Forest` invariant. */
  ghost predicate Shape(nodes: set<Node>, start: Node, cameFrom: map<Node, Node>,
                        gScore: map<Node, real>, stamp: map<Node, nat>)
  {
    && start in gScore && gScore[start] == 0.0 && start !in cameFrom
    && gScore.Keys == cameFrom.Keys + {start}
    && gScore.Keys <= nodes
    && stamp.Keys == gScore.Keys
    && (forall n :: n in gScore ==> 0.0 <= gScore[n])
  }

  /** The predecessor links of the `Forest` invariant. */
  ghost predicate Links(w: CostFn, cameFrom: map<Node, Node>, gScore: map<Node, real>, stamp: map<Node, nat>)
  {
    forall n :: n in cameFrom && n in gScore && n in stamp ==> Link(w, cameFrom, gScore, stamp, n)
  }

  /** One link after relaxing `current -> nb`: a link out of `nb` only gets cheaper to keep. */
  lemma RelaxKeepsLink(w: CostFn, cameFrom: map<Node, Node>, gScore: map<Node, real>, stamp: map<Node, nat>,
                       current: Node, nb: Node, score: real, time: nat, n: Node)
    requires stamp.Keys == gScore.Keys
    requires n in cameFrom && n in gScore && n != nb
    requires Link(w, cameFrom, gScore, stamp, n)
    requires nb in gScore ==> score < gScore[nb]
    ensures Link(w, cameFrom[nb := current], gScore[nb := score], stamp[nb := time], n)
  {
    var p := cameFrom[n];
    var gs', st' := gScore[nb := score], stamp[nb := time];
    assert gs'[n] == gScore[n] && st'[n] == stamp[n];
    if p == nb {
      assert gs'[p] < gScore[p];
    } else {
      assert gs'[p] == gScore[p] && st'[p] == stamp[p];
    }
  }

  /** Relaxing the edge `current -> nb` to a strictly better score keeps the invariant. */
  lemma RelaxKeepsForest(nodes: set<Node>, w: CostFn, start: Node, cameFrom: map<Node, Node>, gScore: map<Node, real>,
                         stamp: map<Node, nat>, clock: nat, current: Node, nb: Node)
    requires NonNegative(w)
    requires Forest(nodes, w, start, cameFrom, gScore, stamp)
    requires forall n :: n in stamp ==> stamp[n] <= clock
    requires current in gScore && nb in nodes && nb != current
    requires w(current, nb).Finite?
    requires nb !in gScore || gScore[current] + w(current, nb).value < gScore[nb]
    ensures nb != start
    ensures Forest(nodes, w, start, cameFrom[nb := current],
                   gScore[nb := gScore[current] + w(current, nb).value], stamp[nb := clock + 1])
  {
    var score := gScore[current] + w(current, nb).value;
    assert 0.0 <= score && nb != start;
    RelaxKeepsShape(nodes, start, cameFrom, gScore, stamp, current, nb, score, clock + 1);
    RelaxKeepsLinks(w, cameFrom, gScore, stamp, clock, current, nb, score);
  }

  lemma RelaxKeepsShape(nodes: set<Node>, start: Node, cameFrom: map<Node, Node>, gScore: map<Node, real>,
                        stamp: map<Node, nat>, current: Node, nb: Node, score: real, time: nat)
    requires Shape(nodes, start, cameFrom, gScore, stamp)
    requires nb in nodes && nb != start && 0.0 <= score
    ensures Shape(nodes, start, cameFrom[nb := current], gScore[nb := score], stamp[nb := time])
  {
  }

  lemma RelaxKeepsLinks(w: CostFn, cameFrom: map<Node, Node>, gScore: map<Node, real>,
                        stamp: map<Node, nat>, clock: nat, current: Node, nb: Node, score: real)
    requires Links(w, cameFrom, gScore, stamp) && stamp.Keys == gScore.Keys && cameFrom.Keys <= gScore.Keys
    requires forall n :: n in stamp ==> stamp[n] <= clock
    requires current in gScore && nb != current
    requires w(current, nb).Finite? && score == gScore[current] + w(current, nb).value
    requires nb in gScore ==> score < gScore[nb]
    requires 0.0 <= w(current, nb).value
    ensures Links(w, cameFrom[nb := current], gScore[nb := score], stamp[nb := clock + 1])
  {
    var cf', gs', st' := cameFrom[nb := current], gScore[nb := score], stamp[nb := clock + 1];
    assert Link(w, cf', gs', st', nb);
    forall n | n in cf' && n in gs' && n in st' && n != nb ensures Link(w, cf', gs', st', n) {
      RelaxKeepsLink(w, cameFrom, gScore, stamp, current, nb, score, clock + 1, n);
    }
  }

  /** Each node of `chain` after the first was reached from its predecessor in `chain`. */
  ghost predicate LinkedBack(cameFrom: map<Node, Node>, chain: seq<Node>)
  {
    forall i :: 1 <= i < |chain| ==> chain[i] in cameFrom && cameFrom[chain[i]] == chain[i - 1]
  }

  /** The nodes of `chain` have g-scores and come in strictly increasing (g-score, update time) order. */
  ghost predicate Increasing(gScore: map<Node, real>, stamp: map<Node, nat>, chain: seq<Node>)
  {
    && (forall i :: 0 <= i < |chain| ==> chain[i] in gScore && chain[i] in stamp)
    && (forall i, j :: 0 <= i < j < |chain| ==> Before(gScore, stamp, chain[i], chain[j]))
  }

  /** Extending a chain at its front by the predecessor of its first node. */
  lemma ExtendChain(nodes: set<Node>, w: CostFn, start: Node, cameFrom: map<Node, Node>, gScore: map<Node, real>,
                    stamp: map<Node, nat>, chain: seq<Node>)
    requires Forest(nodes, w, start, cameFrom, gScore, stamp)
    requires chain != [] && chain[0] in cameFrom
    requires LinkedBack(cameFrom, chain) && Increasing(gScore, stamp, chain)
    ensures cameFrom[chain[0]] !in chain
    ensures LinkedBack(cameFrom, [cameFrom[chain[0]]] + chain)
    ensures Increasing(gScore, stamp, [cameFrom[chain[0]]] + chain)
  {
    var p := cameFrom[chain[0]];
    assert Link(w, cameFrom, gScore, stamp, chain[0]);
    var chain' := [p] + chain;
    forall i, j | 0 <= i < j < |chain'| ensures Before(gScore, stamp, chain'[i], chain'[j]) {
      if i == 0 && j > 1 {
        assert Before(gScore, stamp, chain[0], chain[j - 1]);
      } else if i > 0 {
        assert chain'[i] == chain[i - 1] && chain'[j] == chain[j - 1];
      }
    }
    forall j | 0 <= j < |chain| ensures chain[j] != p {
      assert Before(gScore, stamp, p, chain[j]) by {
        if j > 0 {
          assert Before(gScore, stamp, chain[0], chain[j]);
        }
      }
    }
  }

  /** The cost bound carried along the chain grows by one edge. */
  lemma ExtendChainCost(nodes: set<Node>, w: CostFn, start: Node, cameFrom: map<Node, Node>, gScore: map<Node, real>,
                        stamp: map<Node, nat>, chain: seq<Node>, bound: real)
    requires Forest(nodes, w, start, cameFrom, gScore, stamp)
    requires chain != [] && chain[0] in cameFrom
    requires PathCost(w, chain).Finite? && gScore[chain[0]] + PathCost(w, chain).value <= bound
    ensures var p := cameFrom[chain[0]];
            p in gScore && PathCost(w, [p] + chain).Finite? && gScore[p] + PathCost(w, [p] + chain).value <= bound
  {
    var p := cameFrom[chain[0]];
    assert Link(w, cameFrom, gScore, stamp, chain[0]);
    assert ([p] + chain)[1..] == chain;
  }

  /** A linked, increasing chain is a path of the graph without repeated nodes. */
  lemma ChainIsPath(nodes: set<Node>, w: CostFn, start: Node, cameFrom: map<Node, Node>, gScore: map<Node, real>,
                    stamp: map<Node, nat>, chain: seq<Node>)
    requires Forest(nodes, w, start, cameFrom, gScore, stamp)
    requires LinkedBack(cameFrom, chain) && Increasing(gScore, stamp, chain)
    ensures IsGraphPath(nodes, chain) && NoDuplicates(chain)
  {
    forall i, j | 0 <= i < j < |chain| ensures chain[i] != chain[j] {
      assert Before(gScore, stamp, chain[i], chain[j]);
    }
    forall i | 1 <= i < |chain| ensures chain[i - 1] != chain[i] {
      assert Link(w, cameFrom, gScore, stamp, chain[i]);
    }
  }

  /**
   * The state of the reconstruction loop: `reversed` holds the nodes already
   * walked back from the goal, and `chain` is the path from `current` to the goal.
   */
  ghost predicate Walk(nodes: set<Node>, w: CostFn, start: Node, goal: Node, cameFrom: map<Node, Node>,
                       gScore: map<Node, real>, stamp: map<Node, nat>, current: Node, reversed: seq<Node>, chain: seq<Node>)
  {
    && Forest(nodes, w, start, cameFrom, gScore, stamp)
    && goal in gScore && current in gScore
    && chain == [current] + Reverse(reversed)
    && chain[|chain| - 1] == goal
    && LinkedBack(cameFrom, chain) && Increasing(gScore, stamp, chain)
    && PathCost(w, chain).Finite? && gScore[current] + PathCost(w, chain).value <= gScore[goal]
  }

  /** One step of the reconstruction loop keeps its state and visits a new node. */
  lemma WalkStep(nodes: set<Node>, w: CostFn, start: Node, goal: Node, cameFrom: map<Node, Node>,
                 gScore: map<Node, real>, stamp: map<Node, nat>, current: Node, reversed: seq<Node>, chain: seq<Node>)
    requires Walk(nodes, w, start, goal, cameFrom, gScore, stamp, current, reversed, chain)
    requires current in cameFrom
    ensures var p := cameFrom[current];
            && Walk(nodes, w, start, goal, cameFrom, gScore, stamp, p, reversed + [current], [p] + chain)
            && (gScore.Keys - set x | x in [p] + chain) < (gScore.Keys - set x | x in chain)
  {
    var p := cameFrom[current];
    ExtendChain(nodes, w, start, cameFrom, gScore, stamp, chain);
    ExtendChainCost(nodes, w, start, cameFrom, gScore, stamp, chain, gScore[goal]);
    ReverseAppend(reversed, current);
    assert (set x | x in [p] + chain) == (set x | x in chain) + {p};
  }

  /** When the walk reaches the start, appending it and reversing gives the chain. */
  lemma WalkEnd(nodes: set<Node>, w: CostFn, start: Node, goal: Node, cameFrom: map<Node, Node>,
                gScore: map<Node, real>, stamp: map<Node, nat>, current: Node, reversed: seq<Node>, chain: seq<Node>)
    requires Walk(nodes, w, start, goal, cameFrom, gScore, stamp, current, reversed, chain)
    requires current !in cameFrom
    ensures current == start && Reverse(reversed + [start]) == chain
    ensures IsGraphPath(nodes, chain) && NoDuplicates(chain)
  {
    ReverseAppend(reversed, start);
    ChainIsPath(nodes, w, start, cameFrom, gScore, stamp, chain);
  }

  /**
   * Lines 59-64 of `find_path`: follow `came_from` back from the goal,
   * append the start and reverse.
   */
  method ReconstructPath(ghost nodes: set<Node>, ghost w: CostFn, start: Node, goal: Node, cameFrom: map<Node, Node>,
                         ghost gScore: map<Node, real>, ghost stamp: map<Node, nat>) returns (path: seq<Node>)
    requires Forest(nodes, w, start, cameFrom, gScore, stamp)
    requires goal in gScore
    ensures path != [] && path[0] == start && path[|path| - 1] == goal
    ensures IsGraphPath(nodes, path) && NoDuplicates(path)
    ensures PathCost(w, path).Finite? && PathCost(w, path).value <= gScore[goal]
    ensures goal == start ==> path == [start]
  {
    var reversed: seq<Node> := [];
    var current := goal;
    ghost var chain := [goal];
    while current in cameFrom
      invariant Walk(nodes, w, start, goal, cameFrom, gScore, stamp, current, reversed, chain)
      decreases gScore.Keys - set x | x in chain
    {
      WalkStep(nodes, w, start, goal, cameFrom, gScore, stamp, current, reversed, chain);
      chain := [cameFrom[current]] + chain;
      reversed := reversed + [current];
      current := cameFrom[current];
    }
    WalkEnd(nodes, w, start, goal, cameFrom, gScore, stamp, current, reversed, chain);
    reversed := reversed + [start];
    path := Reverse(reversed);
  }

  datatype PathResult =
    | Path(nodes: seq<Node>, cost: ExtReal)  // the source's (path, cost) pair
    | UnknownNode                            // the source raises: start or goal is not a node of the graph
    | OutOfFuel                              // the iteration bound of this model was reached

  /** Taking entry `k` out of the open list keeps every other node in it. */
  lemma RemoveKeepsOthers(open: seq<Entry>, k: nat, n: Node)
    requires k < |open| && InOpen(open, n) && open[k].node != n
    ensures InOpen(open[..k] + open[k + 1..], n)
  {
    var i :| 0 <= i < |open| && open[i].node == n;
    var rest := open[..k] + open[k + 1..];
    if i < k {
      assert rest[i] == open[i];
    } else {
      assert rest[i - 1] == open[i];
    }
  }

  /** Every edge into `goal` has infinite cost. */
  ghost predicate Unreachable(w: CostFn, goal: Node)
  {
    forall x :: w(x, goal).PosInf?
  }

  lemma UnreachableIffTooHeavy(g: Graph, drone: Drone, goal: Node)
    requires goal in g.Nodes()
    ensures Unreachable(CostOf(g, drone), goal) <==> TooHeavy(g, goal, drone)
  {
    assert CostOf(g, drone)(goal, goal) == EdgeCost(g, goal, goal, drone);
  }

  /**
   * The invariant of the search loops: the maps form a `Forest`, update times
   * are at most `clock`, every open entry has a g-score, a goal with a
   * g-score is open, and an unreachable goal never gets a g-score.
   */
  ghost predicate Search(nodes: set<Node>, w: CostFn, start: Node, goal: Node, openSet: seq<Entry>,
                         cameFrom: map<Node, Node>, gScore: map<Node, real>, stamp: map<Node, nat>, clock: nat)
  {
    Forest(nodes, w, start, cameFrom, gScore, stamp) && OpenOk(w, start, goal, openSet, gScore, stamp, clock)
  }

  /** The part of `Search` about the open list and the update times. */
  ghost predicate OpenOk(w: CostFn, start: Node, goal: Node, openSet: seq<Entry>,
                         gScore: map<Node, real>, stamp: map<Node, nat>, clock: nat)
  {
    && (forall n :: n in stamp ==> stamp[n] <= clock)
    && (forall i :: 0 <= i < |openSet| ==> openSet[i].node in gScore)
    && (goal in gScore ==> InOpen(openSet, goal))
    && (start != goal && Unreachable(w, goal) ==> goal !in gScore)
  }

  /** Popping an entry other than the goal's keeps the search invariant. */
  lemma PopKeepsSearch(nodes: set<Node>, w: CostFn, start: Node, goal: Node, openSet: seq<Entry>,
                       cameFrom: map<Node, Node>, gScore: map<Node, real>, stamp: map<Node, nat>, clock: nat, k: nat)
    requires Search(nodes, w, start, goal, openSet, cameFrom, gScore, stamp, clock)
    requires k < |openSet| && openSet[k].node != goal
    ensures Search(nodes, w, start, goal, openSet[..k] + openSet[k + 1..], cameFrom, gScore, stamp, clock)
  {
    var rest := openSet[..k] + openSet[k + 1..];
    assert forall i :: 0 <= i < |rest| ==> rest[i] == (if i < k then openSet[i] else openSet[i + 1]);
    if goal in gScore {
      RemoveKeepsOthers(openSet, k, goal);
    }
  }

  /** Relaxing `current -> nb` and opening `nb` if it is not open keeps the search invariant. */
  lemma RelaxKeepsSearch(nodes: set<Node>, w: CostFn, start: Node, goal: Node, openSet: seq<Entry>,
                         cameFrom: map<Node, Node>, gScore: map<Node, real>, stamp: map<Node, nat>, clock: nat,
                         current: Node, nb: Node, tentative: ExtReal, f: real)
    requires NonNegative(w)
    requires Search(nodes, w, start, goal, openSet, cameFrom, gScore, stamp, clock)
    requires current in gScore && nb in nodes && nb != current
    requires tentative == Add(Finite(gScore[current]), w(current, nb))
    requires Less(tentative, if nb in gScore then Finite(gScore[nb]) else PosInf)
    ensures tentative.Finite?
    ensures Search(nodes, w, start, goal, if InOpen(openSet, nb) then openSet else openSet + [Entry(f, nb)],
                   cameFrom[nb := current], gScore[nb := tentative.value], stamp[nb := clock + 1], clock + 1)
    ensures gScore.Keys <= gScore[nb := tentative.value].Keys && gScore[nb := tentative.value][current] == gScore[current]
  {
    assert !w(current, nb).NegInf?;
    var open' := if InOpen(openSet, nb) then openSet else openSet + [Entry(f, nb)];
    RelaxKeepsForest(nodes, w, start, cameFrom, gScore, stamp, clock, current, nb);
    RelaxKeepsOpen(w, start, goal, openSet, gScore, stamp, clock, current, nb, tentative, f);
    assert OpenOk(w, start, goal, open', gScore[nb := tentative.value], stamp[nb := clock + 1], clock + 1);
  }

  lemma RelaxKeepsOpen(w: CostFn, start: Node, goal: Node, openSet: seq<Entry>,
                       gScore: map<Node, real>, stamp: map<Node, nat>, clock: nat,
                       current: Node, nb: Node, tentative: ExtReal, f: real)
    requires OpenOk(w, start, goal, openSet, gScore, stamp, clock)
    requires current in gScore && !w(current, nb).NegInf?
    requires tentative == Add(Finite(gScore[current]), w(current, nb))
    requires Less(tentative, if nb in gScore then Finite(gScore[nb]) else PosInf)
    ensures tentative.Finite?
    ensures OpenOk(w, start, goal, if InOpen(openSet, nb) then openSet else openSet + [Entry(f, nb)],
                   gScore[nb := tentative.value], stamp[nb := clock + 1], clock + 1)
  {
    var open' := if InOpen(openSet, nb) then openSet else openSet + [Entry(f, nb)];
    var gs', st' := gScore[nb := tentative.value], stamp[nb := clock + 1];
    OpenGrows(openSet, open', nb, f);
    assert forall i :: 0 <= i < |open'| ==> open'[i].node in gs';
    if nb == goal {
      assert !w(current, goal).PosInf?;
    }
  }

  /** Opening `nb` when it is not open: every entry stays, and `nb` becomes open. */
  lemma OpenGrows(openSet: seq<Entry>, open': seq<Entry>, nb: Node, f: real)
    requires open' == if InOpen(openSet, nb) then openSet else openSet + [Entry(f, nb)]
    ensures InOpen(open', nb)
    ensures forall n :: InOpen(openSet, n) ==> InOpen(open', n)
    ensures forall i :: 0 <= i < |open'| ==> open'[i].node == nb || (exists j :: 0 <= j < |openSet| && openSet[j] == open'[i])
  {
    if !InOpen(openSet, nb) {
      assert open'[|openSet|].node == nb;
      forall n | InOpen(openSet, n) ensures InOpen(open', n) {
        var j :| 0 <= j < |openSet| && openSet[j].node == n;
        assert open'[j] == openSet[j];
      }
      forall i | 0 <= i < |open'| && open'[i].node != nb
        ensures exists j :: 0 <= j < |openSet| && openSet[j] == open'[i]
      {
        assert open'[i] == openSet[i];
      }
    } else {
      forall i | 0 <= i < |open'| ensures exists j :: 0 <= j < |openSet| && openSet[j] == open'[i] {
        assert openSet[i] == open'[i];
      }
    }
  }

  /**
   * One pass of the inner loop of `find_path` (lines 67-73), given the edge
   * cost `cost` of `current -> neighbor` and the heuristic `h` of the
   * neighbour: the tentative score through `current`; when it beats the
   * neighbour's score (a missing one counting as infinite), record it, the
   * predecessor and the f-score, and push the neighbour unless it is already
   * open. Scores only go down.
   */
  method Relax(ghost nodes: set<Node>, ghost w: CostFn, start: Node, goal: Node, current: Node, neighbor: Node,
               cost: ExtReal, h: real,
               openSet: seq<Entry>, cameFrom: map<Node, Node>, gScore: map<Node, real>, fScore: map<Node, real>,
               ghost stamp: map<Node, nat>, ghost clock: nat)
    returns (openSet': seq<Entry>, cameFrom': map<Node, Node>, gScore': map<Node, real>, fScore': map<Node, real>,
             ghost stamp': map<Node, nat>, ghost clock': nat)
    requires NonNegative(w) && Search(nodes, w, start, goal, openSet, cameFrom, gScore, stamp, clock)
    requires current in gScore && neighbor in nodes && neighbor != current
    requires w(current, neighbor) == cost
    requires neighbor == goal && cost.PosInf? ==> Unreachable(w, goal)
    ensures Search(nodes, w, start, goal, openSet', cameFrom', gScore', stamp', clock')
    ensures forall n :: n in gScore ==> n in gScore' && gScore'[n] <= gScore[n]
    ensures neighbor == goal ==> goal in gScore' || Unreachable(w, goal)
    ensures var tentative := Add(Finite(gScore[current]), cost);
      if Less(tentative, if neighbor in gScore then Finite(gScore[neighbor]) else PosInf) then
        && tentative.Finite?
        && gScore' == gScore[neighbor := tentative.value]
        && cameFrom' == cameFrom[neighbor := current]
        && fScore' == fScore[neighbor := tentative.value + h]
        && openSet' == if InOpen(openSet, neighbor) then openSet else openSet + [Entry(tentative.value + h, neighbor)]
      else
        openSet' == openSet && cameFrom' == cameFrom && gScore' == gScore && fScore' == fScore
  {
    openSet', cameFrom', gScore', fScore', stamp', clock' := openSet, cameFrom, gScore, fScore, stamp, clock;
    var tentative := Add(Finite(gScore[current]), cost);
    var known := if neighbor in gScore then Finite(gScore[neighbor]) else PosInf;
    if Less(tentative, known) {
      var f := tentative.value + h;
      RelaxKeepsSearch(nodes, w, start, goal, openSet, cameFrom, gScore, stamp, clock, current, neighbor, tentative, f);
      cameFrom' := cameFrom[neighbor := current];
      gScore' := gScore[neighbor := tentative.value];
      stamp' := stamp[neighbor := clock + 1];
      clock' := clock + 1;
      fScore' := fScore[neighbor := f];
      openSet' := if InOpen(openSet, neighbor) then openSet else openSet + [Entry(f, neighbor)];
    }
  }

  /**
   * The inner loop of `find_path` (lines 66-73) over the neighbours of
   * `current`. The neighbour's heuristic is computed before the comparison
   * rather than only when it succeeds; it is a pure function, so nothing
   * can observe the difference.
   */
  method Expand(g: Graph, drone: Drone, start: Node, goal: Node, currentTime: int, current: Node,
                openSet: seq<Entry>, cameFrom: map<Node, Node>, gScore: map<Node, real>, fScore: map<Node, real>,
                ghost w: CostFn, ghost stamp: map<Node, nat>, ghost clock: nat)
    returns (openSet': seq<Entry>, cameFrom': map<Node, Node>, gScore': map<Node, real>, fScore': map<Node, real>,
             ghost stamp': map<Node, nat>, ghost clock': nat)
    requires g.Valid() && goal in g.Nodes()
    requires Agrees(g, drone, w) && NonNegative(w) && (TooHeavy(g, goal, drone) ==> Unreachable(w, goal))
    requires Search(g.Nodes(), w, start, goal, openSet, cameFrom, gScore, stamp, clock)
    requires current in gScore && current != goal
    ensures Search(g.Nodes(), w, start, goal, openSet', cameFrom', gScore', stamp', clock')
    ensures gScore.Keys <= gScore'.Keys
    ensures forall n :: n in gScore ==> gScore'[n] <= gScore[n]
    ensures goal in gScore' || Unreachable(w, goal)
  {
    openSet', cameFrom', gScore', fScore', stamp', clock' := openSet, cameFrom, gScore, fScore, stamp, clock;
    var neighbors := g.GetNeighbors(current).value;
    while neighbors != {}
      invariant Search(g.Nodes(), w, start, goal, openSet', cameFrom', gScore', stamp', clock')
      invariant current in gScore' && neighbors <= g.Nodes() - {current}
      invariant gScore.Keys <= gScore'.Keys
      invariant forall n :: n in gScore ==> gScore'[n] <= gScore[n]
      invariant goal !in neighbors ==> goal in gScore' || Unreachable(w, goal)
      decreases neighbors
    {
      var neighbor :| neighbor in neighbors;
      neighbors := neighbors - {neighbor};
      var cost := EdgeCost(g, current, neighbor, drone);
      var h := Heuristic(g, neighbor, goal, drone, currentTime);
      assert w(current, neighbor) == cost;
      openSet', cameFrom', gScore', fScore', stamp', clock' :=
        Relax(g.Nodes(), w, start, goal, current, neighbor, cost, h, openSet', cameFrom', gScore', fScore', stamp', clock');
    }
  }

  /**
   * What the search loop delivers: a path from the start to the goal along
   * graph edges without repeated nodes, whose cost is finite, non-negative
   * and at least the cost `w` gives it; or no path with an infinite cost,
   * which happens exactly when the goal differs from the start and is
   * unreachable; or the start itself at cost 0 when it is the goal.
   */
  ghost predicate Outcome(nodes: set<Node>, w: CostFn, start: Node, goal: Node, fuel: nat, r: PathResult)
  {
    && !r.UnknownNode?
    && (r.Path? ==> (r.nodes == [] <==> r.cost == PosInf))
    && (r.Path? && r.nodes != [] ==>
          && r.nodes[0] == start && r.nodes[|r.nodes| - 1] == goal
          && IsGraphPath(nodes, r.nodes) && NoDuplicates(r.nodes)
          && r.cost.Finite? && 0.0 <= r.cost.value
          && PathCost(w, r.nodes).Finite? && PathCost(w, r.nodes).value <= r.cost.value)
    && (r.Path? && r.nodes == [] ==> start != goal && Unreachable(w, goal))
    && (r.Path? && start != goal && Unreachable(w, goal) ==> r.nodes == [])
    && (start == goal && 0 < fuel ==> r == Path([start], Finite(0.0)))
  }

  /** The goal was popped: reconstruct the path, whose cost is the goal's g-score. */
  method Finish(ghost nodes: set<Node>, ghost w: CostFn, start: Node, goal: Node, fuel: nat, openSet: seq<Entry>,
                cameFrom: map<Node, Node>, gScore: map<Node, real>, ghost stamp: map<Node, nat>, ghost clock: nat)
    returns (r: PathResult)
    requires Search(nodes, w, start, goal, openSet, cameFrom, gScore, stamp, clock)
    requires goal in gScore
    requires start == goal ==> cameFrom == map[]
    ensures Outcome(nodes, w, start, goal, fuel, r)
  {
    var path := ReconstructPath(nodes, w, start, goal, cameFrom, gScore, stamp);
    r := Path(path, Finite(gScore[goal]));
  }

  /** The open list ran empty after an expansion: no path, at infinite cost. */
  lemma ExhaustedOutcome(nodes: set<Node>, w: CostFn, start: Node, goal: Node, fuel: nat,
                         cameFrom: map<Node, Node>, gScore: map<Node, real>, stamp: map<Node, nat>, clock: nat)
    requires Search(nodes, w, start, goal, [], cameFrom, gScore, stamp, clock)
    requires start != goal && (goal in gScore || Unreachable(w, goal))
    ensures Outcome(nodes, w, start, goal, fuel, Path([], PosInf))
  {
  }

  /**
   * Lines 50-54 of `find_path`: the open list holds the start at priority 0,
   * the start has g-score 0 and f-score its heuristic, and no node has a
   * predecessor.
   */
  method Initialize(g: Graph, start: Node, goal: Node, drone: Drone, currentTime: int)
    returns (openSet: seq<Entry>, cameFrom: map<Node, Node>, gScore: map<Node, real>, fScore: map<Node, real>)
    requires start in g.Nodes() && goal in g.Nodes()
    ensures openSet == [Entry(0.0, start)] && cameFrom == map[] && gScore == map[start := 0.0]
    ensures fScore.Keys == {start} && 0.0 <= fScore[start] - g.dist(PositionOf(g.drones, g.deliveryPoints, start),
                                                              PositionOf(g.drones, g.deliveryPoints, goal))
  {
    openSet := [Entry(0.0, start)];
    cameFrom := map[];
    gScore := map[start := 0.0];
    fScore := map[start := Heuristic(g, start, goal, drone, currentTime)];
    HeuristicPenalty(g, start, goal, drone, currentTime);
  }

  /**
   * One pass of the outer loop of `find_path` (lines 57-73): pop a least
   * entry; if it is the goal, the reconstructed path is the result;
   * otherwise its neighbours are relaxed.
   */
  method Step(g: Graph, drone: Drone, start: Node, goal: Node, currentTime: int, fuel: nat, ghost w: CostFn,
              openSet: seq<Entry>, cameFrom: map<Node, Node>, gScore: map<Node, real>, fScore: map<Node, real>,
              ghost stamp: map<Node, nat>, ghost clock: nat, ghost expanded: bool)
    returns (done: Option<PathResult>, openSet': seq<Entry>, cameFrom': map<Node, Node>, gScore': map<Node, real>,
             fScore': map<Node, real>, ghost stamp': map<Node, nat>, ghost clock': nat)
    requires g.Valid() && start in g.Nodes() && goal in g.Nodes()
    requires Agrees(g, drone, w) && NonNegative(w) && (TooHeavy(g, goal, drone) ==> Unreachable(w, goal))
    requires Search(g.Nodes(), w, start, goal, openSet, cameFrom, gScore, stamp, clock) && openSet != []
    requires expanded ==> start != goal && (goal in gScore || Unreachable(w, goal))
    requires !expanded ==> openSet == [Entry(0.0, start)] && cameFrom == map[]
    ensures done.Some? ==> Outcome(g.Nodes(), w, start, goal, fuel, done.value)
    ensures done.None? ==>
      && Search(g.Nodes(), w, start, goal, openSet', cameFrom', gScore', stamp', clock')
      && start != goal && (goal in gScore' || Unreachable(w, goal))
  {
    var k := PopMinIndex(openSet);
    var current := openSet[k].node;
    if current == goal {
      var r := Finish(g.Nodes(), w, start, goal, fuel, openSet, cameFrom, gScore, stamp, clock);
      return Some(r), openSet, cameFrom, gScore, fScore, stamp, clock;
    }
    PopKeepsSearch(g.Nodes(), w, start, goal, openSet, cameFrom, gScore, stamp, clock, k);
    openSet', cameFrom', gScore', fScore', stamp', clock' :=
      Expand(g, drone, start, goal, currentTime, current, openSet[..k] + openSet[k + 1..],
             cameFrom, gScore, fScore, w, stamp, clock);
    done := None;
  }

  /** The outer loop of `find_path` (lines 56-75), for a start and goal that are both nodes. */
  method SearchLoop(g: Graph, drone: Drone, start: Node, goal: Node, currentTime: int, fuel: nat, ghost w: CostFn)
    returns (r: PathResult)
    requires g.Valid() && start in g.Nodes() && goal in g.Nodes()
    requires Agrees(g, drone, w) && NonNegative(w) && (TooHeavy(g, goal, drone) ==> Unreachable(w, goal))
    ensures Outcome(g.Nodes(), w, start, goal, fuel, r)
  {
    var openSet, cameFrom, gScore, fScore := Initialize(g, start, goal, drone, currentTime);
    assert openSet[0].node == start;
    ghost var stamp: map<Node, nat> := map[start := 0];
    ghost var clock: nat := 0;
    ghost var expanded := false;
    var budget := fuel;
    while openSet != []
      invariant Search(g.Nodes(), w, start, goal, openSet, cameFrom, gScore, stamp, clock)
      invariant expanded ==> start != goal && (goal in gScore || Unreachable(w, goal))
      invariant !expanded ==> openSet == [Entry(0.0, start)] && budget == fuel && cameFrom == map[]
      decreases budget
    {
      if budget == 0 {
        assert start == goal ==> fuel == 0;
        return OutOfFuel;
      }
      budget := budget - 1;
      var done;
      done, openSet, cameFrom, gScore, fScore, stamp, clock :=
        Step(g, drone, start, goal, currentTime, fuel, w, openSet, cameFrom, gScore, fScore, stamp, clock, expanded);
      if done.Some? {
        return done.value;
      }
      expanded := true;
    }
    ExhaustedOutcome(g.Nodes(), w, start, goal, fuel, cameFrom, gScore, stamp, clock);
    r := Path([], PosInf);
  }

  method FindPath(g: Graph, start: Node, goal: Node, drone: Drone, currentTime: int, fuel: nat) returns (r: PathResult)
    requires g.Valid() && NonNegativeCosts(g.deliveryPoints)
    ensures r.UnknownNode? <==> !(start in g.Nodes() && goal in g.Nodes())
    ensures r.Path? ==> (r.nodes == [] <==> r.cost == PosInf)
    ensures r.Path? && r.nodes != [] ==>
      && r.nodes[0] == start && r.nodes[|r.nodes| - 1] == goal
      && IsGraphPath(g.Nodes(), r.nodes) && NoDuplicates(r.nodes)
      && r.cost.Finite? && 0.0 <= r.cost.value
      && PathCost(CostOf(g, drone), r.nodes).Finite?
      && PathCost(CostOf(g, drone), r.nodes).value <= r.cost.value
    ensures r.Path? && r.nodes == [] ==> start != goal && TooHeavy(g, goal, drone)
    ensures r.Path? && start != goal && TooHeavy(g, goal, drone) ==> r.nodes == []
    ensures start == goal && start in g.Nodes() && 0 < fuel ==> r == Path([start], Finite(0.0))
  {
    if start !in g.Nodes() || goal !in g.Nodes() {
      return UnknownNode;
    }
    CostOfAgrees(g, drone);
    CostOfNonNegative(g, drone);
    UnreachableIffTooHeavy(g, drone, goal);
    ghost var w: CostFn :| Agrees(g, drone, w) && NonNegative(w) && (Unreachable(w, goal) <==> TooHeavy(g, goal, drone));
    r := SearchLoop(g, drone, start, goal, currentTime, fuel, w);
    if r.Path? {
      PathCostAgrees(g, drone, w, r.nodes);
    }
  }
}
