/**
 * The constraint-satisfaction planner of `src/algorithms/csp.py`: a
 * recursive search over the drones, in list order, that gives each drone a
 * delivery point it can carry, reach on one charge and serve inside the
 * point's time window, never handing one point to two drones.
 *
 * The recursion never yields `None` (the fall-through at the end of
 * `_backtrack` always reaches the end of the drone list), so the search
 * is first-fit: `Greedy` below is that assignment, written as a function,
 * and `CSP.Solve` is proved to return it.
 */
module ConstraintSearch {
  import opened Wrappers
  import opened Models

  /** Drone id to delivery-point id, `self.assignments`. */
  type Assignment = map<int, int>

  /**
   * The three checks of `_is_valid_assignment` that do not look at the
   * other drones: weight within capacity, 10 mAh per unit of straight-line
   * distance within the battery, and the current time inside the window,
   * both ends included.
   */
  predicate Fits(dist: Metric, drone: Drone, dp: DeliveryPoint, currentTime: int)
  {
    && dp.weight <= drone.maxWeight
    && dist(drone.startPos, dp.pos) * 10.0 <= drone.battery as real
    && dp.timeWindow.start <= currentTime <= dp.timeWindow.end
  }

  /** `_is_valid_assignment`: the checks above, and the point is not yet anyone's. */
  predicate Admissible(dist: Metric, assignments: Assignment, drone: Drone, dp: DeliveryPoint, currentTime: int)
  {
    Fits(dist, drone, dp, currentTime) && dp.id !in assignments.Values
  }

  /** The first point, in list order, admissible for `drone` under `assignments`. */
  function FirstAdmissible(dist: Metric, assignments: Assignment, drone: Drone, points: seq<DeliveryPoint>,
                           currentTime: int): (r: Option<DeliveryPoint>)
    ensures r.Some? <==> exists i :: 0 <= i < |points| && Admissible(dist, assignments, drone, points[i], currentTime)
    ensures r.Some? ==> exists i :: 0 <= i < |points| && points[i] == r.value &&
                                    Admissible(dist, assignments, drone, r.value, currentTime) &&
                                    forall j :: 0 <= j < i ==> !Admissible(dist, assignments, drone, points[j], currentTime)
  {
    if points == [] then None
    else if Admissible(dist, assignments, drone, points[0], currentTime) then Some(points[0])
    else
      var r := FirstAdmissible(dist, assignments, drone, points[1..], currentTime);
      if r.Some? then
        ghost var i :| 0 <= i < |points| - 1 && points[1..][i] == r.value &&
                       Admissible(dist, assignments, drone, r.value, currentTime) &&
                       forall j :: 0 <= j < i ==> !Admissible(dist, assignments, drone, points[1..][j], currentTime);
        assert points[i + 1] == r.value;
        assert forall j :: 1 <= j < i + 1 ==> points[j] == points[1..][j - 1];
        r
      else
        assert forall i :: 1 <= i < |points| ==> points[i] == points[1..][i - 1];
        r
  }

  /** If `points[i]` is the first admissible point, it is the one chosen. */
  lemma FirstAdmissibleAt(dist: Metric, assignments: Assignment, drone: Drone, points: seq<DeliveryPoint>,
                          currentTime: int, i: nat)
    requires i < |points| && Admissible(dist, assignments, drone, points[i], currentTime)
    requires forall j :: 0 <= j < i ==> !Admissible(dist, assignments, drone, points[j], currentTime)
    ensures FirstAdmissible(dist, assignments, drone, points, currentTime) == Some(points[i])
  {
    var r := FirstAdmissible(dist, assignments, drone, points, currentTime);
    var i' :| 0 <= i' < |points| && points[i'] == r.value &&
              Admissible(dist, assignments, drone, r.value, currentTime) &&
              forall j :: 0 <= j < i' ==> !Admissible(dist, assignments, drone, points[j], currentTime);
  }

  /**
   * The assignment the search builds from drone `i` on, starting from
   * `acc`: each drone in turn takes the first admissible point given what
   * the drones before it took, or is skipped when there is none.
   */
  function Greedy(dist: Metric, drones: seq<Drone>, points: seq<DeliveryPoint>, currentTime: int,
                  i: nat, acc: Assignment): Assignment
    requires i <= |drones|
    decreases |drones| - i
  {
    if i == |drones| then acc
    else
      match FirstAdmissible(dist, acc, drones[i], points, currentTime)
      case None => Greedy(dist, drones, points, currentTime, i + 1, acc)
      case Some(dp) => Greedy(dist, drones, points, currentTime, i + 1, acc[drones[i].id := dp.id])
  }

  /** Every entry pairs the id of one of `drones` with the id of a point that drone fits. */
  ghost predicate Sound(dist: Metric, drones: seq<Drone>, points: seq<DeliveryPoint>, currentTime: int, m: Assignment)
  {
    forall k :: k in m ==> exists d, p :: d in drones && p in points && d.id == k && p.id == m[k] &&
                                         Fits(dist, d, p, currentTime)
  }

  /** No point id is held by two drones. */
  ghost predicate Injective(m: Assignment)
  {
    forall a, b :: a in m && b in m && a != b ==> m[a] != m[b]
  }

  lemma AddKeepsInjective(m: Assignment, k: int, v: int)
    requires Injective(m) && v !in m.Values
    ensures Injective(m[k := v])
  {
    var m' := m[k := v];
    forall a, b | a in m' && b in m' && a != b
      ensures m'[a] != m'[b]
    {
      if a != k && b != k {
        assert m[a] in m.Values && m[b] in m.Values;
      } else if a == k {
        assert m[b] in m.Values;
      } else {
        assert m[a] in m.Values;
      }
    }
  }

  /**
   * Soundness of the search: starting from a sound, injective map, every
   * entry of the result pairs a drone with a point that passes the weight,
   * battery and time-window checks, and no point id is held twice.
   */
  lemma {:induction false} GreedySound(dist: Metric, drones: seq<Drone>, points: seq<DeliveryPoint>,
                                       currentTime: int, i: nat, acc: Assignment)
    requires i <= |drones|
    requires Sound(dist, drones, points, currentTime, acc) && Injective(acc)
    ensures Sound(dist, drones, points, currentTime, Greedy(dist, drones, points, currentTime, i, acc))
    ensures Injective(Greedy(dist, drones, points, currentTime, i, acc))
    decreases |drones| - i
  {
    if i < |drones| {
      match FirstAdmissible(dist, acc, drones[i], points, currentTime)
      case None =>
        GreedySound(dist, drones, points, currentTime, i + 1, acc);
      case Some(dp) =>
        var acc' := acc[drones[i].id := dp.id];
        assert dp in points && Fits(dist, drones[i], dp, currentTime) && dp.id !in acc.Values;
        assert drones[i] in drones;
        AddKeepsInjective(acc, drones[i].id, dp.id);
        forall k | k in acc'
          ensures exists d, p :: d in drones && p in points && d.id == k && p.id == acc'[k] &&
                                 Fits(dist, d, p, currentTime)
        {
          if k == drones[i].id {
            assert drones[i] in drones && dp in points && drones[i].id == k && dp.id == acc'[k];
          }
        }
        GreedySound(dist, drones, points, currentTime, i + 1, acc');
    }
  }

  /** The ids of `drones[i..]`. */
  ghost function IdsFrom(drones: seq<Drone>, i: nat): set<int>
    requires i <= |drones|
  {
    set j | i <= j < |drones| :: drones[j].id
  }

  /** The search only writes the ids of the drones it visits; other entries keep their value. */
  lemma {:induction false} GreedyFrame(dist: Metric, drones: seq<Drone>, points: seq<DeliveryPoint>,
                                       currentTime: int, i: nat, acc: Assignment, k: int)
    requires i <= |drones| && k !in IdsFrom(drones, i)
    ensures k in Greedy(dist, drones, points, currentTime, i, acc) <==> k in acc
    ensures k in acc ==> Greedy(dist, drones, points, currentTime, i, acc)[k] == acc[k]
    decreases |drones| - i
  {
    if i < |drones| {
      assert drones[i].id in IdsFrom(drones, i);
      assert IdsFrom(drones, i + 1) <= IdsFrom(drones, i);
      match FirstAdmissible(dist, acc, drones[i], points, currentTime)
      case None =>
        GreedyFrame(dist, drones, points, currentTime, i + 1, acc, k);
      case Some(dp) =>
        GreedyFrame(dist, drones, points, currentTime, i + 1, acc[drones[i].id := dp.id], k);
    }
  }

  /** All drone ids differ. */
  predicate UniqueIds(drones: seq<Drone>)
  {
    forall a, b :: 0 <= a < b < |drones| ==> drones[a].id != drones[b].id
  }

  /**
   * With distinct drone ids: a drone that receives nothing could not have
   * taken any point, because every point it fits is held by another drone
   * at the end; and a drone that fits no point at all receives nothing.
   */
  lemma {:induction false} GreedyMaximal(dist: Metric, drones: seq<Drone>, points: seq<DeliveryPoint>,
                                         currentTime: int, i: nat, acc: Assignment)
    requires i <= |drones| && UniqueIds(drones)
    requires forall j :: i <= j < |drones| ==> drones[j].id !in acc
    ensures acc.Values <= Greedy(dist, drones, points, currentTime, i, acc).Values
    ensures forall j, p :: i <= j < |drones| && p in points &&
                           drones[j].id !in Greedy(dist, drones, points, currentTime, i, acc) &&
                           Fits(dist, drones[j], p, currentTime) ==>
                           p.id in Greedy(dist, drones, points, currentTime, i, acc).Values
    decreases |drones| - i
  {
    if i < |drones| {
      var result := Greedy(dist, drones, points, currentTime, i, acc);
      var d := drones[i];
      assert d.id !in IdsFrom(drones, i + 1);
      match FirstAdmissible(dist, acc, d, points, currentTime)
      case None =>
        GreedyMaximal(dist, drones, points, currentTime, i + 1, acc);
        assert result == Greedy(dist, drones, points, currentTime, i + 1, acc);
        forall p | p in points && Fits(dist, d, p, currentTime)
          ensures p.id in result.Values
        {
          var n :| 0 <= n < |points| && points[n] == p;
          assert !Admissible(dist, acc, d, points[n], currentTime);
        }
      case Some(dp) =>
        var acc' := acc[d.id := dp.id];
        assert forall j :: i + 1 <= j < |drones| ==> drones[j].id !in acc';
        GreedyMaximal(dist, drones, points, currentTime, i + 1, acc');
        assert result == Greedy(dist, drones, points, currentTime, i + 1, acc');
        GreedyFrame(dist, drones, points, currentTime, i + 1, acc', d.id);
        assert d.id in result;
        forall k | k in acc
          ensures acc[k] in result.Values
        {
          assert acc'[k] == acc[k];
          assert acc'[k] in acc'.Values;
        }
    }
  }

  /** With distinct drone ids, a drone that fits no point is absent from the result. */
  lemma NoFitMeansUnassigned(dist: Metric, drones: seq<Drone>, points: seq<DeliveryPoint>, currentTime: int, j: nat)
    requires UniqueIds(drones) && j < |drones|
    requires forall p :: p in points ==> !Fits(dist, drones[j], p, currentTime)
    ensures drones[j].id !in Greedy(dist, drones, points, currentTime, 0, map[])
  {
    GreedyDecide(dist, drones, points, currentTime, 0, map[], j);
  }

  /** A drone whose turn finds no admissible point keeps its id out of the result. */
  lemma {:induction false} GreedyDecide(dist: Metric, drones: seq<Drone>, points: seq<DeliveryPoint>,
                                        currentTime: int, i: nat, acc: Assignment, j: nat)
    requires i <= j < |drones| && UniqueIds(drones)
    requires forall n :: i <= n < |drones| ==> drones[n].id !in acc
    requires forall p :: p in points ==> !Fits(dist, drones[j], p, currentTime)
    ensures drones[j].id !in Greedy(dist, drones, points, currentTime, i, acc)
    decreases |drones| - i
  {
    var d := drones[i];
    match FirstAdmissible(dist, acc, d, points, currentTime)
    case None =>
      if i == j {
        assert drones[j].id !in IdsFrom(drones, i + 1);
        GreedyFrame(dist, drones, points, currentTime, i + 1, acc, drones[j].id);
      } else {
        GreedyDecide(dist, drones, points, currentTime, i + 1, acc, j);
      }
    case Some(dp) =>
      if i == j {
        assert false;
      } else {
        var acc' := acc[d.id := dp.id];
        assert forall n :: i + 1 <= n < |drones| ==> drones[n].id !in acc';
        GreedyDecide(dist, drones, points, currentTime, i + 1, acc', j);
      }
  }

  /**
   * `class CSP`. `dist` is the straight-line distance of line 22;
   * the `graph` the constructor receives is never read and is not modelled.
   */
  class CSP {
    const drones: seq<Drone>
    const deliveryPoints: seq<DeliveryPoint>
    const dist: Metric
    var assignments: Assignment

    constructor (drones: seq<Drone>, deliveryPoints: seq<DeliveryPoint>, dist: Metric)
      ensures this.drones == drones && this.deliveryPoints == deliveryPoints && this.dist == dist
      ensures assignments == map[]
    {
      this.drones := drones;
      this.deliveryPoints := deliveryPoints;
      this.dist := dist;
      assignments := map[];
    }

    /**
     * `_is_valid_assignment`: the three checks, then a scan of the
     * assigned point ids (in any order) for `dp.id`.
     */
    method IsValidAssignment(drone: Drone, dp: DeliveryPoint, currentTime: int) returns (b: bool)
      ensures b <==> Admissible(dist, assignments, drone, dp, currentTime)
    {
      if dp.weight > drone.maxWeight {
        return false;
      }
      var batteryConsumption := dist(drone.startPos, dp.pos) * 10.0;
      if batteryConsumption > drone.battery as real {
        return false;
      }
      if !(dp.timeWindow.start <= currentTime <= dp.timeWindow.end) {
        return false;
      }
      var remaining: set<int> := assignments.Values;
      while remaining != {}
        invariant remaining <= assignments.Values
        invariant dp.id !in assignments.Values - remaining
        decreases remaining
      {
        Inhabited(remaining);
        var taken :| taken in remaining;
        if taken == dp.id {
          return false;
        }
        remaining := remaining - {taken};
      }
      return true;
    }

    /**
     * `_backtrack`: gives drone `droneIndex` the first admissible point and
     * recurses, or skips it. The result is always present and is the
     * shared map itself.
     */
    method Backtrack(droneIndex: nat, currentTime: int) returns (result: Option<Assignment>)
      requires droneIndex <= |drones|
      modifies this
      ensures assignments == Greedy(dist, drones, deliveryPoints, currentTime, droneIndex, old(assignments))
      ensures result == Some(assignments)
      decreases |drones| - droneIndex
    {
      if droneIndex >= |drones| {
        return Some(assignments);
      }
      var drone := drones[droneIndex];
      var i := 0;
      while i < |deliveryPoints|
        invariant i <= |deliveryPoints|
        invariant assignments == old(assignments)
        invariant forall j :: 0 <= j < i ==> !Admissible(dist, assignments, drone, deliveryPoints[j], currentTime)
      {
        var dp := deliveryPoints[i];
        var ok := IsValidAssignment(drone, dp, currentTime);
        if ok {
          FirstAdmissibleAt(dist, assignments, drone, deliveryPoints, currentTime, i);
          assignments := assignments[drone.id := dp.id];
          result := Backtrack(droneIndex + 1, currentTime);
          if result.Some? {
            return;
          }
          // The rollback of line 52 is unreachable: the recursion always yields a map.
          assert false;
        }
        i := i + 1;
      }
      result := Backtrack(droneIndex + 1, currentTime);
    }

    /** `solve`: forgets earlier assignments and runs the search from the first drone. */
    method Solve(currentTime: int) returns (result: Option<Assignment>)
      modifies this
      ensures result == Some(Greedy(dist, drones, deliveryPoints, currentTime, 0, map[]))
      ensures assignments == result.value
    {
      assignments := map[];
      result := Backtrack(0, currentTime);
    }
  }

  /**
   * What `solve` promises, stated on its result: every pair passes the
   * weight, battery and window checks, no point is held twice, and (with
   * distinct drone ids) an unassigned drone had no free point it fits.
   */
  lemma SolveCorrect(dist: Metric, drones: seq<Drone>, points: seq<DeliveryPoint>, currentTime: int)
    ensures Sound(dist, drones, points, currentTime, Greedy(dist, drones, points, currentTime, 0, map[]))
    ensures Injective(Greedy(dist, drones, points, currentTime, 0, map[]))
    ensures UniqueIds(drones) ==>
              forall j, p :: 0 <= j < |drones| && p in points &&
                             drones[j].id !in Greedy(dist, drones, points, currentTime, 0, map[]) &&
                             Fits(dist, drones[j], p, currentTime) ==>
                             p.id in Greedy(dist, drones, points, currentTime, 0, map[]).Values
  {
    GreedySound(dist, drones, points, currentTime, 0, map[]);
    if UniqueIds(drones) {
      GreedyMaximal(dist, drones, points, currentTime, 0, map[]);
    }
  }
}
