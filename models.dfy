/**
 * The planner's input records (drone, delivery point, no-fly zone) and the
 * one operation on them, the activity test of a no-fly zone.
 *
 * Positions are exact reals. Euclidean distance cannot be written without a
 * square root, so every component receives it as a `Metric`: a function that
 * is non-negative, symmetric and zero between equal points.
 * Times are whole minutes.
 */
module Models {
  import opened Wrappers

  datatype Point = Point(x: real, y: real)

  type Metric = (Point, Point) -> real

  ghost predicate IsMetric(dist: Metric)
  {
    && (forall p, q :: 0.0 <= dist(p, q) && dist(p, q) == dist(q, p))
    && (forall p :: dist(p, p) == 0.0)
  }

  /** An inclusive interval of minutes, `(start, end)` in the source. */
  datatype TimeWindow = TimeWindow(start: int, end: int)

  /** A drone's fixed description; `battery` is its charge in mAh. */
  datatype Drone = Drone(id: int, maxWeight: real, battery: int, speed: real, startPos: Point)

  /** A parcel to deliver; `priority` runs from 1 (low) to 5 (high). */
  datatype DeliveryPoint = DeliveryPoint(id: int, pos: Point, weight: real, priority: int, timeWindow: TimeWindow)

  /** A polygon ring (vertex i joined to vertex i + 1, the last to the first) and its active interval. */
  datatype NoFlyZone = NoFlyZone(id: int, coordinates: seq<Point>, activeTime: TimeWindow)

  /** `NoFlyZone.is_active`: the zone is active at every minute of its closed interval. */
  predicate IsActive(zone: NoFlyZone, currentTime: int)
  {
    zone.activeTime.start <= currentTime <= zone.activeTime.end
  }

  lemma ActiveAtBothEnds(zone: NoFlyZone)
    requires zone.activeTime.start <= zone.activeTime.end
    ensures IsActive(zone, zone.activeTime.start)
    ensures IsActive(zone, zone.activeTime.end)
  {
  }

  lemma InactiveOutsideInterval(zone: NoFlyZone, t: int)
    requires t < zone.activeTime.start || zone.activeTime.end < t
    ensures !IsActive(zone, t)
  {
  }

  lemma InvertedIntervalNeverActive(zone: NoFlyZone, t: int)
    requires zone.activeTime.end < zone.activeTime.start
    ensures !IsActive(zone, t)
  {
  }

  /** The first drone with the given id, as `next(d for d in drones if d.id == id)` finds it. */
  function FindDrone(drones: seq<Drone>, id: int): (r: Option<Drone>)
    ensures r.Some? <==> exists i :: 0 <= i < |drones| && drones[i].id == id
    ensures r.Some? ==> exists i :: 0 <= i < |drones| && drones[i] == r.value && r.value.id == id &&
                                    forall j :: 0 <= j < i ==> drones[j].id != id
  {
    if drones == [] then None
    else if drones[0].id == id then Some(drones[0])
    else
      var r := FindDrone(drones[1..], id);
      if r.Some? then
        ghost var i :| 0 <= i < |drones| - 1 && drones[1..][i] == r.value && r.value.id == id &&
                       forall j :: 0 <= j < i ==> drones[1..][j].id != id;
        assert drones[i + 1] == r.value;
        r
      else r
  }

  /** The first delivery point with the given id. */
  function FindDelivery(points: seq<DeliveryPoint>, id: int): (r: Option<DeliveryPoint>)
    ensures r.Some? <==> exists i :: 0 <= i < |points| && points[i].id == id
    ensures r.Some? ==> exists i :: 0 <= i < |points| && points[i] == r.value && r.value.id == id &&
                                    forall j :: 0 <= j < i ==> points[j].id != id
  {
    if points == [] then None
    else if points[0].id == id then Some(points[0])
    else
      var r := FindDelivery(points[1..], id);
      if r.Some? then
        ghost var i :| 0 <= i < |points| - 1 && points[1..][i] == r.value && r.value.id == id &&
                       forall j :: 0 <= j < i ==> points[1..][j].id != id;
        assert points[i + 1] == r.value;
        r
      else r
  }

  /** The ids of the delivery points, in list order (`valid_dp_ids`). */
  function DeliveryIds(points: seq<DeliveryPoint>): (ids: seq<int>)
    ensures |ids| == |points|
    ensures forall i :: 0 <= i < |points| ==> ids[i] == points[i].id
  {
    seq(|points|, i requires 0 <= i < |points| => points[i].id)
  }
}
