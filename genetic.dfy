/**
 * The genetic planner of `src/algorithms/genetic_algorithm.py`, in its
 * single-parcel mode. A chromosome holds one route per drone: the list of
 * delivery ids that drone serves, of length at most one when valid.
 *
 * Every call to Python's `random` becomes a draw from an `Rng`, an
 * arbitrary stream of numbers indexed by a counter that each operation
 * takes and returns advanced; every property below holds for every stream.
 */
module Genetic {
  import opened Wrappers
  import opened ExtReals
  import opened Models
  import opened Graphs

  type Route = seq<int>
  type Chromosome = seq<Route>

  /**
   * The random numbers the run consumes: `unit(k)` is what `random.random()`
   * returns on draw `k`, and `random.choice(xs)` on draw `k` yields
   * `xs[pick(k) % |xs|]`.
   */
  datatype Rng = Rng(unit: nat -> real, pick: nat -> nat)

  /** `random.choice(xs)` on draw `k`. */
  function Choice(rng: Rng, k: nat, xs: seq<int>): (x: int)
    requires xs != []
    ensures x in xs
  {
    xs[rng.pick(k) % |xs|]
  }

  /* ------------------------------------------------------------------ */
  /* Validity of a chromosome                                           */
  /* ------------------------------------------------------------------ */

  /** Route `i` of `c` serves delivery `x`. */
  predicate Carries(c: Chromosome, i: int, x: int)
  {
    0 <= i < |c| && c[i] != [] && c[i][0] == x
  }

  /** Every drone carries at most one parcel. */
  predicate SingleParcel(c: Chromosome)
  {
    forall i :: 0 <= i < |c| ==> |c[i]| <= 1
  }

  /** No delivery is served by two drones. */
  ghost predicate HeadsDistinct(c: Chromosome)
  {
    forall i, j :: 0 <= i < j < |c| && c[i] != [] && c[j] != [] ==> c[i][0] != c[j][0]
  }

  /**
   * The rule `validate_chromosome` enforces: at most one parcel per drone,
   * no delivery served twice, and every delivery a known one.
   */
  ghost predicate IsValidChromosome(c: Chromosome, validIds: seq<int>)
  {
    SingleParcel(c) && HeadsDistinct(c) && IdsKnown(c, validIds)
  }

  /** Every delivery the chromosome serves is in `validIds`. */
  ghost predicate IdsKnown(c: Chromosome, validIds: seq<int>)
  {
    forall i, x :: Carries(c, i, x) ==> x in validIds
  }

  /** `all_deliveries`: the routes laid end to end. */
  function Flatten(c: Chromosome): seq<int>
  {
    if c == [] then [] else Flatten(c[..|c| - 1]) + c[|c| - 1]
  }

  predicate Distinct(s: seq<int>)
  {
    forall i, j :: 0 <= i < j < |s| ==> s[i] != s[j]
  }

  function Elements(s: seq<int>): set<int>
  {
    set x | x in s
  }

  /** The values that occur more than once, `{x for x in s if s.count(x) > 1}`. */
  function Repeated(s: seq<int>): set<int>
  {
    set x | x in s && multiset(s)[x] > 1
  }

  lemma DistinctSnoc(s: seq<int>, y: int)
    ensures Distinct(s + [y]) <==> Distinct(s) && y !in s
  {
    var t := s + [y];
    if Distinct(t) {
      forall i, j | 0 <= i < j < |s| ensures s[i] != s[j] {
        assert t[i] == s[i] && t[j] == s[j];
      }
      forall i | 0 <= i < |s| ensures s[i] != y {
        assert t[i] == s[i] && t[|s|] == y;
      }
    }
  }

  /** For single-parcel chromosomes the flattened list holds exactly the carried deliveries. */
  lemma {:induction false} FlattenMembers(c: Chromosome)
    requires SingleParcel(c)
    ensures forall x :: x in Flatten(c) <==> exists i :: Carries(c, i, x)
    decreases |c|
  {
    if c != [] {
      var n := |c| - 1;
      var c' := c[..n];
      assert forall i, x :: Carries(c, i, x) && i < n <==> Carries(c', i, x);
      FlattenMembers(c');
      if c[n] == [] {
        assert Flatten(c) == Flatten(c');
        assert forall x :: !Carries(c, n, x);
      } else {
        assert c[n] == [c[n][0]];
        assert Flatten(c) == Flatten(c') + [c[n][0]];
        assert Carries(c, n, c[n][0]);
      }
    }
  }

  /** For single-parcel chromosomes, no repeat in the flattened list means no delivery served twice. */
  lemma {:induction false} FlattenDistinct(c: Chromosome)
    requires SingleParcel(c)
    ensures Distinct(Flatten(c)) <==> HeadsDistinct(c)
    decreases |c|
  {
    if c != [] {
      var n := |c| - 1;
      var c' := c[..n];
      assert forall i :: 0 <= i < n ==> c'[i] == c[i];
      FlattenDistinct(c');
      assert c == c' + [c[n]];
      HeadsDistinctSnoc(c', c[n]);
      if c[n] == [] {
        assert Flatten(c) == Flatten(c');
      } else {
        var y := c[n][0];
        assert c[n] == [y];
        assert Flatten(c) == Flatten(c') + [y];
        DistinctSnoc(Flatten(c'), y);
        FlattenMembers(c');
      }
    }
  }

  /** Appending a route keeps heads distinct exactly when no earlier route has its head. */
  lemma HeadsDistinctSnoc(c: Chromosome, route: Route)
    ensures HeadsDistinct(c + [route]) <==>
              HeadsDistinct(c) && (route != [] ==> forall i :: 0 <= i < |c| ==> !Carries(c, i, route[0]))
  {
    var d := c + [route];
    assert forall i :: 0 <= i < |c| ==> d[i] == c[i];
    assert d[|c|] == route;
    if HeadsDistinct(d) && route != [] {
      forall i | 0 <= i < |c| ensures !Carries(c, i, route[0]) {
        assert d[|c|] == route;
      }
    }
    if HeadsDistinct(c) && (route != [] ==> forall i :: 0 <= i < |c| ==> !Carries(c, i, route[0])) {
      forall i, j | 0 <= i < j < |d| && d[i] != [] && d[j] != [] ensures d[i][0] != d[j][0] {
        if j == |c| {
          assert !Carries(c, i, route[0]);
        }
      }
    }
  }

  /** A list has as many distinct values as elements exactly when no value repeats. */
  lemma {:induction false} ElementsCard(s: seq<int>)
    ensures |Elements(s)| <= |s|
    ensures |Elements(s)| == |s| <==> Distinct(s)
    decreases |s|
  {
    if s != [] {
      var t, y := s[..|s| - 1], s[|s| - 1];
      assert s == t + [y];
      assert Elements(s) == Elements(t) + {y};
      ElementsCard(t);
      DistinctSnoc(t, y);
      if y in t {
        assert Elements(s) == Elements(t);
      } else {
        assert y !in Elements(t);
      }
    }
  }

  /** A list with a repeated value has a non-empty set of repeated values, and conversely. */
  lemma RepeatedEmpty(s: seq<int>)
    ensures Repeated(s) == {} <==> Distinct(s)
  {
    if !Distinct(s) {
      var i, j :| 0 <= i < j < |s| && s[i] == s[j];
      assert s == s[..i] + [s[i]] + s[i + 1..j] + [s[j]] + s[j + 1..];
      assert multiset(s)[s[i]] >= 2;
      assert s[i] in Repeated(s);
    } else {
      forall x | x in s ensures multiset(s)[x] <= 1 {
        DistinctCount(s, x);
      }
    }
  }

  lemma {:induction false} DistinctCount(s: seq<int>, x: int)
    requires Distinct(s)
    ensures multiset(s)[x] <= 1
    decreases |s|
  {
    if s != [] {
      var t, y := s[..|s| - 1], s[|s| - 1];
      assert s == t + [y];
      DistinctSnoc(t, y);
      DistinctCount(t, x);
      if x == y {
        assert x !in multiset(t);
      }
    }
  }

  /** The outcome of `validate_chromosome`; the message text is not modelled. */
  datatype Verdict =
    | Valid
    | TooManyDeliveries(drone: nat, count: nat)
    | DuplicateDeliveries(ids: set<int>)
    | InvalidDeliveries(ids: set<int>)

  lemma FlattenSnoc(c: Chromosome, i: nat)
    requires i < |c|
    ensures Flatten(c[..i + 1]) == Flatten(c[..i]) + c[i]
  {
    assert c[..i + 1][..i] == c[..i];
  }

  /* ------------------------------------------------------------------ */
  /* Repair                                                             */
  /* ------------------------------------------------------------------ */

  /** The deliveries a chromosome serves, `used_deliveries`. */
  function Carried(c: Chromosome): set<int>
  {
    set i | 0 <= i < |c| && c[i] != [] :: c[i][0]
  }

  lemma CarriedMembers(c: Chromosome)
    ensures forall x :: x in Carried(c) <==> exists i :: Carries(c, i, x)
  {
    forall x | x in Carried(c) ensures exists i :: Carries(c, i, x) {
      var i :| 0 <= i < |c| && c[i] != [] && c[i][0] == x;
      assert Carries(c, i, x);
    }
  }

  lemma CarriedSnoc(c: Chromosome, route: Route)
    ensures Carried(c + [route]) == Carried(c) + (if route == [] then {} else {route[0]})
  {
    var c' := c + [route];
    assert forall i :: 0 <= i < |c| ==> c'[i] == c[i];
    assert c'[|c|] == route;
  }

  /**
   * The first loop of `repair_chromosome` (lines 48-55): a route keeps its
   * first delivery unless an earlier route already kept it, and is emptied
   * otherwise.
   */
  function KeepFirst(c: Chromosome): (r: Chromosome)
    ensures |r| == |c| && SingleParcel(r) && HeadsDistinct(r)
    ensures forall i :: 0 <= i < |c| ==> r[i] == [] || (c[i] != [] && r[i] == [c[i][0]])
    ensures forall i :: 0 <= i < |c| && c[i] != [] ==>
              (r[i] != [] <==> forall j :: 0 <= j < i ==> !Carries(c, j, c[i][0]))
    ensures Carried(r) == Carried(c)
  {
    if c == [] then []
    else
      var n := |c| - 1;
      var r' := KeepFirst(c[..n]);
      var route := c[n];
      var last: Route := if route != [] && route[0] !in Carried(r') then [route[0]] else [];
      var r := r' + [last];
      KeepFirstStep(c, c[..n], r', last);
      r
  }

  lemma KeepFirstStep(c: Chromosome, c': Chromosome, r': Chromosome, last: Route)
    requires c != [] && c' == c[..|c| - 1]
    requires |r'| == |c'| && SingleParcel(r') && HeadsDistinct(r')
    requires forall i :: 0 <= i < |c'| ==> r'[i] == [] || (c'[i] != [] && r'[i] == [c'[i][0]])
    requires forall i :: 0 <= i < |c'| && c'[i] != [] ==>
               (r'[i] != [] <==> forall j :: 0 <= j < i ==> !Carries(c', j, c'[i][0]))
    requires Carried(r') == Carried(c')
    requires last == if c[|c| - 1] != [] && c[|c| - 1][0] !in Carried(r') then [c[|c| - 1][0]] else []
    ensures var r := r' + [last];
      && |r| == |c| && SingleParcel(r) && HeadsDistinct(r)
      && (forall i :: 0 <= i < |c| ==> r[i] == [] || (c[i] != [] && r[i] == [c[i][0]]))
      && (forall i :: 0 <= i < |c| && c[i] != [] ==>
            (r[i] != [] <==> forall j :: 0 <= j < i ==> !Carries(c, j, c[i][0])))
      && Carried(r) == Carried(c)
  {
    KeepFirstShape(c, c', r', last);
    KeepFirstDistinct(r', last);
    KeepFirstEarliest(c, c', r', last);
    KeepFirstCarried(c, c', r', last);
  }

  lemma KeepFirstCarried(c: Chromosome, c': Chromosome, r': Chromosome, last: Route)
    requires c != [] && c' == c[..|c| - 1] && Carried(r') == Carried(c')
    requires last == if c[|c| - 1] != [] && c[|c| - 1][0] !in Carried(r') then [c[|c| - 1][0]] else []
    ensures Carried(r' + [last]) == Carried(c)
  {
    var n := |c| - 1;
    CarriedSnoc(r', last);
    CarriedSnoc(c', c[n]);
    assert c == c' + [c[n]];
  }

  lemma KeepFirstShape(c: Chromosome, c': Chromosome, r': Chromosome, last: Route)
    requires c != [] && c' == c[..|c| - 1]
    requires |r'| == |c'| && SingleParcel(r')
    requires forall i :: 0 <= i < |c'| ==> r'[i] == [] || (c'[i] != [] && r'[i] == [c'[i][0]])
    requires last == [] || (c[|c| - 1] != [] && last == [c[|c| - 1][0]])
    ensures var r := r' + [last];
      && |r| == |c| && SingleParcel(r)
      && forall i :: 0 <= i < |c| ==> r[i] == [] || (c[i] != [] && r[i] == [c[i][0]])
  {
    var r := r' + [last];
    assert forall i :: 0 <= i < |c'| ==> r[i] == r'[i] && c'[i] == c[i];
  }

  lemma KeepFirstDistinct(r': Chromosome, last: Route)
    requires HeadsDistinct(r')
    requires last != [] ==> last[0] !in Carried(r')
    ensures HeadsDistinct(r' + [last])
  {
    var r := r' + [last];
    assert forall i :: 0 <= i < |r'| ==> r[i] == r'[i];
    if last != [] {
      forall i | 0 <= i < |r'| && r[i] != [] ensures r[i][0] != last[0] {
        assert r'[i][0] in Carried(r');
      }
    }
  }

  lemma KeepFirstEarliest(c: Chromosome, c': Chromosome, r': Chromosome, last: Route)
    requires c != [] && c' == c[..|c| - 1] && |r'| == |c'|
    requires forall i :: 0 <= i < |c'| && c'[i] != [] ==>
               (r'[i] != [] <==> forall j :: 0 <= j < i ==> !Carries(c', j, c'[i][0]))
    requires Carried(r') == Carried(c')
    requires last == if c[|c| - 1] != [] && c[|c| - 1][0] !in Carried(r') then [c[|c| - 1][0]] else []
    ensures var r := r' + [last];
      forall i :: 0 <= i < |c| && c[i] != [] ==>
        (r[i] != [] <==> forall j :: 0 <= j < i ==> !Carries(c, j, c[i][0]))
  {
    var n := |c| - 1;
    var r := r' + [last];
    assert forall i :: 0 <= i < n ==> r[i] == r'[i] && c'[i] == c[i];
    assert forall j, x :: 0 <= j < n ==> (Carries(c, j, x) <==> Carries(c', j, x));
    CarriedMembers(c');
    if c[n] != [] {
      if last == [] {
        var x := c[n][0];
        assert x in Carried(c');
        var j :| Carries(c', j, x);
        assert Carries(c, j, x);
      } else {
        assert forall j :: 0 <= j < n ==> !Carries(c', j, c[n][0]);
      }
    }
  }

  /**
   * Route `i` was filled by the second loop of `repair_chromosome`: it was
   * empty after the first loop, and now holds one known delivery that no
   * kept route serves and that drone `i` can lift.
   */
  ghost predicate Placed(drones: seq<Drone>, points: seq<DeliveryPoint>, validIds: seq<int>,
                         kept: Chromosome, i: nat, route: Route)
  {
    && i < |kept| && i < |drones| && kept[i] == [] && |route| == 1
    && route[0] in validIds && route[0] !in Carried(kept)
    && FindDelivery(points, route[0]).Some?
    && FindDelivery(points, route[0]).value.weight <= drones[i].maxWeight
  }

  /** Route `e` is the first empty route of `c`, the one line 64-67 of `repair_chromosome` finds. */
  predicate FirstEmptyAt(c: Chromosome, e: int)
  {
    0 <= e < |c| && c[e] == [] && forall j :: 0 <= j < e ==> c[j] != []
  }

  /** Drone `e` can lift delivery `id` (line 74). */
  predicate Lifts(drones: seq<Drone>, points: seq<DeliveryPoint>, id: int, e: int)
  {
    0 <= e < |drones| && FindDelivery(points, id).Some? && FindDelivery(points, id).value.weight <= drones[e].maxWeight
  }

  /** Filling an empty route with a delivery nobody serves keeps deliveries unique. */
  lemma FillKeepsDistinct(repaired: Chromosome, kept: Chromosome, unassigned: set<int>, e: nat, id: int)
    requires |repaired| == |kept| && e < |repaired| && repaired[e] == [] && HeadsDistinct(repaired)
    requires id !in unassigned && id !in Carried(kept)
    requires forall i :: 0 <= i < |repaired| ==> repaired[i] == kept[i] || (repaired[i] != [] && repaired[i][0] !in unassigned + {id})
    ensures HeadsDistinct(repaired[e := [id]])
  {
    var r := repaired[e := [id]];
    forall i | 0 <= i < |r| && i != e && r[i] != [] ensures r[i][0] != id {
      if repaired[i] == kept[i] {
        assert kept[i][0] in Carried(kept);
      }
    }
  }

  /** The loop at lines 64-67: the index of the first empty route, if any. */
  method FirstEmpty(c: Chromosome) returns (r: Option<nat>)
    ensures r.Some? ==> r.value < |c| && c[r.value] == [] && forall j :: 0 <= j < r.value ==> c[j] != []
    ensures r.None? ==> forall j :: 0 <= j < |c| ==> c[j] != []
  {
    var i := 0;
    while i < |c|
      invariant i <= |c|
      invariant forall j :: 0 <= j < i ==> c[j] != []
    {
      if c[i] == [] {
        return Some(i);
      }
      i := i + 1;
    }
    return None;
  }

  /** The first loop of `repair_chromosome` (lines 45-55), with its `used_deliveries` set. */
  method KeepFirstLoop(c: Chromosome) returns (repaired: Chromosome, used: set<int>)
    ensures repaired == KeepFirst(c) && used == Carried(repaired)
  {
    repaired, used := [], {};
    for i := 0 to |c|
      invariant repaired == KeepFirst(c[..i]) && used == Carried(repaired)
    {
      assert c[..i + 1][..i] == c[..i];
      var route := c[i];
      if route != [] && route[0] !in used {
        CarriedSnoc(repaired, [route[0]]);
        repaired := repaired + [[route[0]]];
        used := used + {route[0]};
      } else {
        CarriedSnoc(repaired, []);
        repaired := repaired + [[]];
      }
    }
    assert c[..|c|] == c;
  }

  /* ------------------------------------------------------------------ */
  /* Fitness                                                            */
  /* ------------------------------------------------------------------ */

  /**
   * What `_fitness` needs to evaluate route `i` without an exception: a
   * drone at that index, and a non-zero speed to divide by whenever the
   * delivery is found.
   */
  predicate RouteDefined(drones: seq<Drone>, points: seq<DeliveryPoint>, i: nat, route: Route)
  {
    |route| == 1 ==> i < |drones| && (FindDelivery(points, route[0]).Some? ==> drones[i].speed != 0.0)
  }

  ghost predicate FitnessDefined(drones: seq<Drone>, points: seq<DeliveryPoint>, c: Chromosome)
  {
    forall i :: 0 <= i < |c| ==> RouteDefined(drones, points, i, c[i])
  }

  /** Lines 140-142: `distance * 5 / speed` for a single delivery that is found, else nothing. */
  function RouteEnergy(drones: seq<Drone>, points: seq<DeliveryPoint>, dist: Metric, i: nat, route: Route): real
    requires RouteDefined(drones, points, i, route)
  {
    if |route| != 1 then 0.0
    else
      match FindDelivery(points, route[0])
      case None => 0.0
      case Some(dp) => dist(drones[i].startPos, dp.pos) * 5.0 / drones[i].speed
  }

  /**
   * Lines 122-154: 10 for a route with several deliveries, 1 for an
   * unknown delivery, else 1 for an overweight parcel plus 1 for a flight
   * line that meets a no-fly zone.
   */
  function RouteViolations(drones: seq<Drone>, points: seq<DeliveryPoint>, graph: Graph, i: nat, route: Route): nat
    requires RouteDefined(drones, points, i, route)
  {
    if route == [] then 0
    else if |route| > 1 then 10
    else
      match FindDelivery(points, route[0])
      case None => 1
      case Some(dp) =>
        (if dp.weight > drones[i].maxWeight then 1 else 0) +
        (if graph.IsInNoFlyZone(drones[i].startPos, dp.pos) then 1 else 0)
  }

  function TotalEnergy(drones: seq<Drone>, points: seq<DeliveryPoint>, dist: Metric, c: Chromosome): real
    requires FitnessDefined(drones, points, c)
  {
    if c == [] then 0.0
    else
      var n := |c| - 1;
      assert forall i :: 0 <= i < n ==> c[..n][i] == c[i];
      TotalEnergy(drones, points, dist, c[..n]) + RouteEnergy(drones, points, dist, n, c[n])
  }

  function TotalViolations(drones: seq<Drone>, points: seq<DeliveryPoint>, graph: Graph, c: Chromosome): nat
    requires FitnessDefined(drones, points, c)
  {
    if c == [] then 0
    else
      var n := |c| - 1;
      assert forall i :: 0 <= i < n ==> c[..n][i] == c[i];
      TotalViolations(drones, points, graph, c[..n]) + RouteViolations(drones, points, graph, n, c[n])
  }

  /** The number of drones with a non-empty route. */
  function Busy(c: Chromosome): nat
  {
    if c == [] then 0 else Busy(c[..|c| - 1]) + (if c[|c| - 1] == [] then 0 else 1)
  }

  /**
   * `_fitness` as a value: minus infinity for a chromosome that fails
   * validation, else 50 per delivery minus a tenth of the energy minus
   * 1000 per violation.
   */
  ghost function FitnessOf(drones: seq<Drone>, points: seq<DeliveryPoint>, graph: Graph, dist: Metric,
                           validIds: seq<int>, c: Chromosome): ExtReal
    requires IsValidChromosome(c, validIds) ==> FitnessDefined(drones, points, c)
  {
    if !IsValidChromosome(c, validIds) then NegInf
    else Finite(|Flatten(c)| as real * 50.0 - TotalEnergy(drones, points, dist, c) * 0.1
                - TotalViolations(drones, points, graph, c) as real * 1000.0)
  }

  /** With one parcel per drone, the delivered count is the number of busy drones. */
  lemma {:induction false} DeliveredIsBusy(c: Chromosome)
    requires SingleParcel(c)
    ensures |Flatten(c)| == Busy(c)
    decreases |c|
  {
    if c != [] {
      DeliveredIsBusy(c[..|c| - 1]);
    }
  }

  /** With drones that move forward, no energy is negative. */
  lemma {:induction false} EnergyNonNegative(drones: seq<Drone>, points: seq<DeliveryPoint>, dist: Metric, c: Chromosome)
    requires IsMetric(dist) && FitnessDefined(drones, points, c)
    requires forall d :: d in drones ==> d.speed > 0.0
    ensures TotalEnergy(drones, points, dist, c) >= 0.0
    decreases |c|
  {
    if c != [] {
      var n := |c| - 1;
      assert forall i :: 0 <= i < n ==> c[..n][i] == c[i];
      EnergyNonNegative(drones, points, dist, c[..n]);
      if |c[n]| == 1 && FindDelivery(points, c[n][0]).Some? {
        var dp := FindDelivery(points, c[n][0]).value;
        var d := dist(drones[n].startPos, dp.pos);
        assert drones[n] in drones;
        QuotientNonNegative(d * 5.0, drones[n].speed);
      }
    }
  }

  lemma QuotientNonNegative(a: real, b: real)
    requires a >= 0.0 && b > 0.0
    ensures a / b >= 0.0
  {
  }

  /**
   * What `_fitness` promises: minus infinity exactly for an invalid
   * chromosome; otherwise a finite value whose delivery term is 50 per busy
   * drone, and which (for drones that move forward) never exceeds it.
   */
  lemma FitnessMeaning(drones: seq<Drone>, points: seq<DeliveryPoint>, graph: Graph, dist: Metric,
                       validIds: seq<int>, c: Chromosome)
    requires IsValidChromosome(c, validIds) ==> FitnessDefined(drones, points, c)
    ensures FitnessOf(drones, points, graph, dist, validIds, c).NegInf? <==> !IsValidChromosome(c, validIds)
    ensures IsValidChromosome(c, validIds) ==>
              FitnessOf(drones, points, graph, dist, validIds, c) ==
              Finite(Busy(c) as real * 50.0 - TotalEnergy(drones, points, dist, c) * 0.1
                     - TotalViolations(drones, points, graph, c) as real * 1000.0)
    ensures IsValidChromosome(c, validIds) && IsMetric(dist) && (forall d :: d in drones ==> d.speed > 0.0) ==>
              FitnessOf(drones, points, graph, dist, validIds, c).value <= Busy(c) as real * 50.0
  {
    if IsValidChromosome(c, validIds) {
      DeliveredIsBusy(c);
      if IsMetric(dist) && forall d :: d in drones ==> d.speed > 0.0 {
        EnergyNonNegative(drones, points, dist, c);
      }
    }
  }

  /** Drone `i` may take delivery `dp`: its route is empty and the parcel is within its capacity. */
  predicate CanTake(drones: seq<Drone>, c: Chromosome, dp: DeliveryPoint, i: nat)
  {
    i < |drones| && i < |c| && c[i] == [] && dp.weight <= drones[i].maxWeight
  }

  /* ------------------------------------------------------------------ */
  /* Variation                                                          */
  /* ------------------------------------------------------------------ */

  /**
   * `_crossover` of one route pair; `roll` is the `random.random()` of
   * line 171, drawn only when both parents are non-empty.
   */
  function Crossover(parent1: Route, parent2: Route, roll: real): (child: Route)
    ensures |child| <= 1
    ensures child == [] <==> parent1 == [] && parent2 == []
    ensures parent1 != [] && (parent2 == [] || roll < 0.5) ==> child == [parent1[0]]
    ensures parent2 != [] && (parent1 == [] || 0.5 <= roll) ==> child == [parent2[0]]
  {
    if parent1 == [] && parent2 == [] then []
    else if parent1 == [] then (if |parent2| <= 1 then parent2 else [parent2[0]])
    else if parent2 == [] then (if |parent1| <= 1 then parent1 else [parent1[0]])
    else if roll < 0.5 then [parent1[0]]
    else [parent2[0]]
  }

  /** The ids of `ids` other than `x`, in order (line 181). */
  function Others(ids: seq<int>, x: int): (r: seq<int>)
    ensures forall y :: y in r <==> y in ids && y != x
  {
    if ids == [] then []
    else if ids[0] != x then [ids[0]] + Others(ids[1..], x)
    else Others(ids[1..], x)
  }

  /** The ids of `ids` not in `used`, in order (line 205). */
  function Unused(ids: seq<int>, used: set<int>): (r: seq<int>)
    ensures forall y :: y in r <==> y in ids && y !in used
  {
    if ids == [] then []
    else if ids[0] !in used then [ids[0]] + Unused(ids[1..], used)
    else Unused(ids[1..], used)
  }

  /** An id taken from the delivery list names a delivery that `next(...)` finds. */
  lemma KnownIdFound(points: seq<DeliveryPoint>, id: int)
    requires id in DeliveryIds(points)
    ensures FindDelivery(points, id).Some?
  {
    var i :| 0 <= i < |points| && DeliveryIds(points)[i] == id;
    assert points[i].id == id;
  }

  /** Every delivery route `i` serves is known, and drone `i` can lift it. */
  ghost predicate Loadable(drones: seq<Drone>, points: seq<DeliveryPoint>, validIds: seq<int>, c: Chromosome)
  {
    forall i, x :: Carries(c, i, x) ==>
      && i < |drones| && x in validIds
      && FindDelivery(points, x).Some? && FindDelivery(points, x).value.weight <= drones[i].maxWeight
  }

  /* ------------------------------------------------------------------ */
  /* Selection                                                          */
  /* ------------------------------------------------------------------ */

  /** An individual with its fitness, as `sorted(..., key=self._fitness)` pairs them. */
  datatype Scored = Scored(fitness: ExtReal, individual: Chromosome)

  function Individuals(s: seq<Scored>): (r: seq<Chromosome>)
    ensures |r| == |s| && forall i :: 0 <= i < |s| ==> r[i] == s[i].individual
  {
    seq(|s|, i requires 0 <= i < |s| => s[i].individual)
  }

  /** Fitness never rises along the list. */
  predicate NonIncreasing(s: seq<Scored>)
  {
    forall i, j :: 0 <= i < j < |s| ==> LessEq(s[j].fitness, s[i].fitness)
  }

  /** Inserts `x` after every entry at least as fit, so equally fit entries keep their order. */
  function InsertByFitness(x: Scored, s: seq<Scored>): (r: seq<Scored>)
    ensures |r| == |s| + 1
  {
    if s == [] then [x]
    else if Less(s[0].fitness, x.fitness) then [x] + s
    else [s[0]] + InsertByFitness(x, s[1..])
  }

  /** `sorted(population, key=self._fitness, reverse=True)`: a stable sort, fittest first. */
  function SortByFitness(s: seq<Scored>): (r: seq<Scored>)
    ensures |r| == |s|
  {
    if s == [] then [] else InsertByFitness(s[|s| - 1], SortByFitness(s[..|s| - 1]))
  }

  lemma {:induction false} InsertByFitnessPerm(x: Scored, s: seq<Scored>)
    ensures multiset(InsertByFitness(x, s)) == multiset(s) + multiset{x}
    decreases |s|
  {
    if s != [] && !Less(s[0].fitness, x.fitness) {
      InsertByFitnessPerm(x, s[1..]);
      assert s == [s[0]] + s[1..];
    }
  }

  /** A head at least as fit as every entry of a non-increasing tail keeps the list non-increasing. */
  lemma ConsOrder(h: Scored, t: seq<Scored>)
    requires NonIncreasing(t) && forall j :: 0 <= j < |t| ==> LessEq(t[j].fitness, h.fitness)
    ensures NonIncreasing([h] + t)
  {
    var r := [h] + t;
    forall i, j | 0 <= i < j < |r| ensures LessEq(r[j].fitness, r[i].fitness) {
      if i > 0 {
        assert r[i] == t[i - 1] && r[j] == t[j - 1];
      }
    }
  }

  lemma {:induction false} InsertByFitnessOrder(x: Scored, s: seq<Scored>)
    requires NonIncreasing(s)
    ensures NonIncreasing(InsertByFitness(x, s))
    decreases |s|
  {
    if s != [] {
      if Less(s[0].fitness, x.fitness) {
        forall j | 0 <= j < |s| ensures LessEq(s[j].fitness, x.fitness) {
          LessIsStrictTotalOrder(s[j].fitness, s[0].fitness, x.fitness);
        }
        ConsOrder(x, s);
      } else {
        var t := InsertByFitness(x, s[1..]);
        InsertByFitnessOrder(x, s[1..]);
        InsertByFitnessPerm(x, s[1..]);
        LessIsStrictTotalOrder(x.fitness, s[0].fitness, s[0].fitness);
        forall j | 0 <= j < |t| ensures LessEq(t[j].fitness, s[0].fitness) {
          assert t[j] in multiset(t);
          if t[j] != x {
            assert t[j] in s[1..];
          }
        }
        ConsOrder(s[0], t);
      }
    }
  }

  /** The sort returns the same individuals, fittest first. */
  lemma {:induction false} SortByFitnessCorrect(s: seq<Scored>)
    ensures multiset(SortByFitness(s)) == multiset(s)
    ensures NonIncreasing(SortByFitness(s))
    decreases |s|
  {
    if s != [] {
      var n := |s| - 1;
      SortByFitnessCorrect(s[..n]);
      InsertByFitnessPerm(s[n], SortByFitness(s[..n]));
      InsertByFitnessOrder(s[n], SortByFitness(s[..n]));
      assert s == s[..n] + [s[n]];
    }
  }

  /** The head of a non-increasing list is at least as fit as every entry. */
  lemma HeadIsFittest(s: seq<Scored>, x: Scored)
    requires NonIncreasing(s) && x in s
    ensures LessEq(x.fitness, s[0].fitness)
  {
    var i :| 0 <= i < |s| && s[i] == x;
    if i > 0 {
      assert LessEq(s[i].fitness, s[0].fitness);
    }
  }

  /**
   * `max(tournament, key=self._fitness)` over the sampled positions: the
   * position in `sample` of the first entry no other sampled entry beats.
   */
  function Tournament(candidates: seq<Scored>, sample: seq<int>): (w: nat)
    requires sample != [] && forall j :: 0 <= j < |sample| ==> 0 <= sample[j] < |candidates|
    ensures w < |sample|
    ensures forall i :: 0 <= i < w ==> Less(candidates[sample[i]].fitness, candidates[sample[w]].fitness)
    ensures forall j :: 0 <= j < |sample| ==> LessEq(candidates[sample[j]].fitness, candidates[sample[w]].fitness)
  {
    var n := |sample| - 1;
    if n == 0 then 0
    else
      var w' := Tournament(candidates, sample[..n]);
      TournamentStep(candidates, sample, w');
      if Less(candidates[sample[w']].fitness, candidates[sample[n]].fitness) then n else w'
  }

  lemma TournamentStep(candidates: seq<Scored>, sample: seq<int>, w': nat)
    requires |sample| > 1 && forall j :: 0 <= j < |sample| ==> 0 <= sample[j] < |candidates|
    requires w' < |sample| - 1
    requires forall i :: 0 <= i < w' ==> Less(candidates[sample[i]].fitness, candidates[sample[w']].fitness)
    requires forall j :: 0 <= j < |sample| - 1 ==> LessEq(candidates[sample[j]].fitness, candidates[sample[w']].fitness)
    ensures var n := |sample| - 1;
            var w := if Less(candidates[sample[w']].fitness, candidates[sample[n]].fitness) then n else w';
            && (forall i :: 0 <= i < w ==> Less(candidates[sample[i]].fitness, candidates[sample[w]].fitness))
            && forall j :: 0 <= j < |sample| ==> LessEq(candidates[sample[j]].fitness, candidates[sample[w]].fitness)
  {
    var n := |sample| - 1;
    var best, x := candidates[sample[w']].fitness, candidates[sample[n]].fitness;
    if Less(best, x) {
      forall i | 0 <= i < n ensures Less(candidates[sample[i]].fitness, x) {
        LessIsStrictTotalOrder(candidates[sample[i]].fitness, best, x);
      }
    } else {
      LessIsStrictTotalOrder(x, best, best);
    }
  }

  /** Removing position `j` from a list without repeats drops exactly `s[j]`, and no repeat appears. */
  lemma RemoveAt(s: seq<int>, j: nat)
    requires j < |s| && forall a, b :: 0 <= a < b < |s| ==> s[a] != s[b]
    ensures var r := s[..j] + s[j + 1..];
      && |r| == |s| - 1
      && (forall x :: x in r <==> x in s && x != s[j])
      && forall a, b :: 0 <= a < b < |r| ==> r[a] != r[b]
  {
    var r := s[..j] + s[j + 1..];
    assert forall a :: 0 <= a < |r| ==> r[a] == s[if a < j then a else a + 1];
    forall x | x in s && x != s[j] ensures x in r {
      var i :| 0 <= i < |s| && s[i] == x;
      assert r[if i < j then i else i - 1] == x;
    }
  }

  /**
   * `random.sample` of `m` positions out of `n`: each draw takes one of the
   * positions still in the pool, so no position is drawn twice.
   */
  method SampleIndices(n: nat, m: nat, rng: Rng, k: nat) returns (sample: seq<int>, k': nat)
    requires m <= n
    ensures |sample| == m && k' == k + m
    ensures forall j :: 0 <= j < m ==> 0 <= sample[j] < n
    ensures forall i, j :: 0 <= i < j < m ==> sample[i] != sample[j]
  {
    var pool: seq<int> := seq(n, i => i);
    sample := [];
    k' := k;
    for t := 0 to m
      invariant |sample| == t && |pool| == n - t && k' == k + t
      invariant forall x :: x in pool ==> 0 <= x < n
      invariant forall j :: 0 <= j < t ==> 0 <= sample[j] < n && sample[j] !in pool
      invariant forall i, j :: 0 <= i < j < t ==> sample[i] != sample[j]
      invariant forall i, j :: 0 <= i < j < |pool| ==> pool[i] != pool[j]
    {
      var j := rng.pick(k') % |pool|;
      var drawn := pool[j];
      var rest := pool[..j] + pool[j + 1..];
      RemoveAt(pool, j);
      assert drawn in pool && drawn !in rest;
      assert forall i :: 0 <= i < t ==> (sample + [drawn])[i] == sample[i] && sample[i] !in rest;
      sample := sample + [drawn];
      pool := rest;
      k' := k' + 1;
    }
  }

  /* ------------------------------------------------------------------ */
  /* The planner                                                        */
  /* ------------------------------------------------------------------ */

  /**
   * `class GeneticAlgorithm`. Its fields are set once by the constructor;
   * `dist` is the straight-line distance the source writes out at lines
   * 99-100 and 138.
   */
  class GeneticAlgorithm {
    const drones: seq<Drone>
    const deliveryPoints: seq<DeliveryPoint>
    const graph: Graph
    const dist: Metric
    const populationSize: nat := 200
    const generations: nat := 100
    const validDpIds: seq<int> := DeliveryIds(deliveryPoints)

    constructor (drones: seq<Drone>, deliveryPoints: seq<DeliveryPoint>, graph: Graph, dist: Metric)
      ensures this.drones == drones && this.deliveryPoints == deliveryPoints
      ensures this.graph == graph && this.dist == dist
    {
      this.drones := drones;
      this.deliveryPoints := deliveryPoints;
      this.graph := graph;
      this.dist := dist;
    }

    /**
     * `validate_chromosome`: the first drone with more than one parcel, else
     * the deliveries that occur twice, else the unknown ids, else valid.
     */
    method ValidateChromosome(c: Chromosome) returns (v: Verdict)
      ensures v.Valid? <==> IsValidChromosome(c, validDpIds)
      ensures v.TooManyDeliveries? <==> !SingleParcel(c)
      ensures v.TooManyDeliveries? ==>
                v.drone < |c| && v.count == |c[v.drone]| > 1 && forall j :: 0 <= j < v.drone ==> |c[j]| <= 1
      ensures v.DuplicateDeliveries? <==> SingleParcel(c) && !HeadsDistinct(c)
      ensures v.DuplicateDeliveries? ==> v.ids != {} && v.ids == Repeated(Flatten(c))
      ensures v.InvalidDeliveries? ==>
                SingleParcel(c) && HeadsDistinct(c) && v.ids != {} &&
                v.ids == Elements(Flatten(c)) - Elements(validDpIds)
    {
      var allDeliveries: seq<int> := [];
      for i := 0 to |c|
        invariant allDeliveries == Flatten(c[..i])
        invariant forall j :: 0 <= j < i ==> |c[j]| <= 1
      {
        if |c[i]| > 1 {
          return TooManyDeliveries(i, |c[i]|);
        }
        FlattenSnoc(c, i);
        allDeliveries := allDeliveries + c[i];
      }
      assert c[..|c|] == c;
      FlattenMembers(c);
      FlattenDistinct(c);
      var uniqueDeliveries := Elements(allDeliveries);
      ElementsCard(allDeliveries);
      if |allDeliveries| != |uniqueDeliveries| {
        RepeatedEmpty(allDeliveries);
        return DuplicateDeliveries(Repeated(allDeliveries));
      }
      var invalidIds := uniqueDeliveries - Elements(validDpIds);
      if invalidIds != {} {
        var x :| x in invalidIds;
        assert x in Flatten(c) && x !in validDpIds;
        return InvalidDeliveries(invalidIds);
      }
      forall i, x | Carries(c, i, x) ensures x in validDpIds {
        assert x in uniqueDeliveries && x !in invalidIds;
        assert x in Elements(validDpIds);
      }
      return Valid;
    }
  
    /**
     * `repair_chromosome`: keep each route's first delivery unless taken,
     * then hand every delivery nobody serves, in any order, to the first
     * empty drone if that drone can lift it.
     */
    method RepairChromosome(c: Chromosome) returns (repaired: Chromosome)
      requires |c| <= |drones|
      ensures |repaired| == |c| && SingleParcel(repaired) && HeadsDistinct(repaired)
      ensures forall i :: 0 <= i < |c| ==>
                repaired[i] == KeepFirst(c)[i] ||
                Placed(drones, deliveryPoints, validDpIds, KeepFirst(c), i, repaired[i])
      ensures IdsKnown(c, validDpIds) ==> IsValidChromosome(repaired, validDpIds)
      ensures forall e, id ::
                FirstEmptyAt(KeepFirst(c), e) && id in Elements(validDpIds) && id !in Carried(KeepFirst(c)) &&
                Lifts(drones, deliveryPoints, id, e)
                ==> repaired[e] != []
    {
      var used;
      repaired, used := KeepFirstLoop(c);
      ghost var kept := repaired;
      var unassigned := Elements(validDpIds) - used;
      ghost var all := unassigned;
      while unassigned != {}
        invariant |repaired| == |c| && SingleParcel(repaired) && HeadsDistinct(repaired)
        invariant unassigned <= all == Elements(validDpIds) - Carried(kept)
        invariant forall i :: 0 <= i < |c| ==>
                    repaired[i] == kept[i] ||
                    (Placed(drones, deliveryPoints, validDpIds, kept, i, repaired[i]) && repaired[i][0] !in unassigned)
        invariant forall e, id ::
                    FirstEmptyAt(kept, e) && id in all && id !in unassigned && Lifts(drones, deliveryPoints, id, e)
                    ==> repaired[e] != []
        decreases unassigned
      {
        Inhabited(unassigned);
        var deliveryId :| deliveryId in unassigned;
        unassigned := unassigned - {deliveryId};
        var emptyDroneIdx := FirstEmpty(repaired);
        if emptyDroneIdx.Some? {
          var e := emptyDroneIdx.value;
          var delivery := FindDelivery(deliveryPoints, deliveryId).value;
          var drone := drones[e];
          if delivery.weight <= drone.maxWeight {
            assert Placed(drones, deliveryPoints, validDpIds, kept, e, [deliveryId]);
            FillKeepsDistinct(repaired, kept, unassigned, e, deliveryId);
            repaired := repaired[e := [deliveryId]];
          }
        }
      }
      if IdsKnown(c, validDpIds) {
        forall i, x | Carries(repaired, i, x) ensures x in validDpIds {
          if repaired[i] == kept[i] {
            assert Carries(c, i, x);
          }
        }
      }
    }
  

    /**
     * `find_best_drone_for_delivery`: among the drones with an empty route
     * that can lift the parcel, the one closest to it, the first on ties;
     * None for an unknown delivery or when no drone qualifies.
     */
    method FindBestDroneForDelivery(deliveryId: int, c: Chromosome) returns (best: Option<nat>)
      requires FindDelivery(deliveryPoints, deliveryId).Some? ==> |drones| <= |c|
      ensures FindDelivery(deliveryPoints, deliveryId).None? ==> best.None?
      ensures FindDelivery(deliveryPoints, deliveryId).Some? ==>
                var dp := FindDelivery(deliveryPoints, deliveryId).value;
                && (best.None? <==> forall i :: 0 <= i < |drones| ==> !CanTake(drones, c, dp, i))
                && (best.Some? ==>
                      && CanTake(drones, c, dp, best.value)
                      && (forall i :: 0 <= i < |drones| && CanTake(drones, c, dp, i) ==>
                            dist(drones[best.value].startPos, dp.pos) <= dist(drones[i].startPos, dp.pos))
                      && (forall i :: 0 <= i < best.value && CanTake(drones, c, dp, i) ==>
                            dist(drones[best.value].startPos, dp.pos) < dist(drones[i].startPos, dp.pos)))
    {
      var found := FindDelivery(deliveryPoints, deliveryId);
      if found.None? {
        return None;
      }
      var delivery := found.value;
      best := None;
      var bestScore: ExtReal := PosInf;
      for i := 0 to |drones|
        invariant best.None? <==> bestScore == PosInf
        invariant best.None? ==> forall j :: 0 <= j < i ==> !CanTake(drones, c, delivery, j)
        invariant best.Some? ==>
                    && best.value < i && CanTake(drones, c, delivery, best.value)
                    && bestScore == Finite(dist(drones[best.value].startPos, delivery.pos))
                    && (forall j :: 0 <= j < i && CanTake(drones, c, delivery, j) ==>
                          bestScore.value <= dist(drones[j].startPos, delivery.pos))
                    && (forall j :: 0 <= j < best.value && CanTake(drones, c, delivery, j) ==>
                          bestScore.value < dist(drones[j].startPos, delivery.pos))
      {
        if c[i] != [] {
          continue;
        }
        if delivery.weight > drones[i].maxWeight {
          continue;
        }
        var distance := dist(drones[i].startPos, delivery.pos);
        if Less(Finite(distance), bestScore) {
          bestScore := Finite(distance);
          best := Some(i);
        }
      }
      assert delivery == FindDelivery(deliveryPoints, deliveryId).value;
      assert best.None? ==> forall j :: 0 <= j < |drones| ==> !CanTake(drones, c, delivery, j);
      assert (forall j :: 0 <= j < |drones| ==> !CanTake(drones, c, delivery, j)) ==> best.None?;
    }

    /**
     * The body of the loop at lines 121-154 for route `i`: its energy and
     * its violations.
     */
    method RouteTerms(i: nat, route: Route) returns (energy: real, violations: nat)
      requires RouteDefined(drones, deliveryPoints, i, route)
      ensures energy == RouteEnergy(drones, deliveryPoints, dist, i, route)
      ensures violations == RouteViolations(drones, deliveryPoints, graph, i, route)
    {
      energy, violations := 0.0, 0;
      if route == [] {
        return;
      }
      if |route| > 1 {
        violations := 10;
        return;
      }
      var currentPos := drones[i].startPos;
      var drone := drones[i];
      var dpId := route[0];
      match FindDelivery(deliveryPoints, dpId)
      case None =>
        violations := 1;
      case Some(dp) =>
        var distance := dist(currentPos, dp.pos);
        energy := distance * 5.0 / drone.speed;
        if dp.weight > drone.maxWeight {
          violations := violations + 1;
        }
        if graph.IsInNoFlyZone(currentPos, dp.pos) {
          violations := violations + 1;
        }
    }

    /**
     * `_fitness`: validation first, then the delivery count, then one pass
     * over the routes summing energy and violations.
     */
    method Fitness(routes: Chromosome) returns (f: ExtReal)
      requires IsValidChromosome(routes, validDpIds) ==> FitnessDefined(drones, deliveryPoints, routes)
      ensures f == FitnessOf(drones, deliveryPoints, graph, dist, validDpIds, routes)
    {
      var verdict := ValidateChromosome(routes);
      if !verdict.Valid? {
        return NegInf;
      }
      var totalDeliveries := 0;
      for i := 0 to |routes|
        invariant totalDeliveries == |Flatten(routes[..i])|
      {
        FlattenSnoc(routes, i);
        totalDeliveries := totalDeliveries + |routes[i]|;
      }
      var totalEnergy := 0.0;
      var violations := 0;
      for i := 0 to |routes|
        invariant totalEnergy == TotalEnergy(drones, deliveryPoints, dist, routes[..i])
        invariant violations == TotalViolations(drones, deliveryPoints, graph, routes[..i])
      {
        assert routes[..i + 1][..i] == routes[..i];
        var energy, penalty := RouteTerms(i, routes[i]);
        totalEnergy := totalEnergy + energy;
        violations := violations + penalty;
      }
      assert routes[..|routes|] == routes;
      return Finite(totalDeliveries as real * 50.0 - totalEnergy * 0.1 - violations as real * 1000.0);
    }
  

    /**
     * `_mutate` on draws `k`, `k + 1`, ...: with probability 0.1 either
     * replace the delivery by another known one (probability 0.3, when there
     * is another) or give an empty route a random known delivery
     * (probability 0.2); then cut the route to one delivery. None is the
     * `IndexError` of `random.choice` on an empty id list.
     */
    method Mutate(route: Route, rng: Rng, k: nat) returns (r: Option<Route>, k': nat)
      ensures k <= k'
      ensures r.None? <==> route == [] && rng.unit(k) < 0.1 && rng.unit(k + 1) < 0.2 && validDpIds == []
      ensures r.Some? ==> |r.value| <= 1
      ensures r.Some? && route != [] ==> r.value != [] && (r.value[0] == route[0] || r.value[0] in validDpIds)
      ensures r.Some? && route == [] && r.value != [] ==> r.value[0] in validDpIds
    {
      var current := route;
      k' := k;
      var roll := rng.unit(k');
      k' := k' + 1;
      if roll < 0.1 {
        if current != [] {
          var availableDps := Others(validDpIds, current[0]);
          if availableDps != [] {
            var roll2 := rng.unit(k');
            k' := k' + 1;
            if roll2 < 0.3 {
              current := current[0 := Choice(rng, k', availableDps)];
              k' := k' + 1;
            }
          }
        } else {
          var roll2 := rng.unit(k');
          k' := k' + 1;
          if roll2 < 0.2 {
            if validDpIds == [] {
              return None, k';
            }
            current := current + [Choice(rng, k', validDpIds)];
            k' := k' + 1;
          }
        }
      }
      if |current| > 1 {
        current := [current[0]];
      }
      return Some(current), k';
    }

    /** The loop at lines 209-213: the available ids whose parcel `drone` can lift, in order. */
    method SuitableDps(availableDps: seq<int>, drone: Drone) returns (suitable: seq<int>)
      requires forall x :: x in availableDps ==> x in validDpIds
      ensures forall x :: x in suitable <==>
                x in availableDps && FindDelivery(deliveryPoints, x).Some? &&
                FindDelivery(deliveryPoints, x).value.weight <= drone.maxWeight
    {
      suitable := [];
      for j := 0 to |availableDps|
        invariant forall x :: x in suitable <==>
                    x in availableDps[..j] && FindDelivery(deliveryPoints, x).Some? &&
                    FindDelivery(deliveryPoints, x).value.weight <= drone.maxWeight
      {
        assert availableDps[..j + 1] == availableDps[..j] + [availableDps[j]];
        var dpId := availableDps[j];
        assert dpId in availableDps;
        KnownIdFound(deliveryPoints, dpId);
        var dp := FindDelivery(deliveryPoints, dpId).value;
        if dp.weight <= drone.maxWeight {
          suitable := suitable + [dpId];
        }
      }
      assert availableDps[..|availableDps|] == availableDps;
    }

    /**
     * One individual of `_generate_initial_population` (lines 200-224): each
     * drone in turn, with probability 0.7, takes a random unused delivery it
     * can lift.
     */
    method InitialIndividual(rng: Rng, k: nat) returns (individual: Chromosome, k': nat)
      ensures |individual| == |drones| && IsValidChromosome(individual, validDpIds)
      ensures Loadable(drones, deliveryPoints, validDpIds, individual)
      ensures k <= k'
    {
      individual := [];
      var usedDps: set<int> := {};
      k' := k;
      for j := 0 to |drones|
        invariant |individual| == j && SingleParcel(individual) && HeadsDistinct(individual)
        invariant usedDps == Carried(individual)
        invariant Loadable(drones, deliveryPoints, validDpIds, individual)
        invariant k <= k'
      {
        var drone := drones[j];
        var availableDps := Unused(validDpIds, usedDps);
        var route: Route := [];
        if availableDps != [] {
          var suitableDps := SuitableDps(availableDps, drone);
          if suitableDps != [] {
            var roll := rng.unit(k');
            k' := k' + 1;
            if roll < 0.7 {
              var selectedDp := Choice(rng, k', suitableDps);
              k' := k' + 1;
              route := [selectedDp];
              usedDps := usedDps + {selectedDp};
            }
          }
        }
        CarriedSnoc(individual, route);
        AppendKeepsLoadable(individual, route, j);
        individual := individual + [route];
      }
    }

    /** The state the generations keep: one route per drone, and validation passes. */
    ghost predicate Healthy(c: Chromosome)
    {
      |c| == |drones| && IsValidChromosome(c, validDpIds)
    }

    /** No drone has speed zero, so `_fitness` never divides by zero (line 142). */
    predicate SpeedsNonZero()
    {
      forall i :: 0 <= i < |drones| ==> drones[i].speed != 0.0
    }

    lemma HealthyDefined(c: Chromosome)
      requires Healthy(c) && SpeedsNonZero()
      ensures FitnessDefined(drones, deliveryPoints, c)
    {
    }

    /** `self._fitness(c)` for a healthy chromosome. */
    ghost function Fit(c: Chromosome): ExtReal
      requires Healthy(c) && SpeedsNonZero()
    {
      HealthyDefined(c);
      FitnessOf(drones, deliveryPoints, graph, dist, validDpIds, c)
    }

    /** Every entry is healthy and carries its own fitness. */
    ghost predicate WellScored(s: seq<Scored>)
    {
      SpeedsNonZero() && forall x :: x in s ==> Healthy(x.individual) && x.fitness == Fit(x.individual)
    }

    ghost function ScoreAll(population: seq<Chromosome>): (r: seq<Scored>)
      requires SpeedsNonZero() && forall c :: c in population ==> Healthy(c)
      ensures |r| == |population| && WellScored(r)
      ensures forall i :: 0 <= i < |population| ==> r[i] == Scored(Fit(population[i]), population[i])
    {
      seq(|population|, i requires 0 <= i < |population| => Scored(Fit(population[i]), population[i]))
    }

    /** The key function of `sorted(population, key=self._fitness)`, evaluated once per individual. */
    method Score(population: seq<Chromosome>) returns (scored: seq<Scored>)
      requires SpeedsNonZero() && forall c :: c in population ==> Healthy(c)
      ensures scored == ScoreAll(population)
    {
      scored := [];
      for i := 0 to |population|
        invariant scored == ScoreAll(population[..i])
      {
        assert population[i] in population;
        HealthyDefined(population[i]);
        var f := Fitness(population[i]);
        assert population[..i + 1] == population[..i] + [population[i]];
        scored := scored + [Scored(f, population[i])];
      }
      assert population[..|population|] == population;
    }

    /**
     * `_tournament_selection`: sample `min(tournamentSize, |population|)`
     * distinct candidates and return the fittest, the first one on a tie.
     */
    method TournamentSelection(population: seq<Scored>, tournamentSize: nat, rng: Rng, k: nat)
      returns (winner: Chromosome, tournament: seq<int>, k': nat)
      requires population != [] && tournamentSize > 0
      ensures |tournament| == if tournamentSize < |population| then tournamentSize else |population|
      ensures forall j :: 0 <= j < |tournament| ==> 0 <= tournament[j] < |population|
      ensures forall i, j :: 0 <= i < j < |tournament| ==> tournament[i] != tournament[j]
      ensures winner == population[tournament[Tournament(population, tournament)]].individual
      ensures exists j :: 0 <= j < |population| && winner == population[j].individual
      ensures k <= k'
    {
      var size := if tournamentSize < |population| then tournamentSize else |population|;
      tournament, k' := SampleIndices(|population|, size, rng, k);
      winner := population[tournament[Tournament(population, tournament)]].individual;
    }

    /**
     * Lines 249-253: zip the parents drone by drone, cross the two routes
     * over (one draw, only when both are non-empty) and mutate the result.
     * None is the error `_mutate` raises when there is no delivery to pick.
     */
    method Breed(parent1: Chromosome, parent2: Chromosome, rng: Rng, k: nat)
      returns (child: Option<Chromosome>, k': nat)
      ensures k <= k'
      ensures child.None? ==> validDpIds == []
      ensures child.Some? ==> |child.value| == (if |parent1| < |parent2| then |parent1| else |parent2|)
      ensures child.Some? ==> SingleParcel(child.value)
      ensures child.Some? && IdsKnown(parent1, validDpIds) && IdsKnown(parent2, validDpIds) ==>
                IdsKnown(child.value, validDpIds)
    {
      var n := if |parent1| < |parent2| then |parent1| else |parent2|;
      var routes: Chromosome := [];
      k' := k;
      for j := 0 to n
        invariant |routes| == j && SingleParcel(routes) && k <= k'
        invariant IdsKnown(parent1, validDpIds) && IdsKnown(parent2, validDpIds) ==> IdsKnown(routes, validDpIds)
      {
        var p1Route, p2Route := parent1[j], parent2[j];
        var roll := rng.unit(k');
        if p1Route != [] && p2Route != [] {
          k' := k' + 1;
        }
        var childRoute := Crossover(p1Route, p2Route, roll);
        var mutated;
        mutated, k' := Mutate(childRoute, rng, k');
        if mutated.None? {
          return None, k';
        }
        var route := mutated.value;
        if IdsKnown(parent1, validDpIds) && IdsKnown(parent2, validDpIds) && route != [] {
          assert route[0] in validDpIds by {
            if childRoute != [] {
              assert Carries(parent1, j, childRoute[0]) || Carries(parent2, j, childRoute[0]);
            }
          }
        }
        var routes' := routes + [route];
        assert forall i :: 0 <= i < j ==> routes'[i] == routes[i];
        if IdsKnown(parent1, validDpIds) && IdsKnown(parent2, validDpIds) {
          forall i, x | Carries(routes', i, x) ensures x in validDpIds {
            if i < j {
              assert Carries(routes, i, x);
            }
          }
        }
        routes := routes';
      }
      child := Some(routes);
    }

    /**
     * Lines 245-260: two tournament winners from `parents`, their child,
     * and the child repaired when it fails validation.
     */
    method Offspring(parents: seq<Scored>, rng: Rng, k: nat) returns (child: Option<Chromosome>, k': nat)
      requires parents != [] && WellScored(parents)
      ensures k <= k'
      ensures child.None? ==> validDpIds == []
      ensures child.Some? ==> Healthy(child.value)
    {
      var parent1, parent2, tournament;
      parent1, tournament, k' := TournamentSelection(parents, 3, rng, k);
      parent2, tournament, k' := TournamentSelection(parents, 3, rng, k');
      assert Healthy(parent1) && Healthy(parent2) by {
        var i :| 0 <= i < |parents| && parent1 == parents[i].individual;
        var j :| 0 <= j < |parents| && parent2 == parents[j].individual;
        assert parents[i] in parents && parents[j] in parents;
      }
      var bred;
      bred, k' := Breed(parent1, parent2, rng, k');
      if bred.None? {
        return None, k';
      }
      var c := bred.value;
      var verdict := ValidateChromosome(c);
      if !verdict.Valid? {
        c := RepairChromosome(c);
      }
      child := Some(c);
    }

    /** The sorted scores are healthy, and their head is at least as fit as anyone in `population`. */
    lemma SortedScores(population: seq<Chromosome>)
      requires SpeedsNonZero() && forall c :: c in population ==> Healthy(c)
      ensures var sorted := SortByFitness(ScoreAll(population));
        && WellScored(sorted)
        && forall c :: c in population ==> Healthy(sorted[0].individual) && LessEq(Fit(c), Fit(sorted[0].individual))
    {
      var scored := ScoreAll(population);
      var sorted := SortByFitness(scored);
      SortByFitnessCorrect(scored);
      forall x | x in sorted ensures x in scored {
        assert x in multiset(sorted);
      }
      forall c | c in population ensures LessEq(Fit(c), sorted[0].fitness) {
        var i :| 0 <= i < |population| && population[i] == c;
        assert scored[i] in multiset(sorted);
        HeadIsFittest(sorted, scored[i]);
      }
    }

    lemma PrefixWellScored(s: seq<Scored>, n: nat)
      requires WellScored(s) && n <= |s|
      ensures WellScored(s[..n])
    {
      forall x | x in s[..n] ensures x in s {
        var i :| 0 <= i < n && s[..n][i] == x;
      }
    }

    lemma IndividualsHealthy(s: seq<Scored>)
      requires WellScored(s)
      ensures forall c :: c in Individuals(s) ==> Healthy(c)
    {
      forall c | c in Individuals(s) ensures Healthy(c) {
        var i :| 0 <= i < |s| && Individuals(s)[i] == c;
        assert s[i] in s;
      }
    }

    /**
     * One pass of the loop at lines 234-262: keep the fittest quarter,
     * then breed children of tournament winners from the fitter half,
     * repairing each child that fails validation.
     */
    method Generation(population: seq<Chromosome>, rng: Rng, k: nat)
      returns (next: Option<seq<Chromosome>>, k': nat)
      requires |population| == populationSize && SpeedsNonZero()
      requires forall c :: c in population ==> Healthy(c)
      ensures k <= k'
      ensures next.None? ==> validDpIds == []
      ensures next.Some? ==> |next.value| == populationSize && forall c :: c in next.value ==> Healthy(c)
      ensures next.Some? ==>
                next.value[..populationSize / 4] == Individuals(SortByFitness(ScoreAll(population))[..populationSize / 4])
      ensures next.Some? ==> forall c :: c in population ==> LessEq(Fit(c), Fit(next.value[0]))
    {
      var scored := Score(population);
      var sorted := SortByFitness(scored);
      SortedScores(population);
      var eliteSize := populationSize / 4;
      var parents := sorted[..populationSize / 2];
      PrefixWellScored(sorted, populationSize / 2);
      var newPopulation := Individuals(sorted[..eliteSize]);
      PrefixWellScored(sorted, eliteSize);
      IndividualsHealthy(sorted[..eliteSize]);
      k' := k;
      while |newPopulation| < populationSize
        invariant eliteSize <= |newPopulation| <= populationSize && k <= k'
        invariant newPopulation[..eliteSize] == Individuals(sorted[..eliteSize])
        invariant forall c :: c in newPopulation ==> Healthy(c)
        decreases populationSize - |newPopulation|
      {
        var child;
        child, k' := Offspring(parents, rng, k');
        if child.None? {
          return None, k';
        }
        assert (newPopulation + [child.value])[..eliteSize] == newPopulation[..eliteSize];
        newPopulation := newPopulation + [child.value];
      }
      assert newPopulation[0] == newPopulation[..eliteSize][0] == sorted[0].individual;
      next := Some(newPopulation);
    }

    /**
     * `run`: the initial population, `generations` generations, then the
     * fittest individual of the last population (`finalPopulation`), the
     * head of that population sorted by fitness, and its fitness.
     */
    method Run(rng: Rng, k: nat)
      returns (result: Option<(Chromosome, ExtReal)>, k': nat, ghost finalPopulation: seq<Chromosome>)
      requires SpeedsNonZero()
      ensures k <= k'
      ensures result.None? ==> validDpIds == []
      ensures result.Some? ==> Healthy(result.value.0) && result.value.1 == Fit(result.value.0)
      ensures result.Some? ==> result.value.1.Finite?
      ensures result.Some? ==>
                && |finalPopulation| == populationSize
                && (forall c :: c in finalPopulation ==> Healthy(c))
                && result.value.0 in finalPopulation
                && result.value.0 == SortByFitness(ScoreAll(finalPopulation))[0].individual
                && forall c :: c in finalPopulation ==> LessEq(Fit(c), result.value.1)
    {
      var population;
      population, k' := InitialPopulation(rng, k);
      for generation := 0 to generations
        invariant |population| == populationSize && k <= k'
        invariant forall c :: c in population ==> Healthy(c)
      {
        var next;
        next, k' := Generation(population, rng, k');
        if next.None? {
          return None, k', population;
        }
        population := next.value;
      }
      var scored := Score(population);
      var sorted := SortByFitness(scored);
      SortByFitnessCorrect(scored);
      SortedScores(population);
      assert sorted[0] in multiset(scored);
      var best := sorted[0].individual;
      HealthyDefined(best);
      var bestFitness := Fitness(best);
      result := Some((best, bestFitness));
      finalPopulation := population;
    }

    lemma AppendKeepsLoadable(individual: Chromosome, route: Route, j: nat)
      requires |individual| == j && SingleParcel(individual) && HeadsDistinct(individual)
      requires Loadable(drones, deliveryPoints, validDpIds, individual)
      requires route == [] || (j < |drones| && |route| == 1 && route[0] !in Carried(individual) &&
                               route[0] in validDpIds && FindDelivery(deliveryPoints, route[0]).Some? &&
                               FindDelivery(deliveryPoints, route[0]).value.weight <= drones[j].maxWeight)
      ensures var c := individual + [route];
        SingleParcel(c) && HeadsDistinct(c) && Loadable(drones, deliveryPoints, validDpIds, c)
    {
      var c := individual + [route];
      assert forall i :: 0 <= i < j ==> c[i] == individual[i];
      forall i, x | Carries(c, i, x) ensures i < |drones| && x in validDpIds {
        if i < j {
          assert Carries(individual, i, x);
        }
      }
      if route != [] {
        forall i | 0 <= i < j && c[i] != [] ensures c[i][0] != route[0] {
          assert individual[i][0] in Carried(individual);
        }
      }
    }

    /** `_generate_initial_population`: `populationSize` individuals built one after another. */
    method InitialPopulation(rng: Rng, k: nat) returns (population: seq<Chromosome>, k': nat)
      ensures |population| == populationSize
      ensures forall c :: c in population ==> |c| == |drones| && IsValidChromosome(c, validDpIds)
      ensures forall c :: c in population ==> Loadable(drones, deliveryPoints, validDpIds, c)
      ensures k <= k'
    {
      population := [];
      k' := k;
      for n := 0 to populationSize
        invariant |population| == n && k <= k'
        invariant forall c :: c in population ==> |c| == |drones| && IsValidChromosome(c, validDpIds)
        invariant forall c :: c in population ==> Loadable(drones, deliveryPoints, validDpIds, c)
      {
        var individual;
        individual, k' := InitialIndividual(rng, k');
        population := population + [individual];
      }
    }
  }
}
