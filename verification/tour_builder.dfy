/** The nearest-neighbour round trip of `RouteOptimization.get_route`: start at
    the depot (location 0), repeatedly move to the nearest location not yet
    visited, ties going to the one earliest in the unvisited list, and finally
    return to the depot. */
module TourBuilder {
  import opened Geo
  import opened Seqs

  /** The working state of a RouteOptimization object: the unvisited indices
      (`ids`), their coordinate rows (`coordinates_array`) and the tour so far
      (`route`). */
  datatype Builder = Builder(ids: seq<nat>, rows: seq<Coord>, route: seq<nat>)

  /** The state `__init__` sets up: every location but the depot is unvisited,
      in input order, each with its own coordinates; the tour is the depot. */
  function Init(coordinates: seq<Coord>): (b: Builder)
    requires |coordinates| >= 1
    ensures b.route == [0]
    ensures |b.ids| == |b.rows| == |coordinates| - 1
    ensures forall i :: 0 <= i < |b.ids| ==> b.ids[i] == i + 1 && b.rows[i] == coordinates[i + 1]
  {
    Builder(Range(1, |coordinates|), coordinates[1..], [0])
  }

  /** Standing at prev, u is a strictly better next stop than v: it is nearer,
      or exactly as near and has the smaller index. */
  predicate Precedes(coords: seq<Coord>, metric: Metric, prev: nat, u: nat, v: nat)
    requires prev < |coords| && u < |coords| && v < |coords|
  {
    var du := metric(coords[u], coords[prev]);
    var dv := metric(coords[v], coords[prev]);
    du < dv || (du == dv && u < v)
  }

  /** The k-th stop of route beats v as seen from the stop before it. */
  predicate Beats(coords: seq<Coord>, metric: Metric, route: seq<nat>, k: nat, v: nat)
    requires 0 < k < |route| && InRange(|coords|, route) && v < |coords|
  {
    Precedes(coords, metric, route[k - 1], route[k], v)
  }

  /** Row i of the coordinate array belongs to the i-th unvisited index. */
  predicate Aligned(coords: seq<Coord>, b: Builder)
  {
    && |b.rows| == |b.ids|
    && (forall i :: 0 <= i < |b.ids| ==> b.ids[i] < |coords| && b.rows[i] == coords[b.ids[i]])
  }

  /** Every stop chosen so far beats, as seen from the stop before it, every
      stop chosen after it and every stop still unvisited. */
  predicate GreedySoFar(coords: seq<Coord>, metric: Metric, b: Builder)
    requires InRange(|coords|, b.route) && Aligned(coords, b)
  {
    && (forall k, j :: 0 < k < j < |b.route| ==> Beats(coords, metric, b.route, k, b.route[j]))
    && (forall k, i :: 0 < k < |b.route| && 0 <= i < |b.ids| ==> Beats(coords, metric, b.route, k, b.ids[i]))
  }

  /** The bookkeeping of the loop: ids and rows aligned, ids in input order,
      the tour starting at the depot, and every location other than the depot
      either already on the tour or still unvisited, never both. */
  predicate Shape(coords: seq<Coord>, b: Builder)
  {
    && Aligned(coords, b)
    && StrictlyIncreasing(b.ids)
    && |b.route| >= 1 && b.route[0] == 0
    && InRange(|coords|, b.route)
    && |b.route| + |b.ids| == |coords|
    && multiset(b.route[1..]) + multiset(b.ids) == multiset(Range(1, |coords|))
  }

  /** What holds of the state before and after every iteration of the loop. */
  predicate Valid(coords: seq<Coord>, metric: Metric, b: Builder)
  {
    Shape(coords, b) && GreedySoFar(coords, metric, b)
  }

  /** A closed tour over n locations: it starts and ends at the depot and
      visits every other location exactly once in between. */
  predicate IsRoundTrip(n: nat, t: seq<nat>)
  {
    && n >= 1
    && |t| == n + 1
    && t[0] == 0 && t[n] == 0
    && InRange(n, t)
    && multiset(t[1..n]) == multiset(Range(1, n))
  }

  /** The tour get_route returns, described without reference to the loop:
      a round trip in which each stop beats every later stop as seen from
      its predecessor. */
  predicate IsNearestNeighbourTour(coords: seq<Coord>, metric: Metric, t: seq<nat>)
  {
    && IsRoundTrip(|coords|, t)
    && (forall k, j :: 0 < k < j < |coords| ==> Beats(coords, metric, t, k, t[j]))
  }

  lemma InitValid(coords: seq<Coord>, metric: Metric)
    requires |coords| >= 1
    ensures Valid(coords, metric, Init(coords))
  {
    var b := Init(coords);
    assert b.route[1..] == [];
  }

  /** The state after choosing unvisited position p. */
  function Advance(b: Builder, p: nat): Builder
    requires p < |b.ids| == |b.rows|
  {
    Builder(RemoveAt(b.ids, p), RemoveAt(b.rows, p), b.route + [b.ids[p]])
  }

  /** Deleting the same position from ids and rows keeps them aligned, and
      moving the deleted index to the tour keeps every location accounted for. */
  lemma AdvanceKeepsShape(coords: seq<Coord>, b: Builder, p: nat)
    requires Shape(coords, b) && p < |b.ids|
    ensures Shape(coords, Advance(b, p))
  {
    var c := b.ids[p];
    var r := Advance(b, p);
    RemoveAtKeepsIncreasing(b.ids, p);
    assert Aligned(coords, r) by {
      forall i | 0 <= i < |r.ids|
        ensures r.ids[i] < |coords| && r.rows[i] == coords[r.ids[i]]
      {
        var i' := if i < p then i else i + 1;
        assert r.ids[i] == b.ids[i'] && r.rows[i] == b.rows[i'];
      }
    }
    assert r.route[1..] == b.route[1..] + [c];
    assert multiset(r.ids) + multiset{c} == multiset(b.ids);
  }

  /** The first nearest unvisited location beats every location left
      unvisited after it is removed. */
  lemma ArgMinBeatsRest(coords: seq<Coord>, metric: Metric, b: Builder, p: nat)
    requires Shape(coords, b) && |b.ids| > 0
    requires p == ArgMin(Distances(metric, b.rows, coords[b.route[|b.route| - 1]]))
    ensures forall i :: 0 <= i < |b.ids| - 1 ==>
      Precedes(coords, metric, b.route[|b.route| - 1], b.ids[p], RemoveAt(b.ids, p)[i])
  {
    var prev := b.route[|b.route| - 1];
    var ds := Distances(metric, b.rows, coords[prev]);
    var rest := RemoveAt(b.ids, p);
    forall i | 0 <= i < |rest|
      ensures Precedes(coords, metric, prev, b.ids[p], rest[i])
    {
      if i < p {
        assert rest[i] == b.ids[i] && ds[p] < ds[i];
      } else {
        assert rest[i] == b.ids[i + 1] && ds[p] <= ds[i + 1] && b.ids[p] < b.ids[i + 1];
      }
    }
  }

  /** Appending a location that beats everything still unvisited keeps the
      greedy property of the tour. */
  lemma AdvanceKeepsGreedy(coords: seq<Coord>, metric: Metric, b: Builder, p: nat)
    requires Valid(coords, metric, b) && p < |b.ids|
    requires Shape(coords, Advance(b, p))
    requires forall i :: 0 <= i < |b.ids| - 1 ==>
      Precedes(coords, metric, b.route[|b.route| - 1], b.ids[p], RemoveAt(b.ids, p)[i])
    ensures GreedySoFar(coords, metric, Advance(b, p))
  {
    var n := |b.route|;
    var r := Advance(b, p);
    forall k, j | 0 < k < j < |r.route|
      ensures Beats(coords, metric, r.route, k, r.route[j])
    {
      assert r.route[k - 1] == b.route[k - 1] && r.route[k] == b.route[k];
      if j == n {
        assert r.route[j] == b.ids[p];
        assert Beats(coords, metric, b.route, k, b.ids[p]);
      } else {
        assert r.route[j] == b.route[j];
        assert Beats(coords, metric, b.route, k, b.route[j]);
      }
    }
    forall k, i | 0 < k < |r.route| && 0 <= i < |r.ids|
      ensures Beats(coords, metric, r.route, k, r.ids[i])
    {
      if k < n {
        assert r.route[k - 1] == b.route[k - 1] && r.route[k] == b.route[k];
        var i' := if i < p then i else i + 1;
        assert r.ids[i] == b.ids[i'];
        assert Beats(coords, metric, b.route, k, b.ids[i']);
      } else {
        assert r.route[k - 1] == b.route[n - 1] && r.route[k] == b.ids[p];
      }
    }
  }

  /** One iteration keeps the state valid: the first nearest unvisited row is
      appended to the tour and deleted, at the same position, from ids and rows. */
  lemma StepKeepsValid(coords: seq<Coord>, metric: Metric, b: Builder, p: nat)
    requires Valid(coords, metric, b) && |b.ids| > 0
    requires p == ArgMin(Distances(metric, b.rows, coords[b.route[|b.route| - 1]]))
    ensures Valid(coords, metric, Advance(b, p))
  {
    AdvanceKeepsShape(coords, b, p);
    ArgMinBeatsRest(coords, metric, b, p);
    AdvanceKeepsGreedy(coords, metric, b, p);
  }

  /** One iteration of the loop: measure from the last stop to every unvisited
      row, take the first nearest one, append its index to the tour and delete
      the same position from the indices and the rows. */
  function Step(coords: seq<Coord>, metric: Metric, b: Builder): (r: Builder)
    requires Valid(coords, metric, b) && |b.ids| > 0
    ensures Valid(coords, metric, r)
    ensures |r.route| == |b.route| + 1 && r.route[..|b.route|] == b.route
    ensures multiset(r.ids) + multiset{r.route[|b.route|]} == multiset(b.ids)
    ensures forall i :: 0 <= i < |r.ids| ==>
      Precedes(coords, metric, b.route[|b.route| - 1], r.route[|b.route|], r.ids[i])
  {
    var p := ArgMin(Distances(metric, b.rows, coords[b.route[|b.route| - 1]]));
    StepKeepsValid(coords, metric, b, p);
    ArgMinBeatsRest(coords, metric, b, p);
    var r := Advance(b, p);
    assert r.route[..|b.route|] == b.route;
    r
  }

  /** The state after `steps` iterations of the loop. */
  function Run(coords: seq<Coord>, metric: Metric, steps: nat): (b: Builder)
    requires 1 <= steps + 1 <= |coords|
    ensures Valid(coords, metric, b)
    ensures |b.route| == steps + 1 && |b.ids| == |coords| - 1 - steps
  {
    if steps == 0 then
      InitValid(coords, metric);
      Init(coords)
    else
      Step(coords, metric, Run(coords, metric, steps - 1))
  }

  /** Once nothing is left unvisited, closing the tour at the depot gives a
      nearest-neighbour tour. */
  lemma FinishedTour(coords: seq<Coord>, metric: Metric, b: Builder)
    requires Valid(coords, metric, b) && |b.ids| == 0
    ensures IsNearestNeighbourTour(coords, metric, b.route + [0])
  {
    var t := b.route + [0];
    var n := |coords|;
    assert t[1..n] == b.route[1..];
    assert multiset(b.ids) == multiset{};
    forall k, j | 0 < k < j < n
      ensures Beats(coords, metric, t, k, t[j])
    {
      assert t[k - 1] == b.route[k - 1] && t[k] == b.route[k] && t[j] == b.route[j];
      assert Beats(coords, metric, b.route, k, b.route[j]);
    }
  }

  /** `get_route`'s tour: the loop runs `len(locations) - 1` times, then the
      depot is appended. */
  function NearestNeighbourTour(coords: seq<Coord>, metric: Metric): (tour: seq<nat>)
    requires |coords| >= 1
    ensures IsNearestNeighbourTour(coords, metric, tour)
  {
    var b := Run(coords, metric, |coords| - 1);
    FinishedTour(coords, metric, b);
    b.route + [0]
  }

  /** In a nearest-neighbour tour, stop q is x itself or beats x, for every
      location x still to be visited at that point. */
  lemma StopBeatsLater(coords: seq<Coord>, metric: Metric, t: seq<nat>, q: nat, x: nat)
    requires IsNearestNeighbourTour(coords, metric, t)
    requires 1 <= q < |coords| && x in multiset(t[q..|coords|])
    ensures x == t[q] || Precedes(coords, metric, t[q - 1], t[q], x)
  {
    var j := q + IndexOf(t[q..|coords|], x);
    assert t[j] == x;
    assert j == q || Beats(coords, metric, t, q, t[j]);
  }

  /** Two nearest-neighbour tours that agree up to stop q also agree at stop q:
      the stops left are the same, and each tour's stop q beats all of them. */
  lemma SameNextStop(coords: seq<Coord>, metric: Metric, t: seq<nat>, u: seq<nat>, q: nat)
    requires IsNearestNeighbourTour(coords, metric, t)
    requires IsNearestNeighbourTour(coords, metric, u)
    requires 1 <= q < |coords| && t[..q] == u[..q]
    ensures t[q] == u[q]
  {
    var n := |coords|;
    var tr, ur := t[q..n], u[q..n];
    assert multiset(tr) == multiset(ur) by {
      assert t[1..q] == t[..q][1..] == u[..q][1..] == u[1..q];
      assert t[1..n][..q - 1] == t[1..q];
      assert u[1..n][..q - 1] == u[1..q];
      SuffixPermutation(t[1..n], u[1..n], q - 1);
      assert t[1..n][q - 1..] == tr && u[1..n][q - 1..] == ur;
    }
    assert t[q - 1] == u[q - 1] by {
      assert t[..q][q - 1] == u[..q][q - 1];
    }
    assert tr[0] == t[q] && ur[0] == u[q];
    StopBeatsLater(coords, metric, t, q, u[q]);
    StopBeatsLater(coords, metric, u, q, t[q]);
  }

  /** Two nearest-neighbour tours over the same input agree on their first m stops. */
  lemma {:induction false} SamePrefix(coords: seq<Coord>, metric: Metric, t: seq<nat>, u: seq<nat>, m: nat)
    requires IsNearestNeighbourTour(coords, metric, t)
    requires IsNearestNeighbourTour(coords, metric, u)
    requires 1 <= m <= |coords|
    ensures t[..m] == u[..m]
    decreases m
  {
    if m > 1 {
      SamePrefix(coords, metric, t, u, m - 1);
      SameNextStop(coords, metric, t, u, m - 1);
      assert t[..m] == t[..m - 1] + [t[m - 1]];
      assert u[..m] == u[..m - 1] + [u[m - 1]];
    }
  }

  /** The nearest-neighbour tour of an input is unique: distance ties are
      broken by index, so no choice is ever left open. */
  lemma NearestNeighbourTourUnique(coords: seq<Coord>, metric: Metric, t: seq<nat>, u: seq<nat>)
    requires IsNearestNeighbourTour(coords, metric, t)
    requires IsNearestNeighbourTour(coords, metric, u)
    ensures t == u
  {
    var n := |coords|;
    SamePrefix(coords, metric, t, u, n);
    assert t == t[..n] + [t[n]];
    assert u == u[..n] + [u[n]];
  }

  /** get_route's tour is exactly the sequence meeting the nearest-neighbour
      description. */
  lemma TourCharacterisation(coords: seq<Coord>, metric: Metric, t: seq<nat>)
    requires |coords| >= 1
    ensures t == NearestNeighbourTour(coords, metric) <==> IsNearestNeighbourTour(coords, metric, t)
  {
    if IsNearestNeighbourTour(coords, metric, t) {
      NearestNeighbourTourUnique(coords, metric, t, NearestNeighbourTour(coords, metric));
    }
  }

  /** Every location other than the depot appears in the interior of the tour
      exactly once, and the depot does not appear there at all. */
  lemma VisitsEveryStopOnce(coords: seq<Coord>, metric: Metric, t: seq<nat>)
    requires IsNearestNeighbourTour(coords, metric, t)
    ensures forall v :: v in t[1..|coords|] <==> 1 <= v < |coords|
    ensures forall i, j :: 0 < i < j < |coords| ==> t[i] != t[j]
  {
    var n := |coords|;
    var inner := t[1..n];
    PermutationOfRange(inner, 1, n);
    forall i, j | 0 < i < j < n
      ensures t[i] != t[j]
    {
      assert inner[i - 1] == t[i] && inner[j - 1] == t[j];
    }
  }

  /** The loop of `get_route` statement by statement, over mutable locals. */
  method BuildRoute(coordinates: seq<Coord>, metric: Metric) returns (route: seq<nat>)
    requires |coordinates| >= 1
    ensures IsNearestNeighbourTour(coordinates, metric, route)
    ensures route == NearestNeighbourTour(coordinates, metric)
  {
    var start := Init(coordinates);
    InitValid(coordinates, metric);
    var ids, rows := start.ids, start.rows;
    route := start.route;
    for x := 0 to |coordinates| - 1
      invariant Valid(coordinates, metric, Builder(ids, rows, route))
      invariant |route| == x + 1
    {
      var previous := coordinates[route[|route| - 1]];
      var distances := Distances(metric, rows, previous);
      var closest := ArgMin(distances);
      StepKeepsValid(coordinates, metric, Builder(ids, rows, route), closest);
      assert Advance(Builder(ids, rows, route), closest) == Builder(RemoveAt(ids, closest), RemoveAt(rows, closest), route + [ids[closest]]);
      route := route + [ids[closest]];
      ids := RemoveAt(ids, closest);
      rows := RemoveAt(rows, closest);
    }
    FinishedTour(coordinates, metric, Builder(ids, rows, route));
    route := route + [0];
    TourCharacterisation(coordinates, metric, route);
  }

  /** A single location: the loop never runs and the tour is depot, depot. */
  lemma SingleLocationTour(coords: seq<Coord>, metric: Metric)
    requires |coords| == 1
    ensures NearestNeighbourTour(coords, metric) == [0, 0]
  {
    var t := NearestNeighbourTour(coords, metric);
    assert t == [t[0], t[1]];
  }

  /** Two locations: the tour is depot, the other location, depot. */
  lemma TwoLocationTour(coords: seq<Coord>, metric: Metric)
    requires |coords| == 2
    ensures NearestNeighbourTour(coords, metric) == [0, 1, 0]
  {
    var t := [0, 1, 0];
    assert IsNearestNeighbourTour(coords, metric, t) by {
      assert Range(1, 2) == [1] + Range(2, 2);
      assert t[1..2] == [1];
    }
    NearestNeighbourTourUnique(coords, metric, t, NearestNeighbourTour(coords, metric));
  }

  /** With the two stops equally far from the depot, visiting them in input
      order meets the nearest-neighbour description. */
  lemma TieTour(coords: seq<Coord>, metric: Metric)
    requires |coords| == 3
    requires metric(coords[1], coords[0]) == metric(coords[2], coords[0])
    ensures IsNearestNeighbourTour(coords, metric, [0, 1, 2, 0])
  {
    var t := [0, 1, 2, 0];
    assert Range(1, 3) == [1, 2] by {
      assert Range(1, 3) == [1] + Range(2, 3);
      assert Range(2, 3) == [2] + Range(3, 3);
    }
    assert t[1..3] == [1, 2];
    assert InRange(|coords|, t);
    forall k, j | 0 < k < j < 3
      ensures Beats(coords, metric, t, k, t[j])
    {
      assert k == 1 && j == 2;
    }
  }

  /** Two stops exactly as far from the depot: the earlier one is visited first. */
  lemma TieGoesToEarlierLocation(coords: seq<Coord>, metric: Metric)
    requires |coords| == 3
    requires metric(coords[1], coords[0]) == metric(coords[2], coords[0])
    ensures NearestNeighbourTour(coords, metric) == [0, 1, 2, 0]
  {
    TieTour(coords, metric);
    NearestNeighbourTourUnique(coords, metric, [0, 1, 2, 0], NearestNeighbourTour(coords, metric));
  }
}
