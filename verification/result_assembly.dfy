/** Turning the index tour of `get_route` into what the caller receives: the
    names of the stops in visiting order, the ordered route of one
    (name, coordinates) pair per stop, and the keyed dictionary the code
    actually returns. */
module ResultAssembly {
  import opened Geo
  import opened Seqs
  import opened TourBuilder

  /** Looking any per-location table up along a round trip gives its depot
      entry at both ends and, in between, every other entry exactly once. */
  lemma RoundTripLookup<T>(t: seq<nat>, table: seq<T>)
    requires IsRoundTrip(|table|, t)
    ensures var r := Resolve(t, table);
      && |r| == |table| + 1
      && r[0] == table[0] && r[|table|] == table[0]
      && multiset(r[1..|table|]) == multiset(table[1..])
  {
    var n := |table|;
    ResolveSlice(t, table, 1, n);
    ResolvePermutationOfRange(t[1..n], 1, n, table);
    assert table[1..n] == table[1..];
  }

  /** `route_locations`: the name of every stop, in visiting order. Position
      k holds the name of the location the tour visits at step k; so the
      depot's name opens and closes it, and in between every other input
      name appears once per input position. */
  function RouteLocations(locations: seq<string>, coordinates: seq<Coord>, metric: Metric): (names: seq<string>)
    requires |locations| == |coordinates| >= 1
    ensures |names| == |locations| + 1
    ensures forall k :: 0 <= k < |names| ==> names[k] == locations[NearestNeighbourTour(coordinates, metric)[k]]
    ensures names[0] == locations[0] && names[|locations|] == locations[0]
    ensures multiset(names[1..|locations|]) == multiset(locations[1..])
  {
    RoundTripLookup(NearestNeighbourTour(coordinates, metric), locations);
    Resolve(NearestNeighbourTour(coordinates, metric), locations)
  }

  /** The ordered route: one (name, coordinates) pair per stop, in visiting
      order, each pair taken from a single input position, so names are never
      separated from their coordinates and repeated names are kept. */
  function RouteEntries(locations: seq<string>, coordinates: seq<Coord>, metric: Metric): (route: seq<(string, Coord)>)
    requires |locations| == |coordinates| >= 1
    ensures |route| == |locations| + 1
    ensures route[0] == (locations[0], coordinates[0]) && route[|locations|] == (locations[0], coordinates[0])
    ensures multiset(route[1..|locations|]) == multiset(Zip(locations, coordinates)[1..])
    ensures route == Zip(RouteLocations(locations, coordinates, metric), Resolve(NearestNeighbourTour(coordinates, metric), coordinates))
  {
    var pairs := Zip(locations, coordinates);
    RoundTripLookup(NearestNeighbourTour(coordinates, metric), pairs);
    Resolve(NearestNeighbourTour(coordinates, metric), pairs)
  }

  /** Two stops exactly as far from the depot: the route visits them in input
      order, each name with its own coordinates, e.g. Depot (0, 0), A (0, 1),
      B (1, 0) under a metric that ties A and B. */
  lemma TiedStopsRoute(locations: seq<string>, coordinates: seq<Coord>, metric: Metric)
    requires |locations| == |coordinates| == 3
    requires metric(coordinates[1], coordinates[0]) == metric(coordinates[2], coordinates[0])
    ensures RouteEntries(locations, coordinates, metric)
      == [(locations[0], coordinates[0]), (locations[1], coordinates[1]),
          (locations[2], coordinates[2]), (locations[0], coordinates[0])]
  {
    TieGoesToEarlierLocation(coordinates, metric);
    var pairs := Zip(locations, coordinates);
    assert Resolve([0, 1, 2, 0], pairs) == [pairs[0], pairs[1], pairs[2], pairs[0]];
  }

  /** A sequence that opens and closes with table[0] and holds the rest of
      table, permuted, in between contains exactly the entries of table. */
  lemma RoundTripMembers<T>(r: seq<T>, table: seq<T>)
    requires |table| >= 1 && |r| == |table| + 1
    requires r[0] == table[0] && r[|table|] == table[0]
    requires multiset(r[1..|table|]) == multiset(table[1..])
    ensures forall x :: x in r <==> x in table
  {
    var n := |table|;
    assert r == [r[0]] + r[1..n] + [r[n]];
    assert table == [table[0]] + table[1..];
    forall x
      ensures x in r[1..n] <==> x in table[1..]
    {
      assert x in r[1..n] <==> x in multiset(r[1..n]);
      assert x in table[1..] <==> x in multiset(table[1..]);
    }
  }

  /** A name occurs along the route exactly when it is an input name. */
  lemma RouteNames(locations: seq<string>, coordinates: seq<Coord>, metric: Metric)
    requires |locations| == |coordinates| >= 1
    ensures forall x :: x in RouteLocations(locations, coordinates, metric) <==> x in locations
  {
    RoundTripMembers(RouteLocations(locations, coordinates, metric), locations);
  }

  // ---------------------------------------------------------------------
  // The dictionary get_route actually returns.

  /** A lookup result: no such key, or the value stored under it. */
  datatype Option<T> = None | Some(value: T)

  /** A Python dict from names to coordinates, as its (key, value) entries in
      insertion order. */
  type Dict = seq<(string, Coord)>

  /** The keys of a dict, or of a list of pairs, in order. */
  function Keys(d: Dict): (ks: seq<string>)
    ensures |ks| == |d|
    ensures forall i :: 0 <= i < |d| ==> ks[i] == d[i].0
  {
    seq(|d|, i requires 0 <= i < |d| => d[i].0)
  }

  /** No key occurs twice, as in every Python dict. */
  predicate DistinctKeys(d: Dict)
  {
    forall i, j :: 0 <= i < j < |d| ==> d[i].0 != d[j].0
  }

  /** `d[k]`, None when k is not a key. */
  function Lookup(d: Dict, k: string): Option<Coord>
  {
    if d == [] then None else if d[0].0 == k then Some(d[0].1) else Lookup(d[1..], k)
  }

  /** Looking k up finds something exactly when k is a key. */
  lemma {:induction false} LookupKeys(d: Dict, k: string)
    ensures Lookup(d, k).Some? <==> k in Keys(d)
    decreases |d|
  {
    if d != [] {
      LookupKeys(d[1..], k);
      assert Keys(d) == [d[0].0] + Keys(d[1..]);
    }
  }

  /** In a dict with distinct keys, the key at position i looks up to the
      value at position i. */
  lemma {:induction false} LookupAt(d: Dict, i: nat)
    requires DistinctKeys(d) && i < |d|
    ensures Lookup(d, d[i].0) == Some(d[i].1)
    decreases i
  {
    if i > 0 {
      assert d[0].0 != d[i].0;
      assert d[1..][i - 1] == d[i];
      LookupAt(d[1..], i - 1);
    }
  }

  /** `d[k] = v`: k then looks up to v and every other key as before. An
      existing key keeps its place; a new key is appended at the end. */
  function Insert(d: Dict, k: string, v: Coord): (r: Dict)
    ensures forall x :: Lookup(r, x) == if x == k then Some(v) else Lookup(d, x)
    ensures Lookup(d, k).None? ==> r == d + [(k, v)]
    ensures Lookup(d, k).Some? ==> |r| == |d| && forall i :: 0 <= i < |d| ==> r[i].0 == d[i].0
  {
    if d == [] then [(k, v)]
    else if d[0].0 == k then [(k, v)] + d[1..]
    else
      var r := [d[0]] + Insert(d[1..], k, v);
      assert r[1..] == Insert(d[1..], k, v);
      r
  }

  /** Inserting keeps the keys of a dict distinct. */
  lemma InsertKeepsDistinct(d: Dict, k: string, v: Coord)
    requires DistinctKeys(d)
    ensures DistinctKeys(Insert(d, k, v))
  {
    LookupKeys(d, k);
  }

  /** Assigning the pairs of ps in order: `for k, v in ps: d[k] = v`. */
  function Assign(d: Dict, ps: seq<(string, Coord)>): Dict
    decreases |ps|
  {
    if ps == [] then d else Assign(Insert(d, ps[0].0, ps[0].1), ps[1..])
  }

  /** Assigning a + b is assigning a, then b. */
  lemma {:induction false} AssignAppend(d: Dict, a: seq<(string, Coord)>, b: seq<(string, Coord)>)
    ensures Assign(d, a + b) == Assign(Assign(d, a), b)
    decreases |a|
  {
    if a != [] {
      assert (a + b)[0] == a[0] && (a + b)[1..] == a[1..] + b;
      AssignAppend(Insert(d, a[0].0, a[0].1), a[1..], b);
    } else {
      assert a + b == b;
    }
  }

  /** Assigning ps appends the keys of ps not already present, each at its
      first occurrence in ps; the keys already present keep their places. */
  lemma {:induction false} AssignKeyOrder(d: Dict, ps: seq<(string, Coord)>)
    ensures Keys(Assign(d, ps)) == AddNew(Keys(d), Keys(ps))
    decreases |ps|
  {
    if ps != [] {
      var k := ps[0].0;
      var d' := Insert(d, k, ps[0].1);
      LookupKeys(d, k);
      assert Keys(d') == if k in Keys(d) then Keys(d) else Keys(d) + [k];
      assert Keys(ps)[0] == k && Keys(ps)[1..] == Keys(ps[1..]);
      AssignKeyOrder(d', ps[1..]);
    }
  }

  /** Assigning keeps the keys of a dict distinct. */
  lemma {:induction false} AssignKeepsDistinct(d: Dict, ps: seq<(string, Coord)>)
    requires DistinctKeys(d)
    ensures DistinctKeys(Assign(d, ps))
    decreases |ps|
  {
    if ps != [] {
      InsertKeepsDistinct(d, ps[0].0, ps[0].1);
      AssignKeepsDistinct(Insert(d, ps[0].0, ps[0].1), ps[1..]);
    }
  }

  /** After assigning ps, the keys are those of d together with those of ps. */
  lemma {:induction false} AssignKeys(d: Dict, ps: seq<(string, Coord)>, x: string)
    ensures Lookup(Assign(d, ps), x).Some? <==> Lookup(d, x).Some? || x in Keys(ps)
    decreases |ps|
  {
    if ps != [] {
      assert Keys(ps) == [ps[0].0] + Keys(ps[1..]);
      AssignKeys(Insert(d, ps[0].0, ps[0].1), ps[1..], x);
    }
  }

  /** Assigning pairs none of which has key k leaves k's lookup as it was. */
  lemma {:induction false} AssignOtherKey(d: Dict, ps: seq<(string, Coord)>, k: string)
    requires k !in Keys(ps)
    ensures Lookup(Assign(d, ps), k) == Lookup(d, k)
    decreases |ps|
  {
    if ps != [] {
      assert Keys(ps) == [ps[0].0] + Keys(ps[1..]);
      AssignOtherKey(Insert(d, ps[0].0, ps[0].1), ps[1..], k);
    }
  }

  /** After assigning ps, a key holds the value of its last pair in ps. */
  lemma {:induction false} AssignLast(d: Dict, ps: seq<(string, Coord)>, i: nat)
    requires i < |ps| && ps[i].0 !in Keys(ps[i + 1..])
    ensures Lookup(Assign(d, ps), ps[i].0) == Some(ps[i].1)
    decreases i
  {
    var d' := Insert(d, ps[0].0, ps[0].1);
    if i == 0 {
      assert ps[1..] == ps[i + 1..];
      AssignOtherKey(d', ps[1..], ps[0].0);
    } else {
      assert ps[1..][i - 1] == ps[i] && ps[1..][i..] == ps[i + 1..];
      AssignLast(d', ps[1..], i - 1);
    }
  }

  /** The pairs (k, v) for every v of vs, in order. */
  function WithKey(k: string, vs: seq<Coord>): (ps: seq<(string, Coord)>)
  {
    seq(|vs|, i requires 0 <= i < |vs| => (k, vs[i]))
  }

  /** Assigning one key every value of vs in turn leaves it holding the last. */
  lemma {:induction false} AssignWithKey(d: Dict, k: string, vs: seq<Coord>)
    requires |vs| > 0
    ensures forall x :: Lookup(Assign(d, WithKey(k, vs)), x) == if x == k then Some(vs[|vs| - 1]) else Lookup(d, x)
    decreases |vs|
  {
    var ps := WithKey(k, vs);
    var d' := Insert(d, k, vs[0]);
    assert ps[0] == (k, vs[0]);
    if |vs| == 1 {
      assert ps[1..] == [];
    } else {
      assert ps[1..] == WithKey(k, vs[1..]);
      AssignWithKey(d', k, vs[1..]);
    }
  }

  /** Assigning a key the dict already holds, any number of times, leaves
      the keys and their order unchanged. */
  lemma {:induction false} AssignPresentKey(d: Dict, k: string, vs: seq<Coord>)
    requires k in Keys(d)
    ensures Keys(Assign(d, WithKey(k, vs))) == Keys(d)
    decreases |vs|
  {
    var ps := WithKey(k, vs);
    if vs != [] {
      LookupKeys(d, k);
      var d' := Insert(d, k, vs[0]);
      assert ps[0] == (k, vs[0]) && ps[1..] == WithKey(k, vs[1..]);
      AssignPresentKey(d', k, vs[1..]);
    } else {
      assert ps == [];
    }
  }

  /** Assigning one key some values adds it at the end unless it is already
      a key. */
  lemma AssignWithKeyKeys(d: Dict, k: string, vs: seq<Coord>)
    requires |vs| > 0
    ensures Keys(Assign(d, WithKey(k, vs))) == if k in Keys(d) then Keys(d) else Keys(d) + [k]
  {
    var ps := WithKey(k, vs);
    var d' := Insert(d, k, vs[0]);
    LookupKeys(d, k);
    assert Keys(d') == if k in Keys(d) then Keys(d) else Keys(d) + [k];
    LookupKeys(d', k);
    assert ps[0] == (k, vs[0]) && ps[1..] == WithKey(k, vs[1..]);
    AssignPresentKey(d', k, vs[1..]);
  }

  /** The pairs of `{k: v for k in ks for v in vs}`, in evaluation order. */
  function Product(ks: seq<string>, vs: seq<Coord>): seq<(string, Coord)>
    decreases |ks|
  {
    if ks == [] then [] else WithKey(ks[0], vs) + Product(ks[1..], vs)
  }

  /** In `{k: v for k in ks for v in vs}` every key ends up holding the last
      value of vs. */
  lemma {:induction false} AssignProduct(d: Dict, ks: seq<string>, vs: seq<Coord>)
    requires |vs| > 0
    ensures forall x :: Lookup(Assign(d, Product(ks, vs)), x) == if x in ks then Some(vs[|vs| - 1]) else Lookup(d, x)
    decreases |ks|
  {
    if ks != [] {
      var d' := Assign(d, WithKey(ks[0], vs));
      AssignAppend(d, WithKey(ks[0], vs), Product(ks[1..], vs));
      AssignWithKey(d, ks[0], vs);
      AssignProduct(d', ks[1..], vs);
      assert forall x :: x in ks <==> x == ks[0] || x in ks[1..];
    }
  }

  /** seen followed by the names of s not seen before, each at its first
      occurrence. */
  function AddNew(seen: seq<string>, s: seq<string>): seq<string>
    decreases |s|
  {
    if s == [] then seen else AddNew(if s[0] in seen then seen else seen + [s[0]], s[1..])
  }

  /** The distinct names of s in order of first occurrence. */
  function Distinct(s: seq<string>): seq<string>
  {
    AddNew([], s)
  }

  predicate NoRepeats(s: seq<string>)
  {
    forall i, j :: 0 <= i < j < |s| ==> s[i] != s[j]
  }

  /** AddNew holds exactly the names seen or in s, each once. */
  lemma {:induction false} AddNewContents(seen: seq<string>, s: seq<string>)
    requires NoRepeats(seen)
    ensures forall x :: x in AddNew(seen, s) <==> x in seen || x in s
    ensures NoRepeats(AddNew(seen, s))
    decreases |s|
  {
    if s != [] {
      var seen' := if s[0] in seen then seen else seen + [s[0]];
      assert NoRepeats(seen') by {
        forall i, j | 0 <= i < j < |seen'|
          ensures seen'[i] != seen'[j]
        {
          if j < |seen| {
            assert seen'[i] == seen[i] && seen'[j] == seen[j];
          } else {
            assert seen'[i] == seen[i] && seen'[j] == s[0];
          }
        }
      }
      AddNewContents(seen', s[1..]);
      assert forall x :: x in s <==> x == s[0] || x in s[1..];
    }
  }

  /** In `{k: v for k in ks for v in vs}` the keys are the names of ks
      without repeats, in order of first occurrence. */
  lemma {:induction false} AssignProductKeys(d: Dict, ks: seq<string>, vs: seq<Coord>)
    requires |vs| > 0
    ensures Keys(Assign(d, Product(ks, vs))) == AddNew(Keys(d), ks)
    decreases |ks|
  {
    if ks != [] {
      var d' := Assign(d, WithKey(ks[0], vs));
      AssignAppend(d, WithKey(ks[0], vs), Product(ks[1..], vs));
      AssignWithKeyKeys(d, ks[0], vs);
      AssignProductKeys(d', ks[1..], vs);
    }
  }

  /** `[d[x] for x in d]`: what each key looks up to, in key order. */
  function Values(d: Dict): (vs: seq<Coord>)
    requires DistinctKeys(d)
    ensures |vs| == |d|
    ensures forall i :: 0 <= i < |d| ==> Lookup(d, Keys(d)[i]) == Some(vs[i])
  {
    assert forall i :: 0 <= i < |d| ==> Lookup(d, d[i].0) == Some(d[i].1) by {
      forall i | 0 <= i < |d|
        ensures Lookup(d, d[i].0) == Some(d[i].1)
      {
        LookupAt(d, i);
      }
    }
    seq(|d|, i requires 0 <= i < |d| => d[i].1)
  }

  /** `dict(zip(locations, coordinates))`: its keys are the input names, and
      a name repeated in the input keeps the coordinates of its last
      occurrence. */
  function DictLocations(locations: seq<string>, coordinates: seq<Coord>): (d: Dict)
    requires |locations| == |coordinates|
    ensures Keys(d) == Distinct(locations)
    ensures DistinctKeys(d)
    ensures forall x :: Lookup(d, x).Some? <==> x in locations
    ensures forall i :: 0 <= i < |locations| && locations[i] !in locations[i + 1..] ==>
      Lookup(d, locations[i]) == Some(coordinates[i])
    ensures |locations| > 0 ==> |d| > 0
  {
    var ps := Zip(locations, coordinates);
    assert Keys(ps) == locations;
    AssignKeyOrder([], ps);
    assert Keys([]) == [];
    AssignKeepsDistinct([], ps);
    assert forall x :: Lookup(Assign([], ps), x).Some? <==> x in locations by {
      forall x
        ensures Lookup(Assign([], ps), x).Some? <==> x in locations
      {
        AssignKeys([], ps, x);
      }
    }
    assert forall i :: 0 <= i < |locations| && locations[i] !in locations[i + 1..] ==>
      Lookup(Assign([], ps), locations[i]) == Some(coordinates[i]) by {
      forall i | 0 <= i < |locations| && locations[i] !in locations[i + 1..]
        ensures Lookup(Assign([], ps), locations[i]) == Some(coordinates[i])
      {
        assert Keys(ps[i + 1..]) == locations[i + 1..];
        AssignLast([], ps, i);
      }
    }
    Assign([], ps)
  }

  /** The dictionary get_route returns, as written. Its keys are the names
      along the tour, each once, in order of first visit, so the closing
      depot collapses into the opening one. The inner loop of the
      comprehension assigns each of them every coordinate of
      `dict_locations` in turn, so each ends up holding the last. */
  function AsWrittenRouteDict(locations: seq<string>, coordinates: seq<Coord>, metric: Metric): (d: Dict)
    requires |locations| == |coordinates| >= 1
    ensures Keys(d) == Distinct(RouteLocations(locations, coordinates, metric))
    ensures forall x :: Lookup(d, x).Some? <==> x in locations
    ensures forall name :: name in locations ==>
      Lookup(d, name) == Some(Values(DictLocations(locations, coordinates))[|Values(DictLocations(locations, coordinates))| - 1])
  {
    var names := RouteLocations(locations, coordinates, metric);
    var values := Values(DictLocations(locations, coordinates));
    AssignProduct([], names, values);
    AssignProductKeys([], names, values);
    RouteNames(locations, coordinates, metric);
    Assign([], Product(names, values))
  }

  /** Two locations: the names along the route are the first, the second
      and the first again. */
  lemma TwoLocationNames(locations: seq<string>, coordinates: seq<Coord>, metric: Metric)
    requires |locations| == |coordinates| == 2
    ensures RouteLocations(locations, coordinates, metric) == [locations[0], locations[1], locations[0]]
  {
    TwoLocationTour(coordinates, metric);
    assert Resolve([0, 1, 0], locations) == [locations[0], locations[1], locations[0]];
  }

  /** Two distinct names: `dict(zip(..))` holds both, in input order. */
  lemma TwoLocationDict(locations: seq<string>, coordinates: seq<Coord>)
    requires |locations| == |coordinates| == 2 && locations[0] != locations[1]
    ensures DictLocations(locations, coordinates) == [(locations[0], coordinates[0]), (locations[1], coordinates[1])]
  {
    var ps := Zip(locations, coordinates);
    var d0 := Insert([], locations[0], coordinates[0]);
    assert d0 == [(locations[0], coordinates[0])];
    assert ps == [ps[0]] + [ps[1]];
    AssignAppend([], [ps[0]], [ps[1]]);
  }

  /** The returned dict pairs the depot with the coordinates of another
      location and drops the closing stop: with a depot at (0, 0) and one
      stop "A" at (0, 1), the depot's name is looked up to (0, 1), and the
      dict has two entries for a route of three stops. */
  lemma AsWrittenMispairsDepot(metric: Metric)
    ensures var locations := ["Depot", "A"];
            var coordinates := [Coord(0.0, 0.0), Coord(0.0, 1.0)];
            && Lookup(AsWrittenRouteDict(locations, coordinates, metric), "Depot") == Some(Coord(0.0, 1.0))
            && RouteEntries(locations, coordinates, metric)[0] == ("Depot", Coord(0.0, 0.0))
            && |AsWrittenRouteDict(locations, coordinates, metric)| == 2
            && |RouteEntries(locations, coordinates, metric)| == 3
  {
    var locations := ["Depot", "A"];
    var coordinates := [Coord(0.0, 0.0), Coord(0.0, 1.0)];
    var d := DictLocations(locations, coordinates);
    assert "Depot" != "A";
    TwoLocationDict(locations, coordinates);
    assert Values(d)[|Values(d)| - 1] == Coord(0.0, 1.0) by {
      assert Keys(d)[1] == "A";
    }
    var names := RouteLocations(locations, coordinates, metric);
    TwoLocationNames(locations, coordinates, metric);
    assert Distinct(names) == ["Depot", "A"] by {
      assert names[1..] == ["A", "Depot"] && names[1..][1..] == ["Depot"] && names[1..][1..][1..] == [];
      assert "A" !in ["Depot"] && "Depot" in ["Depot", "A"];
      assert [] + ["Depot"] == ["Depot"] && ["Depot"] + ["A"] == ["Depot", "A"];
      calc {
        Distinct(names);
        AddNew(["Depot"], names[1..]);
        AddNew(["Depot", "A"], names[1..][1..]);
        AddNew(["Depot", "A"], names[1..][1..][1..]);
      }
    }
    assert |Keys(AsWrittenRouteDict(locations, coordinates, metric))| == 2;
  }
}
