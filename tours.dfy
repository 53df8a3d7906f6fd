/** Routes, tours and their costs over a complete weighted distance matrix
    (the cost evaluator `calcula_costos` and the name-to-index map
    `city_to_index` of the brute-force script). Cities are the indices
    0..n-1 of the matrix and city 0 is the start. */
module Tours {

  /** `dist[i][j]` is the non-negative cost of going from city i to city j. */
  type Matrix = seq<seq<nat>>

  /** A square n-by-n matrix. */
  ghost predicate IsMatrix(dist: Matrix, n: nat)
  {
    |dist| == n && forall i :: 0 <= i < n ==> |dist[i]| == n
  }

  /** Every city of the route is an index of the matrix. */
  ghost predicate InRange(n: nat, r: seq<nat>)
  {
    forall i :: 0 <= i < |r| ==> r[i] < n
  }

  /** No city occurs twice. */
  ghost predicate Distinct<T>(r: seq<T>)
  {
    forall i, j :: 0 <= i < j < |r| ==> r[i] != r[j]
  }

  /** A tour: all n cities, each exactly once, starting at city 0. */
  ghost predicate ValidTour(n: nat, t: seq<nat>)
  {
    && n >= 1
    && |t| == n
    && t[0] == 0
    && InRange(n, t)
    && Distinct(t)
    && forall k :: 0 <= k < n ==> k in t
  }

  // ---------------------------------------------------------------------------
  // Closed-cycle cost (calcula_costos)

  /** The i-th leg of the closed route: from r[i] to r[(i+1) mod |r|]. */
  function Leg(dist: Matrix, r: seq<nat>, i: nat): nat
    requires IsMatrix(dist, |dist|) && InRange(|dist|, r)
    requires i < |r|
  {
    dist[r[i]][r[(i + 1) % |r|]]
  }

  /** The sum of the first k legs of the closed route. */
  function CostUpTo(dist: Matrix, r: seq<nat>, k: nat): nat
    requires IsMatrix(dist, |dist|) && InRange(|dist|, r)
    requires k <= |r|
  {
    if k == 0 then 0 else CostUpTo(dist, r, k - 1) + Leg(dist, r, k - 1)
  }

  /** The cost of the route closed back to its first city. */
  function CycleCost(dist: Matrix, r: seq<nat>): nat
    requires IsMatrix(dist, |dist|) && InRange(|dist|, r)
  {
    CostUpTo(dist, r, |r|)
  }

  /** `calcula_costos`: accumulate the legs of the closed route in order. */
  method CalculaCostos(dist: Matrix, ruta: seq<nat>) returns (totalCosto: nat)
    requires IsMatrix(dist, |dist|) && InRange(|dist|, ruta)
    ensures totalCosto == CycleCost(dist, ruta)
  {
    totalCosto := 0;
    var n := |ruta|;
    for i := 0 to n
      invariant totalCosto == CostUpTo(dist, ruta, i)
    {
      var ciudadActual := ruta[i];
      var ciudadSiguiente := ruta[(i + 1) % n];
      totalCosto := totalCosto + dist[ciudadActual][ciudadSiguiente];
    }
  }

  // ---------------------------------------------------------------------------
  // Open path cost, the form the Held-Karp tables accumulate

  function Last(p: seq<nat>): nat
    requires |p| >= 1
  {
    p[|p| - 1]
  }

  function Front(p: seq<nat>): seq<nat>
    requires |p| >= 1
  {
    p[..|p| - 1]
  }

  /** The cost of walking the path from its first city to its last, not closed. */
  function PathCost(dist: Matrix, p: seq<nat>): nat
    requires IsMatrix(dist, |dist|) && InRange(|dist|, p)
  {
    if |p| < 2 then 0 else PathCost(dist, Front(p)) + dist[p[|p| - 2]][Last(p)]
  }

  /** The sequence in reverse order. */
  function Reverse(s: seq<nat>): (r: seq<nat>)
    ensures |r| == |s|
    ensures forall i :: 0 <= i < |s| ==> r[i] == s[|s| - 1 - i]
  {
    if s == [] then [] else [Last(s)] + Reverse(Front(s))
  }

  /** A sequence without repeats drawn from 0..n-1 that contains every one of
      them has exactly n elements. */
  lemma DistinctCoverLength(n: nat, s: seq<nat>)
    requires InRange(n, s) && Distinct(s)
    requires forall k :: 0 <= k < n ==> k in s
    ensures |s| == n
  {
    var cities := seq(n, i => i);
    assert forall i, j :: 0 <= i < j < n ==> cities[i] != cities[j];
    DistinctCardinality(s);
    DistinctCardinality(cities);
    assert Elements(s) == Elements(cities) by {
      forall x | x in s ensures x in cities {
        var i :| 0 <= i < |s| && s[i] == x;
        assert cities[x] == x;
      }
    }
  }

  /** The cities occurring in s. */
  function Elements(s: seq<nat>): set<nat>
  {
    set x | x in s
  }

  lemma {:induction false} DistinctCardinality(s: seq<nat>)
    requires Distinct(s)
    ensures |Elements(s)| == |s|
  {
    if s != [] {
      var f := Front(s);
      assert Distinct(f) by {
        forall i, j | 0 <= i < j < |f| ensures f[i] != f[j] {
          assert f[i] == s[i] && f[j] == s[j];
        }
      }
      assert Last(s) !in f by {
        forall i | 0 <= i < |f| ensures f[i] != Last(s) {
          assert f[i] == s[i];
        }
      }
      DistinctCardinality(f);
      assert s == f + [Last(s)];
      assert Elements(s) == Elements(f) + {Last(s)};
    }
  }

  /** The path cost unfolded from the front. */
  lemma {:induction false} PathCostCons(dist: Matrix, x: nat, p: seq<nat>)
    requires IsMatrix(dist, |dist|) && x < |dist| && InRange(|dist|, p) && |p| >= 1
    ensures PathCost(dist, [x] + p) == dist[x][p[0]] + PathCost(dist, p)
    decreases |p|
  {
    if |p| >= 2 {
      assert Front([x] + p) == [x] + Front(p);
      PathCostCons(dist, x, Front(p));
    }
  }

  /** The i-th leg ends at the next city of the route with its first city
      appended. */
  lemma LegOfClosed(dist: Matrix, r: seq<nat>, i: nat)
    requires IsMatrix(dist, |dist|) && InRange(|dist|, r) && i < |r|
    ensures Leg(dist, r, i) == dist[r[i]][(r + [r[0]])[i + 1]]
  {
    if i + 1 < |r| {
      assert (i + 1) % |r| == i + 1;
    } else {
      assert (i + 1) % |r| == 0;
    }
  }

  /** The first k legs of the closed route are the open path through its
      first k + 1 cities, the last of which wraps round to the first. */
  lemma {:induction false} CostUpToIsPathPrefix(dist: Matrix, r: seq<nat>, k: nat)
    requires IsMatrix(dist, |dist|) && InRange(|dist|, r) && 1 <= |r| && k <= |r|
    ensures InRange(|dist|, (r + [r[0]])[..k + 1])
    ensures CostUpTo(dist, r, k) == PathCost(dist, (r + [r[0]])[..k + 1])
  {
    var w := r + [r[0]];
    var u := w[..k + 1];
    assert InRange(|dist|, u) by {
      forall i | 0 <= i < |u| ensures u[i] < |dist| {
        if i < |r| { assert u[i] == r[i]; } else { assert u[i] == r[0]; }
      }
    }
    if k > 0 {
      CostUpToIsPathPrefix(dist, r, k - 1);
      LegOfClosed(dist, r, k - 1);
      assert Front(u) == w[..k];
      assert u[k - 1] == r[k - 1] && u[k] == w[k];
    }
  }

  /** The closed-cycle cost of a route is the cost of the open path that
      repeats its first city at the end, as the displayed route does. */
  lemma CycleIsClosedPath(dist: Matrix, r: seq<nat>)
    requires IsMatrix(dist, |dist|) && InRange(|dist|, r) && |r| >= 1
    ensures InRange(|dist|, r + [r[0]])
    ensures CycleCost(dist, r) == PathCost(dist, r + [r[0]])
  {
    CostUpToIsPathPrefix(dist, r, |r|);
    assert (r + [r[0]])[..|r| + 1] == r + [r[0]];
  }

  // ---------------------------------------------------------------------------
  // Rotation invariance, a consequence of the modulo wrap

  /** The route started at its k-th city instead of its first. */
  function Rotate(r: seq<nat>, k: nat): seq<nat>
    requires k <= |r|
  {
    r[k..] + r[..k]
  }

  lemma RotateOneStep(dist: Matrix, r: seq<nat>)
    requires IsMatrix(dist, |dist|) && InRange(|dist|, r) && |r| >= 2
    ensures CycleCost(dist, r[1..] + [r[0]]) == CycleCost(dist, r)
  {
    var s := r[1..];
    var a := r[0];
    CycleIsClosedPath(dist, r);
    CycleIsClosedPath(dist, s + [a]);
    assert r + [r[0]] == [a] + (s + [a]);
    PathCostCons(dist, a, s + [a]);
    assert (s + [a]) + [(s + [a])[0]] == (s + [a]) + [s[0]];
    assert Front((s + [a]) + [s[0]]) == s + [a];
  }

  /** The cost of a closed route does not depend on the city it starts at. */
  lemma {:induction false} CycleCostRotation(dist: Matrix, r: seq<nat>, k: nat)
    requires IsMatrix(dist, |dist|) && InRange(|dist|, r) && k <= |r|
    ensures CycleCost(dist, Rotate(r, k)) == CycleCost(dist, r)
  {
    if k == 0 {
      assert Rotate(r, 0) == r;
    } else if k == |r| {
      assert Rotate(r, k) == r;
    } else {
      CycleCostRotation(dist, r, k - 1);
      var q := Rotate(r, k - 1);
      RotateOneStep(dist, q);
      assert q[1..] + [q[0]] == Rotate(r, k);
    }
  }

  // ---------------------------------------------------------------------------
  // Names to indices (city_to_index)

  /** Each name mapped to its position in the list of names; when a name
      occurs twice, the later position overwrites the earlier one. */
  function CityToIndex(ciudades: seq<string>): (idx: map<string, nat>)
    ensures forall c :: c in idx <==> c in ciudades
    ensures forall c :: c in idx ==> idx[c] < |ciudades| && ciudades[idx[c]] == c
    ensures forall c, k :: c in idx && idx[c] < k < |ciudades| ==> ciudades[k] != c
  {
    if ciudades == [] then map[]
    else
      var front := ciudades[..|ciudades| - 1];
      assert ciudades == front + [ciudades[|ciudades| - 1]];
      CityToIndex(front)[ciudades[|ciudades| - 1] := |ciudades| - 1]
  }

  /** With distinct names the map is a bijection onto 0..n-1: each name maps
      back to its own position. */
  lemma CityToIndexBijective(ciudades: seq<string>)
    requires Distinct(ciudades)
    ensures forall i :: 0 <= i < |ciudades| ==> CityToIndex(ciudades)[ciudades[i]] == i
    ensures forall c :: c in CityToIndex(ciudades) ==> 0 <= CityToIndex(ciudades)[c] < |ciudades|
  {
  }
}
