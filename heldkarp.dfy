/** The Held-Karp solver of the two Held-Karp scripts: a table `dp[mask][last]`
    of the cheapest way to start at city 0, visit exactly the cities of `mask`
    and stop at `last`, filled for masks in increasing numeric order; a table
    `padre` of the predecessor each improvement came from; a scan for the best
    city to close the cycle from; and a walk back over `padre` that rebuilds
    the tour. The tables are flat arrays of size 2^n by n. */
module HeldKarp {
  import opened Values
  import opened Bits
  import opened Tours

  // ---------------------------------------------------------------------------
  // Paths from the start city and their visited sets

  /** A path from city 0 through distinct cities of 0..n-1. */
  ghost predicate ValidPath(n: nat, p: seq<nat>)
  {
    |p| >= 1 && p[0] == 0 && InRange(n, p) && Distinct(p)
  }

  /** The visited-set bitmask of a path. */
  function MaskOf(p: seq<nat>): nat
  {
    if p == [] then 0 else SetBit(MaskOf(Front(p)), Last(p))
  }

  /** The mask of a path of distinct cities has exactly the bits of its cities. */
  lemma {:induction false} MaskOfBits(n: nat, p: seq<nat>)
    requires InRange(n, p) && Distinct(p)
    ensures MaskOf(p) < Pow2(n)
    ensures forall k: nat :: Bit(MaskOf(p), k) <==> k in p
  {
    if p == [] {
      forall k: nat ensures !Bit(0, k) {
        NoBitOfZero(k);
      }
    } else {
      var f := Front(p);
      assert p == f + [Last(p)];
      assert InRange(n, f) && Distinct(f);
      MaskOfBits(n, f);
      assert Last(p) !in f;
      SetBitBound(MaskOf(f), n, Last(p));
    }
  }

  /** Splitting a path of two or more cities into its front and its last city. */
  lemma FrontOfPath(n: nat, p: seq<nat>)
    requires ValidPath(n, p) && |p| >= 2
    ensures ValidPath(n, Front(p)) && p == Front(p) + [Last(p)]
    ensures Last(Front(p)) == p[|p| - 2] && Last(p) !in Front(p)
    ensures MaskOf(Front(p)) < MaskOf(p) && MaskOf(p) == MaskOf(Front(p)) + Pow2(Last(p))
    ensures !Bit(MaskOf(Front(p)), Last(p))
  {
    var f := Front(p);
    assert p == f + [Last(p)];
    MaskOfBits(n, f);
  }

  /** Extending a path by a city it has not visited. */
  lemma ExtendPath(n: nat, q: seq<nat>, x: nat)
    requires ValidPath(n, q) && x < n && x !in q
    ensures ValidPath(n, q + [x]) && Front(q + [x]) == q && Last(q + [x]) == x
    ensures MaskOf(q + [x]) == SetBit(MaskOf(q), x)
  {
    assert Front(q + [x]) == q;
  }

  lemma StartPath()
    ensures MaskOf([0]) == 1
  {
    assert Front([0]) == [];
    NoBitOfZero(0);
  }

  /** A tour visits every city, so its mask is `(1 << n) - 1`. */
  lemma TourMask(n: nat, t: seq<nat>)
    requires ValidTour(n, t)
    ensures ValidPath(n, t) && MaskOf(t) == Full(n)
  {
    MaskOfBits(n, t);
    forall k | 0 <= k < n ensures Bit(MaskOf(t), k) <==> Bit(Full(n), k) {
      FullBits(n, k);
    }
    BitsDetermineMask(MaskOf(t), Full(n), n);
  }

  // ---------------------------------------------------------------------------
  // Snapshots of the tables

  /** A rows-by-cols table held as a sequence of rows. */
  ghost predicate Sized<T>(g: seq<seq<T>>, rows: nat, cols: nat)
  {
    |g| == rows && forall m :: 0 <= m < rows ==> |g[m]| == cols
  }

  /** The contents of a two-dimensional array as a value. */
  ghost function Grid<T>(a: array2<T>): (g: seq<seq<T>>)
    reads a
    ensures Sized(g, a.Length0, a.Length1)
    ensures forall m, j :: 0 <= m < a.Length0 && 0 <= j < a.Length1 ==> g[m][j] == a[m, j]
  {
    seq(a.Length0, m requires 0 <= m < a.Length0 reads a =>
      seq(a.Length1, j requires 0 <= j < a.Length1 reads a => a[m, j]))
  }

  /** A value table that agrees cell by cell with an array is its snapshot. */
  lemma GridIs<T>(a: array2<T>, g: seq<seq<T>>)
    requires Sized(g, a.Length0, a.Length1)
    requires forall m, j :: 0 <= m < a.Length0 && 0 <= j < a.Length1 ==> g[m][j] == a[m, j]
    ensures Grid(a) == g
  {
    forall m | 0 <= m < a.Length0 ensures Grid(a)[m] == g[m] {
      assert forall j :: 0 <= j < a.Length1 ==> Grid(a)[m][j] == g[m][j];
    }
  }

  /** The table with cell (m, j) replaced by v. */
  function Put<T>(g: seq<seq<T>>, m: nat, j: nat, v: T): (r: seq<seq<T>>)
    requires m < |g| && j < |g[m]|
    ensures |r| == |g| && forall k :: 0 <= k < |g| ==> |r[k]| == |g[k]|
    ensures r[m][j] == v
    ensures forall k, i :: 0 <= k < |g| && 0 <= i < |g[k]| && (k != m || i != j) ==> r[k][i] == g[k][i]
  {
    g[m := g[m][j := v]]
  }

  // ---------------------------------------------------------------------------
  // The tables and what they hold

  type Table = seq<seq<Ext>>
  type Parents = seq<seq<Option<nat>>>

  /** Both tables have one row per mask below 2^n and one column per city. */
  ghost predicate Shape(D: Table, P: Parents, n: nat)
  {
    n >= 1 && Sized(D, Pow2(n), n) && Sized(P, Pow2(n), n)
  }

  /** `padre[m][j] == p` records the transition that set `dp[m][j]`: it came
      from state (m without j, p), processed at a mask at most M, and
      `dp[m][j]` is that state's value plus the edge p -> j. */
  ghost predicate Linked(D: Table, dist: Matrix, n: nat, M: nat, m: nat, j: nat, p: nat)
    requires IsMatrix(dist, n) && Sized(D, Pow2(n), n)
    requires m < Pow2(n) && j < n
  {
    var prev := ClearBit(m, j);
    && p < n && Bit(m, j) && prev <= M && Bit(prev, p)
    && D[prev][p].Fin?
    && D[m][j] == Fin(D[prev][p].value + dist[p][j])
  }

  /** The invariant of the tables while the outer loop is at mask M: the start
      state, and a predecessor link behind every other reached state. */
  ghost predicate Tables(D: Table, P: Parents, dist: Matrix, n: nat, M: nat)
    requires IsMatrix(dist, n) && Shape(D, P, n)
  {
    && D[1][0] == Fin(0) && P[1][0] == None
    && (forall m, j {:trigger P[m][j]} :: 0 <= m < Pow2(n) && 0 <= j < n && D[m][j].Fin? && !(m == 1 && j == 0)
          ==> P[m][j].Some?)
    && (forall m, j {:trigger P[m][j]} :: 0 <= m < Pow2(n) && 0 <= j < n && P[m][j].Some?
          ==> Linked(D, dist, n, M, m, j, P[m][j].value))
  }

  /** The entry for (m, j) is finite and at most c. */
  ghost predicate Bounded(D: Table, m: nat, j: nat, c: nat)
  {
    m < |D| && j < |D[m]| && Le(D[m][j], Fin(c))
  }

  /** The order in which the triple loop visits transitions: prefix mask first,
      then the city the transition leaves, then the city it enters. */
  predicate Before(pm: nat, pu: nat, ls: nat, M: nat, u: nat, s: nat)
  {
    pm < M || (pm == M && (pu < u || (pu == u && ls < s)))
  }

  /** Every path whose last step is a transition the loop has already relaxed,
      when it is at (mask M, ultimo u, siguiente s), is no cheaper than the
      table entry for its own visited set and last city. */
  ghost predicate LowerBound(D: Table, dist: Matrix, n: nat, M: nat, u: nat, s: nat)
    requires IsMatrix(dist, n)
  {
    forall p :: ValidPath(n, p) && |p| >= 2 && Before(MaskOf(Front(p)), p[|p| - 2], Last(p), M, u, s)
      ==> Bounded(D, MaskOf(p), Last(p), PathCost(dist, p))
  }

  /** DP optimality, lower half: no path from city 0 is cheaper than the entry
      for its visited set and last city. */
  ghost predicate Optimal(D: Table, dist: Matrix, n: nat)
    requires IsMatrix(dist, n)
  {
    forall p :: ValidPath(n, p) ==> Bounded(D, MaskOf(p), Last(p), PathCost(dist, p))
  }

  // ---------------------------------------------------------------------------
  // How the loop position advances

  /** Every path ending in state (M, u) is bounded once the loop is at mask M. */
  lemma CurrentMaskBound(D: Table, P: Parents, dist: Matrix, n: nat, M: nat, u: nat, s: nat, q: seq<nat>)
    requires IsMatrix(dist, n) && Shape(D, P, n)
    requires Tables(D, P, dist, n, M) && LowerBound(D, dist, n, M, u, s)
    requires ValidPath(n, q) && MaskOf(q) == M
    ensures Bounded(D, M, Last(q), PathCost(dist, q))
  {
    if |q| == 1 {
      assert q == [0];
      StartPath();
    } else {
      FrontOfPath(n, q);
    }
  }

  /** Every path that ends in state (mask, ultimo) costs at least its entry,
      once the loop is at that state. */
  lemma StateIsLowerBound(D: Table, P: Parents, dist: Matrix, n: nat, mask: nat, ultimo: nat, siguiente: nat)
    requires IsMatrix(dist, n) && Shape(D, P, n) && mask < Pow2(n) && ultimo < n
    requires Tables(D, P, dist, n, mask) && LowerBound(D, dist, n, mask, ultimo, siguiente)
    requires D[mask][ultimo].Fin?
    ensures forall q :: ValidPath(n, q) && MaskOf(q) == mask && Last(q) == ultimo
              ==> D[mask][ultimo].value <= PathCost(dist, q)
  {
    forall q | ValidPath(n, q) && MaskOf(q) == mask && Last(q) == ultimo
      ensures D[mask][ultimo].value <= PathCost(dist, q)
    {
      CurrentMaskBound(D, P, dist, n, mask, ultimo, siguiente, q);
    }
  }

  /** Skipping state (M, u), whose bit is clear or whose entry is infinite,
      loses nothing: no path leaves it. */
  lemma SkipState(D: Table, P: Parents, dist: Matrix, n: nat, M: nat, u: nat)
    requires IsMatrix(dist, n) && Shape(D, P, n) && M < Pow2(n) && u < n
    requires Tables(D, P, dist, n, M) && LowerBound(D, dist, n, M, u, 0)
    requires !Bit(M, u) || D[M][u].Inf?
    ensures LowerBound(D, dist, n, M, u + 1, 0)
  {
    forall p | ValidPath(n, p) && |p| >= 2 && Before(MaskOf(Front(p)), p[|p| - 2], Last(p), M, u + 1, 0)
      ensures Bounded(D, MaskOf(p), Last(p), PathCost(dist, p))
    {
      FrontOfPath(n, p);
      var q := Front(p);
      assert Before(MaskOf(q), p[|p| - 2], Last(p), M, u, 0) by {
        if MaskOf(q) == M && p[|p| - 2] == u {
          MaskOfBits(n, q);
          assert Last(q) in q;
          CurrentMaskBound(D, P, dist, n, M, u, 0, q);
          assert false;
        }
      }
    }
  }

  /** Skipping `siguiente` already in the mask loses nothing: no path of
      distinct cities takes that step. */
  lemma SkipVisited(D: Table, dist: Matrix, n: nat, M: nat, u: nat, s: nat)
    requires IsMatrix(dist, n) && LowerBound(D, dist, n, M, u, s) && Bit(M, s)
    ensures LowerBound(D, dist, n, M, u, s + 1)
  {
    forall p | ValidPath(n, p) && |p| >= 2 && Before(MaskOf(Front(p)), p[|p| - 2], Last(p), M, u, s + 1)
      ensures Bounded(D, MaskOf(p), Last(p), PathCost(dist, p))
    {
      FrontOfPath(n, p);
      assert Before(MaskOf(Front(p)), p[|p| - 2], Last(p), M, u, s) by {
        if MaskOf(Front(p)) == M && p[|p| - 2] == u && Last(p) == s {
          assert false;
        }
      }
    }
  }

  /** The cost table after relaxing the edge from `ultimo` to `siguiente` out
      of state (mask, ultimo), for `siguiente` outside `mask`: the entry of the
      extended state takes the extended cost exactly when that is strictly
      smaller, and the table is unchanged otherwise. */
  function RelaxedDp(D: Table, dist: Matrix, n: nat, mask: nat, ultimo: nat, siguiente: nat): (D1: Table)
    requires IsMatrix(dist, n) && Sized(D, Pow2(n), n)
    requires mask < Pow2(n) && ultimo < n && siguiente < n && !Bit(mask, siguiente)
    ensures SetBit(mask, siguiente) < Pow2(n) && Sized(D1, Pow2(n), n)
    ensures Le(D1[SetBit(mask, siguiente)][siguiente], Add(D[mask][ultimo], dist[ultimo][siguiente]))
    ensures Le(D1[SetBit(mask, siguiente)][siguiente], D[SetBit(mask, siguiente)][siguiente])
    ensures Less(Add(D[mask][ultimo], dist[ultimo][siguiente]), D[SetBit(mask, siguiente)][siguiente]) ==>
              D1[SetBit(mask, siguiente)][siguiente] == Add(D[mask][ultimo], dist[ultimo][siguiente])
    ensures !Less(Add(D[mask][ultimo], dist[ultimo][siguiente]), D[SetBit(mask, siguiente)][siguiente]) ==> D1 == D
    ensures forall m, j :: 0 <= m < Pow2(n) && 0 <= j < n && !(m == SetBit(mask, siguiente) && j == siguiente)
              ==> D1[m][j] == D[m][j]
  {
    SetBitBound(mask, n, siguiente);
    var nuevaMask := SetBit(mask, siguiente);
    var costo := Add(D[mask][ultimo], dist[ultimo][siguiente]);
    if Less(costo, D[nuevaMask][siguiente]) then Put(D, nuevaMask, siguiente, costo) else D
  }

  /** `padre` after the same relaxation: `ultimo` is recorded exactly when the
      entry improved. */
  function RelaxedPadre(D: Table, P: Parents, dist: Matrix, n: nat, mask: nat, ultimo: nat, siguiente: nat): (P1: Parents)
    requires IsMatrix(dist, n) && Shape(D, P, n)
    requires mask < Pow2(n) && ultimo < n && siguiente < n && !Bit(mask, siguiente)
    ensures SetBit(mask, siguiente) < Pow2(n) && Sized(P1, Pow2(n), n)
    ensures P1[SetBit(mask, siguiente)][siguiente] ==
              if RelaxedDp(D, dist, n, mask, ultimo, siguiente) == D then P[SetBit(mask, siguiente)][siguiente]
              else Some(ultimo)
    ensures forall m, j :: 0 <= m < Pow2(n) && 0 <= j < n && !(m == SetBit(mask, siguiente) && j == siguiente)
              ==> P1[m][j] == P[m][j]
  {
    SetBitBound(mask, n, siguiente);
    var nuevaMask := SetBit(mask, siguiente);
    var costo := Add(D[mask][ultimo], dist[ultimo][siguiente]);
    if Less(costo, D[nuevaMask][siguiente]) then
      assert RelaxedDp(D, dist, n, mask, ultimo, siguiente)[nuevaMask][siguiente] != D[nuevaMask][siguiente];
      Put(P, nuevaMask, siguiente, Some(ultimo))
    else P
  }

  /** Overwriting a cell of a later mask leaves a link of mask M intact. */
  lemma PutKeepsLink(D: Table, dist: Matrix, n: nat, M: nat, m: nat, j: nat, p: nat, nm: nat, s: nat, v: Ext)
    requires IsMatrix(dist, n) && Sized(D, Pow2(n), n)
    requires m < Pow2(n) && j < n && nm < Pow2(n) && s < n
    requires Linked(D, dist, n, M, m, j, p) && M < nm && !(m == nm && j == s)
    ensures Linked(Put(D, nm, s, v), dist, n, M, m, j, p)
  {
    var D1 := Put(D, nm, s, v);
    var prev := ClearBit(m, j);
    assert D1[prev][p] == D[prev][p];
    assert D1[m][j] == D[m][j];
  }

  /** A relaxation keeps the start state and a predecessor link behind every
      reached state. */
  lemma RelaxKeepsTables(D: Table, P: Parents, dist: Matrix, n: nat, mask: nat, ultimo: nat, siguiente: nat)
    requires IsMatrix(dist, n) && Shape(D, P, n)
    requires mask < Pow2(n) && ultimo < n && siguiente < n
    requires Bit(mask, ultimo) && !Bit(mask, siguiente) && D[mask][ultimo].Fin?
    requires Tables(D, P, dist, n, mask)
    ensures Shape(RelaxedDp(D, dist, n, mask, ultimo, siguiente), RelaxedPadre(D, P, dist, n, mask, ultimo, siguiente), n)
    ensures Tables(RelaxedDp(D, dist, n, mask, ultimo, siguiente), RelaxedPadre(D, P, dist, n, mask, ultimo, siguiente),
                   dist, n, mask)
  {
    SetBitBound(mask, n, siguiente);
    var nuevaMask := SetBit(mask, siguiente);
    var v := Add(D[mask][ultimo], dist[ultimo][siguiente]);
    if Less(v, D[nuevaMask][siguiente]) {
      assert RelaxedDp(D, dist, n, mask, ultimo, siguiente) == Put(D, nuevaMask, siguiente, v);
      assert RelaxedPadre(D, P, dist, n, mask, ultimo, siguiente) == Put(P, nuevaMask, siguiente, Some(ultimo));
      ImprovementKeepsTables(D, P, dist, n, mask, ultimo, siguiente);
    } else {
      assert RelaxedDp(D, dist, n, mask, ultimo, siguiente) == D;
      assert RelaxedPadre(D, P, dist, n, mask, ultimo, siguiente) == P;
    }
  }

  /** Overwriting the entry of (mask | 1 << siguiente, siguiente) with the
      value through `ultimo`, and its predecessor with `ultimo`, keeps every
      link. */
  lemma ImprovementKeepsTables(D: Table, P: Parents, dist: Matrix, n: nat, mask: nat, ultimo: nat, siguiente: nat)
    requires IsMatrix(dist, n) && Shape(D, P, n)
    requires mask < Pow2(n) && ultimo < n && siguiente < n
    requires Bit(mask, ultimo) && !Bit(mask, siguiente) && D[mask][ultimo].Fin?
    requires Tables(D, P, dist, n, mask)
    ensures SetBit(mask, siguiente) < Pow2(n)
    ensures var nuevaMask := SetBit(mask, siguiente);
            var D1 := Put(D, nuevaMask, siguiente, Add(D[mask][ultimo], dist[ultimo][siguiente]));
            var P1 := Put(P, nuevaMask, siguiente, Some(ultimo));
            Shape(D1, P1, n) && Tables(D1, P1, dist, n, mask)
  {
    SetBitBound(mask, n, siguiente);
    BitLowerBound(mask, ultimo);
    var nuevaMask := SetBit(mask, siguiente);
    var v := Add(D[mask][ultimo], dist[ultimo][siguiente]);
    var D1: Table := Put(D, nuevaMask, siguiente, v);
    var P1: Parents := Put(P, nuevaMask, siguiente, Some(ultimo));
    assert Shape(D1, P1, n);
    assert D1[1][0] == D[1][0] && P1[1][0] == P[1][0];
    forall m, j | 0 <= m < Pow2(n) && 0 <= j < n && D1[m][j].Fin? && !(m == 1 && j == 0)
      ensures P1[m][j].Some?
    {
      if !(m == nuevaMask && j == siguiente) {
        assert D1[m][j] == D[m][j] && P1[m][j] == P[m][j];
      }
    }
    forall m, j | 0 <= m < Pow2(n) && 0 <= j < n && P1[m][j].Some?
      ensures Linked(D1, dist, n, mask, m, j, P1[m][j].value)
    {
      if m == nuevaMask && j == siguiente {
        assert ClearBit(nuevaMask, siguiente) == mask;
        assert D1[mask][ultimo] == D[mask][ultimo];
      } else {
        assert P1[m][j] == P[m][j];
        PutKeepsLink(D, dist, n, mask, m, j, P[m][j].value, nuevaMask, siguiente, v);
      }
    }
  }

  /** After relaxing the edge `ultimo -> siguiente`, the lower bound also
      covers the paths whose last step is that edge, whether or not the
      entry changed. */
  lemma RelaxExtendsBound(D: Table, P: Parents, dist: Matrix, n: nat, mask: nat, ultimo: nat, siguiente: nat)
    requires IsMatrix(dist, n) && Shape(D, P, n)
    requires mask < Pow2(n) && ultimo < n && siguiente < n
    requires !Bit(mask, siguiente) && D[mask][ultimo].Fin?
    requires Tables(D, P, dist, n, mask) && LowerBound(D, dist, n, mask, ultimo, siguiente)
    ensures LowerBound(RelaxedDp(D, dist, n, mask, ultimo, siguiente), dist, n, mask, ultimo, siguiente + 1)
  {
    var D1 := RelaxedDp(D, dist, n, mask, ultimo, siguiente);
    StateIsLowerBound(D, P, dist, n, mask, ultimo, siguiente);
    forall p | ValidPath(n, p) && |p| >= 2 && Before(MaskOf(Front(p)), p[|p| - 2], Last(p), mask, ultimo, siguiente + 1)
      ensures Bounded(D1, MaskOf(p), Last(p), PathCost(dist, p))
    {
      FrontOfPath(n, p);
      MaskOfBits(n, p);
      if Before(MaskOf(Front(p)), p[|p| - 2], Last(p), mask, ultimo, siguiente) {
        assert Bounded(D, MaskOf(p), Last(p), PathCost(dist, p));
      } else {
        assert D[mask][ultimo].value <= PathCost(dist, Front(p));
        assert MaskOf(p) == SetBit(mask, siguiente);
      }
    }
  }

  lemma NextUltimo(D: Table, dist: Matrix, n: nat, M: nat, u: nat)
    requires IsMatrix(dist, n) && LowerBound(D, dist, n, M, u, n)
    ensures LowerBound(D, dist, n, M, u + 1, 0)
  {
  }

  lemma NextMask(D: Table, dist: Matrix, n: nat, M: nat)
    requires IsMatrix(dist, n) && LowerBound(D, dist, n, M, n, 0)
    ensures LowerBound(D, dist, n, M + 1, 0, 0)
  {
    forall p | ValidPath(n, p) && |p| >= 2 && Before(MaskOf(Front(p)), p[|p| - 2], Last(p), M + 1, 0, 0)
      ensures Bounded(D, MaskOf(p), Last(p), PathCost(dist, p))
    {
      assert p[|p| - 2] < n;
    }
  }

  lemma NextMaskLinks(D: Table, P: Parents, dist: Matrix, n: nat, M: nat)
    requires IsMatrix(dist, n) && Shape(D, P, n) && Tables(D, P, dist, n, M)
    ensures Tables(D, P, dist, n, M + 1)
  {
    forall m, j | 0 <= m < Pow2(n) && 0 <= j < n && P[m][j].Some?
      ensures Linked(D, dist, n, M + 1, m, j, P[m][j].value)
    {
      assert Linked(D, dist, n, M, m, j, P[m][j].value);
    }
  }

  /** Once every mask has been processed the bound covers every path. */
  lemma AllMasksDone(D: Table, P: Parents, dist: Matrix, n: nat)
    requires IsMatrix(dist, n) && Shape(D, P, n)
    requires Tables(D, P, dist, n, Pow2(n)) && LowerBound(D, dist, n, Pow2(n), 0, 0)
    ensures Optimal(D, dist, n)
  {
    forall p | ValidPath(n, p) ensures Bounded(D, MaskOf(p), Last(p), PathCost(dist, p)) {
      if |p| == 1 {
        assert p == [0];
        StartPath();
      } else {
        FrontOfPath(n, p);
        MaskOfBits(n, Front(p));
      }
    }
  }

  // ---------------------------------------------------------------------------
  // Initialisation and the triple loop

  /** The arrays hold a table pair of the right shape. */
  ghost predicate Holds(dp: array2<Ext>, padre: array2<Option<nat>>, n: nat)
  {
    n >= 1 && dp.Length0 == Pow2(n) && dp.Length1 == n && padre.Length0 == Pow2(n) && padre.Length1 == n
  }

  /** Fresh 2^n-by-n tables: every cost infinite and every predecessor None,
      except the start state (mask 1, city 0), which costs 0. */
  method InitTables(dist: Matrix, n: nat) returns (dp: array2<Ext>, padre: array2<Option<nat>>)
    requires IsMatrix(dist, n) && n >= 1
    ensures fresh(dp) && fresh(padre) && Holds(dp, padre, n)
    ensures forall m, j :: 0 <= m < Pow2(n) && 0 <= j < n ==>
              dp[m, j] == (if m == 1 && j == 0 then Fin(0) else Inf) && padre[m, j] == None
    ensures Tables(Grid(dp), Grid(padre), dist, n, 0) && LowerBound(Grid(dp), dist, n, 0, 0, 0)
  {
    dp := new Ext[Pow2(n), n]((m, j) => Inf);
    padre := new Option<nat>[Pow2(n), n]((m, j) => None);
    dp[1, 0] := Fin(0);
  }

  /** One step of the innermost loop: skip `siguiente` if it is in `mask`,
      otherwise relax the edge `ultimo -> siguiente`. Either way the tables
      keep their links and the lower bound moves past this transition. */
  method RelaxEdge(dp: array2<Ext>, padre: array2<Option<nat>>, dist: Matrix, n: nat,
                   mask: nat, ultimo: nat, siguiente: nat)
    requires IsMatrix(dist, n) && Holds(dp, padre, n)
    requires mask < Pow2(n) && ultimo < n && siguiente < n
    requires Bit(mask, ultimo) && dp[mask, ultimo].Fin?
    requires Tables(Grid(dp), Grid(padre), dist, n, mask) && LowerBound(Grid(dp), dist, n, mask, ultimo, siguiente)
    modifies dp, padre
    ensures Bit(mask, siguiente) ==> Grid(dp) == old(Grid(dp)) && Grid(padre) == old(Grid(padre))
    ensures !Bit(mask, siguiente) ==>
              && Grid(dp) == RelaxedDp(old(Grid(dp)), dist, n, mask, ultimo, siguiente)
              && Grid(padre) == RelaxedPadre(old(Grid(dp)), old(Grid(padre)), dist, n, mask, ultimo, siguiente)
    ensures forall m, j :: 0 <= m <= mask && 0 <= j < n ==> dp[m, j] == old(dp[m, j]) && padre[m, j] == old(padre[m, j])
    ensures Tables(Grid(dp), Grid(padre), dist, n, mask) && LowerBound(Grid(dp), dist, n, mask, ultimo, siguiente + 1)
  {
    if Bit(mask, siguiente) {
      SkipVisited(Grid(dp), dist, n, mask, ultimo, siguiente);
    } else {
      ghost var D: Table := Grid(dp);
      ghost var P: Parents := Grid(padre);
      RelaxKeepsTables(D, P, dist, n, mask, ultimo, siguiente);
      RelaxExtendsBound(D, P, dist, n, mask, ultimo, siguiente);
      Relax(dp, padre, dist, n, mask, ultimo, siguiente);
    }
  }

  /** Relax one edge: price the extension of state (mask, ultimo) by
      `siguiente`, and when it beats the entry of the extended state, record
      the new cost and `ultimo` as its predecessor. The arrays end up holding
      `RelaxedDp` and `RelaxedPadre` of what they held, and masks up to `mask`
      are untouched. */
  method Relax(dp: array2<Ext>, padre: array2<Option<nat>>, dist: Matrix, n: nat,
               mask: nat, ultimo: nat, siguiente: nat)
    requires IsMatrix(dist, n) && Holds(dp, padre, n)
    requires mask < Pow2(n) && ultimo < n && siguiente < n
    requires Bit(mask, ultimo) && !Bit(mask, siguiente) && dp[mask, ultimo].Fin?
    modifies dp, padre
    ensures Grid(dp) == RelaxedDp(old(Grid(dp)), dist, n, mask, ultimo, siguiente)
    ensures Grid(padre) == RelaxedPadre(old(Grid(dp)), old(Grid(padre)), dist, n, mask, ultimo, siguiente)
    ensures forall m, j :: 0 <= m <= mask && 0 <= j < n ==> dp[m, j] == old(dp[m, j]) && padre[m, j] == old(padre[m, j])
  {
    ghost var D: Table := Grid(dp);
    ghost var P: Parents := Grid(padre);
    SetBitBound(mask, n, siguiente);
    BitLowerBound(mask, ultimo);
    var nuevaMask := SetBit(mask, siguiente);
    var costo := dp[mask, ultimo].value + dist[ultimo][siguiente];
    assert Fin(costo) == Add(D[mask][ultimo], dist[ultimo][siguiente]) && dp[nuevaMask, siguiente] == D[nuevaMask][siguiente];
    if Less(Fin(costo), dp[nuevaMask, siguiente]) {
      assert RelaxedDp(D, dist, n, mask, ultimo, siguiente) == Put(D, nuevaMask, siguiente, Fin(costo));
      assert RelaxedPadre(D, P, dist, n, mask, ultimo, siguiente) == Put(P, nuevaMask, siguiente, Some(ultimo));
      Improve(dp, padre, nuevaMask, siguiente, Fin(costo), ultimo);
    } else {
      assert RelaxedDp(D, dist, n, mask, ultimo, siguiente) == D;
      assert RelaxedPadre(D, P, dist, n, mask, ultimo, siguiente) == P;
    }
  }

  /** Write cost v and predecessor p into cell (m, j) of the two tables. */
  method Improve(dp: array2<Ext>, padre: array2<Option<nat>>, m: nat, j: nat, v: Ext, p: nat)
    requires m < dp.Length0 && j < dp.Length1 && m < padre.Length0 && j < padre.Length1
    modifies dp, padre
    ensures Grid(dp) == Put(old(Grid(dp)), m, j, v) && Grid(padre) == Put(old(Grid(padre)), m, j, Some(p))
    ensures dp[m, j] == v && padre[m, j] == Some(p)
    ensures forall k, i :: 0 <= k < dp.Length0 && 0 <= i < dp.Length1 && !(k == m && i == j)
              ==> dp[k, i] == old(dp[k, i])
    ensures forall k, i :: 0 <= k < padre.Length0 && 0 <= i < padre.Length1 && !(k == m && i == j)
              ==> padre[k, i] == old(padre[k, i])
  {
    ghost var D := Grid(dp);
    ghost var P := Grid(padre);
    dp[m, j] := v;
    padre[m, j] := Some(p);
    GridIs(dp, Put(D, m, j, v));
    GridIs(padre, Put(P, m, j, Some(p)));
  }

  /** The innermost loop: all edges out of state (mask, ultimo), in city order. */
  method RelaxFrom(dp: array2<Ext>, padre: array2<Option<nat>>, dist: Matrix, n: nat, mask: nat, ultimo: nat)
    requires IsMatrix(dist, n) && Holds(dp, padre, n)
    requires mask < Pow2(n) && ultimo < n
    requires Bit(mask, ultimo) && dp[mask, ultimo].Fin?
    requires Tables(Grid(dp), Grid(padre), dist, n, mask) && LowerBound(Grid(dp), dist, n, mask, ultimo, 0)
    modifies dp, padre
    ensures forall m, j :: 0 <= m <= mask && 0 <= j < n ==> dp[m, j] == old(dp[m, j]) && padre[m, j] == old(padre[m, j])
    ensures Tables(Grid(dp), Grid(padre), dist, n, mask) && LowerBound(Grid(dp), dist, n, mask, ultimo + 1, 0)
  {
    for siguiente := 0 to n
      invariant forall m, j :: 0 <= m <= mask && 0 <= j < n ==> dp[m, j] == old(dp[m, j]) && padre[m, j] == old(padre[m, j])
      invariant Tables(Grid(dp), Grid(padre), dist, n, mask) && LowerBound(Grid(dp), dist, n, mask, ultimo, siguiente)
    {
      RelaxEdge(dp, padre, dist, n, mask, ultimo, siguiente);
    }
    NextUltimo(Grid(dp), dist, n, mask, ultimo);
  }

  /** The middle loop: every reached state of one mask, skipping
      states whose bit is clear or whose entry is still INF. Entries of masks
      up to the current one are not written, so they are final. */
  method RelaxMask(dp: array2<Ext>, padre: array2<Option<nat>>, dist: Matrix, n: nat, mask: nat)
    requires IsMatrix(dist, n) && Holds(dp, padre, n) && mask < Pow2(n)
    requires Tables(Grid(dp), Grid(padre), dist, n, mask) && LowerBound(Grid(dp), dist, n, mask, 0, 0)
    modifies dp, padre
    ensures forall m, j :: 0 <= m <= mask && 0 <= j < n ==> dp[m, j] == old(dp[m, j]) && padre[m, j] == old(padre[m, j])
    ensures Tables(Grid(dp), Grid(padre), dist, n, mask + 1) && LowerBound(Grid(dp), dist, n, mask + 1, 0, 0)
  {
    for ultimo := 0 to n
      invariant forall m, j :: 0 <= m <= mask && 0 <= j < n ==> dp[m, j] == old(dp[m, j]) && padre[m, j] == old(padre[m, j])
      invariant Tables(Grid(dp), Grid(padre), dist, n, mask) && LowerBound(Grid(dp), dist, n, mask, ultimo, 0)
    {
      if !Bit(mask, ultimo) || dp[mask, ultimo] == Inf {
        SkipState(Grid(dp), Grid(padre), dist, n, mask, ultimo);
      } else {
        RelaxFrom(dp, padre, dist, n, mask, ultimo);
      }
    }
    NextMask(Grid(dp), dist, n, mask);
    NextMaskLinks(Grid(dp), Grid(padre), dist, n, mask);
  }

  /** The outer loop: the whole table, masks in increasing order.
      Afterwards no path from city 0 is cheaper than its entry, and every
      finite entry is backed by a chain of predecessor links. */
  method FillTables(dp: array2<Ext>, padre: array2<Option<nat>>, dist: Matrix, n: nat)
    requires IsMatrix(dist, n) && Holds(dp, padre, n)
    requires Tables(Grid(dp), Grid(padre), dist, n, 0) && LowerBound(Grid(dp), dist, n, 0, 0, 0)
    modifies dp, padre
    ensures Tables(Grid(dp), Grid(padre), dist, n, Pow2(n)) && Optimal(Grid(dp), dist, n)
  {
    for mask := 0 to Pow2(n)
      invariant Tables(Grid(dp), Grid(padre), dist, n, mask) && LowerBound(Grid(dp), dist, n, mask, 0, 0)
    {
      RelaxMask(dp, padre, dist, n, mask);
    }
    AllMasksDone(Grid(dp), Grid(padre), dist, n);
  }

  // ---------------------------------------------------------------------------
  // Closing the cycle

  /** The closing scan over cities 1..n-1: the cheapest full-mask entry plus
      the edge back to city 0, keeping the first city that attains it. */
  method ClosingScan(dp: array2<Ext>, dist: Matrix, n: nat) returns (minCost: Ext, ultimoFinal: Option<nat>)
    requires IsMatrix(dist, n) && n >= 1 && dp.Length0 == Pow2(n) && dp.Length1 == n
    ensures ultimoFinal.None? <==> minCost.Inf?
    ensures minCost.Inf? <==> forall i :: 1 <= i < n ==> dp[Full(n), i].Inf?
    ensures ultimoFinal.Some? ==>
              (1 <= ultimoFinal.value < n
               && minCost == Add(dp[Full(n), ultimoFinal.value], dist[ultimoFinal.value][0]))
    ensures forall i :: 1 <= i < n ==> Le(minCost, Add(dp[Full(n), i], dist[i][0]))
    ensures ultimoFinal.Some? ==>
              forall i :: 1 <= i < ultimoFinal.value ==> Less(minCost, Add(dp[Full(n), i], dist[i][0]))
  {
    var maskCompleta := Full(n);
    minCost := Inf;
    ultimoFinal := None;
    for i := 1 to n
      invariant ultimoFinal.None? <==> minCost.Inf?
      invariant minCost.Inf? <==> forall k :: 1 <= k < i ==> dp[maskCompleta, k].Inf?
      invariant ultimoFinal.Some? ==>
                  (1 <= ultimoFinal.value < i
                   && minCost == Add(dp[maskCompleta, ultimoFinal.value], dist[ultimoFinal.value][0]))
      invariant forall k :: 1 <= k < i ==> Le(minCost, Add(dp[maskCompleta, k], dist[k][0]))
      invariant ultimoFinal.Some? ==>
                  forall k :: 1 <= k < ultimoFinal.value ==> Less(minCost, Add(dp[maskCompleta, k], dist[k][0]))
    {
      var costoTotal := Add(dp[maskCompleta, i], dist[i][0]);
      if Less(costoTotal, minCost) {
        minCost := costoTotal;
        ultimoFinal := Some(i);
      }
    }
  }

  /** With two or more cities some full-mask entry other than the start is
      finite: the identity ordering is a tour and bounds it. */
  lemma FullMaskReached(D: Table, dist: Matrix, n: nat)
    requires IsMatrix(dist, n) && n >= 2 && Sized(D, Pow2(n), n)
    requires Optimal(D, dist, n)
    ensures D[Full(n)][n - 1].Fin?
  {
    var cities := seq(n, i => i);
    assert ValidTour(n, cities) by {
      forall k | 0 <= k < n ensures k in cities {
        assert cities[k] == k;
      }
    }
    TourMask(n, cities);
    assert Bounded(D, Full(n), Last(cities), PathCost(dist, cities));
  }

  /** Every tour closes through some city i >= 1 whose full-mask entry, plus
      the edge back to 0, is at most the tour's cost. */
  lemma TourThroughTable(D: Table, dist: Matrix, n: nat, t: seq<nat>)
    requires IsMatrix(dist, n) && n >= 2 && Sized(D, Pow2(n), n)
    requires Optimal(D, dist, n) && ValidTour(n, t)
    ensures 1 <= Last(t) < n
    ensures Le(Add(D[Full(n)][Last(t)], dist[Last(t)][0]), Fin(CycleCost(dist, t)))
  {
    TourMask(n, t);
    assert Bounded(D, Full(n), Last(t), PathCost(dist, t));
    assert t[n - 1] != t[0];
    CycleIsClosedPath(dist, t);
    assert Front(t + [0]) == t;
  }

  // ---------------------------------------------------------------------------
  // Reconstruction

  /** The path the predecessor links spell out from state (m, j) back to the
      start: it visits exactly the cities of m, ends at j and costs dp[m][j]
      (DP optimality, upper half: every finite entry is attained). */
  ghost function Chain(D: Table, P: Parents, dist: Matrix, n: nat, m: nat, j: nat): (path: seq<nat>)
    requires IsMatrix(dist, n) && Shape(D, P, n) && Tables(D, P, dist, n, Pow2(n))
    requires m < Pow2(n) && j < n && D[m][j].Fin?
    ensures ValidPath(n, path) && MaskOf(path) == m && Last(path) == j
    ensures PathCost(dist, path) == D[m][j].value
    decreases m
  {
    match P[m][j]
    case None =>
      StartPath();
      [0]
    case Some(p) =>
      assert Linked(D, dist, n, Pow2(n), m, j, p);
      var prev := Chain(D, P, dist, n, ClearBit(m, j), p);
      MaskOfBits(n, prev);
      ExtendPath(n, prev, j);
      prev + [j]
  }

  /** DP optimality after the triple loop: an entry is finite exactly when
      some path from city 0 visits the cities of m and ends at j, and then it
      is the cheapest such path's cost. */
  lemma EntryIsMinimum(D: Table, P: Parents, dist: Matrix, n: nat, m: nat, j: nat)
    requires IsMatrix(dist, n) && Shape(D, P, n)
    requires Tables(D, P, dist, n, Pow2(n)) && Optimal(D, dist, n)
    requires m < Pow2(n) && j < n
    ensures D[m][j].Fin? <==> exists p :: ValidPath(n, p) && MaskOf(p) == m && Last(p) == j
    ensures D[m][j].Fin? ==>
              && (exists p :: ValidPath(n, p) && MaskOf(p) == m && Last(p) == j && PathCost(dist, p) == D[m][j].value)
              && (forall p :: ValidPath(n, p) && MaskOf(p) == m && Last(p) == j ==> D[m][j].value <= PathCost(dist, p))
  {
    if D[m][j].Fin? {
      var chain := Chain(D, P, dist, n, m, j);
      assert ValidPath(n, chain) && MaskOf(chain) == m && Last(chain) == j;
    }
    forall p | ValidPath(n, p) && MaskOf(p) == m && Last(p) == j ensures D[m][j].Fin? {
      assert Bounded(D, MaskOf(p), Last(p), PathCost(dist, p));
    }
  }

  /** Every reached state has city 0 and its own last city in its mask. */
  lemma ReachedStateBits(D: Table, P: Parents, dist: Matrix, n: nat, m: nat, j: nat)
    requires IsMatrix(dist, n) && Shape(D, P, n) && Tables(D, P, dist, n, Pow2(n))
    requires m < Pow2(n) && j < n && D[m][j].Fin?
    ensures Bit(m, 0) && Bit(m, j)
  {
    var chain := Chain(D, P, dist, n, m, j);
    MaskOfBits(n, chain);
    assert chain[0] == 0 && chain[|chain| - 1] == j;
  }

  /** The chain from a full-mask entry i is a tour, and closing it back to 0
      costs that entry plus `dist[i][0]`. */
  lemma ChainIsTour(D: Table, P: Parents, dist: Matrix, n: nat, k: nat)
    requires IsMatrix(dist, n) && Shape(D, P, n) && Tables(D, P, dist, n, Pow2(n))
    requires k < n && D[Full(n)][k].Fin?
    ensures var chain := Chain(D, P, dist, n, Full(n), k);
            && ValidTour(n, chain)
            && InRange(n, chain + [0])
            && PathCost(dist, chain + [0]) == D[Full(n)][k].value + dist[k][0]
            && CycleCost(dist, chain) == D[Full(n)][k].value + dist[k][0]
  {
    var chain := Chain(D, P, dist, n, Full(n), k);
    MaskOfBits(n, chain);
    forall x | 0 <= x < n ensures x in chain {
      FullBits(n, x);
    }
    DistinctCoverLength(n, chain);
    assert Front(chain + [0]) == chain;
    CycleIsClosedPath(dist, chain);
  }

  /** The walk back over `padre` from the chosen closing city until a state
      has no predecessor, clearing one bit per step; the collected cities are
      then reversed and the tour is closed with city 0. */
  method Reconstruct(dp: array2<Ext>, padre: array2<Option<nat>>, dist: Matrix, n: nat, ultimoFinal: Option<nat>)
    returns (tour: seq<nat>)
    requires IsMatrix(dist, n) && Holds(dp, padre, n) && Tables(Grid(dp), Grid(padre), dist, n, Pow2(n))
    requires ultimoFinal.Some? ==> ultimoFinal.value < n && dp[Full(n), ultimoFinal.value].Fin?
    ensures ultimoFinal.None? ==> tour == [0]
    ensures ultimoFinal.Some? ==> tour == Chain(Grid(dp), Grid(padre), dist, n, Full(n), ultimoFinal.value) + [0]
  {
    ghost var D: Table := Grid(dp);
    ghost var P: Parents := Grid(padre);
    tour := [];
    var mask: nat := Full(n);
    var ultimo := ultimoFinal;
    while ultimo.Some?
      invariant mask < Pow2(n)
      invariant ultimoFinal.None? ==> tour == [] && ultimo.None?
      invariant ultimo.Some? ==> ultimoFinal.Some? && ultimo.value < n && D[mask][ultimo.value].Fin?
      invariant ultimo.Some? ==>
                  Chain(D, P, dist, n, mask, ultimo.value) + Reverse(tour)
                  == Chain(D, P, dist, n, Full(n), ultimoFinal.value)
      invariant ultimo.None? && ultimoFinal.Some? ==>
                  Reverse(tour) == Chain(D, P, dist, n, Full(n), ultimoFinal.value)
      decreases mask + (if ultimo.Some? then 1 else 0)
    {
      var u := ultimo.value;
      assert Reverse(tour + [u]) == [u] + Reverse(tour) by {
        assert Front(tour + [u]) == tour;
      }
      tour := tour + [u];
      var nuevo := padre[mask, u];
      if nuevo.Some? {
        assert Linked(D, dist, n, Pow2(n), mask, u, nuevo.value);
      }
      mask := ClearBit(mask, u);
      ultimo := nuevo;
    }
    tour := Reverse(tour);
    tour := tour + [0];
  }

  /** The closing choice of the scan, followed back through the links, is a
      cheapest tour. */
  lemma ClosedChainIsOptimal(D: Table, P: Parents, dist: Matrix, n: nat, minCost: Ext, k: nat)
    requires IsMatrix(dist, n) && n >= 2 && Shape(D, P, n)
    requires Tables(D, P, dist, n, Pow2(n)) && Optimal(D, dist, n)
    requires 1 <= k < n && D[Full(n)][k].Fin? && minCost == Add(D[Full(n)][k], dist[k][0])
    requires forall i :: 1 <= i < n ==> Le(minCost, Add(D[Full(n)][i], dist[i][0]))
    ensures var tour := Chain(D, P, dist, n, Full(n), k) + [0];
            && minCost.Fin?
            && |tour| == n + 1 && tour[n] == 0
            && ValidTour(n, tour[..n])
            && InRange(n, tour) && PathCost(dist, tour) == minCost.value
            && CycleCost(dist, tour[..n]) == minCost.value
            && forall t :: ValidTour(n, t) ==> minCost.value <= CycleCost(dist, t)
  {
    var chain := Chain(D, P, dist, n, Full(n), k);
    ChainIsTour(D, P, dist, n, k);
    assert (chain + [0])[..n] == chain;
    forall t | ValidTour(n, t) ensures minCost.value <= CycleCost(dist, t) {
      TourThroughTable(D, dist, n, t);
    }
  }

  /** Over finished tables: the closing scan, then the reconstruction walk
      back from the city it chose. */
  method CloseTour(dp: array2<Ext>, padre: array2<Option<nat>>, dist: Matrix, n: nat) returns (minCost: Ext, tour: seq<nat>)
    requires IsMatrix(dist, n) && Holds(dp, padre, n)
    requires Tables(Grid(dp), Grid(padre), dist, n, Pow2(n)) && Optimal(Grid(dp), dist, n)
    ensures n == 1 ==> minCost == Inf && tour == [0]
    ensures n >= 2 ==>
              && minCost.Fin?
              && |tour| == n + 1 && tour[n] == 0
              && ValidTour(n, tour[..n])
              && InRange(n, tour) && PathCost(dist, tour) == minCost.value
              && CycleCost(dist, tour[..n]) == minCost.value
              && forall t :: ValidTour(n, t) ==> minCost.value <= CycleCost(dist, t)
  {
    var ultimoFinal;
    minCost, ultimoFinal := ClosingScan(dp, dist, n);
    ghost var D: Table := Grid(dp);
    ghost var P: Parents := Grid(padre);
    if n >= 2 {
      FullMaskReached(D, dist, n);
      assert dp[Full(n), n - 1].Fin?;
    }
    tour := Reconstruct(dp, padre, dist, n, ultimoFinal);
    if n >= 2 {
      ClosedChainIsOptimal(D, P, dist, n, minCost, ultimoFinal.value);
    }
  }

  /** The whole Held-Karp solver over any matrix: initialisation, the triple
      loop, the closing scan and the reconstruction, giving the minimum cost
      and the closed tour. For n >= 2 the tour lists every city
      once, starts and ends at 0, costs exactly `minCost`, and no tour is
      cheaper; for n == 1 the closing scan is empty and the cost stays INF. */
  method SolveHeldKarp(dist: Matrix) returns (minCost: Ext, tour: seq<nat>)
    requires IsMatrix(dist, |dist|) && |dist| >= 1
    ensures |dist| == 1 ==> minCost == Inf && tour == [0]
    ensures |dist| >= 2 ==>
              && minCost.Fin?
              && |tour| == |dist| + 1 && tour[|dist|] == 0
              && ValidTour(|dist|, tour[..|dist|])
              && InRange(|dist|, tour) && PathCost(dist, tour) == minCost.value
              && CycleCost(dist, tour[..|dist|]) == minCost.value
              && forall t :: ValidTour(|dist|, t) ==> minCost.value <= CycleCost(dist, t)
  {
    var n := |dist|;
    var dp, padre := InitTables(dist, n);
    FillTables(dp, padre, dist, n);
    minCost, tour := CloseTour(dp, padre, dist, n);
  }
}
