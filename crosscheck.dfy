/** The two solvers side by side: on every matrix of two or more cities the
    Held-Karp tables find exactly the cost the exhaustive search finds. With
    one city they part ways: the exhaustive search prices the tour `[0]` at
    its self-loop `dist[0][0]`, while the closing scan `range(1, n)` is empty
    and Held-Karp reports INF. */
module CrossCheck {
  import opened Values
  import opened Tours
  import opened Exhaustive
  import opened HeldKarp

  /** The one tour of a single city is `[0]`, and its closed cost is the
      self-loop. */
  lemma SingleCityTour(dist: Matrix, t: seq<nat>)
    requires IsMatrix(dist, 1) && ValidTour(1, t)
    ensures t == [0] && CycleCost(dist, t) == dist[0][0]
  {
    assert t == [t[0]];
    assert CostUpTo(dist, t, 0) == 0;
  }

  /** Two optimal costs over the same set of tours coincide. */
  method CompareSolvers(dist: Matrix) returns (bruteForce: nat, heldKarp: Ext)
    requires IsMatrix(dist, |dist|) && |dist| >= 1
    ensures |dist| >= 2 ==> heldKarp == Fin(bruteForce)
    ensures |dist| == 1 ==> bruteForce == dist[0][0] && heldKarp == Inf
  {
    var rutaOptima, rutaCompleta;
    bruteForce, rutaOptima, rutaCompleta := ExhaustiveSearch(dist);
    var tour;
    heldKarp, tour := SolveHeldKarp(dist);
    var n := |dist|;
    if n == 1 {
      SingleCityTour(dist, rutaOptima);
    } else {
      assert heldKarp.value <= CycleCost(dist, rutaOptima);
      assert bruteForce <= CycleCost(dist, tour[..n]);
    }
  }
}
