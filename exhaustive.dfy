/** The exhaustive solver (`main` of the brute-force script): fix the start
    city 0, try every ordering of the other cities and keep the first route
    of strictly smallest closed-cycle cost. */
module Exhaustive {
  import opened Values
  import opened Tours
  import opened Permutations

  /** `otras_ciudades`: every city but the start, in matrix order. */
  function OtherCities(n: nat): (r: seq<nat>)
    requires n >= 1
  {
    seq(n - 1, i => i + 1)
  }

  lemma OtherCitiesElements(n: nat)
    requires n >= 1
    ensures Distinct(OtherCities(n))
    ensures forall x :: x in OtherCities(n) <==> 1 <= x < n
  {
    var o := OtherCities(n);
    forall x | 1 <= x < n ensures x in o {
      assert o[x - 1] == x;
    }
  }

  /** The candidate routes, the start city followed by a permutation, in generation order:
      exactly the tours of the n cities. */
  function Candidates(n: nat): (rutas: seq<seq<nat>>)
    requires n >= 1
    ensures |rutas| >= 1
    ensures forall t :: t in rutas <==> ValidTour(n, t)
    ensures forall k :: 0 <= k < |rutas| ==> ValidTour(n, rutas[k])
  {
    CandidatesAreTheTours(n);
    Prepend(0, Perms(OtherCities(n)))
  }

  lemma CandidatesAreTheTours(n: nat)
    requires n >= 1
    ensures |Prepend(0, Perms(OtherCities(n)))| >= 1
    ensures forall t :: t in Prepend(0, Perms(OtherCities(n))) <==> ValidTour(n, t)
  {
    var o := OtherCities(n);
    var rutas := Prepend(0, Perms(o));
    OtherCitiesElements(n);
    PermsFirst(o);
    forall t | t in rutas ensures ValidTour(n, t) {
      var k :| 0 <= k < |rutas| && rutas[k] == t;
      var perm := Perms(o)[k];
      PermsSound(o, perm);
      assert t == [0] + perm;
      forall x: nat ensures x in t <==> x < n {
        assert t[0] == 0;
        assert x in t <==> x == 0 || x in perm;
        assert x in perm <==> x in o;
        assert x in o <==> 1 <= x < n;
      }
      forall i | 0 <= i < |t| ensures t[i] < n {
        assert t[i] in t;
      }
      forall i, j | 0 <= i < j < |t| ensures t[i] != t[j] {
        assert t[j] == perm[j - 1];
        if i > 0 {
          assert t[i] == perm[i - 1];
        } else {
          assert perm[j - 1] in perm;
        }
      }
    }
    forall t | ValidTour(n, t) ensures t in rutas {
      var perm := t[1..];
      assert t == [0] + perm;
      forall x ensures x in perm <==> x in o {
        assert x in t <==> x == 0 || x in perm;
        if x in perm {
          var k :| 0 <= k < |perm| && perm[k] == x;
          assert t[k + 1] == x;
        }
      }
      PermsComplete(o, perm);
      var k :| 0 <= k < |Perms(o)| && Perms(o)[k] == perm;
      assert rutas[k] == t;
    }
  }

  /** The search of `main`: `min_costo` starts at infinity and `ruta_optima`
      at None; a candidate replaces them only when strictly cheaper. The
      result is the first cheapest candidate and its cost; `rutaCompleta` is
      the displayed route closed with the start city. */
  method ExhaustiveSearch(dist: Matrix) returns (minCosto: nat, rutaOptima: seq<nat>, rutaCompleta: seq<nat>)
    requires IsMatrix(dist, |dist|) && |dist| >= 1
    ensures ValidTour(|dist|, rutaOptima)
    ensures minCosto == CycleCost(dist, rutaOptima)
    ensures forall t :: ValidTour(|dist|, t) ==> minCosto <= CycleCost(dist, t)
    ensures exists k :: 0 <= k < |Candidates(|dist|)| && Candidates(|dist|)[k] == rutaOptima
                     && forall j :: 0 <= j < k ==> minCosto < CycleCost(dist, Candidates(|dist|)[j])
    ensures rutaCompleta == rutaOptima + [0] && |rutaCompleta| == |dist| + 1
    ensures rutaCompleta[0] == 0 && rutaCompleta[|dist|] == 0
  {
    var n := |dist|;
    var ciudadInicio := 0;
    var otrasCiudades := OtherCities(n);
    var perms := Perms(otrasCiudades);
    ghost var rutas := Candidates(n);
    assert rutas == Prepend(ciudadInicio, perms);
    var min: Ext := Inf;
    var optima: Option<seq<nat>> := None;
    ghost var best := 0;
    for i := 0 to |perms|
      invariant i == 0 ==> min == Inf && optima == None
      invariant i > 0 ==> best < i && optima == Some(rutas[best]) && min == Fin(CycleCost(dist, rutas[best]))
      invariant i > 0 ==> forall j :: 0 <= j < i ==> min.value <= CycleCost(dist, rutas[j])
      invariant i > 0 ==> forall j :: 0 <= j < best ==> min.value < CycleCost(dist, rutas[j])
    {
      var ruta := [ciudadInicio] + perms[i];
      assert ruta == rutas[i];
      var costo := CalculaCostos(dist, ruta);
      if Less(Fin(costo), min) {
        min := Fin(costo);
        optima := Some(ruta);
        best := i;
      }
    }
    minCosto := min.value;
    rutaOptima := optima.value;
    rutaCompleta := rutaOptima + [rutaOptima[0]];
    forall t | ValidTour(n, t) ensures minCosto <= CycleCost(dist, t) {
      var j :| 0 <= j < |rutas| && rutas[j] == t;
    }
  }
}
