# Exact travelling-salesman solvers of Intro_IA, in Dafny

The repository solves the travelling-salesman problem exactly over a fixed,
complete, weighted distance matrix. City 0 (Bogotá) is the start. It uses two
algorithms:

- **Brute force** (`Methods/Force_Brute/TCP_Force_Brute_Time.py`).
  - It fixes the start city and tries every ordering of the other cities in
    `itertools.permutations` order.
  - It prices each route with `calcula_costos`, which closes the cycle back to
    the first city.
  - It keeps the first route that is strictly cheapest.
- **Held-Karp bitmask dynamic program** (`Methods/Held_Karp/TCP_HELD_KARP_TIME.py`
  and `Methods/Held_Karp/TCP_HELD_KARP_KM.py`).
  - The two files are identical on lines 19-62. Elsewhere they differ only in
    their data and their output: hours and minutes in one, kilometres in the other.
    One model serves both; a citation of either file below holds for the other
    at the same lines.
  - The table `dp[mask][last]` is filled in place, masks in increasing order.
    `padre` records the predecessor behind each improvement.
  - A closing scan picks the best last city.
  - A walk back over `padre`, clearing one bit per step, rebuilds the tour.
    The tour is then reversed and closed with 0.

The model works on any square matrix of natural-number weights instead of the
hard-coded data.

## Files

| file | contents |
|---|---|
| `values.dfy` | `Option` (None) and `Ext` (a cost or `inf`), with `+`, `<` and `<=` extended to `inf` |
| `bits.dfy` | `1 << k`, `mask & (1 << k)`, `mask \| (1 << k)`, `mask & ~(1 << k)` and `(1 << n) - 1` on unbounded naturals |
| `tours.dfy` | tours, the closed-cycle cost, `calcula_costos`, rotation invariance, `city_to_index` |
| `permutations.dfy` | `itertools.permutations` as a recursive generator, proved sound, complete and input-order first |
| `exhaustive.dfy` | the candidate routes and the minimum search of `main` |
| `heldkarp.dfy` | the Held-Karp tables on `array2`, the triple loop, the closing scan and the reconstruction |
| `crosscheck.dfy` | the two solvers compared |

## How it is modelled

- **Cities and weights.**
  - Cities are the indices `0..n-1` of the matrix, with `n = |dist|`.
  - Weights are `nat`, and `math.inf` is `Ext.Inf`.
  - `city_to_index` is modelled on its own, as `Tours.CityToIndex`; the solvers work on indices.
- **Tables.**
  - `dp` and `padre` are `array2` of size `2^n` by `n`, written cell by cell as the scripts write them.
  - The invariants of the triple loop are stated over a ghost value view of the arrays (`HeldKarp.Grid`).
- **Correctness of the tables.** Two predicates carry it:
  - `HeldKarp.Tables`: every finite entry other than the start is backed by a predecessor link. The link points to an earlier mask and an entry that is exactly the sum.
  - `HeldKarp.LowerBound`: every path whose last step the loop has already relaxed is no cheaper than its entry.
- **Results.** From those two predicates:
  - every finite entry is the cost of the path its links spell out (`HeldKarp.Chain`);
  - the reconstructed tour is a permutation closed with 0;
  - it costs exactly `min_cost`, and no tour is cheaper;
  - the Held-Karp cost therefore equals the cost the exhaustive search finds.
- **The single-city case.**
  - The brute-force search prices the tour `[0]` at `dist[0][0]`.
  - The Held-Karp closing scan `range(1, n)` is empty, so it reports `inf` with tour `[0]`.
  - The model states both outcomes. Agreement between the solvers is proved for two or more cities.
- **The empty matrix.** Both scripts fail with no cities: the brute force with a `KeyError` in `calcula_costos`, because `itertools.permutations` of no cities yields one empty ordering, so the start city alone is priced through an empty `city_to_index`; Held-Karp on `dp[1][0]` in a 1-by-0 table. So both solvers require `n >= 1`.

## Model

| member | source | states |
|---|---|---|
| Tours.CalculaCostos | Methods/Force_Brute/TCP_Force_Brute_Time.py:33-45 | the accumulated cost is the closed-cycle cost: the sum over every i of `dist[r[i]][r[(i+1) mod n]]`, so the last city connects back to the first |
| Tours.CycleIsClosedPath | Methods/Force_Brute/TCP_Force_Brute_Time.py:104-105 | the closed-cycle cost of a route is the open path cost of that route with its first city appended, the displayed `ruta_completa` |
| Tours.CycleCostRotation | Methods/Force_Brute/TCP_Force_Brute_Time.py:39-44 | because of the modulo wrap, the cost is the same when the route starts at any of its cities |
| Tours.CityToIndex | Methods/Force_Brute/TCP_Force_Brute_Time.py:31 | the map's keys are exactly the names; each name maps to a position holding that name, and no later position holds it (a later duplicate overwrites) |
| Tours.CityToIndexBijective | Methods/Force_Brute/TCP_Force_Brute_Time.py:31 | with distinct names, every name maps back to its own index, and the values lie in `0..n-1` |
| Permutations.PermsSound | Methods/Force_Brute/TCP_Force_Brute_Time.py:96 | every generated ordering has the input's length and elements, with no repeats |
| Permutations.PermsComplete | Methods/Force_Brute/TCP_Force_Brute_Time.py:96 | every ordering of the input is generated |
| Permutations.PermsFirst | Methods/Force_Brute/TCP_Force_Brute_Time.py:96 | at least one ordering is generated, and the first is the input order |
| Exhaustive.OtherCitiesElements | Methods/Force_Brute/TCP_Force_Brute_Time.py:90 | `otras_ciudades` holds each of the cities `1..n-1` exactly once |
| Exhaustive.Candidates | Methods/Force_Brute/TCP_Force_Brute_Time.py:90-98 | the routes `(start,) + perm` are exactly the tours: each contains every city once and starts at city 0, and every such tour is a candidate |
| Exhaustive.CandidatesAreTheTours | Methods/Force_Brute/TCP_Force_Brute_Time.py:90-98 | both directions of "candidate if and only if tour" for the prepended permutations |
| Exhaustive.ExhaustiveSearch | Methods/Force_Brute/TCP_Force_Brute_Time.py:85-105 | the result is a tour and a candidate; `min_costo` is its cost and bounds every tour's cost from below; every earlier candidate is strictly dearer, so on a tie the first is kept; `ruta_completa` has n+1 cities and starts and ends at 0 |
| Bits.SetBit | Methods/Held_Karp/TCP_HELD_KARP_TIME.py:35 | `mask \| (1 << k)` sets bit k, keeps every other bit, and adds `2^k` when bit k was clear |
| Bits.ClearBit | Methods/Held_Karp/TCP_HELD_KARP_TIME.py:58 | `mask & ~(1 << k)` clears bit k, keeps every other bit, and is strictly smaller when bit k was set |
| Bits.FullBits | Methods/Held_Karp/TCP_HELD_KARP_TIME.py:42 | `(1 << n) - 1` has exactly the bits `0..n-1` |
| HeldKarp.MaskOfBits | Methods/Held_Karp/TCP_HELD_KARP_TIME.py:33-35 | a path's visited mask is below `2^n` and has bit k exactly when city k is on the path |
| HeldKarp.InitTables | Methods/Held_Karp/TCP_HELD_KARP_KM.py:22-25 | fresh `2^n`-by-n tables: every `dp` entry is INF except `dp[1][0] = 0`, and every `padre` entry is None; the loop invariants hold before the first mask |
| HeldKarp.SkipState | Methods/Held_Karp/TCP_HELD_KARP_KM.py:28-33 | skipping a state whose bit is clear or whose entry is INF loses no path: the lower bound moves past it |
| HeldKarp.SkipVisited | Methods/Held_Karp/TCP_HELD_KARP_TIME.py:33-34 | skipping a `siguiente` already in the mask loses no path of distinct cities |
| HeldKarp.RelaxedDp | Methods/Held_Karp/TCP_HELD_KARP_TIME.py:35-38 | the new mask stays below `2^n`; when the candidate `dp[mask][ultimo] + dist[ultimo][siguiente]` is strictly smaller than the entry for (new mask, siguiente), that entry becomes the candidate, and otherwise the table is unchanged; so entries only decrease, and every other entry is always unchanged |
| HeldKarp.RelaxedPadre | Methods/Held_Karp/TCP_HELD_KARP_TIME.py:37-39 | `padre` of (new mask, siguiente) becomes `ultimo` exactly when `dp` changed, and keeps its value otherwise; no other entry changes |
| HeldKarp.RelaxKeepsTables | Methods/Held_Karp/TCP_HELD_KARP_TIME.py:35-39 | after a relaxation the start state is intact, and every finite entry has a predecessor link `p`: bit `p` is in `m` without `j`, that earlier entry is finite, and `dp[m][j]` is it plus `dist[p][j]` |
| HeldKarp.ImprovementKeepsTables | Methods/Held_Karp/TCP_HELD_KARP_TIME.py:37-39 | writing the improved cost and its predecessor keeps every link, including the new one |
| HeldKarp.RelaxExtendsBound | Methods/Held_Karp/TCP_HELD_KARP_TIME.py:35-39 | after relaxing `ultimo -> siguiente`, every path ending with that edge is no cheaper than its entry |
| HeldKarp.Relax | Methods/Held_Karp/TCP_HELD_KARP_TIME.py:35-39 | the arrays end up holding `RelaxedDp` and `RelaxedPadre` of their old contents, and masks up to the current one are untouched |
| HeldKarp.Improve | Methods/Held_Karp/TCP_HELD_KARP_TIME.py:38-39 | exactly those two cells are written, with the cost and the predecessor |
| HeldKarp.RelaxEdge | Methods/Held_Karp/TCP_HELD_KARP_TIME.py:32-39 | one step of the inner loop: nothing changes when `siguiente` is in the mask, otherwise the relaxation; the links and the lower bound are kept and move past this transition |
| HeldKarp.RelaxFrom | Methods/Held_Karp/TCP_HELD_KARP_TIME.py:32-39 | all edges out of one state: masks up to the current one are untouched, and the invariants move on to the next state |
| HeldKarp.RelaxMask | Methods/Held_Karp/TCP_HELD_KARP_KM.py:28-39 | one mask: its entries and all earlier ones are final, because every write targets a strictly larger mask; the invariants move on to the next mask |
| HeldKarp.FillTables | Methods/Held_Karp/TCP_HELD_KARP_TIME.py:28-39 | after the triple loop no path from city 0 is cheaper than the entry of its visited set and last city, and every finite entry is backed by predecessor links |
| HeldKarp.EntryIsMinimum | Methods/Held_Karp/TCP_HELD_KARP_TIME.py:28-39 | an entry is finite exactly when some path from 0 visits the mask's cities and ends at j; it then equals the cheapest such path's cost |
| HeldKarp.ReachedStateBits | Methods/Held_Karp/TCP_HELD_KARP_KM.py:28-33 | every reached state's mask contains city 0 and its own last city |
| HeldKarp.ClosingScan | Methods/Held_Karp/TCP_HELD_KARP_KM.py:42-49 | `min_cost` is at most `dp[full][i] + dist[i][0]` for every `1 <= i < n`; `ultimo_final` is the first i that attains it; `min_cost` is INF exactly when there is no such i, and then `ultimo_final` is None |
| HeldKarp.FullMaskReached | Methods/Held_Karp/TCP_HELD_KARP_TIME.py:42-49 | with two or more cities, some full-mask entry with `i >= 1` is finite, so the scan picks a city |
| HeldKarp.TourThroughTable | Methods/Held_Karp/TCP_HELD_KARP_TIME.py:45-49 | every tour closes through a city `i >= 1` whose full-mask entry plus `dist[i][0]` is at most the tour's cost |
| HeldKarp.Chain | Methods/Held_Karp/TCP_HELD_KARP_TIME.py:55-59 | the path the `padre` links spell out from a finite entry (m, j), clearing one bit per step, starts at city 0, visits exactly the cities of m, ends at j, and costs `dp[m][j]` |
| HeldKarp.ChainIsTour | Methods/Held_Karp/TCP_HELD_KARP_KM.py:52-62 | the chain from a full-mask entry is a tour of all n cities; closed with 0, it costs that entry plus the edge back |
| HeldKarp.Reconstruct | Methods/Held_Karp/TCP_HELD_KARP_TIME.py:52-62 | the while loop terminates; the reversed list, closed with 0, is the chain from (full, `ultimo_final`), or just `[0]` when `ultimo_final` is None |
| HeldKarp.ClosedChainIsOptimal | Methods/Held_Karp/TCP_HELD_KARP_TIME.py:42-62 | the scan's choice, walked back, is a tour of n+1 cities that starts and ends at 0, costs exactly `min_cost`, and no tour is cheaper |
| HeldKarp.CloseTour | Methods/Held_Karp/TCP_HELD_KARP_TIME.py:42-62 | over finished tables: with one city, INF and tour `[0]`; otherwise a finite optimal `min_cost`, and a closed tour that visits every city once and costs exactly `min_cost` |
| HeldKarp.SolveHeldKarp | Methods/Held_Karp/TCP_HELD_KARP_TIME.py:19-62 | the whole script on any matrix: with one city, INF and `[0]`; otherwise the tour lists every city once, starts and ends at 0, costs exactly `min_cost`, and `min_cost` is the minimum over all tours |
| CrossCheck.SingleCityTour | Methods/Force_Brute/TCP_Force_Brute_Time.py:96-99 | with one city, the only tour is `[0]` and its closed cost is the self-loop `dist[0][0]` |
| CrossCheck.CompareSolvers | Methods/Held_Karp/TCP_HELD_KARP_TIME.py:42-49 | with two or more cities, Held-Karp's `min_cost` equals the exhaustive search's `min_costo`; with one city the search gives `dist[0][0]` and Held-Karp gives INF |

## Left out

- Drawing the route with folium (`plot_route`, `Marker`, `PolyLine`, `.save`): a foreign library and file output.
- All console output, and the hours/minutes split of the cost with float `//` and `%`: presentation only.
- The hard-coded city names, coordinates and matrices: the matrix is a parameter of every operation.
- IEEE floating-point weights and `math.inf`: the weights are natural numbers, and infinity is `Ext.Inf`.
- Exhaustive.ExhaustiveSearch: it works on city indices, not on names.
  - The source builds `otras_ciudades` by comparing names, and prices routes through `city_to_index`.
  - This matches indices when the names are distinct and the start city is `ciudades[0]`, as in the data.
  - `Tours.CityToIndexBijective` states that case.
- `itertools.permutations` is the recursive `Permutations.Perms` in the same order (lexicographic in positions), not Python's iterative algorithm.
- The brute-force script for the km matrix (`Methods/Force_Brute/TCP_Force_Brute _KM.py`) is not part of this model.
