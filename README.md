# Errand-Mapper route engine in Dafny

Errand-Mapper plans a driving tour. The tour starts at a start point and ends at
an end point. In between it visits the user's intermediate stops and every branch
found within 5 km of each selected store chain. This project models the two route solvers in
`src/utils` and proves what they compute.

- **Exact solver** (`calculateOptimalRouteWithChains`, module `RouteOptimizer`):
  1. It assembles `allLocations`: the start, the intermediate stops, the branches
     of every chain, then the end.
  2. It fills an n×n distance matrix with one routing-service query per pair
     `i < j`. Each answer is stored in both `[i][j]` and `[j][i]`; the diagonal
     keeps its initial `Infinity` (module `DistanceMatrix`).
  3. It generates every ordering of the points between start and end with
     `getPermutations` (module `Permutations`).
  4. It scans the candidates `[start, ...perm, end]` in generation order. A
     candidate replaces the best so far only when its total is strictly
     smaller, so the first candidate of smallest total is returned. It returns
     `null` (`None`) when no total is finite.
- **Greedy solver** (`calculateShortestRoute`, module `NearestNeighbour`): start
  at the first location, then repeatedly append the unvisited location nearest
  to the last one appended. On every step it queries the service from the last
  point to each unvisited location, in index order.

The routing service is modelled as the class `DistanceOracle.Oracle`:
- `answer` is a fixed function giving the service's reply for a pair of points.
- `None` means the request failed; this aborts the whole build (`OracleFailed`).
- `log` records every query, so the number and order of requests are proved as
  well as the results.

Distances are `Base.Ext`: a natural number, or `Infinity` (`Inf`) with the
source's semantics that `Infinity + x = Infinity`. Points are an abstract type
compared by identity, which is how `indexOf` compares objects. The pure
functions `ExactRoute` and `GreedyOrder` specify the two solvers. The methods
are proved equal to them, and the lemmas prove the properties below about
those functions.

Two consequences of the code are easy to miss:
- The matrix diagonal is never written and stays `Infinity`. A candidate that
  steps from a point to the same point therefore has an infinite total.
- With no free points, `[start, end]` is returned only when start and end are
  different objects. When they are the same object, `indexOf` finds position 0
  for both ends, the diagonal is read, and the result is `null`
  (`ExactRouteNoFreePoints`).

## Model

| member | source | states |
|---|---|---|
| `DistanceOracle.Oracle.Query` | src/utils/routeOptimizer.js:2-7 | One request returns the service's answer for the pair and appends the pair to the query log. |
| `Permutations.Perms` | src/utils/routeOptimizer.js:80-92 | The model of `getPermutations`. An input of length 2 gives itself and its swap; lengths 0 and 1 give the input alone; longer inputs go through `PermsFrom`. Its properties are the lemmas in the rows below. |
| `Permutations.PermsFrom` | src/utils/routeOptimizer.js:82-91 | The `reduce` over positions i, i+1, …: the orderings headed by element i, then those headed by each later position. |
| `Permutations.PermsCount` | src/utils/routeOptimizer.js:80-92 | `getPermutations` returns exactly n! sequences for an input of length n. |
| `Permutations.PermsFromCount` | src/utils/routeOptimizer.js:82-91 | The `reduce` from position i on yields (n − i)·(n − 1)! sequences. |
| `Permutations.PermsFromMember` | src/utils/routeOptimizer.js:82-91 | Each sequence the `reduce` yields is some position's element followed by an ordering of the other elements. |
| `Permutations.PermIsRearrangement` | src/utils/routeOptimizer.js:80-92 | Every generated sequence has the input's length and the input's multiset of elements. |
| `Permutations.PermsFromContains` | src/utils/routeOptimizer.js:82-91 | For any position k of the input, every ordering of the rest, headed by element k, is among those the `reduce` yields. |
| `Permutations.PermsComplete` | src/utils/routeOptimizer.js:80-92 | Every rearrangement of the input is generated. |
| `Permutations.PermsNoDup` | src/utils/routeOptimizer.js:80-92 | On an input of distinct elements the generated sequences are pairwise distinct. |
| `Permutations.PermsStartWithInput` | src/utils/routeOptimizer.js:81-91 | The first generated sequence is the input itself. Inputs of length 0 or 1 yield only the input. |
| `DistanceMatrix.RowsBeforeMembers` | src/utils/routeOptimizer.js:48-49 | The first i rows of the nested loop query exactly the pairs a < b < n with a < i. |
| `DistanceMatrix.RowsBeforeNoDup` | src/utils/routeOptimizer.js:48-49 | The nested loop never queries a pair twice. |
| `DistanceMatrix.RowsBeforeCount` | src/utils/routeOptimizer.js:48-49 | The first i rows make i(2n − i − 1)/2 queries. |
| `DistanceMatrix.FillOrderQueriesEachPairOnce` | src/utils/routeOptimizer.js:48-53 | The fill makes n(n − 1)/2 queries, each pair i < j exactly once, and never queries the diagonal. |
| `DistanceMatrix.Filled` | src/utils/routeOptimizer.js:45-53 | The completed matrix is square and symmetric even when the service is not. Its diagonal is `Infinity`, `[i][j]` for i < j holds the answer for `(allLocations[i], allLocations[j])`, and every off-diagonal cell is finite once all queries were answered. |
| `DistanceMatrix.AnsweredUpTo` | src/utils/routeOptimizer.js:48-52 | When the fill reaches query t of row i, every earlier query of the fill order was answered. |
| `DistanceMatrix.FailureIsLogged` | src/utils/routeOptimizer.js:48-52 | When query t of row i fails after all earlier queries were answered, the log has grown by a prefix of the fill order ending with that query. Every query before it in the fill order was answered, the failing pair is that query's pair, and not every query was answered. |
| `DistanceMatrix.SnapFilled` | src/utils/routeOptimizer.js:44-53 | An array holding the fill's value in every cell is the matrix `Filled` describes. |
| `DistanceMatrix.StorePair` | src/utils/routeOptimizer.js:51 | Storing a pair's answer at `[i][j]` and `[j][i]` extends the written region by that pair and changes nothing else. |
| `DistanceMatrix.FillRow` | src/utils/routeOptimizer.js:49-52 | The inner loop for row i either fills the whole row and logs `Row(i)`, with every answer present, or stops at query t, after the queries before t in the row were answered and query t failed, and logs the row up to and including it. |
| `DistanceMatrix.FillDistances` | src/utils/routeOptimizer.js:44-53 | A matrix is returned exactly when every pair was answered. It is then fresh, n×n and holds the fill, and the log grew by the whole fill order. Otherwise the log is the fill order up to and including a query k that failed, and every query before k was answered, so k is the first failing query. |
| `RouteOptimizer.Locations` | src/utils/routeOptimizer.js:34-42 | `allLocations` starts with the start, ends with the end, and holds between them the intermediate stops followed by every chain's branches. |
| `RouteOptimizer.AssembleLocations` | src/utils/routeOptimizer.js:34-42 | The assembly loop builds exactly `Locations`. |
| `RouteOptimizer.IndexOf` | src/utils/routeOptimizer.js:66-67 | The result is −1 exactly when the point is absent; otherwise it is the first position holding the point. |
| `RouteOptimizer.Total` | src/utils/routeOptimizer.js:63-69 | The value `totalDistance` reaches for a route: the matrix entries at the first positions of consecutive points, summed from the front with `Infinity` absorbing. `RouteTotal` is proved equal to it, and `TotalFinite` says when it is finite. |
| `RouteOptimizer.RouteTotal` | src/utils/routeOptimizer.js:63-69 | The inner loop's `totalDistance` equals `Total` of the route over the matrix contents. |
| `RouteOptimizer.TotalsSnoc` | src/utils/routeOptimizer.js:61-69 | Scanning one more ordering appends that candidate's total to the totals so far. |
| `RouteOptimizer.Winner` | src/utils/routeOptimizer.js:58-75 | The position the running minimum keeps, starting from `Infinity` and replacing only on a strictly smaller total; it is always a valid position. `WinnerIsFirstMinimum` characterises it. |
| `RouteOptimizer.WinnerIsFirstMinimum` | src/utils/routeOptimizer.js:58-75 | The scan keeps nothing exactly when every total is `Infinity`. Otherwise it keeps a position with a finite total that is ≤ every total and strictly < every earlier total, so the first minimum wins. |
| `RouteOptimizer.WinnerSnoc` | src/utils/routeOptimizer.js:71-74 | One scan step replaces the best so far exactly when the new total is strictly smaller. |
| `RouteOptimizer.WinnerOfOne` | src/utils/routeOptimizer.js:58-75 | With a single candidate the scan keeps it exactly when its total is finite. |
| `RouteOptimizer.ScannedStep` | src/utils/routeOptimizer.js:61-75 | One pass of the outer loop keeps `shortestDistance` and `shortestRoute` equal to the winner so far and its total. |
| `RouteOptimizer.ShortestCandidate` | src/utils/routeOptimizer.js:58-75 | The outer scan returns the candidate at the first position of smallest total, or `None` when all totals are `Infinity`. |
| `RouteOptimizer.CalculateOptimalRouteWithChains` | src/utils/routeOptimizer.js:33-78 | The solver succeeds exactly when every pair was answered. Its result is then `ExactRoute` of `allLocations`, and it made exactly the fill's n(n − 1)/2 queries in loop order. On failure the queries made are the fill order up to and including the first failing one. |
| `RouteOptimizer.ExactRoute` | src/utils/routeOptimizer.js:55-77 | The exact solver's result on a completed build: the winning candidate among all orderings of the free points, or `null`. The lemmas below prove its shape, optimality and tie-breaking. |
| `RouteOptimizer.PermsWithin` | src/utils/routeOptimizer.js:56-62 | Every candidate built from the generated orderings stays inside `allLocations`. |
| `RouteOptimizer.ExactTotalsAt` | src/utils/routeOptimizer.js:61-69 | The j-th candidate total is the total of the j-th candidate route over the completed matrix. |
| `RouteOptimizer.RearrangementWithin` | src/utils/routeOptimizer.js:56-62 | Any rearrangement of the free points, framed by start and end, stays inside `allLocations`. |
| `RouteOptimizer.ExactRouteShape` | src/utils/routeOptimizer.js:56-62 | A returned route has the length of `allLocations`, starts with start and ends with end. In between it holds exactly the free points, each as often as given. |
| `RouteOptimizer.ExactRouteOptimal` | src/utils/routeOptimizer.js:55-77 | The returned route's total is finite and no larger than that of any rearrangement of the free points framed by start and end. |
| `RouteOptimizer.ExactRouteFirstMinimum` | src/utils/routeOptimizer.js:58-77 | `null` is returned exactly when every candidate total is `Infinity`. Otherwise the route is candidate k, whose total is minimal, and every earlier candidate is strictly longer. |
| `RouteOptimizer.TotalFinite` | src/utils/routeOptimizer.js:63-69 | Once every distance is answered, a route none of whose legs stays on one point has a finite total. |
| `RouteOptimizer.FirstCandidateIsInput` | src/utils/routeOptimizer.js:56-62 | The first candidate is `allLocations` itself. |
| `RouteOptimizer.ExactRouteFound` | src/utils/routeOptimizer.js:55-77 | With distinct points and every distance known, a route is always returned. |
| `RouteOptimizer.ExactRouteSingleOrdering` | src/utils/routeOptimizer.js:55-77 | With at most one free point, `allLocations` is the only candidate; it is returned exactly when its total is finite. |
| `RouteOptimizer.ExactRouteNoFreePoints` | src/utils/routeOptimizer.js:55-77 | With start and end alone, `[start, end]` is returned exactly when they are different objects; otherwise `null`. An unanswered query never reaches this scan: it aborts the build during the fill. |
| `NearestNeighbour.ScanTo` | src/utils/dijkstra.js:15-26 | After the inner loop's first j positions, any chosen `nextIndex` is an unvisited position below j with a known distance, and `minDistance` is that distance. With no choice yet, `minDistance` is still `Infinity`. |
| `NearestNeighbour.ScanLog` | src/utils/dijkstra.js:18-26 | The requests of the inner loop: one per unvisited position, in index order, up to and including the first that fails. `ScanLogCount` counts them. |
| `NearestNeighbour.ScanSucceeds` | src/utils/dijkstra.js:18-26 | The inner loop completes exactly when every request it makes is answered. |
| `NearestNeighbour.CountMissingAll` | src/utils/dijkstra.js:10-14 | Visited and unvisited positions add up to n, so a visiting order never outgrows the location list. |
| `NearestNeighbour.ScanChooses` | src/utils/dijkstra.js:18-26 | A completed inner loop over the first j positions chooses a position exactly when one of them is unvisited. |
| `NearestNeighbour.ScanLogCount` | src/utils/dijkstra.js:18-20 | A completed inner loop makes one request per unvisited position it passes. |
| `NearestNeighbour.StepQueryCount` | src/utils/dijkstra.js:14-26 | Outer step i, with i locations visited, makes n − i requests. |
| `NearestNeighbour.ScanStopsAfterFailure` | src/utils/dijkstra.js:20 | Once a request has failed, the inner loop makes no further requests and stays failed. |
| `NearestNeighbour.ScanNearest` | src/utils/dijkstra.js:18-26 | Every unvisited position passed was answered. `minDistance` is ≤ each of their distances and strictly < the distance of each position before the chosen one, so ties go to the lowest index. |
| `NearestNeighbour.GreedyFrom` | src/utils/dijkstra.js:14-30 | A completed outer loop extends the partial visiting order to a valid order of all n positions. |
| `NearestNeighbour.GreedyLog` | src/utils/dijkstra.js:14-26 | The requests of the outer loop from a partial order on: each step's inner-loop requests, in step order. `GreedyLogCount` counts them. |
| `NearestNeighbour.GreedyFromSucceeds` | src/utils/dijkstra.js:14-30 | From a partial order on, the outer loop completes exactly when every request it makes is answered. |
| `NearestNeighbour.GreedyOrderSucceeds` | src/utils/dijkstra.js:8-33 | The build completes exactly when every request it makes is answered. In particular it always completes, with every location visited once, when the service answers every pair. |
| `NearestNeighbour.GreedyOrder` | src/utils/dijkstra.js:8-33 | A completed build visits n positions, starting at position 0, each exactly once. |
| `NearestNeighbour.GreedyFromNearest` | src/utils/dijkstra.js:14-30 | From a partial order on, each appended position is the nearest unvisited one to its predecessor. |
| `NearestNeighbour.GreedyOrderNearest` | src/utils/dijkstra.js:14-30 | Every appended location is the unvisited location nearest to the one before it, ties going to the lowest index. |
| `NearestNeighbour.GreedyLogCount` | src/utils/dijkstra.js:14-26 | With m positions still unvisited, the rest of the build makes m + (m − 1) + … + 1 requests. |
| `NearestNeighbour.GreedyOrderQueryCount` | src/utils/dijkstra.js:14-26 | A completed build makes n(n − 1)/2 requests. |
| `NearestNeighbour.GreedyAborts` | src/utils/dijkstra.js:18-20 | A failed request in the inner loop ends the whole build, and that request is the last one made. |
| `NearestNeighbour.GreedyStep` | src/utils/dijkstra.js:14-29 | One outer step appends the inner loop's choice. The order stays valid, the build's result is unchanged, and its requests are this step's followed by the rest. |
| `NearestNeighbour.MarkVisited` | src/utils/dijkstra.js:29 | After `visited[nextIndex] = true`, `visited` marks exactly the positions of the extended order. |
| `NearestNeighbour.NearestUnvisited` | src/utils/dijkstra.js:15-26 | The inner loop either completes as `ScanTo` describes and logs the scan's requests, or stops at the first failing unvisited position and logs up to and including that request. |
| `NearestNeighbour.AppendNearest` | src/utils/dijkstra.js:15-29 | One outer step either appends the chosen location to the route and marks it visited, keeping the build's result and remaining requests, or reports that the build fails here. |
| `NearestNeighbour.CalculateShortestRoute` | src/utils/dijkstra.js:8-33 | The returned route is the locations in the order `GreedyOrder` gives, or a failure when a request failed. The requests made are exactly the build's. |

## Left out

- Network access is left out: the routing requests (`src/utils/routeOptimizer.js:2-7`, `src/utils/dijkstra.js:1-6`) and the points-of-interest lookup. They are replaced by the oracle's fixed `answer` function.
- `getChainLocations` (`src/utils/routeOptimizer.js:9-31`) is not modelled: it builds an Overpass query and parses the reply. Its results are an input, `chainBranches`: one list of branch points per selected chain, in selection order. So the user's location and the 5 km radius are not part of the model.
- Floating point is not modelled: distances are natural numbers and `Infinity`. The greedy solver's division by 1000 (metres to kilometres) is left out; it preserves order except where rounding would merge two close distances.
- A reply the service sends without a route is treated like a network failure. Both throw in the source, and both abort the build in the model.
- `async`/`await` is not modelled: every query completes before the next one starts, as the sequential `await`s in the source ensure.
- The React components and `App.js` are not modelled. This includes the start/end check, the alert and the display of the route.
- CalculateShortestRoute: requires at least one location. On an empty list the source returns `[undefined]`, a value outside the point type.
