# Flight route engines, modelled in Dafny

The repository has two in-memory engines over a directed graph of cities. Each flight has a non-negative integer cost. This project models both engines.

- **Route enumerator** (`script.js`). The `Graph` class keeps an adjacency map. `findAllRoutes` runs a recursive depth-first search from `start`.
  - The search shares two things: a `visited` set, pushed on entry and popped on exit, and a `routes` array.
  - It records `{ path, cost, layovers }` every time it reaches `end`.
  - It abandons any branch deeper than four flights.
  - It stops a neighbour loop once `maxRoutes` routes have been recorded.
  - It then sorts by cost, then by layovers, and keeps the first `maxRoutes`.
- **Cheapest-route engine** (`graph.js`). The `FlightGraph` class keeps its nodes in insertion order, plus adjacency lists. `findCheapestRoute` is Dijkstra's algorithm:
  - It selects by a linear scan over the unvisited cities in insertion order. A strict `<` means the first minimum wins.
  - It exits early as soon as the destination is selected.
  - It rebuilds the path by following the `previous` links back from `end`.

Files:

- `flights.dfy` (module `Flights`): the shared vocabulary.
  - Flight records, adjacency lists, and `Out`, which returns an empty list for a city without one.
  - `IsWalk` / `Connects`: what it means for a sequence of cities to be a route of a given total cost.
  - Lemmas that extend a walk at either end.
- `route_enumeration.dfy` (module `RouteEnumeration`):
  - The class `Graph`.
  - The class `RouteSearch`. It holds `findAllRoutes`' shared `visited` and `routes` state.
  - The recursive `dfs` is two mutually recursive methods. `Dfs` is its three early exits and the recording of a route. `Explore` is the rest: the `visited` push, the neighbour loop and the pop.
  - Each method's contract gives the new `routes` exactly, as the ghost functions `DfsRun` and `LoopRun` of the routes held on entry. These functions replay the search, including the `maxRoutes` break.
  - `Completions` is the set of routes that extend the current path to `end`. Lemmas about `DfsRun` and `LoopRun` prove three things. Every appended route is a completion. Unless the cap was reached, every completion is appended. Without parallel flights, no route is appended twice.
  - `Search` is the search half of `findAllRoutes`. It states what these lemmas give for `dfs(start, [start], 0, 0)`.
  - An in-place insertion sort with the source's comparator.
  - `FindAllRoutes`.
- `cheapest_route.dfy` (module `CheapestRoute`):
  - The class `FlightGraph`, whose `nodes` is an ordered sequence of keys.
  - The selection scan `SelectMin`, the neighbour loop `Relax`, and the path reconstruction `Reconstruct`. All three are loops with invariants.
  - `DijkstraState`, the main loop's invariant, and the lemmas that keep it.
  - `FindCheapestRoute`.

Modelling decisions:

- Costs are `nat`.
- JavaScript's `Infinity` is the constructor `Inf` of `datatype Dist = Inf | Fin(n: nat)`. `Less` is JavaScript's `<` on these values.
- A distance that is `undefined` is `None` in an `Option`. This happens for a destination that is not a node.
- In the selection scan (graph.js:42), a city without a distance compares like `Infinity`. There the lookup is the left operand of `<`, and `undefined < x` is false. `DistOf` models this lookup.
- Relaxation (graph.js:56) compares against the target's distance on the right, and `alt < undefined` is false. So `Relax` skips a target without a distance, where it would lower a distance of `Infinity`. In a graph built by `addEdge`, every flight target is a node and has a distance.
- `findAllRoutes`'s `maxRoutes` is a `nat`.
- The sort is modelled as an insertion sort on a copy of the recorded routes. The language requires the sort to be stable.

Behaviours the code has, which the model follows:

- With `start == end`, the enumerator records the single route `[start]`, with cost 0 and layovers −1.
- With two flights between the same pair of cities, the enumerator can record the same route twice. This happens when the two flights cost the same. So the model states "no route recorded twice" only for graphs without parallel flights (`NoParallelFlights`).
- With `maxRoutes` set to 0, every neighbour loop breaks after its first recursive call. So at most one route is recorded, and the result is empty.
- When `end` is not a node, `findCheapestRoute` returns `{ path: [end], cost: undefined }`.
- On a known but unreachable `end`, `findCheapestRoute` returns `{ path: [], cost: Infinity }`.

## Model

| member | source | states |
|---|---|---|
| Flights.WalkAppend | script.js:123-124 | following one more flight out of the last city of a route gives a route whose cost is increased by that flight's cost |
| Flights.WalkSplitFront | script.js:122-124 | a route of two or more cities starts with one flight out of its first city, followed by a route from the second city costing that much less |
| Flights.Out | script.js:122 | a city without an adjacency list has no outgoing flights (the empty-list default, also used at graph.js:53) |
| Flights.WalkPrepend | graph.js:70-71 | putting a city in front of a route, along one of its flights into the first city, gives a route whose cost is increased by that flight's cost |
| RouteEnumeration.Graph.constructor | script.js:2-4 | a new graph has no vertices |
| RouteEnumeration.Graph.AddVertex | script.js:6-10 | the vertex exists afterwards; an existing vertex and its list are untouched; a new one gets an empty list; every flight still leads to a vertex |
| RouteEnumeration.Graph.AddEdge | script.js:12-16 | both endpoints become vertices; the source's list gains exactly `{city: destination, cost}` at its end; every other list is unchanged |
| RouteEnumeration.RouteSearch.constructor | script.js:104-105 | `routes` and `visited` start empty |
| RouteEnumeration.RouteSearch.Dfs | script.js:107-129 | entered with the cities before `current` as the visited set, `dfs` leaves `visited` exactly as found and leaves `routes` exactly as `DfsRun` of the routes held on entry |
| RouteEnumeration.RouteSearch.Explore | script.js:119-128 | marking the city visited, searching through each flight out of it until `maxRoutes` routes are held, and unmarking it, leaves `visited` as found and `routes` exactly as `LoopRun` from the first flight |
| RouteEnumeration.DfsRun | script.js:107-129 | the search only appends to `routes`; entered below `maxRoutes` it never ends above `maxRoutes`; entered at or above it (always the case when `maxRoutes` is 0) it appends at most one route |
| RouteEnumeration.LoopRun | script.js:123-126 | the neighbour loop, with its break once `routes.length >= maxRoutes`, only appends, and keeps the same bounds |
| RouteEnumeration.CompletionsFromStart | script.js:131 | the completions of the initial call `dfs(start, [start], 0, 0)` are exactly the valid simple routes from `start` to `end` of at most four flights |
| RouteEnumeration.TooDeepBlocks | script.js:108 | a path of more than four flights has no completion, so returning there misses nothing |
| RouteEnumeration.RepeatedCityBlocks | script.js:119 | a path whose last city already occurs earlier has no completion, so returning on a visited city misses nothing |
| RouteEnumeration.EndIsFinal | script.js:110-117 | a path that reaches `end` has no completion other than itself, so recording it and returning misses nothing |
| RouteEnumeration.CompletionExtends | script.js:124 | every completion of a path begins with that path's cities |
| RouteEnumeration.CompletionSplit | script.js:122-124 | every completion of a path leaves by one of the last city's flights, and is a completion of the path extended by that flight |
| RouteEnumeration.BranchCompletion | script.js:122-124 | conversely, a completion of the path extended by one of the last city's flights is a completion of the path |
| RouteEnumeration.ContinuesPrepend | script.js:124 | the walk that completes the extended path, with the path's last city put in front, completes the path at that flight's extra cost |
| RouteEnumeration.DfsRunSound | script.js:107-129 | every route `dfs` appends is a completion of its path, when the cities before the last are distinct and exclude `end` |
| RouteEnumeration.LoopRunSound | script.js:123-126 | every route the neighbour loop appends completes the path through one of the flights not yet searched |
| RouteEnumeration.DfsRunComplete | script.js:107-129 | if `dfs` ends with fewer than `maxRoutes` routes held, every completion of its path is among them |
| RouteEnumeration.LoopRunComplete | script.js:123-126 | if the neighbour loop ends with fewer than `maxRoutes` routes held, every completion through the flights it had left is among them |
| RouteEnumeration.FlightsPart | script.js:122-124 | without parallel flights, no completion through one flight out of a city is a completion through a later flight out of it |
| RouteEnumeration.DfsRunNoRepeats | script.js:107-129 | without parallel flights, `dfs` appends no route twice |
| RouteEnumeration.LoopRunNoRepeats | script.js:123-126 | without parallel flights, the neighbour loop appends no route twice |
| RouteEnumeration.Search | script.js:103-131 | every route found is a valid simple route from `start` to `end` of at most four flights; at most `maxRoutes` are found, and at most one when `maxRoutes` is 0; when fewer than `maxRoutes >= 1` are found, every such route is found; with `start == end` exactly `[start]` is found; without parallel flights no route is found twice |
| RouteEnumeration.Compare | script.js:134-137 | the comparator is negative exactly when `a` is cheaper, or equally cheap with fewer layovers, and zero exactly when cost and layovers agree |
| RouteEnumeration.SortRoutes | script.js:134-137 | the routes end ordered by cost and, on equal cost, by layovers, and are a permutation of the input |
| RouteEnumeration.FindAllRoutes | script.js:103-140 | every recorded route is a valid simple route of at most four flights; at most `maxRoutes` are recorded when `maxRoutes >= 1`; when `maxRoutes >= 1` and fewer than `maxRoutes` routes were recorded, every such route was recorded; the result is the first `maxRoutes` of an ordered permutation of the recorded routes, hence at most `maxRoutes` long and drawn from them; with `start == end` and `maxRoutes >= 1` the result is the single route `[start]` of cost 0; without parallel flights neither the recorded routes nor the result hold a route twice |
| CheapestRoute.LessOrder | graph.js:42 | JavaScript's `<` on costs and `Infinity` is irreflexive, asymmetric, transitive and total, with `Infinity` above every finite cost and below none |
| CheapestRoute.MissingDistance | graph.js:42-56 | for a city without a distance, `Map.get` gives `undefined`; the scan's lookup `DistOf` gives `Infinity`, which is below no candidate, as `undefined` is; under `DistOf` every finite `alt` would beat it, which `alt < undefined` does not, so relaxation skips such a city |
| CheapestRoute.Without | graph.js:50 | deleting a city leaves exactly the other cities, keeps them distinct, and shortens a distinct sequence holding it by one |
| CheapestRoute.WithoutCutsOut | graph.js:50 | in a sequence of distinct cities, deleting a city cuts it out at its position and keeps the others in their order |
| CheapestRoute.Insert | graph.js:8-12 | a new key goes to the end of the insertion order, an existing key leaves the order as it was, and keys stay distinct |
| CheapestRoute.FirstMinimumUnique | graph.js:38-46 | the selection rule determines the selected city uniquely |
| CheapestRoute.SelectMin | graph.js:38-46 | the scan yields nothing exactly when every unvisited distance is `Infinity`, and otherwise the first unvisited city whose finite distance is strictly below all earlier ones and at most all later ones |
| CheapestRoute.Relax | graph.js:53-60 | distances only decrease and the current city's never changes; every flight out of the current city bounds its target's distance; a distance that changed did so strictly through one of those flights and its predecessor became the current city; where the distance did not change, the predecessor did not change either |
| CheapestRoute.FirstUnvisited | graph.js:36-61 | every route from `start` to an unvisited city passes through an unvisited city whose distance is already at most the route's cost |
| CheapestRoute.MinimumIsOptimal | graph.js:38-48 | if any route reaches an unvisited city, the scan selects a city, and the selected distance is at most that route's cost |
| CheapestRoute.EndSettled | graph.js:48 | when the loop stops on `end`, on all-infinite distances or on an empty set, then for every route from `start` to `end`, `end`'s distance is finite and at most its cost |
| CheapestRoute.SelectionFacts | graph.js:38-60 | the selected city is unvisited and at most every unvisited distance; relaxing its flights leaves every settled distance unchanged and changes only unsettled cities other than itself |
| CheapestRoute.SelectedIsOptimal | graph.js:38-48 | no route from `start` reaches the selected city for less than its distance |
| CheapestRoute.StepKeepsRoot | graph.js:53-60 | after relaxing, `start` still has no predecessor and it is the only city with a finite distance and no predecessor |
| CheapestRoute.StepKeepsLinks | graph.js:55-58 | after relaxing, every predecessor was removed from `unvisited` strictly before its successor, and some flight of that predecessor accounts exactly for the successor's distance |
| CheapestRoute.StepKeepsOrder | graph.js:50-60 | after relaxing, no settled distance exceeds any unvisited distance |
| CheapestRoute.StepKeepsFrontier | graph.js:50-60 | after relaxing, every settled city, the selected one included, has an optimal distance, and every flight out of a settled city is relaxed |
| CheapestRoute.StepKeepsShape | graph.js:50 | after settling the selected city, distances stay defined exactly on the nodes, one city fewer is unvisited, and the settled cities, the new one included, are nodes, are off the unvisited list, settled in earlier steps and keep their recorded distances |
| CheapestRoute.SettleStep | graph.js:36-61 | one iteration of the main loop keeps the whole loop invariant: settled distances never change again and stay optimal, predecessors are settled earlier and account for their successors' distances, and one city fewer is unvisited (so the loop runs at most once per node) |
| CheapestRoute.InitialState | graph.js:30-34 | the initialisation establishes the loop invariant with every node unvisited, `start` at 0 and every other node at `Infinity` |
| CheapestRoute.LoopOutcome | graph.js:36-61 | when the loop stops, `end` has a distance exactly when it is a node, that distance bounds every route from `start` to `end`, and the predecessor links are acyclic, rooted at `start` and cost-accurate |
| CheapestRoute.Reconstruct | graph.js:68-75 | following the predecessor links ends, and rebuilds a route from `start` to `end` whose cost is exactly `end`'s distance and which visits no city twice; for an unknown `end`, or for `start == end`, the path is `[end]` |
| CheapestRoute.ChainRanked | graph.js:70-72 | each predecessor was settled before its successor, so putting it in front keeps the settling ranks strictly increasing along the path |
| CheapestRoute.RankedDistinct | graph.js:68-73 | a path whose settling ranks strictly increase repeats no city, so the rebuilt path is simple |
| CheapestRoute.ChainStep | graph.js:70-71 | one `unshift` along a predecessor link keeps the rebuilt path a route and keeps the distance accounted for |
| CheapestRoute.FlightGraph.constructor | graph.js:3-6 | a new graph has no nodes and no flights |
| CheapestRoute.FlightGraph.AddNode | graph.js:8-12 | the city is added at the end of the insertion order only when absent; the flights are untouched; keys stay distinct |
| CheapestRoute.FlightGraph.AddEdge | graph.js:14-23 | both endpoints become nodes; `edges[from]` gains exactly `{city: to, cost}` at its end; every other list is unchanged |
| CheapestRoute.FlightGraph.FindCheapestRoute | graph.js:25-76 | the cost is `undefined` exactly for an unknown `end`, whose path is `[end]`; a cost of `Infinity` comes with an empty path and happens exactly when no route leads from `start` to `end`; a finite cost comes with a route from `start` to `end` of exactly that cost that no route undercuts, despite the early exit; the path never visits a city twice; with `start == end` and a node the result is `[start]` at cost 0 |

## Left out

- DOM and UI code in `script.js` is not modelled: `showError`, the global error handlers, `findRoute`'s form reading, `displayRoutes`' HTML rendering and the `DOMContentLoaded` wiring. These are presentation and I/O.
- `normalizeCityName` is not modelled. It relies on JavaScript's Unicode case mapping. City names are compared as exact strings.
- The static flight tables and both `initializeGraph` builders are constant data, and are not modelled.
- The values of `FlightGraph.nodes` are always empty lists and never read. Only the keys and their insertion order are modelled.
- JavaScript numbers are modelled as `nat`. Floating-point rounding and negative costs are not modelled, since the Dijkstra invariants need non-negative costs.
- `Infinity` is a sentinel constructor, not an IEEE value.
- RouteEnumeration.SortRoutes: the contract states ordered and a permutation, but does not state stability. The insertion sort swaps only when `Compare` is positive, so equal routes keep their order, but no lemma proves this.
- RouteEnumeration.FindAllRoutes: `routes.sort` works in place on the array the search filled. The model sorts a fresh array copied from the recorded sequence; no other code holds that array.
- RouteEnumeration.FindAllRoutes: with `maxRoutes` set to 0, its contract states no bound on the number of recorded routes. `Search` states the bound of one.
- RouteEnumeration.FindAllRoutes: completeness is stated only when `maxRoutes >= 1` and the cap was not reached. Once the cap is reached, which routes are found depends on the order in which the flights were added. `DfsRun` gives that set exactly, through the `Dfs` contract, but no lemma describes it in other terms.
- RouteEnumeration.Search: it states the properties of the routes it finds, not `found == DfsRun(...)` itself. That equation is the postcondition of `Dfs`.
