# Flood-aware bus routing: a Dafny model

This project models the routing core of a small flood-evacuation simulator
for a bus network in Brisbane. The network holds stops, undirected
connections and routes. Every route runs from Chancellors Place (stop 1799)
through its required stops to Indooroopilly interchange (stop 2205). The
water level rises linearly from 0 m to 20 m over four hours. A step along a
connection is passable only while both the roadway and the stop it arrives
at are above the water at the arrival time.

The controller does four things:

- It precomputes all-pairs shortest travel times with one run of Dijkstra's
  algorithm per stop.
- It searches, best-first, for a walk from the origin to the interchange
  that passes every required stop. The walk must stay passable and keep
  within the route's time budget.
- It caches the walk found for each route.
- At each query it reuses the cached walk while it can still be driven. A
  disaster-resistant controller searches again when the cached walk fails;
  any other controller gives the route up.

Modules, following the two source files:

- `Optional`: the `Option` type.
- `Flood`: the water level, from `get_water_level_for_time`.
- `Graph`: stops, connections, routes and the network builder, from
  `transport_graph.py`.
- `Sorting`: Python's `list.sort` with a key, modelled as an insertion sort
  on sequences.
- `Walks`: the checks for a single step and for a whole walk.
- `ShortestPaths`: `init_shortest_paths`.
- `Search`: the heuristic, the pruning tests, the completeness test and the
  search itself.
- `WalkCache`: `get_optimal_walk` and `init_walks`.

Modelling choices:

- Times, elevations and water levels are `real`. Python floats are not
  modelled.
- A `Stop` is its id, its ground elevation and a `fixed` flag. The flag
  is set only on the origin and the interchange, which the network
  constructor creates itself.
- A `Connection` is its two stops, its travel time and its roadway
  elevation. The controller reads `connection.time` and `.elevation`, while
  `transport_graph.py` stores `weight` and `altitude`. The model uses one
  record for both.
- Python object identity of stops and connections becomes value equality.
  The `fixed` flag keeps this faithful for the two fixed stops. A stop read
  from a route file is a different object from them, even with id 1799 or
  2205, and in the model it differs in the flag.
- `network.get_connections_for_stop` is not part of this model's source
  files. `Graph.ConnectionsFor` stands in for it: the connections touching
  the stop, in list order.
- Per-route time budgets are a map from route number to seconds.
  `Walks.DefaultBudgets` holds the controller's values: 47, 38, 42 and 37
  minutes for routes 414, 427, 428 and 432. `WalkCache.NewController`
  builds the controller with them.
- The search tree is defined in the model (`Search.Descend`): the root at
  the origin, and below every node the children `Search.Child` makes for
  it. The search's exhaustiveness is stated over this tree.
- The shortest-path table is an input of the search. The search reads only
  the row of the interchange. `WalkCache.NewController` builds the table
  over the network's stops and its two fixed stops (see Findings).
- `transport_graph.py` calls the free functions `connection_exists` (line
  74) and `is_connected` (line 79), which it never defines. They are read as
  the network's own connectivity test, `Graph.IsConnected`.
- Line 103 of `transport_graph.py` has `::` where `:` is meant. It is read
  as `:`.
- `init_shortest_paths` re-sorts its initial open list after every label
  it appends (controller.py:92-95). The model sorts the finished list once.
  With a stable sort the two orders coincide.

Termination: the search loop in the model needs no fuel or `decreases *`.
A surviving walk uses each connection at most twice, so its length is
bounded by twice the number of connections. The measure
`Σ (K+1)^(D − |walk|)` over the open list therefore falls with every
expansion (`Search.ExpansionShrinks`). Here K is the number of connections
and D is 2K.

## Model

| member | source | states |
|---|---|---|
| Flood.WaterLevel | controller.py:328-330 | The level is never above 20 m. It is 0 m at time 0 and at least 0 m from then on. It is exactly 20 m from four hours on, and in between it is 0 + 20·t/14400. |
| Flood.Flooded | controller.py:323-324 | A place is flooded out exactly when its elevation is at most 20 m and the time is at least 720 s per metre of its elevation. A place above 20 m is never flooded out. |
| Flood.FloodedPersists | controller.py:323-324 | A place flooded out at some time is still flooded out at every later time. |
| Walks.DefaultBudgets | controller.py:25-33 | There is a budget for exactly the four route numbers the network constructor adds (414, 427, 428, 432), and every budget is positive. |
| Walks.StepValid | controller.py:313-326 | A step is valid exactly when neither the connection nor the arrival stop is at or below the water level at the arrival time. A valid step arrives at departure plus travel time; an invalid one reports -1. |
| Walks.StepInvalidPersists | controller.py:313-326 | A step that is blocked when taken at some time is blocked when taken at any later time. |
| Walks.FloodScenario | controller.py:313-330 | Take two stops at 30 m joined by a 5 m roadway. The step between them is passable exactly when it arrives before 3600 s, when the water reaches 5 m. |
| Walks.IsWalkValid | controller.py:295-310 | The replay from the origin accepts a walk exactly when every step i is clear of water at its own arrival time and arrives within the route's budget of the departure time. So the empty walk is valid, and one bad step invalidates the walk. |
| Walks.ValidFromSteps | controller.py:299-310 | The step-by-step replay loop agrees with the per-step reference definition, for any starting stop, time and budget. |
| Walks.ValidPrefix | controller.py:299-310 | The replay gives up at the first bad step, so every prefix of a walk that can be driven can be driven too. |
| Walks.AppendValid | controller.py:213-219 | A walk extended by one connection can be driven exactly when the walk can be driven, the new step is valid at the walk's arrival time, and it arrives within budget. |
| Walks.InvalidStaysInvalid | controller.py:295-310 | A walk that cannot be driven when leaving at t1 cannot be driven when leaving at any later t2. |
| Walks.ValidEarlier | controller.py:301-309 | A walk that can be driven leaving later can also be driven leaving earlier, with the same elapsed-time budget. |
| Walks.ConcatWalk | controller.py:217-219 | A walk followed by another is linked exactly when the first is linked and the second is linked from where the first ends; the joined walk ends where the second does. |
| Walks.ConcatMeasures | controller.py:217-219 | The stops reached and the duration of two walks driven one after the other are those of the first followed by those of the second. |
| Walks.ReverseWalk | controller.py:101-113 | A linked walk driven backwards is linked from its end, leads back to its start in the same time, and reaches only the start and the stops the walk reached. The network's connections are undirected. |
| Graph.NewRoute | transport_graph.py:28-32 | A new route's required stops are exactly its origin. |
| Graph.AddRequiredStop | transport_graph.py:34-35 | The stop is appended at the end, and all earlier required stops are unchanged. |
| Graph.GetStop | transport_graph.py:87-94 | The result is None exactly when no stop has the id. Otherwise it is the first stop in list order with that id. |
| Graph.GetStopAppend | transport_graph.py:87-94 | Appending stops does not change what a lookup by id found before; a lookup that found nothing finds what the appended stops hold. |
| Graph.IsConnected | transport_graph.py:96-105 | True exactly when some connection joins the two stops, in either orientation. |
| Graph.IsConnectedSymmetric | transport_graph.py:96-105 | The connectivity test does not depend on the order of its two stops. |
| Graph.IsConnectedAsWritten | transport_graph.py:100-105 | The test as written is true only when some connection is stored in the reversed orientation (b, a). |
| Graph.IsConnectedAsWrittenAsymmetric | transport_graph.py:101-104 | Take a network with the one connection (a, b), where a ≠ b. The test as written says a and b are unconnected but b and a are connected, while the intended test says both are connected. |
| Graph.ConnectionsFor | controller.py:200 | The connections offered for a stop are exactly those of the network that touch it, and there are no more of them than connections. |
| Graph.NewNetwork | transport_graph.py:46-51 | A new network has no stops, connections or routes. Its origin and interchange carry ids 1799 and 2205. They are the two fixed stops, and they differ from each other. |
| Graph.AppendConnection | transport_graph.py:74-75 | Appending a connection between two stops not yet connected makes them connected and keeps every earlier connection. It also keeps at most one connection per unordered pair. |
| Graph.AddRow | transport_graph.py:69-76 | One row of a route file appends a new stop, read from the row and not fixed, exactly when no stop has its id; otherwise it reuses the stop found by id. It appends a connection from that stop to the last required stop, with the row's time and elevation, exactly when the two are not yet connected. It then appends the stop to the required stops. Nothing else changes. Ids stay unique, no pair is connected twice, and the route stays chained. |
| Graph.AddRoute | transport_graph.py:59-84 | It fails exactly when the route file is empty and the origin is not yet connected to the interchange; in that case the source fails indexing the last row. Otherwise: stops and connections only grow at the end, stop ids stay unique, and there is at most one connection per pair. The route is appended once; it has the given number, starts at the origin, ends at the interchange, and has one required stop per row plus the origin. Required stop k+1 is the stop that looking up row k's id in the new network finds. Each two consecutive required stops are connected. Every stop appended is the stop read from some row. Every connection appended is the link of some row k: from required stop k+1 back to required stop k, with row k's time and elevation. For the last row this is the link to the interchange. |
| Graph.BuildNetwork | transport_graph.py:46-57 | The constructor's network has the fixed origin 1799 and the fixed interchange 2205 with the given elevations. Every listed stop is the stop some row of some file describes, with that row's id and elevation and not fixed; ids are unique. Every connection is the link some row k of file i describes: from route i's required stop k+1 back to its stop k, with row k's time and elevation. There is at most one connection per pair. Every connection joins listed or fixed stops. It has four routes, numbered 414, 427, 428 and 432 in order, each from the origin to the interchange along its connections. Route i has one required stop per row of file i plus the origin, and required stop k+1 is the network's stop with the id of row k of file i. It fails only when some route file is empty, and it does not fail when none is. |
| Graph.RouteStops | transport_graph.py:59-84 | Adding a route keeps every listed stop apart from the fixed stops, and every connection between listed or fixed stops. |
| Graph.RouteFrom | transport_graph.py:68-76 | Adding a route does not change which stop an earlier route file's ids find, so earlier routes still run through the stops their rows name. |
| Graph.RouteRows | transport_graph.py:59-84 | After one more route file, every listed stop and every connection still comes from a row of the files added so far: the new ones from the new file, the old ones from the file that added them. |
| Sorting.SortBy | controller.py:117 | The re-sorted list is a permutation of the input (the same multiset), has the same length, and is sorted by the key. |
| Sorting.SortByKeepsDistinct | controller.py:117 | Re-sorting a list with no two entries for the same stop keeps it that way. |
| ShortestPaths.Unsettled | controller.py:92-94 | The initial labels cover every stop but the source, once each when stop ids are unique, all at INF. |
| ShortestPaths.Relax | controller.py:110-114 | No label's stop or position changes, and no time rises. Labels of other stops are unchanged, and a changed label is one of the neighbour with the new time. On a list with one label per stop, the neighbour's label ends at most at the new time. |
| ShortestPaths.RelaxAfterFirst | controller.py:110-114 | The relaxation loop stops at the first label of the neighbour (`break`), so any later label keeps its time. |
| ShortestPaths.RelaxFirstLowered | controller.py:110-114 | The first label of the neighbour drops to the smaller of its old time and the new one. |
| ShortestPaths.RelaxNeighbours | controller.py:101-114 | After relaxing the popped stop's connections to unsettled stops, no label rises, and the stops keep their order. Each changed label is now exactly the popped time plus the time of a connection from the popped stop to it. No neighbour is above the popped time plus the connection's time. With non-negative times, no label falls below the popped time. |
| ShortestPaths.SettleRun | controller.py:98-117 | Settling the head of the open list keeps the loop invariant. Settled times are at most every open time, and no connection from a settled stop offers a shortcut. |
| ShortestPaths.SettleOutside | controller.py:101-116 | Settling the head keeps at INF every stop outside a set that no connection leaves and that holds the source. |
| ShortestPaths.ShortestFrom | controller.py:85-118 | One source's row has an entry for every stop, 0 for the source itself, and nothing above INF. With non-negative connection times it has no negative entry, and no connection between two stops of the row offers a shortcut either way. Every entry below INF is the duration of an actual walk from the source that stops only at listed stops. A stop cut off from the source stays at INF. |
| ShortestPaths.SettleWitnessed | controller.py:99-117 | With non-negative times, settling the head keeps every settled time and every open label below INF equal to the duration of some walk from the source that stops only at listed stops. |
| ShortestPaths.AttainedStep | controller.py:110-113 | A time at which a walk through listed stops reaches a stop, plus the time of a connection from that stop to another listed stop, is a time at which such a walk reaches the connection's other end. |
| ShortestPaths.RowIsShortest | controller.py:79-118 | With non-negative times, a row entry is the shortest time over walks that stop only at listed stops: it is at most the duration of every such walk from the source to the stop, and, below INF, it is the duration of one such walk. |
| ShortestPaths.InitShortestPaths | controller.py:75-119 | The table has a row for every stop of the network, and every row satisfies the facts above. With non-negative times the table is symmetric, and it obeys the triangle inequality: an entry is at most the sum of the entries through any third stop. |
| ShortestPaths.RowBack | controller.py:79-118 | With non-negative times, the entry from b back to a is at most the entry from a to b: the walk found for one is driven backwards. |
| ShortestPaths.RowThrough | controller.py:79-118 | With non-negative times, the entry from a to b is at most the entry from a to c plus the entry from c to b, when both are below INF. |
| ShortestPaths.TableSymmetric | controller.py:75-119 | With non-negative times, the table entry from a to b equals the entry from b to a. |
| ShortestPaths.TableTriangle | controller.py:75-119 | With non-negative times, the table entry from a to b is at most the entry from a to c plus the entry from c to b. |
| ShortestPaths.UnreachableIsInf | controller.py:82-94 | With non-negative connection times, a stop that no walk from the source reaches keeps the time INF = 10e8. |
| ShortestPaths.PotentialAlongWalk | controller.py:110-113 | Along any walk over the connections whose stops all have entries, an edge-relaxed row changes by at most the walk's duration, in either direction. |
| Search.HeuristicAdmissible | controller.py:244-259 | The heuristic at a stop is at most the duration of any walk from that stop to the interchange. It never overestimates. |
| Search.HeuristicAttained | controller.py:244-259 | With non-negative times, a heuristic value below INF is the duration of an actual walk between the interchange and the stop. So the heuristic is the exact shortest time, not just a lower bound. |
| Search.IsWalkSuboptimal | controller.py:266-271 | The extended walk is pruned exactly when the new connection occurs in it more than twice. |
| Search.CountIsMultiplicity | controller.py:270 | Counting the list entries equal to a connection gives the connection's multiplicity in the walk. |
| Search.IsWalkComplete | controller.py:273-292 | The completeness test passes exactly when the node stands at the interchange and every required stop is in its visited set. |
| Search.AllSeen | controller.py:288-292 | The loop over the required stops succeeds exactly when every required stop is in the visited set. |
| Search.CompleteNode | controller.py:186-190 | A popped node that passes the completeness test carries a walk that ends at the interchange and passes every required stop. |
| Search.WalkLengthBoundByUses | controller.py:266-271 | A walk that uses connections of the network no more than twice each is at most twice as long as the connection list. |
| Search.ChildOk | controller.py:200-237 | A child built from a valid node by one passable, in-budget, unpruned step is again a valid node. Its walk replays from the origin to its stop in its time, and use counts and visited stops stay sound. |
| Search.Child | controller.py:202-234 | A child is made exactly when none of the five tests fires: a connection reused in trail mode, a flooded step, arrival over budget, a third use of the connection, or a priority over budget. A child extends the walk by the connection and stands at its other end. Its time is the parent's plus the connection's, and its priority is its time plus the heuristic at its stop. Its visited set gains the stop exactly when it is required. It is again a valid node. |
| Search.Expand | controller.py:200-237 | The children are the children `Child` makes along the stop's connections, in connection order, and nothing else. Every child offered along any connection is among them. Each is a valid node one step deeper. |
| Search.DescendOk | controller.py:181-237 | Every node of the search tree (the root, and below each node the children it is offered) is a valid node. |
| Search.DescendWalk | controller.py:217-219 | The tree node below a node along some connections carries the node's walk extended by those connections. |
| Search.RootFrontier | controller.py:181-183 | The open list holding only the root covers every solution of the search tree. |
| Search.NextFrontier | controller.py:185-238 | Popping an incomplete node, adding all its children and re-sorting keeps every solution of the tree below some open node. |
| Search.NoSolutionLeft | controller.py:185 | When the open list runs empty while it covers the tree, the tree has no solution. |
| Search.ExpansionShrinks | controller.py:185-238 | Popping a node, adding its children and re-sorting strictly lowers the open list's weight, so the search ends. |
| Search.OptimalWalkSearch | controller.py:155-242 | It returns None only when the controller is not disaster-resistant. A returned walk can be driven from the origin at the search time within the budget, is linked, and uses only network connections. It uses no connection more than once in trail mode and twice otherwise. It passes every required stop and ends at the interchange, unless the controller is disaster-resistant and it is the fallback walk (empty, or ending at the interchange). The search is exhaustive: whenever some node of the search tree passes the completeness test, a walk of such a node is returned. So a plain controller returns None only when no such node exists. |
| WalkCache.GetOptimalWalk | controller.py:135-152 | A cached None is returned and the cache is unchanged. A cached walk that can still be driven is returned unchanged. Otherwise a plain controller stores and returns None. A disaster-resistant one stores and returns a fresh trail-mode search result, which is never None and meets every promise of the search. Any walk returned can be driven at the query time. |
| WalkCache.InitWalks | controller.py:122-127 | The cache has an entry for exactly the routes of the network, each from a trail-mode search leaving at time 0. Each entry meets the search's promises: a sound walk, None only for a plain controller, and a complete walk whenever the search tree has one. |
| WalkCache.NewController | controller.py:3-23 | For a network the constructor built, the default budgets cover every route. The shortest-path table has a row for every listed stop and for both fixed stops, and each row is exact as above. So every entry the search reads is present. The cache then holds an initial walk for exactly the network's routes, each meeting the search's promises. |
| WalkCache.TableAsWritten | controller.py:20 | The table the source builds from `network.stops` alone has exact rows, but none for the interchange, so the search's heuristic lookups are not all defined. |
| WalkCache.TableStopsDistinct | transport_graph.py:46-84 | In a network the constructor built, the listed stops and the two fixed stops are all distinct. |
| WalkCache.TableCoversSearch | controller.py:244-259 | A table with a row for the interchange covering the listed and fixed stops has every entry the search reads. |

## Left out

- The bus and passenger simulation (`update`, `update_buses`, `is_complete`) is left out. It depends on a `Bus` class that is not part of this model.
- `print_stats` is left out because it is console output. `cache_optimum_walks` is left out because it is an empty stub.
- The controller's clock and tick length (`current_time`, `seconds_per_tick`) are left out. The query time is a parameter.
- The `Network` constructor's reading of the four route files is left out, and so are `utils.py`, `main.py` and the GUI. `Graph.AddRoute` takes the parsed rows as input.
- Altitude lookup is left out. `get_altitude` is a stub, so elevations are inputs of the model.
- `Search.OptimalWalkSearch` and the cache operations take the table as an input and require `HeuristicDefined`: the table has the entries the search reads. `WalkCache.NewController` builds such a table (see Findings).
- Search.OptimalWalkSearch: does not state that the result is the quickest complete walk. The open list is ordered by a heuristic priority, so no such promise is made. The search is proved exhaustive instead: it finds a complete walk whenever the search tree holds one.
- Search.OptimalWalkSearch: does not state that the fallback walk has the largest visited set among the interchange nodes popped. It only states that the fallback walk is empty or ends at the interchange.
- ShortestPaths.ShortestFrom: requires that no stop is listed twice. The source does not check it. Every network the constructor builds lists each stop once, and so does the corrected table's stop list.
- ShortestPaths.Relax: the contract states that the neighbour's label ends at most at the new time only for a list with one label per stop, which the run keeps. The first-label behaviour for other lists is stated by `ShortestPaths.RelaxAfterFirst` and `ShortestPaths.RelaxFirstLowered`.
- Walks.IsWalkValid: requires the route number to have a budget. The source reads the budget only after a passable step, so an unknown route fails there only when its first step is passable.
- Sorting.SortBy: does not state that the sort is stable (Python's sort is). Ties between equal priorities only affect which of several candidate nodes is popped first.
- `get_heuristic`'s unused route and walk parameters are dropped, and so is the commented-out furthest-required-stop heuristic.
- `get_num_required_visited` is left out because it has no body.
- Graph.BuildNetwork: takes the parsed rows of the four route files as input. It does not model `read_route_file` or the file names. Where `add_route` would raise on an empty file, the model returns None.
- Floating-point rounding of times and levels is not modelled.

## Findings

| source | as written | input that shows it | evidently intended | confidence | as-written member | corrected member |
|---|---|---|---|---|---|---|
| controller.py:20-22 | The constructor builds the table with one run per stop of `network.stops` (controller.py line 85). The network constructor never puts its two fixed stops there, so the table has no row for the interchange. The root of every search computes its heuristic (line 181), which looks up the interchange's row (line 259) and raises a lookup error, so constructing the controller fails in `init_walks`. | Any network with at least one route, for example the one the constructor builds | The table also covers the origin and the interchange, so every heuristic lookup succeeds | not executed | WalkCache.TableAsWritten | WalkCache.NewController |
| transport_graph.py:101-102 | A connection stored as (stop_1, stop_2) makes the method `return` with no value, which is falsy. Only a connection stored the other way round makes it return True. | One connection (a, b) with a ≠ b: `is_connected(a, b)` is falsy, while `is_connected(b, a)` is True | `return True` in both branches, so the test is symmetric and true whenever some connection joins the stops | not executed | Graph.IsConnectedAsWritten, Graph.IsConnectedAsWrittenAsymmetric | Graph.IsConnected, Graph.IsConnectedSymmetric |
