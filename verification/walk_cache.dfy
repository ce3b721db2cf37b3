/**
 * The controller's per-route cache of the last walk found, and the policy
 * that decides, at each query, whether to reuse it, search again, or give
 * the route up for good.
 */
module WalkCache {
  import opened Optional
  import opened Graph
  import opened Walks
  import opened ShortestPaths
  import opened Search

  /** Last walk found per route; `None` once the route has no walk. */
  type Cache = map<Route, Option<seq<Connection>>>

  /** What a trail-mode search for `route` leaving at `time` answers: no
      walk only for a controller that is not disaster-resistant, a sound
      walk otherwise, and a complete walk of the search tree whenever the
      tree has one. */
  ghost predicate Searched(cfg: Config, table: Table, route: Route, time: real, result: Option<seq<Connection>>)
    requires route.num in cfg.budgets
    requires HeuristicDefined(cfg.net, table)
  {
    && (result.None? ==> !cfg.disasterResistant)
    && (result.Some? ==> SoundWalk(cfg, route, time, true, result.value))
    && ((exists w :: TreeSolution(cfg, table, route, time, true, w)) ==>
          result.Some? && TreeSolution(cfg, table, route, time, true, result.value))
  }

  /** The initial walks: a trail-mode search from time 0 for every route of
      the network, in list order. */
  method InitWalks(cfg: Config, table: Table) returns (cache: Cache)
    requires HeuristicDefined(cfg.net, table)
    requires forall i :: 0 <= i < |cfg.net.routes| ==> cfg.net.routes[i].num in cfg.budgets
    ensures cache.Keys == set i | 0 <= i < |cfg.net.routes| :: cfg.net.routes[i]
    ensures forall route :: route in cache ==> route.num in cfg.budgets && Searched(cfg, table, route, 0.0, cache[route])
  {
    var routes := cfg.net.routes;
    cache := map[];
    var k := 0;
    while k < |routes|
      invariant 0 <= k <= |routes|
      invariant cache.Keys == set i | 0 <= i < k :: routes[i]
      invariant forall route :: route in cache ==> route.num in cfg.budgets && Searched(cfg, table, route, 0.0, cache[route])
    {
      var walk := OptimalWalkSearch(cfg, table, routes[k], 0.0, true);
      assert Searched(cfg, table, routes[k], 0.0, walk);
      cache := cache[routes[k] := walk];
      k := k + 1;
    }
  }

  /**
   * The shortest-path table as the controller's constructor builds it: one
   * run from every stop of the network's stop list. The network constructor
   * never lists its two fixed stops there, so the table has no row for the
   * interchange, and the heuristic of the root of every search, the
   * interchange's entry for the origin, cannot be looked up.
   */
  method TableAsWritten(net: Network) returns (table: Table)
    requires Constructed(net)
    ensures TableFacts(net, table)
    ensures net.interchange !in table
    ensures !HeuristicDefined(net, table)
  {
    UniqueDistinct(net.stops);
    table := InitShortestPaths(net);
    assert net.interchange !in StopSet(net.stops);
  }

  /** The stops the controller's table is built over: the network's stops,
      then its two fixed stops. */
  function TableStops(net: Network): seq<Stop>
  {
    net.stops + [net.origin, net.interchange]
  }

  /** Ids that are unique make stops that are distinct. */
  lemma UniqueDistinct(stops: seq<Stop>)
    requires UniqueIds(stops)
    ensures DistinctStops(stops)
  {
    forall i, j | 0 <= i < j < |stops| ensures stops[i] != stops[j] {
      assert stops[i].id != stops[j].id;
    }
  }

  /** In a network the constructor built, the table's stops are distinct:
      the fixed stops are apart from the listed ones and from each other. */
  lemma TableStopsDistinct(net: Network)
    requires Constructed(net)
    ensures DistinctStops(TableStops(net))
  {
    UniqueDistinct(net.stops);
    var all := TableStops(net);
    forall i, j | 0 <= i < j < |all| ensures all[i] != all[j] {
      if j == |net.stops| {
        assert all[i] in net.stops;
      } else if j == |net.stops| + 1 && i < |net.stops| {
        assert all[i] in net.stops;
      }
    }
  }

  /** A table with a row for every table stop has every entry the search
      reads, since every connection joins stops the network knows. */
  lemma TableCoversSearch(net: Network, table: Table)
    requires EndsKnown(net)
    requires net.interchange in table && table[net.interchange].Keys == StopSet(TableStops(net))
    ensures HeuristicDefined(net, table)
  {
    var stops := StopSet(TableStops(net));
    assert TableStops(net)[|net.stops|] == net.origin;
    forall c | c in net.connections ensures c.stop1 in stops && c.stop2 in stops {
      assert Known(net, c.stop1) && Known(net, c.stop2);
    }
  }

  /**
   * The controller as constructed for a network the network constructor
   * built: the default budgets, the shortest-path table over the network's
   * stops and its two fixed stops, and the initial walks.
   */
  method NewController(net: Network, disasterResistant: bool) returns (cfg: Config, table: Table, cache: Cache)
    requires Constructed(net)
    ensures cfg.net == net && cfg.disasterResistant == disasterResistant
    ensures TableFacts(net.(stops := TableStops(net)), table)
    ensures HeuristicDefined(net, table)
    ensures forall i :: 0 <= i < |net.routes| ==> net.routes[i].num in cfg.budgets
    ensures cache.Keys == set i | 0 <= i < |net.routes| :: net.routes[i]
    ensures forall route :: route in cache ==> route.num in cfg.budgets && Searched(cfg, table, route, 0.0, cache[route])
  {
    cfg := Config(net, disasterResistant, DefaultBudgets());
    forall i | 0 <= i < |net.routes| ensures net.routes[i].num in cfg.budgets {
      assert net.routes[i].num == RouteNumbers[i];
    }
    TableStopsDistinct(net);
    var full := net.(stops := TableStops(net));
    table := InitShortestPaths(full);
    assert net.interchange in StopSet(full.stops);
    assert SourceFacts(full.stops, full.connections, net.interchange, table[net.interchange]);
    TableCoversSearch(net, table);
    cache := InitWalks(cfg, table);
  }

  /**
   * The walk to drive for `route` leaving at `time`, and the cache after
   * the query. A cached `None` is final; a cached walk that can still be
   * driven is reused; otherwise a disaster-resistant controller searches
   * again in trail mode and caches the result, and any other controller
   * gives the route up.
   */
  method GetOptimalWalk(cfg: Config, table: Table, cache: Cache, route: Route, time: real)
    returns (walk: Option<seq<Connection>>, cache': Cache)
    requires route in cache && route.num in cfg.budgets
    requires HeuristicDefined(cfg.net, table)
    ensures cache[route].None? ==> walk.None? && cache' == cache
    ensures cache[route].Some? && IsWalkValid(cfg, cache[route].value, time, route.num) ==>
      walk == cache[route] && cache' == cache
    ensures cache[route].Some? && !IsWalkValid(cfg, cache[route].value, time, route.num) && !cfg.disasterResistant ==>
      walk.None? && cache' == cache[route := None]
    ensures cache[route].Some? && !IsWalkValid(cfg, cache[route].value, time, route.num) && cfg.disasterResistant ==>
      cache' == cache[route := walk] && walk.Some? && Searched(cfg, table, route, time, walk)
    ensures walk.Some? ==> IsWalkValid(cfg, walk.value, time, route.num)
    ensures cache'.Keys == cache.Keys
  {
    var previous := cache[route];
    if previous.None? {
      return previous, cache;
    } else if IsWalkValid(cfg, previous.value, time, route.num) {
      return previous, cache;
    } else if cfg.disasterResistant {
      var found := OptimalWalkSearch(cfg, table, route, time, true);
      return found, cache[route := found];
    } else {
      return None, cache[route := None];
    }
  }
}
