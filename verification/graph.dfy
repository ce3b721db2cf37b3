/**
 * The transport network and how routes are added to it: stops, undirected
 * connections between two stops, and routes running from the fixed origin
 * (Chancellors Place) through their required stops to the fixed interchange
 * (Indooroopilly).
 */
module Graph {
  import opened Optional

  /** Ids of the two fixed stops the network is built around. */
  const OriginId: int := 1799
  const InterchangeId: int := 2205

  /** A stop; its ground elevation is an input of the model. `fixed` marks
      the two stops the network constructor creates itself: they are objects
      of their own, distinct from every stop read from a route file even
      when the id is the same. */
  datatype Stop = Stop(id: int, elevation: real, fixed: bool)

  /** An undirected connection; `time` is its travel time in seconds and
      `elevation` that of the roadway between the two stops. */
  datatype Connection = Connection(stop1: Stop, stop2: Stop, time: real, elevation: real)

  datatype Route = Route(num: int, origin: Stop, required: seq<Stop>)

  datatype Network = Network(
    stops: seq<Stop>,
    connections: seq<Connection>,
    routes: seq<Route>,
    origin: Stop,
    interchange: Stop)

  /** One line of a route file: the stop reached, and the travel time and
      roadway elevation of the link from the previous stop of the route. */
  datatype RouteRow = RouteRow(id: int, stopElevation: real, linkTime: real, linkElevation: real)

  /** `c` joins `a` and `b`, in either orientation. */
  predicate Joins(c: Connection, a: Stop, b: Stop)
  {
    (c.stop1 == a && c.stop2 == b) || (c.stop2 == a && c.stop1 == b)
  }

  predicate Touches(c: Connection, s: Stop)
  {
    c.stop1 == s || c.stop2 == s
  }

  /** The stop reached by taking `c` from `prev`. */
  function Other(c: Connection, prev: Stop): Stop
  {
    if prev == c.stop1 then c.stop2 else c.stop1
  }

  /** No two stops share an id. */
  predicate UniqueIds(stops: seq<Stop>)
  {
    forall i, j :: 0 <= i < j < |stops| ==> stops[i].id != stops[j].id
  }

  /** No two connections join the same unordered pair of stops. */
  predicate AtMostOnePerPair(conns: seq<Connection>)
  {
    forall i, j :: 0 <= i < j < |conns| ==> !Joins(conns[j], conns[i].stop1, conns[i].stop2)
  }

  /** The connections incident to `s`, in list order. */
  function ConnectionsFor(conns: seq<Connection>, s: Stop): (r: seq<Connection>)
    ensures |r| <= |conns|
    ensures forall c :: c in r <==> c in conns && Touches(c, s)
  {
    if |conns| == 0 then []
    else if Touches(conns[0], s) then [conns[0]] + ConnectionsFor(conns[1..], s)
    else ConnectionsFor(conns[1..], s)
  }

  /** A new route requires only its origin. */
  function NewRoute(num: int, origin: Stop): (r: Route)
    ensures r.num == num && r.origin == origin
    ensures r.required == [origin]
  {
    Route(num, origin, [origin])
  }

  /** Appends `s` to the required stops, leaving the earlier ones as they were. */
  function AddRequiredStop(route: Route, s: Stop): (r: Route)
    ensures r.num == route.num && r.origin == route.origin
    ensures |r.required| == |route.required| + 1
    ensures r.required[..|route.required|] == route.required
    ensures r.required[|route.required|] == s
  {
    route.(required := route.required + [s])
  }

  /** The first stop in list order with the given id, if any. */
  function GetStop(stops: seq<Stop>, id: int): (r: Option<Stop>)
    ensures r.None? <==> forall i :: 0 <= i < |stops| ==> stops[i].id != id
    ensures r.Some? ==> exists i :: 0 <= i < |stops| && stops[i] == r.value && r.value.id == id
                                 && forall j :: 0 <= j < i ==> stops[j].id != id
  {
    if |stops| == 0 then None
    else if stops[0].id == id then Some(stops[0])
    else
      var r := GetStop(stops[1..], id);
      if r.Some? then
        ghost var i :| 0 <= i < |stops[1..]| && stops[1..][i] == r.value && r.value.id == id
                      && forall j :: 0 <= j < i ==> stops[1..][j].id != id;
        assert stops[i + 1] == r.value;
        r
      else r
  }

  /** Whether some connection joins `a` and `b`, in either orientation. */
  function IsConnected(conns: seq<Connection>, a: Stop, b: Stop): (r: bool)
    ensures r <==> exists i :: 0 <= i < |conns| && Joins(conns[i], a, b)
  {
    if |conns| == 0 then false
    else if conns[0].stop1 == a && conns[0].stop2 == b then true
    else if conns[0].stop2 == a && conns[0].stop1 == b then true
    else
      var r := IsConnected(conns[1..], a, b);
      assert r ==> exists i :: 0 <= i < |conns[1..]| && Joins(conns[1..][i], a, b);
      assert r ==> exists i :: 0 <= i < |conns| && Joins(conns[i], a, b) by {
        if r {
          var i :| 0 <= i < |conns[1..]| && Joins(conns[1..][i], a, b);
          assert Joins(conns[i + 1], a, b);
        }
      }
      r
  }

  lemma IsConnectedSymmetric(conns: seq<Connection>, a: Stop, b: Stop)
    ensures IsConnected(conns, a, b) == IsConnected(conns, b, a)
  {
  }

  /** The membership test as the source writes it: the branch for a
      connection stored as (a, b) returns no value, which reads as false. */
  function IsConnectedAsWritten(conns: seq<Connection>, a: Stop, b: Stop): (r: bool)
    ensures r ==> exists i :: 0 <= i < |conns| && conns[i].stop2 == a && conns[i].stop1 == b
  {
    if |conns| == 0 then false
    else if conns[0].stop1 == a && conns[0].stop2 == b then false
    else if conns[0].stop2 == a && conns[0].stop1 == b then true
    else
      var r := IsConnectedAsWritten(conns[1..], a, b);
      assert r ==> exists i :: 0 <= i < |conns| && conns[i].stop2 == a && conns[i].stop1 == b by {
        if r {
          var i :| 0 <= i < |conns[1..]| && conns[1..][i].stop2 == a && conns[1..][i].stop1 == b;
          assert conns[i + 1] == conns[1..][i];
        }
      }
      r
  }

  /** As written, the test is not symmetric: a network holding the single
      connection (a, b) reports a and b as unconnected but b and a as connected. */
  lemma IsConnectedAsWrittenAsymmetric(a: Stop, b: Stop, time: real, elevation: real)
    requires a != b
    ensures var conns := [Connection(a, b, time, elevation)];
      !IsConnectedAsWritten(conns, a, b) && IsConnectedAsWritten(conns, b, a)
      && IsConnected(conns, a, b) && IsConnected(conns, b, a)
  {
  }

  /** An empty network around the two fixed stops. */
  function NewNetwork(originElevation: real, interchangeElevation: real): (n: Network)
    ensures n.stops == [] && n.connections == [] && n.routes == []
    ensures n.origin.id == OriginId && n.interchange.id == InterchangeId
    ensures n.origin.fixed && n.interchange.fixed && n.origin != n.interchange
  {
    Network([], [], [], Stop(OriginId, originElevation, true), Stop(InterchangeId, interchangeElevation, true))
  }

  /** No stop is listed twice. */
  predicate DistinctStops(stops: seq<Stop>)
  {
    forall i, j :: 0 <= i < j < |stops| ==> stops[i] != stops[j]
  }

  /** `s` is a stop of the network or one of its two fixed stops. */
  predicate Known(n: Network, s: Stop)
  {
    s in n.stops || s == n.origin || s == n.interchange
  }

  /** Every connection joins stops the network knows. */
  predicate EndsKnown(n: Network)
  {
    forall c :: c in n.connections ==> Known(n, c.stop1) && Known(n, c.stop2)
  }

  /** Looking a stop up after more stops are appended finds what it found
      before, or, if nothing, what the appended stops hold. */
  lemma {:induction false} GetStopAppend(stops: seq<Stop>, more: seq<Stop>, id: int)
    ensures GetStop(stops + more, id) == if GetStop(stops, id).Some? then GetStop(stops, id) else GetStop(more, id)
    decreases |stops|
  {
    if |stops| == 0 {
      assert stops + more == more;
    } else {
      assert (stops + more)[0] == stops[0];
      assert (stops + more)[1..] == stops[1..] + more;
      GetStopAppend(stops[1..], more, id);
    }
  }

  /** Consecutive required stops of `route` are joined by a connection. */
  predicate Chained(conns: seq<Connection>, route: Route)
  {
    forall i :: 0 <= i < |route.required| - 1 ==> IsConnected(conns, route.required[i], route.required[i + 1])
  }

  /**
   * Adds a route read from `rows`: every row but the last names a stop of
   * the route (created once per id), each linked to the previous required
   * stop unless the two are already connected; the route then ends at the
   * interchange. With no rows and no existing origin-interchange connection
   * the source fails indexing the last row, which is `None` here.
   */
  method AddRoute(net: Network, num: int, rows: seq<RouteRow>) returns (r: Option<Network>)
    ensures r.None? <==> |rows| == 0 && !IsConnected(net.connections, net.origin, net.interchange)
    ensures r.Some? ==> RouteAdded(net, num, rows, r.value)
  {
    var stops := net.stops;
    var conns := net.connections;
    var route := NewRoute(num, net.origin);
    var i := 0;
    while i < |rows| - 1
      invariant 0 <= i <= if |rows| == 0 then 0 else |rows| - 1
      invariant Built(net, num, rows, i, stops, conns, route)
      invariant Added(net, rows, i, stops, conns, route)
    {
      stops, conns, route := AddRow(net, num, rows, i, stops, conns, route);
      i := i + 1;
    }
    var last := route.required[|route.required| - 1];
    var conns' := conns;
    if !IsConnected(conns, last, net.interchange) {
      if |rows| == 0 {
        return None;
      }
      var link := Connection(net.interchange, last, rows[|rows| - 1].linkTime, rows[|rows| - 1].linkElevation);
      conns' := AppendConnection(conns, link);
    }
    FinalLink(net, rows, i, stops, conns, route, conns');
    IsConnectedSymmetric(conns', last, net.interchange);
    var route' := ExtendChain(conns', route, net.interchange);
    r := Some(Network(stops, conns', net.routes + [route'], net.origin, net.interchange));
    RouteDone(net, num, rows, i, stops, conns, route, conns', route');
  }

  /**
   * What adding a route from `rows` yields: the fixed stops are kept;
   * stops, connections and routes only grow, ids and pairs stay unique;
   * the new route runs from the origin through the network's stops with
   * the ids of all rows but the last, in order, to the interchange, along
   * connections; every stop added is read from a row, and every connection
   * added joins two consecutive stops of the route with the time and
   * elevation of the row that reaches the later one.
   */
  predicate RouteAdded(net: Network, num: int, rows: seq<RouteRow>, n: Network)
  {
    && n.origin == net.origin && n.interchange == net.interchange
    && |n.stops| >= |net.stops| && n.stops[..|net.stops|] == net.stops
    && |n.connections| >= |net.connections| && n.connections[..|net.connections|] == net.connections
    && (UniqueIds(net.stops) ==> UniqueIds(n.stops))
    && (AtMostOnePerPair(net.connections) ==> AtMostOnePerPair(n.connections))
    && (forall j :: |net.stops| <= j < |n.stops| ==> RowStop(rows, |rows|, n.stops[j]))
    && |n.routes| == |net.routes| + 1 && n.routes[..|net.routes|] == net.routes
    && var route := n.routes[|net.routes|];
    && route.num == num
    && route.origin == net.origin
    && |route.required| == (if |rows| == 0 then 2 else |rows| + 1)
    && route.required[0] == net.origin
    && route.required[|route.required| - 1] == net.interchange
    && (forall k :: 0 <= k < |rows| - 1 ==> route.required[k + 1].id == rows[k].id)
    && (forall k :: 0 <= k < |rows| - 1 ==> GetStop(n.stops, rows[k].id) == Some(route.required[k + 1]))
    && (forall j :: |net.connections| <= j < |n.connections| ==> RowLink(rows, route, n.connections[j]))
    && Chained(n.connections, route)
  }

  /** Closing the route at the interchange after the rows are added gives
      everything `RouteAdded` asks for. */
  lemma RouteDone(net: Network, num: int, rows: seq<RouteRow>, i: nat, stops: seq<Stop>,
                  conns: seq<Connection>, route: Route, conns': seq<Connection>, route': Route)
    requires i == if |rows| == 0 then 0 else |rows| - 1
    requires Built(net, num, rows, i, stops, conns, route)
    requires Added(net, rows, i, stops, conns', route')
    requires route' == AddRequiredStop(route, net.interchange) && Chained(conns', route')
    requires |conns'| >= |conns| && conns'[..|conns|] == conns
    requires AtMostOnePerPair(conns) ==> AtMostOnePerPair(conns')
    ensures RouteAdded(net, num, rows, Network(stops, conns', net.routes + [route'], net.origin, net.interchange))
  {
    var n := Network(stops, conns', net.routes + [route'], net.origin, net.interchange);
    assert n.routes[|net.routes|] == route';
    assert conns'[..|net.connections|] == conns[..|net.connections|];
    assert forall k :: 0 <= k < |route.required| ==> route'.required[k] == route.required[k];
    forall j | |net.stops| <= j < |stops| ensures RowStop(rows, |rows|, stops[j]) {
      var k :| 0 <= k < i && stops[j] == Stop(rows[k].id, rows[k].stopElevation, false);
    }
  }

  /** The link to the interchange, if one is added, carries the last row's
      time and elevation, and keeps the route's rows, stops and connections
      accounted for. */
  lemma FinalLink(net: Network, rows: seq<RouteRow>, i: nat, stops: seq<Stop>, conns: seq<Connection>,
                  route: Route, conns': seq<Connection>)
    requires |route.required| == i + 1
    requires Added(net, rows, i, stops, conns, route)
    requires conns' == conns || (i < |rows| && conns' == conns + [Connection(net.interchange, route.required[i],
                                                                             rows[i].linkTime, rows[i].linkElevation)])
    ensures Added(net, rows, i, stops, conns', AddRequiredStop(route, net.interchange))
  {
    var route' := AddRequiredStop(route, net.interchange);
    forall k | 0 <= k < i ensures GetStop(stops, rows[k].id) == Some(route'.required[k + 1]) {
      assert route'.required[k + 1] == route.required[k + 1];
    }
    forall j | |net.connections| <= j < |conns'| ensures RowLink(rows, route', conns'[j]) {
      if j < |conns| {
        assert RowLink(rows, route, conns[j]);
        assert conns'[j] == conns[j];
        LinkKept(rows, route, net.interchange, conns[j]);
      } else {
        assert route'.required[i + 1] == net.interchange && route'.required[i] == route.required[i];
        assert conns'[j] == Connection(route'.required[i + 1], route'.required[i], rows[i].linkTime, rows[i].linkElevation);
      }
    }
  }

  /** A link of a route stays one when a stop is appended to the route. */
  lemma LinkKept(rows: seq<RouteRow>, route: Route, s: Stop, c: Connection)
    requires RowLink(rows, route, c)
    ensures RowLink(rows, AddRequiredStop(route, s), c)
  {
    var k :| && 0 <= k < |rows| && k < |route.required| - 1
             && c == Connection(route.required[k + 1], route.required[k], rows[k].linkTime, rows[k].linkElevation);
    var r := AddRequiredStop(route, s);
    assert r.required[k] == route.required[k] && r.required[k + 1] == route.required[k + 1];
  }

  /** What holds once the first `i` rows of a route file are added: the
      stops and connections only grew and stay unique, and the route so far
      runs from the origin along connections. */
  predicate Built(net: Network, num: int, rows: seq<RouteRow>, i: nat,
                  stops: seq<Stop>, conns: seq<Connection>, route: Route)
  {
    && i <= |rows|
    && |stops| >= |net.stops| && stops[..|net.stops|] == net.stops
    && |conns| >= |net.connections| && conns[..|net.connections|] == net.connections
    && (UniqueIds(net.stops) ==> UniqueIds(stops))
    && (AtMostOnePerPair(net.connections) ==> AtMostOnePerPair(conns))
    && route.num == num && route.origin == net.origin
    && |route.required| == i + 1 && route.required[0] == net.origin
    && Chained(conns, route)
    && (i == 0 ==> conns == net.connections)
  }

  /** What the first `i` rows of a route file contributed: the route's
      stops after the origin are the stops found by the rows' ids, in order,
      every stop added is the stop of one of those rows, and every
      connection added is the link of a row. */
  predicate Added(net: Network, rows: seq<RouteRow>, i: nat,
                  stops: seq<Stop>, conns: seq<Connection>, route: Route)
  {
    && i <= |rows|
    && |route.required| >= i + 1
    && (forall k :: 0 <= k < i ==> GetStop(stops, rows[k].id) == Some(route.required[k + 1]))
    && (forall j :: |net.stops| <= j < |stops| ==> RowStop(rows, i, stops[j]))
    && (forall j :: |net.connections| <= j < |conns| ==> RowLink(rows, route, conns[j]))
  }

  /** `s` is the stop one of the first `i` rows describes, read from the
      file and so not one of the fixed stops. */
  predicate RowStop(rows: seq<RouteRow>, i: nat, s: Stop)
    requires i <= |rows|
  {
    exists k :: 0 <= k < i && s == Stop(rows[k].id, rows[k].stopElevation, false)
  }

  /** `c` is the link row `k` describes: from the route's stop `k + 1` back
      to its stop `k`, with that row's time and elevation. */
  predicate RowLink(rows: seq<RouteRow>, route: Route, c: Connection)
  {
    exists k :: && 0 <= k < |rows| && k < |route.required| - 1
                && c == Connection(route.required[k + 1], route.required[k], rows[k].linkTime, rows[k].linkElevation)
  }

  /** One row of the route file: find or create its stop, connect it to the
      previous required stop unless already connected, and require it. */
  method AddRow(net: Network, num: int, rows: seq<RouteRow>, i: nat,
                stops: seq<Stop>, conns: seq<Connection>, route: Route)
    returns (stops': seq<Stop>, conns': seq<Connection>, route': Route)
    requires i < |rows|
    requires Built(net, num, rows, i, stops, conns, route)
    requires Added(net, rows, i, stops, conns, route)
    ensures Built(net, num, rows, i + 1, stops', conns', route')
    ensures Added(net, rows, i + 1, stops', conns', route')
    ensures var found := GetStop(stops, rows[i].id);
      var next := if found.None? then Stop(rows[i].id, rows[i].stopElevation, false) else found.value;
      var last := route.required[|route.required| - 1];
      && stops' == (if found.None? then stops + [next] else stops)
      && conns' == (if IsConnected(conns, next, last) then conns
                    else conns + [Connection(next, last, rows[i].linkTime, rows[i].linkElevation)])
      && route' == AddRequiredStop(route, next)
  {
    var found := GetStop(stops, rows[i].id);
    var next := if found.None? then Stop(rows[i].id, rows[i].stopElevation, false) else found.value;
    stops' := if found.None? then stops + [next] else stops;
    var last := route.required[|route.required| - 1];
    var link := Connection(next, last, rows[i].linkTime, rows[i].linkElevation);
    conns' := if IsConnected(conns, next, last) then conns else AppendConnection(conns, link);
    route' := AddRequiredStop(route, next);
    RowBuilt(net, num, rows, i, stops, conns, route, next, stops', conns');
    RowFound(net, rows, i, stops, route, next, stops');
    RowAdded(net, rows, i, stops, conns, route, next, stops', conns');
  }

  /** One more row keeps the stops and connections growing, unique, and the
      route chained. */
  lemma RowBuilt(net: Network, num: int, rows: seq<RouteRow>, i: nat, stops: seq<Stop>, conns: seq<Connection>,
                 route: Route, next: Stop, stops': seq<Stop>, conns': seq<Connection>)
    requires i < |rows|
    requires Built(net, num, rows, i, stops, conns, route)
    requires next.id == rows[i].id
    requires || (stops' == stops && GetStop(stops, rows[i].id) == Some(next))
             || (stops' == stops + [next] && GetStop(stops, rows[i].id).None?)
    requires var link := Connection(next, route.required[i], rows[i].linkTime, rows[i].linkElevation);
      conns' == if IsConnected(conns, next, route.required[i]) then conns else conns + [link]
    ensures Built(net, num, rows, i + 1, stops', conns', AddRequiredStop(route, next))
  {
    StopsGrow(net, rows, i, stops, next, stops');
    LinksGrow(net, conns, route, next, rows[i].linkTime, rows[i].linkElevation, conns');
  }

  /** A stop is appended only when its id is new, so ids stay unique. */
  lemma StopsGrow(net: Network, rows: seq<RouteRow>, i: nat, stops: seq<Stop>, next: Stop, stops': seq<Stop>)
    requires i < |rows| && next.id == rows[i].id
    requires |stops| >= |net.stops| && stops[..|net.stops|] == net.stops
    requires || (stops' == stops && GetStop(stops, rows[i].id) == Some(next))
             || (stops' == stops + [next] && GetStop(stops, rows[i].id).None?)
    ensures |stops'| >= |net.stops| && stops'[..|net.stops|] == net.stops
    ensures UniqueIds(stops) ==> UniqueIds(stops')
  {
    if stops' != stops {
      assert stops'[..|stops|] == stops;
    }
  }

  /** A link is appended only when the two stops are not connected yet, so
      pairs stay unique, and the route extended by `next` stays chained. */
  lemma LinksGrow(net: Network, conns: seq<Connection>, route: Route, next: Stop, time: real, elevation: real,
                  conns': seq<Connection>)
    requires |route.required| > 0 && Chained(conns, route)
    requires |conns| >= |net.connections| && conns[..|net.connections|] == net.connections
    requires var link := Connection(next, route.required[|route.required| - 1], time, elevation);
      conns' == if IsConnected(conns, next, route.required[|route.required| - 1]) then conns else conns + [link]
    ensures |conns'| >= |net.connections| && conns'[..|net.connections|] == net.connections
    ensures AtMostOnePerPair(conns) ==> AtMostOnePerPair(conns')
    ensures Chained(conns', AddRequiredStop(route, next))
  {
    var last := route.required[|route.required| - 1];
    var link := Connection(next, last, time, elevation);
    if !IsConnected(conns, next, last) {
      var r := AppendConnection(conns, link);
      assert conns'[..|conns|] == conns;
    }
    assert forall a, b :: IsConnected(conns, a, b) ==> IsConnected(conns', a, b);
    var route' := ExtendChain(conns', route, next);
  }

  /** After one more row, the rows' ids still find the route's stops, the
      new one included. */
  lemma RowFound(net: Network, rows: seq<RouteRow>, i: nat, stops: seq<Stop>, route: Route,
                 next: Stop, stops': seq<Stop>)
    requires i < |rows| && |route.required| == i + 1
    requires forall k :: 0 <= k < i ==> GetStop(stops, rows[k].id) == Some(route.required[k + 1])
    requires || (stops' == stops && GetStop(stops, rows[i].id) == Some(next))
             || (stops' == stops + [next] && GetStop(stops, rows[i].id).None? && next.id == rows[i].id)
    ensures forall k :: 0 <= k < i + 1 ==> GetStop(stops', rows[k].id) == Some(AddRequiredStop(route, next).required[k + 1])
  {
    var route' := AddRequiredStop(route, next);
    forall k | 0 <= k < i + 1 ensures GetStop(stops', rows[k].id) == Some(route'.required[k + 1]) {
      if stops' != stops {
        GetStopAppend(stops, [next], rows[k].id);
      }
      if k < i {
        assert route'.required[k + 1] == route.required[k + 1];
      }
    }
  }

  /** One row keeps the stops and connections added accounted for. */
  lemma RowAdded(net: Network, rows: seq<RouteRow>, i: nat, stops: seq<Stop>, conns: seq<Connection>,
                 route: Route, next: Stop, stops': seq<Stop>, conns': seq<Connection>)
    requires i < |rows| && |route.required| == i + 1
    requires Added(net, rows, i, stops, conns, route)
    requires forall k :: 0 <= k < i + 1 ==> GetStop(stops', rows[k].id) == Some(AddRequiredStop(route, next).required[k + 1])
    requires stops' == stops || (stops' == stops + [next] && next == Stop(rows[i].id, rows[i].stopElevation, false))
    requires || conns' == conns
             || conns' == conns + [Connection(next, route.required[i], rows[i].linkTime, rows[i].linkElevation)]
    ensures Added(net, rows, i + 1, stops', conns', AddRequiredStop(route, next))
  {
    var route' := AddRequiredStop(route, next);
    forall j | |net.stops| <= j < |stops'| ensures RowStop(rows, i + 1, stops'[j]) {
      if j < |stops| {
        assert RowStop(rows, i, stops[j]);
        assert stops'[j] == stops[j];
      } else {
        assert stops'[j] == Stop(rows[i].id, rows[i].stopElevation, false);
      }
    }
    forall j | |net.connections| <= j < |conns'| ensures RowLink(rows, route', conns'[j]) {
      if j < |conns| {
        assert RowLink(rows, route, conns[j]);
        assert conns'[j] == conns[j];
        LinkKept(rows, route, next, conns[j]);
      } else {
        assert route'.required[i + 1] == next && route'.required[i] == route.required[i];
      }
    }
  }

  /** Appending a connection keeps every earlier connection test true, and
      keeps pairs unique when the new pair was not connected yet. */
  function AppendConnection(conns: seq<Connection>, c: Connection): (r: seq<Connection>)
    requires !IsConnected(conns, c.stop1, c.stop2)
    ensures r == conns + [c]
    ensures AtMostOnePerPair(conns) ==> AtMostOnePerPair(r)
    ensures IsConnected(r, c.stop1, c.stop2)
    ensures forall a, b :: IsConnected(conns, a, b) ==> IsConnected(r, a, b)
  {
    var r := conns + [c];
    assert Joins(r[|conns|], c.stop1, c.stop2);
    assert forall a, b :: IsConnected(conns, a, b) ==> IsConnected(r, a, b) by {
      forall a, b | IsConnected(conns, a, b) ensures IsConnected(r, a, b) {
        var i :| 0 <= i < |conns| && Joins(conns[i], a, b);
        assert Joins(r[i], a, b);
      }
    }
    r
  }

  /** Appending `s` to a chained route keeps it chained, given the new link. */
  function ExtendChain(conns: seq<Connection>, route: Route, s: Stop): (r: Route)
    requires |route.required| > 0
    requires Chained(conns, route)
    requires IsConnected(conns, s, route.required[|route.required| - 1])
    ensures r == AddRequiredStop(route, s)
    ensures Chained(conns, r)
  {
    IsConnectedSymmetric(conns, s, route.required[|route.required| - 1]);
    AddRequiredStop(route, s)
  }

  /** The route numbers of the four route files the network constructor
      reads, in the order it adds them. */
  const RouteNumbers: seq<int> := [414, 427, 428, 432]

  /** A route stays chained when connections are only appended. */
  lemma ChainedGrows(conns: seq<Connection>, more: seq<Connection>, route: Route)
    requires Chained(conns, route)
    requires |more| >= |conns| && more[..|conns|] == conns
    ensures Chained(more, route)
  {
    forall i | 0 <= i < |route.required| - 1
      ensures IsConnected(more, route.required[i], route.required[i + 1])
    {
      var j :| 0 <= j < |conns| && Joins(conns[j], route.required[i], route.required[i + 1]);
      assert more[j] == conns[j];
    }
  }

  /** What the network constructor promises of the routes added so far:
      the first `k` route numbers in order, each from the origin to the
      interchange along connections of `n`. */
  predicate RoutesBuilt(n: Network, k: nat)
    requires k <= |RouteNumbers|
  {
    && |n.routes| == k
    && forall i :: 0 <= i < k ==>
         && n.routes[i].num == RouteNumbers[i]
         && n.routes[i].origin == n.origin
         && |n.routes[i].required| >= 2
         && n.routes[i].required[0] == n.origin
         && n.routes[i].required[|n.routes[i].required| - 1] == n.interchange
         && Chained(n.connections, n.routes[i])
  }

  /** The route files `files` gave the first `k` routes of `n`: route `i`
      runs through the network's stops with the ids of all rows of file `i`
      but the last, in order. */
  predicate RoutesFrom(n: Network, files: seq<seq<RouteRow>>, k: nat)
    requires k <= |files| && k <= |n.routes|
  {
    forall i :: 0 <= i < k ==>
      && |n.routes[i].required| == (if |files[i]| == 0 then 2 else |files[i]| + 1)
      && forall m :: 0 <= m < |files[i]| - 1 ==> GetStop(n.stops, files[i][m].id) == Some(n.routes[i].required[m + 1])
  }

  /** Everything the first `k` route files put into `n` came from their rows:
      every listed stop is the stop some row describes, and every connection
      is the link some row of file `i` describes along route `i`, with that
      row's time and elevation. */
  predicate FromFiles(n: Network, files: seq<seq<RouteRow>>, k: nat)
    requires k <= |files| && k <= |n.routes|
  {
    && (forall s :: s in n.stops ==> exists i :: 0 <= i < k && RowStop(files[i], |files[i]|, s))
    && (forall c :: c in n.connections ==> exists i :: 0 <= i < k && RowLink(files[i], n.routes[i], c))
  }

  /** What the network constructor promises of a network it built: the two
      fixed stops with their ids, kept apart from the stops read from the
      files, ids and pairs unique, every connection between stops the
      network knows, and the four routes in order. */
  predicate Constructed(n: Network)
  {
    && n.origin.id == OriginId && n.interchange.id == InterchangeId
    && n.origin.fixed && n.interchange.fixed
    && UniqueIds(n.stops) && (forall s :: s in n.stops ==> !s.fixed)
    && AtMostOnePerPair(n.connections)
    && EndsKnown(n)
    && RoutesBuilt(n, |RouteNumbers|)
  }

  /**
   * The network constructor: a new network, then the route files for
   * 414, 427, 428 and 432 in turn, given here as their parsed rows. It
   * fails (`None`) only when `AddRoute` does, on an empty file.
   */
  method BuildNetwork(originElevation: real, interchangeElevation: real, files: seq<seq<RouteRow>>)
    returns (r: Option<Network>)
    requires |files| == |RouteNumbers|
    ensures r.Some? ==> Constructed(r.value) && RoutesFrom(r.value, files, |files|)
    ensures r.Some? ==> FromFiles(r.value, files, |files|)
    ensures r.Some? ==> r.value.origin.elevation == originElevation && r.value.interchange.elevation == interchangeElevation
    ensures (forall k :: 0 <= k < |files| ==> |files[k]| > 0) ==> r.Some?
    ensures r.None? ==> exists k :: 0 <= k < |files| && files[k] == []
  {
    var net := NewNetwork(originElevation, interchangeElevation);
    var k := 0;
    while k < |files|
      invariant 0 <= k <= |files|
      invariant net.origin == NewNetwork(originElevation, interchangeElevation).origin
      invariant net.interchange == NewNetwork(originElevation, interchangeElevation).interchange
      invariant UniqueIds(net.stops) && (forall s :: s in net.stops ==> !s.fixed)
      invariant AtMostOnePerPair(net.connections) && EndsKnown(net)
      invariant RoutesBuilt(net, k)
      invariant RoutesFrom(net, files, k)
      invariant FromFiles(net, files, k)
    {
      var added := AddRoute(net, RouteNumbers[k], files[k]);
      if added.None? {
        return None;
      }
      RouteBuilt(net, k, files[k], added.value);
      RouteFrom(net, files, k, RouteNumbers[k], added.value);
      RouteStops(net, RouteNumbers[k], files[k], added.value);
      RouteRows(net, files, k, RouteNumbers[k], added.value);
      net := added.value;
      k := k + 1;
    }
    r := Some(net);
  }

  /** Adding route file `k` extends `RoutesBuilt` by one route. */
  lemma RouteBuilt(net: Network, k: nat, rows: seq<RouteRow>, n: Network)
    requires k < |RouteNumbers|
    requires RoutesBuilt(net, k)
    requires RouteAdded(net, RouteNumbers[k], rows, n)
    ensures RoutesBuilt(n, k + 1)
  {
    forall i | 0 <= i < k
      ensures Chained(n.connections, n.routes[i])
    {
      assert n.routes[i] == net.routes[i];
      ChainedGrows(net.connections, n.connections, net.routes[i]);
    }
  }

  /** Adding route file `k` extends `RoutesFrom` by one route: the earlier
      routes' stops are still the ones their ids find. */
  lemma RouteFrom(net: Network, files: seq<seq<RouteRow>>, k: nat, num: int, n: Network)
    requires k < |files| && |net.routes| == k
    requires RoutesFrom(net, files, k)
    requires RouteAdded(net, num, files[k], n)
    ensures RoutesFrom(n, files, k + 1)
  {
    var more := n.stops[|net.stops|..];
    assert n.stops == net.stops + more;
    forall i, m | 0 <= i < k && 0 <= m < |files[i]| - 1
      ensures GetStop(n.stops, files[i][m].id) == Some(n.routes[i].required[m + 1])
    {
      assert n.routes[i] == net.routes[i];
      GetStopAppend(net.stops, more, files[i][m].id);
    }
  }

  /** Adding route file `k` extends `FromFiles` by one file: what it appends
      comes from its rows, and what was there comes from earlier files. */
  lemma RouteRows(net: Network, files: seq<seq<RouteRow>>, k: nat, num: int, n: Network)
    requires k < |files| && |net.routes| == k
    requires FromFiles(net, files, k)
    requires RouteAdded(net, num, files[k], n)
    ensures FromFiles(n, files, k + 1)
  {
    forall s | s in n.stops ensures exists i :: 0 <= i < k + 1 && RowStop(files[i], |files[i]|, s) {
      var j :| 0 <= j < |n.stops| && n.stops[j] == s;
      if j < |net.stops| {
        assert net.stops[j] == s && s in net.stops;
        var i :| 0 <= i < k && RowStop(files[i], |files[i]|, s);
        assert 0 <= i < k + 1 && RowStop(files[i], |files[i]|, s);
      } else {
        assert 0 <= k < k + 1 && RowStop(files[k], |files[k]|, n.stops[j]);
      }
    }
    forall c | c in n.connections ensures exists i :: 0 <= i < k + 1 && RowLink(files[i], n.routes[i], c) {
      var j :| 0 <= j < |n.connections| && n.connections[j] == c;
      if j < |net.connections| {
        assert net.connections[j] == c;
        assert c in net.connections;
        var i :| 0 <= i < k && RowLink(files[i], net.routes[i], c);
        assert n.routes[i] == net.routes[i];
      } else {
        assert RowLink(files[k], n.routes[k], c);
      }
    }
  }

  /** Adding a route keeps the stops read from files apart from the fixed
      stops, and every connection between stops the network knows. */
  lemma RouteStops(net: Network, num: int, rows: seq<RouteRow>, n: Network)
    requires RouteAdded(net, num, rows, n)
    requires (forall s :: s in net.stops ==> !s.fixed) && EndsKnown(net)
    ensures (forall s :: s in n.stops ==> !s.fixed) && EndsKnown(n)
  {
    forall s | s in n.stops ensures !s.fixed {
      var j :| 0 <= j < |n.stops| && n.stops[j] == s;
      if j < |net.stops| {
        assert net.stops[j] == s;
      } else {
        assert RowStop(rows, |rows|, n.stops[j]);
      }
    }
    forall s | s in net.stops ensures s in n.stops {
      var j :| 0 <= j < |net.stops| && net.stops[j] == s;
      assert n.stops[j] == s;
    }
    var route := n.routes[|net.routes|];
    forall m | 0 <= m < |route.required| ensures Known(n, route.required[m]) {
      if 0 < m < |route.required| - 1 {
        assert GetStop(n.stops, rows[m - 1].id) == Some(route.required[m]);
      }
    }
    forall c | c in n.connections ensures Known(n, c.stop1) && Known(n, c.stop2) {
      var j :| 0 <= j < |n.connections| && n.connections[j] == c;
      if j < |net.connections| {
        assert net.connections[j] == c;
      } else {
        assert RowLink(rows, route, c);
      }
    }
  }
}
