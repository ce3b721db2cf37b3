/**
 * The controller's all-pairs shortest travel times: one run of Dijkstra's
 * algorithm per source stop over a list of (stop, time) labels that is
 * re-sorted by time after every settled stop. Unreached stops keep the
 * "infinite" time 10e8.
 */
module ShortestPaths {
  import opened Graph
  import opened Sorting
  import opened Walks

  /** The controller's stand-in for infinity: 10e8 seconds. */
  const Inf: real := 1000000000.0

  /** `table[a][b]`: the least travel time found from `a` to `b`. */
  type Table = map<Stop, map<Stop, real>>

  /** An open-list entry: a stop and its tentative time from the source. */
  datatype Label = Label(stop: Stop, time: real)

  function TimeOf(l: Label): real { l.time }
  function StopOf(l: Label): Stop { l.stop }

  function StopSet(stops: seq<Stop>): set<Stop> { set s | s in stops }
  function OpenStops(open: seq<Label>): set<Stop> { set l | l in open :: l.stop }

  predicate NonNegativeTimes(conns: seq<Connection>)
  {
    forall c :: c in conns ==> 0.0 <= c.time
  }

  /** No connection between two stops of `d` offers a shortcut, either way. */
  predicate EdgeRelaxed(d: map<Stop, real>, conns: seq<Connection>)
  {
    forall c :: c in conns && c.stop1 in d && c.stop2 in d ==>
      d[c.stop2] <= d[c.stop1] + c.time && d[c.stop1] <= d[c.stop2] + c.time
  }

  /** `r` holds both ends of every connection or neither: no connection
      leaves it. */
  predicate Closed(conns: seq<Connection>, r: set<Stop>)
  {
    forall c :: c in conns ==> (c.stop1 in r <==> c.stop2 in r)
  }

  /** Some walk from `source` over `conns`, stopping only at `stops` on the
      way, ends at `v` and takes time `t`. */
  ghost predicate Attained(stops: seq<Stop>, conns: seq<Connection>, source: Stop, v: Stop, t: real)
  {
    exists walk :: && Linked(source, walk) && (forall c :: c in walk ==> c in conns)
                   && (forall s :: s in Reached(source, walk) ==> s in stops)
                   && EndStop(source, walk) == v && Duration(walk) == t
  }

  /** What one source's row of the table satisfies: an entry for every stop,
      zero to itself, nothing beyond infinity, and, when no connection has a
      negative time, no negative entry, no edge that could still relax,
      every entry below infinity the time of an actual walk from the
      source, and infinity for every stop that no connection path links to
      the source (outside every connection-closed set holding the source). */
  ghost predicate SourceFacts(stops: seq<Stop>, conns: seq<Connection>, source: Stop, d: map<Stop, real>)
  {
    && d.Keys == StopSet(stops)
    && source in d && d[source] == 0.0
    && (forall s :: s in d ==> d[s] <= Inf)
    && (NonNegativeTimes(conns) ==> (forall s :: s in d ==> 0.0 <= d[s]) && EdgeRelaxed(d, conns))
    && (NonNegativeTimes(conns) ==> forall v :: v in d && d[v] < Inf ==> Attained(stops, conns, source, v, d[v]))
    && (NonNegativeTimes(conns) ==>
         forall r :: Closed(conns, r) && source in r ==> forall v :: v in d && v !in r ==> d[v] == Inf)
  }

  /** With no negative connection time, every label and settled time below
      infinity is the time of an actual walk from the source. */
  ghost predicate Witnessed(stops: seq<Stop>, conns: seq<Connection>, source: Stop, open: seq<Label>,
                            dist: map<Stop, real>)
  {
    NonNegativeTimes(conns) ==>
      && (forall i :: 0 <= i < |open| && open[i].time < Inf ==> Attained(stops, conns, source, open[i].stop, open[i].time))
      && (forall v :: v in dist && dist[v] < Inf ==> Attained(stops, conns, source, v, dist[v]))
  }

  /** With no negative connection time, stops cut off from the source by a
      connection-closed set stay at infinity. */
  ghost predicate CutOff(conns: seq<Connection>, source: Stop, open: seq<Label>, dist: map<Stop, real>)
  {
    NonNegativeTimes(conns) ==> forall r :: Closed(conns, r) && source in r ==> OutsideInf(r, open, dist)
  }

  /** Stops outside `r` are at infinity, both in the open list and settled. */
  predicate OutsideInf(r: set<Stop>, open: seq<Label>, dist: map<Stop, real>)
  {
    && (forall i :: 0 <= i < |open| && open[i].stop !in r ==> open[i].time == Inf)
    && (forall v :: v in dist && v !in r ==> dist[v] == Inf)
  }

  /** The labels of every stop but the source, all at infinity. */
  function Unsettled(stops: seq<Stop>, source: Stop): (r: seq<Label>)
    ensures forall i :: 0 <= i < |r| ==> r[i].time == Inf && r[i].stop != source
    ensures OpenStops(r) == StopSet(stops) - {source}
    ensures DistinctStops(stops) ==> DistinctBy(r, StopOf)
  {
    if |stops| == 0 then []
    else
      var rest := Unsettled(stops[1..], source);
      assert StopSet(stops) == {stops[0]} + StopSet(stops[1..]) by {
        assert stops == [stops[0]] + stops[1..];
      }
      if stops[0] != source then
        var r := [Label(stops[0], Inf)] + rest;
        assert OpenStops(r) == {stops[0]} + OpenStops(rest);
        assert DistinctStops(stops) ==> DistinctBy(r, StopOf) by {
          if DistinctStops(stops) {
            assert DistinctStops(stops[1..]);
            forall i | 0 <= i < |rest| ensures rest[i].stop != stops[0] {
              assert rest[i].stop in OpenStops(rest);
              var k :| 0 <= k < |stops[1..]| && stops[1..][k] == rest[i].stop;
              assert stops[k + 1] == rest[i].stop;
            }
          }
        }
        r
      else
        assert DistinctStops(stops) ==> DistinctStops(stops[1..]);
        rest
  }

  /** Lowers the time of the first label of `v` to `t` if that is smaller. */
  function Relax(open: seq<Label>, v: Stop, t: real): (r: seq<Label>)
    ensures |r| == |open|
    ensures forall i :: 0 <= i < |r| ==> r[i].stop == open[i].stop && r[i].time <= open[i].time
    ensures forall i :: 0 <= i < |r| ==> r[i].time == open[i].time || (open[i].stop == v && r[i].time == t)
    ensures forall i :: 0 <= i < |r| && open[i].stop != v ==> r[i] == open[i]
    ensures DistinctBy(open, StopOf) ==> forall i :: 0 <= i < |r| && open[i].stop == v ==> r[i].time <= t
  {
    if |open| == 0 then []
    else if open[0].stop == v then
      [Label(v, if open[0].time < t then open[0].time else t)] + open[1..]
    else
      [open[0]] + Relax(open[1..], v, t)
  }

  /** Only the first label of `v` can change: a later one keeps its time
      (and, like every label, its stop). */
  lemma {:induction false} RelaxAfterFirst(open: seq<Label>, v: Stop, t: real, j: nat, i: nat)
    requires j < i < |open| && open[j].stop == v
    ensures Relax(open, v, t)[i].time == open[i].time
    decreases j
  {
    if open[0].stop != v {
      RelaxAfterFirst(open[1..], v, t, j - 1, i - 1);
    }
  }

  /** The first label of `v` becomes the smaller of its time and `t`. */
  lemma {:induction false} RelaxFirstLowered(open: seq<Label>, v: Stop, t: real, i: nat)
    requires i < |open| && open[i].stop == v
    requires forall j :: 0 <= j < i ==> open[j].stop != v
    ensures Relax(open, v, t)[i].time == if open[i].time < t then open[i].time else t
    decreases i
  {
    if i > 0 {
      assert open[0].stop != v;
      RelaxFirstLowered(open[1..], v, t, i - 1);
    }
  }

  /** Once `a` is settled, the connection from `a` to `b` (time `w`) offers
      no shortcut to `b`, whether `b` is settled or still open. */
  predicate SettledEdge(dist: map<Stop, real>, open: seq<Label>, a: Stop, b: Stop, w: real)
  {
    a in dist ==>
      && (b in dist ==> dist[b] <= dist[a] + w)
      && (forall i :: 0 <= i < |open| && open[i].stop == b ==> open[i].time <= dist[a] + w)
  }

  predicate AllSettledEdges(dist: map<Stop, real>, open: seq<Label>, conns: seq<Connection>)
  {
    forall c :: c in conns ==>
      SettledEdge(dist, open, c.stop1, c.stop2, c.time) && SettledEdge(dist, open, c.stop2, c.stop1, c.time)
  }

  /** The loop invariant of one Dijkstra run: `open` holds the unsettled
      stops once each, sorted by time; `dist` the settled ones. */
  ghost predicate RunInvariant(stops: seq<Stop>, conns: seq<Connection>, source: Stop,
                               open: seq<Label>, visited: set<Stop>, dist: map<Stop, real>)
  {
    && DistinctBy(open, StopOf)
    && OpenStops(open) !! visited
    && OpenStops(open) + visited == StopSet(stops)
    && dist.Keys == visited
    && (forall i :: 0 <= i < |open| ==> open[i].time <= Inf)
    && (forall v :: v in dist ==> dist[v] <= Inf)
    && SortedBy(open, TimeOf)
    && (visited == {} ==>
         forall i :: 0 <= i < |open| ==> open[i].time == if open[i].stop == source then 0.0 else Inf)
    && (visited != {} ==> source in dist && dist[source] == 0.0)
    && (NonNegativeTimes(conns) ==>
         && (forall v, i :: v in dist && 0 <= i < |open| ==> dist[v] <= open[i].time)
         && (forall v :: v in dist ==> 0.0 <= dist[v])
         && (forall i :: 0 <= i < |open| ==> 0.0 <= open[i].time)
         && AllSettledEdges(dist, open, conns))
  }

  /** What relaxing the neighbours of the head `open[0]` leaves in `pending`
      (the rest of the open list): the same stops, no later times, none
      below the head's time, and no neighbour above the head's time plus the
      connection's. */
  ghost predicate Relaxed(conns: seq<Connection>, open: seq<Label>, pending: seq<Label>)
    requires |open| > 0
  {
    var u := open[0].stop;
    var edges := ConnectionsFor(conns, u);
    && |pending| == |open| - 1
    && (forall i :: 0 <= i < |pending| ==> pending[i].stop == open[i + 1].stop && pending[i].time <= open[i + 1].time)
    && DistinctBy(pending, StopOf)
    && (forall k, i :: 0 <= k < |edges| && 0 <= i < |pending| && pending[i].stop == Other(edges[k], u) ==>
          pending[i].time <= open[0].time + edges[k].time)
    && (NonNegativeTimes(conns) ==> forall i :: 0 <= i < |pending| ==> open[0].time <= pending[i].time)
  }

  /** Relaxing the head `open[0]` changes only labels of its neighbours, each
      to the head's time plus the time of a connection to it. */
  ghost predicate RelaxedLocally(conns: seq<Connection>, open: seq<Label>, pending: seq<Label>)
    requires |open| > 0 && |pending| == |open| - 1
  {
    var u := open[0].stop;
    var edges := ConnectionsFor(conns, u);
    forall i :: 0 <= i < |pending| && pending[i] != open[i + 1] ==>
      exists k :: 0 <= k < |edges| && pending[i].stop == Other(edges[k], u) && pending[i].time == open[0].time + edges[k].time
  }

  /** `pending` keeps the stops of `open[1..]`, distinct, at no later times. */
  ghost predicate NoLater(open: seq<Label>, pending: seq<Label>)
    requires |open| > 0
  {
    && |pending| == |open| - 1
    && (forall i :: 0 <= i < |pending| ==> pending[i].stop == open[i + 1].stop && pending[i].time <= open[i + 1].time)
    && DistinctBy(pending, StopOf)
  }

  /** Every label of `pending` that differs from `open[1..]` is the head's
      time plus the time of one of the connections `edges[..j]`. */
  ghost predicate Justified(open: seq<Label>, edges: seq<Connection>, j: nat, pending: seq<Label>)
    requires |open| > 0 && j <= |edges| && |pending| == |open| - 1
  {
    forall i :: 0 <= i < |pending| && pending[i] != open[i + 1] ==>
      exists k :: 0 <= k < j && pending[i].stop == Other(edges[k], open[0].stop) && pending[i].time == open[0].time + edges[k].time
  }

  /** No label of `pending` exceeds the head's time plus the time of one of
      the connections `edges[..j]` to it. */
  ghost predicate BoundedBy(open: seq<Label>, edges: seq<Connection>, j: nat, pending: seq<Label>)
    requires |open| > 0 && j <= |edges|
  {
    forall k, i :: 0 <= k < j && 0 <= i < |pending| && pending[i].stop == Other(edges[k], open[0].stop) ==>
      pending[i].time <= open[0].time + edges[k].time
  }

  /** With no negative connection time, no label of `pending` is below the head's. */
  ghost predicate NotBelowHead(conns: seq<Connection>, open: seq<Label>, pending: seq<Label>)
    requires |open| > 0
  {
    NonNegativeTimes(conns) ==> forall i :: 0 <= i < |pending| ==> open[0].time <= pending[i].time
  }

  /** What relaxing the first `j` connections of the head `open[0]` leaves
      in `pending`: `Relaxed` and `RelaxedLocally` restricted to `edges[..j]`. */
  ghost predicate RelaxedUpTo(conns: seq<Connection>, open: seq<Label>, edges: seq<Connection>, j: nat,
                              pending: seq<Label>)
    requires |open| > 0 && j <= |edges|
  {
    && NoLater(open, pending)
    && Justified(open, edges, j, pending)
    && BoundedBy(open, edges, j, pending)
    && NotBelowHead(conns, open, pending)
  }

  /** Before any connection is relaxed, `pending` is the rest of the open list. */
  lemma RelaxStart(conns: seq<Connection>, open: seq<Label>, edges: seq<Connection>)
    requires |open| > 0
    requires DistinctBy(open, StopOf)
    requires NonNegativeTimes(conns) ==> forall i :: 0 <= i < |open| ==> open[0].time <= open[i].time
    ensures RelaxedUpTo(conns, open, edges, 0, open[1..])
  {
  }

  /** After every connection of the head, `pending` is relaxed. */
  lemma RelaxDone(conns: seq<Connection>, open: seq<Label>, pending: seq<Label>)
    requires |open| > 0
    requires RelaxedUpTo(conns, open, ConnectionsFor(conns, open[0].stop), |ConnectionsFor(conns, open[0].stop)|, pending)
    ensures Relaxed(conns, open, pending)
    ensures RelaxedLocally(conns, open, pending)
  {
  }

  /** A connection to a settled stop leaves `pending` as it is. */
  lemma RelaxSkip(conns: seq<Connection>, visited: set<Stop>, open: seq<Label>, edges: seq<Connection>, j: nat,
                  pending: seq<Label>)
    requires |open| > 0
    requires OpenStops(open) !! visited
    requires j < |edges|
    requires Other(edges[j], open[0].stop) in visited
    requires RelaxedUpTo(conns, open, edges, j, pending)
    ensures RelaxedUpTo(conns, open, edges, j + 1, pending)
  {
    forall i | 0 <= i < |pending| ensures pending[i].stop != Other(edges[j], open[0].stop) {
      assert open[i + 1] in open;
    }
  }

  /** A connection to an open stop lowers its label to at most the head's
      time plus the connection's. */
  lemma RelaxLower(conns: seq<Connection>, open: seq<Label>, edges: seq<Connection>, j: nat, pending: seq<Label>)
    requires |open| > 0
    requires edges == ConnectionsFor(conns, open[0].stop)
    requires j < |edges|
    requires RelaxedUpTo(conns, open, edges, j, pending)
    ensures RelaxedUpTo(conns, open, edges, j + 1,
                        Relax(pending, Other(edges[j], open[0].stop), open[0].time + edges[j].time))
  {
    var r := Relax(pending, Other(edges[j], open[0].stop), open[0].time + edges[j].time);
    LowerNoLater(conns, open, edges, j, pending, r);
    LowerJustified(open, edges, j, pending);
    LowerBounded(open, edges, j, pending, r);
  }

  /** `RelaxLower` keeps the stops distinct and lowers no label below the
      head's time when no connection time is negative. */
  lemma LowerNoLater(conns: seq<Connection>, open: seq<Label>, edges: seq<Connection>, j: nat, pending: seq<Label>,
                     r: seq<Label>)
    requires |open| > 0
    requires edges == ConnectionsFor(conns, open[0].stop)
    requires j < |edges|
    requires NoLater(open, pending) && NotBelowHead(conns, open, pending)
    requires r == Relax(pending, Other(edges[j], open[0].stop), open[0].time + edges[j].time)
    ensures NoLater(open, r) && NotBelowHead(conns, open, r)
  {
    assert edges[j] in edges;
    forall i, i' | 0 <= i < i' < |r| ensures r[i].stop != r[i'].stop {
      assert r[i].stop == pending[i].stop && r[i'].stop == pending[i'].stop;
    }
  }

  /** `RelaxLower` keeps every label within the bound of connection `j` and
      of the connections before it. */
  lemma LowerBounded(open: seq<Label>, edges: seq<Connection>, j: nat, pending: seq<Label>, r: seq<Label>)
    requires |open| > 0 && j < |edges|
    requires DistinctBy(pending, StopOf)
    requires BoundedBy(open, edges, j, pending)
    requires r == Relax(pending, Other(edges[j], open[0].stop), open[0].time + edges[j].time)
    ensures BoundedBy(open, edges, j + 1, r)
  {
    var u := open[0].stop;
    forall k, i | 0 <= k < j + 1 && 0 <= i < |r| && r[i].stop == Other(edges[k], u)
      ensures r[i].time <= open[0].time + edges[k].time
    {
      assert pending[i].stop == r[i].stop && r[i].time <= pending[i].time;
      if k < j {
        assert pending[i].time <= open[0].time + edges[k].time;
      } else {
        assert pending[i].stop == Other(edges[j], u);
      }
    }
  }

  /** The changed label of `RelaxLower` is justified by connection `j`. */
  lemma LowerJustified(open: seq<Label>, edges: seq<Connection>, j: nat, pending: seq<Label>)
    requires |open| > 0 && j < |edges| && |pending| == |open| - 1
    requires Justified(open, edges, j, pending)
    ensures Justified(open, edges, j + 1, Relax(pending, Other(edges[j], open[0].stop), open[0].time + edges[j].time))
  {
    var u := open[0].stop;
    var r := Relax(pending, Other(edges[j], u), open[0].time + edges[j].time);
    forall i | 0 <= i < |r| && r[i] != open[i + 1]
      ensures exists k :: 0 <= k < j + 1 && r[i].stop == Other(edges[k], u) && r[i].time == open[0].time + edges[k].time
    {
      if r[i] == pending[i] {
        var k :| 0 <= k < j && pending[i].stop == Other(edges[k], u) && pending[i].time == open[0].time + edges[k].time;
      } else {
        assert r[i].stop == Other(edges[j], u) && r[i].time == open[0].time + edges[j].time;
      }
    }
  }

  /** The inner loop of the source: relax every connection of the head
      stop whose other end is not settled yet. */
  method RelaxNeighbours(conns: seq<Connection>, visited: set<Stop>, open: seq<Label>)
    returns (pending: seq<Label>)
    requires |open| > 0
    requires DistinctBy(open, StopOf)
    requires OpenStops(open) !! visited
    requires NonNegativeTimes(conns) ==> forall i :: 0 <= i < |open| ==> open[0].time <= open[i].time
    ensures Relaxed(conns, open, pending)
    ensures RelaxedLocally(conns, open, pending)
  {
    var current := open[0];
    var u := current.stop;
    pending := open[1..];
    var edges := ConnectionsFor(conns, u);
    var j := 0;
    RelaxStart(conns, open, edges);
    while j < |edges|
      invariant 0 <= j <= |edges|
      invariant RelaxedUpTo(conns, open, edges, j, pending)
    {
      var c := edges[j];
      var next := Other(c, u);
      if next !in visited {
        RelaxLower(conns, open, edges, j, pending);
        pending := Relax(pending, next, current.time + c.time);
      } else {
        RelaxSkip(conns, visited, open, edges, j, pending);
      }
      j := j + 1;
    }
    RelaxDone(conns, open, pending);
  }

  /** Shortest times from `source` to every stop of the network. */
  method ShortestFrom(net: Network, source: Stop) returns (dist: map<Stop, real>)
    requires DistinctStops(net.stops)
    requires source in net.stops
    ensures SourceFacts(net.stops, net.connections, source, dist)
  {
    var initial := [Label(source, 0.0)] + Unsettled(net.stops, source);
    var open := SortBy(initial, TimeOf);
    var visited: set<Stop> := {};
    dist := map[];
    InitialRun(net.stops, net.connections, source);
    InitialOutside(net.stops, net.connections, source, open);
    InitialWitnessed(net.stops, net.connections, source, open);
    while |open| > 0
      invariant RunInvariant(net.stops, net.connections, source, open, visited, dist)
      invariant CutOff(net.connections, source, open, dist)
      invariant Witnessed(net.stops, net.connections, source, open, dist)
      decreases |open|
    {
      var current := open[0];
      HeadFirst(net.stops, net.connections, source, open, visited, dist);
      var pending := RelaxNeighbours(net.connections, visited, open);
      Settle(net.stops, net.connections, source, open, visited, dist, pending);
      dist := dist[current.stop := current.time];
      visited := visited + {current.stop};
      open := SortBy(pending, TimeOf);
    }
    FinalRun(net.stops, net.connections, source, visited, dist);
  }

  /** The head of a running open list may be relaxed. */
  lemma HeadFirst(stops: seq<Stop>, conns: seq<Connection>, source: Stop,
                  open: seq<Label>, visited: set<Stop>, dist: map<Stop, real>)
    requires |open| > 0
    requires RunInvariant(stops, conns, source, open, visited, dist)
    ensures DistinctBy(open, StopOf)
    ensures OpenStops(open) !! visited
    ensures NonNegativeTimes(conns) ==> forall i :: 0 <= i < |open| ==> open[0].time <= open[i].time
  {
  }

  /** Settling the head and relaxing its neighbours keeps the three loop
      invariants of the run, and the open list shrinks. */
  lemma Settle(stops: seq<Stop>, conns: seq<Connection>, source: Stop,
               open: seq<Label>, visited: set<Stop>, dist: map<Stop, real>, pending: seq<Label>)
    requires source in stops
    requires |open| > 0
    requires RunInvariant(stops, conns, source, open, visited, dist)
    requires CutOff(conns, source, open, dist)
    requires Witnessed(stops, conns, source, open, dist)
    requires Relaxed(conns, open, pending)
    requires RelaxedLocally(conns, open, pending)
    ensures var open', dist' := SortBy(pending, TimeOf), dist[open[0].stop := open[0].time];
      && RunInvariant(stops, conns, source, open', visited + {open[0].stop}, dist')
      && CutOff(conns, source, open', dist')
      && Witnessed(stops, conns, source, open', dist')
      && |open'| < |open|
  {
    SettleRun(stops, conns, source, open, visited, dist, pending);
    SettleCutOff(conns, source, open, dist, pending);
    SettleWitnessed(stops, conns, source, open, dist, pending);
  }

  /** The labels the run starts from: the source at 0, every other stop at
      infinity, each stop once. */
  lemma InitialLabels(stops: seq<Stop>, source: Stop)
    requires DistinctStops(stops) && source in stops
    ensures var initial := [Label(source, 0.0)] + Unsettled(stops, source);
      && DistinctBy(initial, StopOf)
      && OpenStops(initial) == StopSet(stops)
      && forall l :: l in initial ==> l.time == (if l.stop == source then 0.0 else Inf) && 0.0 <= l.time <= Inf
  {
    var initial := [Label(source, 0.0)] + Unsettled(stops, source);
    assert DistinctBy(initial, StopOf);
    OpenStopsCons(Label(source, 0.0), Unsettled(stops, source));
  }

  lemma InitialRun(stops: seq<Stop>, conns: seq<Connection>, source: Stop)
    requires DistinctStops(stops) && source in stops
    ensures var initial := [Label(source, 0.0)] + Unsettled(stops, source);
      RunInvariant(stops, conns, source, SortBy(initial, TimeOf), {}, map[])
  {
    var initial := [Label(source, 0.0)] + Unsettled(stops, source);
    InitialLabels(stops, source);
    var open := SortBy(initial, TimeOf);
    SortByMembers(initial, TimeOf);
    SortByKeepsDistinct(initial, TimeOf, StopOf);
    assert OpenStops(open) == OpenStops(initial);
    forall i | 0 <= i < |open|
      ensures open[i].time == (if open[i].stop == source then 0.0 else Inf)
      ensures 0.0 <= open[i].time <= Inf
    {
      MemberOfSorted(initial, TimeOf, open[i]);
    }
    assert OpenStops(open) + {} == StopSet(stops);
    assert AllSettledEdges(map[], open, conns);
  }

  /** Before any stop is settled only the source is below infinity. */
  lemma InitialOutside(stops: seq<Stop>, conns: seq<Connection>, source: Stop, open: seq<Label>)
    requires RunInvariant(stops, conns, source, open, {}, map[])
    ensures CutOff(conns, source, open, map[])
  {
  }

  /** Before any stop is settled only the source is below infinity, and
      the empty walk attains its time 0. */
  lemma InitialWitnessed(stops: seq<Stop>, conns: seq<Connection>, source: Stop, open: seq<Label>)
    requires RunInvariant(stops, conns, source, open, {}, map[])
    ensures Witnessed(stops, conns, source, open, map[])
  {
    assert Linked(source, []) && EndStop(source, []) == source && Duration([]) == 0.0 && Reached(source, []) == [];
    assert Attained(stops, conns, source, source, 0.0);
  }

  /** Settling the head keeps every finite time attained: a changed label
      is the head's time, attained by some walk, plus one more connection. */
  lemma SettleWitnessed(stops: seq<Stop>, conns: seq<Connection>, source: Stop, open: seq<Label>,
                        dist: map<Stop, real>, pending: seq<Label>)
    requires |open| > 0
    requires OpenStops(open) <= StopSet(stops)
    requires Witnessed(stops, conns, source, open, dist)
    requires Relaxed(conns, open, pending)
    requires RelaxedLocally(conns, open, pending)
    ensures Witnessed(stops, conns, source, SortBy(pending, TimeOf), dist[open[0].stop := open[0].time])
  {
    if NonNegativeTimes(conns) {
      var u := open[0].stop;
      var edges := ConnectionsFor(conns, u);
      forall i | 0 <= i < |pending| && pending[i].time < Inf
        ensures Attained(stops, conns, source, pending[i].stop, pending[i].time)
      {
        if pending[i] == open[i + 1] {
          assert open[i + 1].time < Inf;
        } else {
          var k :| 0 <= k < |edges| && pending[i].stop == Other(edges[k], u)
                   && pending[i].time == open[0].time + edges[k].time;
          assert edges[k] in edges;
          assert open[0].time < Inf;
          assert open[i + 1] in open;
          assert pending[i].stop in StopSet(stops);
          AttainedStep(stops, conns, source, u, open[0].time, edges[k]);
        }
      }
      var open' := SortBy(pending, TimeOf);
      forall i | 0 <= i < |open'| && open'[i].time < Inf
        ensures Attained(stops, conns, source, open'[i].stop, open'[i].time)
      {
        MemberOfSorted(pending, TimeOf, open'[i]);
        var j :| 0 <= j < |pending| && pending[j] == open'[i];
      }
    }
  }

  /** A walk attaining `t` at `u`, extended by a connection at `u`, attains
      `t` plus its time at the connection's other end. */
  lemma AttainedStep(stops: seq<Stop>, conns: seq<Connection>, source: Stop, u: Stop, t: real, c: Connection)
    requires c in conns && Touches(c, u) && 0.0 <= c.time && Other(c, u) in stops
    requires Attained(stops, conns, source, u, t)
    ensures Attained(stops, conns, source, Other(c, u), t + c.time)
  {
    var w :| && Linked(source, w) && (forall e :: e in w ==> e in conns)
             && (forall s :: s in Reached(source, w) ==> s in stops)
             && EndStop(source, w) == u && Duration(w) == t;
    AppendStep(source, w, c);
    assert forall e :: e in w + [c] ==> e in conns;
  }

  lemma FinalRun(stops: seq<Stop>, conns: seq<Connection>, source: Stop, visited: set<Stop>, dist: map<Stop, real>)
    requires source in stops
    requires RunInvariant(stops, conns, source, [], visited, dist)
    requires CutOff(conns, source, [], dist)
    requires Witnessed(stops, conns, source, [], dist)
    ensures SourceFacts(stops, conns, source, dist)
  {
    assert OpenStops([]) == {};
    assert source in StopSet(stops);
  }

  /** Settling the head of the open list keeps the run invariant. */
  lemma SettleRun(stops: seq<Stop>, conns: seq<Connection>, source: Stop,
                  open: seq<Label>, visited: set<Stop>, dist: map<Stop, real>, pending: seq<Label>)
    requires source in stops
    requires |open| > 0
    requires RunInvariant(stops, conns, source, open, visited, dist)
    requires Relaxed(conns, open, pending)
    ensures RunInvariant(stops, conns, source, SortBy(pending, TimeOf),
                         visited + {open[0].stop}, dist[open[0].stop := open[0].time])
  {
    var u := open[0].stop;
    var tu := open[0].time;
    var nonneg := NonNegativeTimes(conns);
    assert open[0] in open;
    SettleOrder(conns, open, dist, pending);
    FirstSettledIsSource(dist, open, visited, stops, source);
    SortByMembers(pending, TimeOf);
    SortByKeepsDistinct(pending, TimeOf, StopOf);
    OpenStopsAfterPop(open, pending);
    var open' := SortBy(pending, TimeOf);
    assert OpenStops(open') == OpenStops(pending);
    forall i | 0 <= i < |pending| ensures pending[i].time <= Inf {
      assert open[i + 1] in open;
    }
    var visited' := visited + {u};
    var dist' := dist[u := tu];
    forall i | 0 <= i < |open'| ensures open'[i].time <= Inf {
      MemberOfSorted(pending, TimeOf, open'[i]);
    }
    assert DistinctBy(open', StopOf);
    assert OpenStops(open') !! visited';
    assert OpenStops(open') + visited' == StopSet(stops);
    assert dist'.Keys == visited';
    assert forall v :: v in dist' ==> dist'[v] <= Inf;
    assert source in dist' && dist'[source] == 0.0;
  }

  /** With no negative connection time, settling the head keeps settled
      times below open ones, keeps all times non-negative and leaves no
      connection from a settled stop that offers a shortcut. */
  lemma SettleOrder(conns: seq<Connection>, open: seq<Label>, dist: map<Stop, real>, pending: seq<Label>)
    requires |open| > 0 && DistinctBy(open, StopOf)
    requires open[0].stop !in dist
    requires Relaxed(conns, open, pending)
    requires NonNegativeTimes(conns) ==>
      && (forall v, i :: v in dist && 0 <= i < |open| ==> dist[v] <= open[i].time)
      && (forall v :: v in dist ==> 0.0 <= dist[v])
      && (forall i :: 0 <= i < |open| ==> 0.0 <= open[i].time)
      && AllSettledEdges(dist, open, conns)
    ensures var open' := SortBy(pending, TimeOf);
      var dist' := dist[open[0].stop := open[0].time];
      NonNegativeTimes(conns) ==>
        && (forall v, i :: v in dist' && 0 <= i < |open'| ==> dist'[v] <= open'[i].time)
        && (forall v :: v in dist' ==> 0.0 <= dist'[v])
        && (forall i :: 0 <= i < |open'| ==> 0.0 <= open'[i].time)
        && AllSettledEdges(dist', open', conns)
  {
    var u := open[0].stop;
    var nonneg := NonNegativeTimes(conns);
    var open' := SortBy(pending, TimeOf);
    var dist' := dist[u := open[0].time];
    assert open[0] in open;
    SettleStep(conns, dist, open, pending, ConnectionsFor(conns, u), nonneg);
    SettledEdgesSorted(dist', pending, conns, nonneg);
    if nonneg {
      forall v, i | v in dist' && 0 <= i < |open'| ensures dist'[v] <= open'[i].time {
        MemberOfSorted(pending, TimeOf, open'[i]);
      }
      forall i | 0 <= i < |open'| ensures 0.0 <= open'[i].time {
        MemberOfSorted(pending, TimeOf, open'[i]);
      }
    }
  }

  /** Settling the head keeps every stop outside a connection-closed set
      at infinity: the head's relaxations stay inside the head's side. */
  lemma SettleOutside(conns: seq<Connection>, r: set<Stop>, open: seq<Label>,
                      dist: map<Stop, real>, pending: seq<Label>)
    requires NonNegativeTimes(conns) && Closed(conns, r)
    requires |open| > 0
    requires OutsideInf(r, open, dist)
    requires Relaxed(conns, open, pending)
    requires RelaxedLocally(conns, open, pending)
    ensures OutsideInf(r, SortBy(pending, TimeOf), dist[open[0].stop := open[0].time])
  {
    var u := open[0].stop;
    var edges := ConnectionsFor(conns, u);
    if u in r {
      forall k | 0 <= k < |edges| ensures Other(edges[k], u) in r {
        assert edges[k] in edges;
      }
    }
    forall i | 0 <= i < |pending| && pending[i].stop !in r ensures pending[i].time == Inf {
      assert open[i + 1].stop !in r;
    }
    var open' := SortBy(pending, TimeOf);
    forall i | 0 <= i < |open'| && open'[i].stop !in r ensures open'[i].time == Inf {
      MemberOfSorted(pending, TimeOf, open'[i]);
    }
  }

  lemma SettleCutOff(conns: seq<Connection>, source: Stop, open: seq<Label>,
                     dist: map<Stop, real>, pending: seq<Label>)
    requires |open| > 0
    requires CutOff(conns, source, open, dist)
    requires Relaxed(conns, open, pending)
    requires RelaxedLocally(conns, open, pending)
    ensures CutOff(conns, source, SortBy(pending, TimeOf), dist[open[0].stop := open[0].time])
  {
    if NonNegativeTimes(conns) {
      forall r | Closed(conns, r) && source in r
        ensures OutsideInf(r, SortBy(pending, TimeOf), dist[open[0].stop := open[0].time])
      {
        SettleOutside(conns, r, open, dist, pending);
      }
    }
  }

  /** `v` ends some walk that leaves `source` over the connections. */
  ghost predicate Reachable(conns: seq<Connection>, source: Stop, v: Stop)
  {
    exists walk :: Linked(source, walk) && (forall c :: c in walk ==> c in conns) && EndStop(source, walk) == v
  }

  /** One more connection from a reachable stop reaches its other end. */
  lemma ReachStep(conns: seq<Connection>, source: Stop, a: Stop, c: Connection)
    requires c in conns && Touches(c, a)
    requires Reachable(conns, source, a)
    ensures Reachable(conns, source, Other(c, a))
  {
    var w :| Linked(source, w) && (forall e :: e in w ==> e in conns) && EndStop(source, w) == a;
    AppendStep(source, w, c);
    assert forall e :: e in w + [c] ==> e in conns;
  }

  /** With no negative connection time, a stop that no walk from the source
      reaches keeps the time infinity in the source's row. */
  lemma UnreachableIsInf(stops: seq<Stop>, conns: seq<Connection>, source: Stop, d: map<Stop, real>, v: Stop)
    requires SourceFacts(stops, conns, source, d)
    requires NonNegativeTimes(conns)
    requires v in d && !Reachable(conns, source, v)
    ensures d[v] == Inf
  {
    var ends := (set c | c in conns :: c.stop1) + (set c | c in conns :: c.stop2);
    var r := set s | s in ends + d.Keys && Reachable(conns, source, s);
    assert Linked(source, []) && EndStop(source, []) == source;
    assert source in r;
    forall c | c in conns ensures c.stop1 in r <==> c.stop2 in r {
      assert c.stop1 in ends && c.stop2 in ends;
      if c.stop1 in r {
        ReachStep(conns, source, c.stop1, c);
      }
      if c.stop2 in r {
        ReachStep(conns, source, c.stop2, c);
      }
    }
    assert Closed(conns, r);
  }

  /** Popping the head of a duplicate-free open list removes its stop. */
  lemma OpenStopsAfterPop(open: seq<Label>, pending: seq<Label>)
    requires |open| > 0 && DistinctBy(open, StopOf)
    requires |pending| == |open| - 1
    requires forall i :: 0 <= i < |pending| ==> pending[i].stop == open[i + 1].stop
    ensures OpenStops(pending) == OpenStops(open) - {open[0].stop}
  {
    forall s ensures s in OpenStops(pending) <==> s in OpenStops(open) - {open[0].stop} {
      if s in OpenStops(pending) {
        var i :| 0 <= i < |pending| && pending[i].stop == s;
        assert open[i + 1] in open;
        assert StopOf(open[0]) != StopOf(open[i + 1]);
      }
      if s in OpenStops(open) - {open[0].stop} {
        var l :| l in open && l.stop == s;
        var i :| 0 <= i < |open| && open[i] == l;
        assert i != 0;
        assert pending[i - 1] in pending;
      }
    }
  }

  /** The first stop settled is the source, at time 0. */
  lemma FirstSettledIsSource(dist: map<Stop, real>, open: seq<Label>, visited: set<Stop>,
                             stops: seq<Stop>, source: Stop)
    requires |open| > 0
    requires source in stops
    requires OpenStops(open) + visited == StopSet(stops)
    requires SortedBy(open, TimeOf)
    requires visited == {} ==>
      forall i :: 0 <= i < |open| ==> open[i].time == if open[i].stop == source then 0.0 else Inf
    requires visited != {} ==> source in dist && dist[source] == 0.0
    ensures visited == {} ==> open[0] == Label(source, 0.0)
  {
    if visited == {} {
      assert source in OpenStops(open);
      var l :| l in open && l.stop == source;
      var i :| 0 <= i < |open| && open[i] == l;
      if i > 0 {
        assert TimeOf(open[0]) <= TimeOf(open[i]);
      }
    }
  }

  /** One orientation of a connection after `open[0]` is settled and its
      neighbours relaxed into `pending`. */
  lemma SettleOrientation(conns: seq<Connection>, dist: map<Stop, real>, open: seq<Label>,
                          pending: seq<Label>, edges: seq<Connection>, c: Connection, a: Stop, b: Stop)
    requires c in conns && 0.0 <= c.time
    requires (a == c.stop1 && b == c.stop2) || (a == c.stop2 && b == c.stop1)
    requires |open| > 0 && DistinctBy(open, StopOf)
    requires open[0].stop !in dist
    requires forall v :: v in dist ==> dist[v] <= open[0].time
    requires SettledEdge(dist, open, a, b, c.time)
    requires |pending| == |open| - 1
    requires forall i :: 0 <= i < |pending| ==> pending[i].stop == open[i + 1].stop && pending[i].time <= open[i + 1].time
    requires forall x :: x in conns && Touches(x, open[0].stop) ==> x in edges
    requires forall k, i :: 0 <= k < |edges| && 0 <= i < |pending| && pending[i].stop == Other(edges[k], open[0].stop)
               ==> pending[i].time <= open[0].time + edges[k].time
    ensures SettledEdge(dist[open[0].stop := open[0].time], pending, a, b, c.time)
  {
    var u := open[0].stop;
    var tu := open[0].time;
    var d' := dist[u := tu];
    if a == u {
      forall i | 0 <= i < |pending| && pending[i].stop == b ensures pending[i].time <= d'[a] + c.time {
        assert StopOf(open[0]) != StopOf(open[i + 1]);
        assert Touches(c, u);
        var k :| 0 <= k < |edges| && edges[k] == c;
        assert Other(c, u) == b;
      }
    } else if a in dist {
      if b == u {
        assert open[0].stop == b;
      }
      forall i | 0 <= i < |pending| && pending[i].stop == b ensures pending[i].time <= d'[a] + c.time {
        assert open[i + 1].stop == b;
      }
    }
  }

  /** Settling `open[0]` keeps every connection free of shortcuts. */
  lemma SettleStep(conns: seq<Connection>, dist: map<Stop, real>, open: seq<Label>,
                   pending: seq<Label>, edges: seq<Connection>, nonneg: bool)
    requires nonneg == NonNegativeTimes(conns)
    requires |open| > 0 && DistinctBy(open, StopOf)
    requires open[0].stop !in dist
    requires nonneg ==> forall v, i :: v in dist && 0 <= i < |open| ==> dist[v] <= open[i].time
    requires nonneg ==> AllSettledEdges(dist, open, conns)
    requires |pending| == |open| - 1
    requires forall i :: 0 <= i < |pending| ==> pending[i].stop == open[i + 1].stop && pending[i].time <= open[i + 1].time
    requires forall x :: x in edges <==> x in conns && Touches(x, open[0].stop)
    requires nonneg ==>
      forall k, i :: 0 <= k < |edges| && 0 <= i < |pending| && pending[i].stop == Other(edges[k], open[0].stop) ==>
        pending[i].time <= open[0].time + edges[k].time
    ensures nonneg ==> AllSettledEdges(dist[open[0].stop := open[0].time], pending, conns)
  {
    if nonneg {
      forall c | c in conns
        ensures SettledEdge(dist[open[0].stop := open[0].time], pending, c.stop1, c.stop2, c.time)
        ensures SettledEdge(dist[open[0].stop := open[0].time], pending, c.stop2, c.stop1, c.time)
      {
        SettleOrientation(conns, dist, open, pending, edges, c, c.stop1, c.stop2);
        SettleOrientation(conns, dist, open, pending, edges, c, c.stop2, c.stop1);
      }
    }
  }

  lemma OpenStopsCons(l: Label, s: seq<Label>)
    ensures OpenStops([l] + s) == {l.stop} + OpenStops(s)
  {
    forall x ensures x in OpenStops([l] + s) <==> x in {l.stop} + OpenStops(s) {
      if x in OpenStops([l] + s) {
        var m :| m in [l] + s && m.stop == x;
        assert m == l || m in s;
      }
      if x in OpenStops(s) {
        var m :| m in s && m.stop == x;
        assert m in [l] + s;
      }
      if x == l.stop {
        assert l in [l] + s;
      }
    }
  }

  lemma SettledEdgeSorted(dist: map<Stop, real>, pending: seq<Label>, a: Stop, b: Stop, w: real)
    requires SettledEdge(dist, pending, a, b, w)
    ensures SettledEdge(dist, SortBy(pending, TimeOf), a, b, w)
  {
    var r := SortBy(pending, TimeOf);
    if a in dist {
      forall i | 0 <= i < |r| && r[i].stop == b ensures r[i].time <= dist[a] + w {
        MemberOfSorted(pending, TimeOf, r[i]);
        var k :| 0 <= k < |pending| && pending[k] == r[i];
      }
    }
  }

  /** Re-sorting the open list keeps every settled-edge fact. */
  lemma SettledEdgesSorted(dist: map<Stop, real>, pending: seq<Label>, conns: seq<Connection>, nonneg: bool)
    requires nonneg ==> AllSettledEdges(dist, pending, conns)
    ensures nonneg ==> AllSettledEdges(dist, SortBy(pending, TimeOf), conns)
  {
    if nonneg {
      forall c | c in conns
        ensures SettledEdge(dist, SortBy(pending, TimeOf), c.stop1, c.stop2, c.time)
        ensures SettledEdge(dist, SortBy(pending, TimeOf), c.stop2, c.stop1, c.time)
      {
        SettledEdgeSorted(dist, pending, c.stop1, c.stop2, c.time);
        SettledEdgeSorted(dist, pending, c.stop2, c.stop1, c.time);
      }
    }
  }

  /** Every row of `table` is the row of its source over the network. */
  ghost predicate TableFacts(net: Network, table: Table)
  {
    && table.Keys == StopSet(net.stops)
    && forall s :: s in table ==> SourceFacts(net.stops, net.connections, s, table[s])
  }

  /** The whole table: one run per stop of the network, in list order. With
      no negative connection time it is symmetric and obeys the triangle
      inequality. */
  method InitShortestPaths(net: Network) returns (table: Table)
    requires DistinctStops(net.stops)
    ensures table.Keys == StopSet(net.stops)
    ensures forall s :: s in table ==> SourceFacts(net.stops, net.connections, s, table[s])
    ensures NonNegativeTimes(net.connections) ==>
      forall a, b :: a in table && b in table ==> b in table[a] && a in table[b] && table[a][b] == table[b][a]
    ensures NonNegativeTimes(net.connections) ==>
      forall a, b, c :: a in table && b in table && c in table ==>
        b in table[a] && c in table[a] && b in table[c] && table[a][b] <= table[a][c] + table[c][b]
  {
    table := map[];
    for k := 0 to |net.stops|
      invariant table.Keys == StopSet(net.stops[..k])
      invariant forall s :: s in table ==> SourceFacts(net.stops, net.connections, s, table[s])
    {
      var s := net.stops[k];
      var d := ShortestFrom(net, s);
      table := table[s := d];
      assert net.stops[..k + 1] == net.stops[..k] + [s];
    }
    assert net.stops[..|net.stops|] == net.stops;
    if NonNegativeTimes(net.connections) {
      forall a, b | a in table && b in table
        ensures b in table[a] && a in table[b] && table[a][b] == table[b][a]
      {
        TableSymmetric(net, table, a, b);
      }
      forall a, b, c | a in table && b in table && c in table
        ensures b in table[a] && c in table[a] && b in table[c] && table[a][b] <= table[a][c] + table[c][b]
      {
        TableTriangle(net, table, a, b, c);
      }
    }
  }

  /** Along a linked walk over the connections, an edge-relaxed row changes
      by at most the walk's duration, in either direction. */
  lemma {:induction false} PotentialAlongWalk(d: map<Stop, real>, conns: seq<Connection>, x: Stop, walk: seq<Connection>)
    requires EdgeRelaxed(d, conns)
    requires x in d
    requires Linked(x, walk)
    requires forall c :: c in walk ==> c in conns
    requires forall s :: s in Reached(x, walk) ==> s in d
    ensures EndStop(x, walk) in d
    ensures d[EndStop(x, walk)] <= d[x] + Duration(walk)
    ensures d[x] <= d[EndStop(x, walk)] + Duration(walk)
    decreases |walk|
  {
    if |walk| > 0 {
      var c := walk[0];
      var next := Other(c, x);
      assert c in walk;
      assert next in Reached(x, walk);
      assert forall e :: e in walk[1..] ==> e in walk;
      assert forall s :: s in Reached(next, walk[1..]) ==> s in Reached(x, walk);
      PotentialAlongWalk(d, conns, next, walk[1..]);
    }
  }

  /** The row of a source holds exact shortest times: an entry below
      infinity is the time of some walk from the source through the stops,
      and no walk from the source that stops only at the stops is quicker. */
  lemma RowIsShortest(stops: seq<Stop>, conns: seq<Connection>, source: Stop, d: map<Stop, real>,
                      walk: seq<Connection>)
    requires SourceFacts(stops, conns, source, d)
    requires NonNegativeTimes(conns)
    requires Linked(source, walk) && forall c :: c in walk ==> c in conns
    requires forall s :: s in Reached(source, walk) ==> s in stops
    ensures EndStop(source, walk) in d
    ensures d[EndStop(source, walk)] <= Duration(walk)
    ensures d[EndStop(source, walk)] < Inf ==> Attained(stops, conns, source, EndStop(source, walk), d[EndStop(source, walk)])
  {
    assert forall s :: s in Reached(source, walk) ==> s in StopSet(stops);
    PotentialAlongWalk(d, conns, source, walk);
  }

  /** A walk found for one row, driven backwards, bounds the reverse entry:
      the time from `b` back to `a` is at most the time from `a` to `b`. */
  lemma RowBack(stops: seq<Stop>, conns: seq<Connection>, a: Stop, b: Stop, da: map<Stop, real>, db: map<Stop, real>)
    requires SourceFacts(stops, conns, a, da) && SourceFacts(stops, conns, b, db)
    requires NonNegativeTimes(conns)
    requires b in da && da[b] < Inf
    ensures a in db && db[a] <= da[b]
  {
    var w :| && Linked(a, w) && (forall c :: c in w ==> c in conns)
             && (forall s :: s in Reached(a, w) ==> s in stops)
             && EndStop(a, w) == b && Duration(w) == da[b];
    ReverseWalk(a, w);
    assert a in StopSet(stops);
    RowIsShortest(stops, conns, b, db, Reversed(w));
  }

  /** The table is symmetric: from `a` to `b` takes as long as from `b` to `a`. */
  lemma TableSymmetric(net: Network, table: Table, a: Stop, b: Stop)
    requires TableFacts(net, table)
    requires NonNegativeTimes(net.connections)
    requires a in table && b in table
    ensures b in table[a] && a in table[b] && table[a][b] == table[b][a]
  {
    var da, db := table[a], table[b];
    assert SourceFacts(net.stops, net.connections, a, da) && SourceFacts(net.stops, net.connections, b, db);
    if da[b] < Inf {
      RowBack(net.stops, net.connections, a, b, da, db);
      RowBack(net.stops, net.connections, b, a, db, da);
    } else if db[a] < Inf {
      RowBack(net.stops, net.connections, b, a, db, da);
    }
  }

  /** Two walks found for two rows, driven one after the other, bound the
      entry from the first source to the second walk's end. */
  lemma RowThrough(stops: seq<Stop>, conns: seq<Connection>, a: Stop, c: Stop, b: Stop,
                   da: map<Stop, real>, dc: map<Stop, real>)
    requires SourceFacts(stops, conns, a, da) && SourceFacts(stops, conns, c, dc)
    requires NonNegativeTimes(conns)
    requires c in da && da[c] < Inf && b in dc && dc[b] < Inf
    ensures b in da && da[b] <= da[c] + dc[b]
  {
    var w1 :| && Linked(a, w1) && (forall e :: e in w1 ==> e in conns)
              && (forall s :: s in Reached(a, w1) ==> s in stops)
              && EndStop(a, w1) == c && Duration(w1) == da[c];
    var w2 :| && Linked(c, w2) && (forall e :: e in w2 ==> e in conns)
              && (forall s :: s in Reached(c, w2) ==> s in stops)
              && EndStop(c, w2) == b && Duration(w2) == dc[b];
    ConcatWalk(a, w1, w2);
    ConcatMeasures(a, w1, w2);
    assert forall e :: e in w1 + w2 ==> e in w1 || e in w2;
    RowIsShortest(stops, conns, a, da, w1 + w2);
  }

  /** The table obeys the triangle inequality: going through `c` is never
      quicker than the entry from `a` to `b`. */
  lemma TableTriangle(net: Network, table: Table, a: Stop, b: Stop, c: Stop)
    requires TableFacts(net, table)
    requires NonNegativeTimes(net.connections)
    requires a in table && b in table && c in table
    ensures b in table[a] && c in table[a] && b in table[c]
    ensures table[a][b] <= table[a][c] + table[c][b]
  {
    var da, dc := table[a], table[c];
    assert SourceFacts(net.stops, net.connections, a, da) && SourceFacts(net.stops, net.connections, c, dc);
    if da[c] < Inf && dc[b] < Inf {
      RowThrough(net.stops, net.connections, a, c, b, da, dc);
    }
  }
}
