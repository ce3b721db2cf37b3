/**
 * The controller's walk search: a best-first (A*-style) search from the
 * origin, over nodes holding the stop reached, the time, the walk so far,
 * the required stops seen and a priority (time plus the table distance to
 * the interchange). The open list is re-sorted by priority after every
 * expansion; the first node popped at the interchange having seen every
 * required stop is the answer.
 */
module Search {
  import opened Optional
  import opened Graph
  import opened Sorting
  import opened Walks
  import opened ShortestPaths

  datatype Node = Node(stop: Stop, time: real, walk: seq<Connection>, visited: set<Stop>, priority: real)

  function PriorityOf(n: Node): real { n.priority }

  /** How often a walk may use one connection: once in trail mode, else twice. */
  function UseLimit(trail: bool): nat { if trail then 1 else 2 }

  /** The table entries the search reads are present: from the interchange
      to the origin and to both ends of every connection. */
  predicate HeuristicDefined(net: Network, table: Table)
  {
    && net.interchange in table
    && net.origin in table[net.interchange]
    && forall c :: c in net.connections ==> c.stop1 in table[net.interchange] && c.stop2 in table[net.interchange]
  }

  /** The table distance from the interchange to `s`. */
  function Heuristic(table: Table, interchange: Stop, s: Stop): real
    requires interchange in table && s in table[interchange]
  {
    table[interchange][s]
  }

  /** The heuristic never overestimates: from any stop, every linked walk to
      the interchange takes at least the heuristic's time. */
  lemma HeuristicAdmissible(net: Network, table: Table, v: Stop, walk: seq<Connection>)
    requires HeuristicDefined(net, table)
    requires SourceFacts(net.stops, net.connections, net.interchange, table[net.interchange])
    requires NonNegativeTimes(net.connections)
    requires v in table[net.interchange]
    requires Linked(v, walk) && forall c :: c in walk ==> c in net.connections
    requires EndStop(v, walk) == net.interchange
    ensures Heuristic(table, net.interchange, v) <= Duration(walk)
  {
    forall s | s in Reached(v, walk) ensures s in table[net.interchange] {
      var i :| 0 <= i < |walk| && Reached(v, walk)[i] == s;
      assert walk[i] in walk;
    }
    PotentialAlongWalk(table[net.interchange], net.connections, v, walk);
  }

  /** The heuristic is exact when it is finite: some walk over the network
      from the interchange reaches the stop in exactly the heuristic's time. */
  lemma HeuristicAttained(net: Network, table: Table, v: Stop)
    requires HeuristicDefined(net, table)
    requires SourceFacts(net.stops, net.connections, net.interchange, table[net.interchange])
    requires NonNegativeTimes(net.connections)
    requires v in table[net.interchange] && Heuristic(table, net.interchange, v) < Inf
    ensures exists walk :: && Linked(net.interchange, walk)
                           && (forall c :: c in walk ==> c in net.connections)
                           && EndStop(net.interchange, walk) == v
                           && Duration(walk) == Heuristic(table, net.interchange, v)
  {
    assert Attained(net.stops, net.connections, net.interchange, v, table[net.interchange][v]);
  }

  /** A walk using some connection more than twice is pruned. */
  function IsWalkSuboptimal(walk: seq<Connection>, c: Connection): (r: bool)
    ensures r <==> multiset(walk)[c] > 2
  {
    CountIsMultiplicity(walk, c);
    Count(walk, c) > 2
  }

  /** Python's `list.count`: how many entries of `walk` equal `c`. */
  function Count(walk: seq<Connection>, c: Connection): nat
  {
    if |walk| == 0 then 0 else (if walk[0] == c then 1 else 0) + Count(walk[1..], c)
  }

  /** Counting the entries equal to `c` gives the multiplicity of `c`. */
  lemma {:induction false} CountIsMultiplicity(walk: seq<Connection>, c: Connection)
    ensures Count(walk, c) == multiset(walk)[c]
  {
    if |walk| > 0 {
      CountIsMultiplicity(walk[1..], c);
      assert walk == [walk[0]] + walk[1..];
    }
  }

  /** The loop of the source over the required stops, stopping at the first
      one not yet seen. */
  function AllSeen(required: seq<Stop>, visited: set<Stop>): (r: bool)
    ensures r <==> forall k :: 0 <= k < |required| ==> required[k] in visited
  {
    if |required| == 0 then true
    else if required[0] !in visited then false
    else
      var r := AllSeen(required[1..], visited);
      assert required == [required[0]] + required[1..];
      r
  }

  /** A node is a solution when it is at the interchange having seen every
      required stop of the route. */
  function IsWalkComplete(net: Network, route: Route, stop: Stop, visited: set<Stop>): (r: bool)
    ensures r <==> stop == net.interchange && forall s :: s in route.required ==> s in visited
  {
    stop == net.interchange && AllSeen(route.required, visited)
  }

  /** A walk from the origin that ends at the interchange and passes every
      required stop of the route (the origin counts as passed). */
  predicate CompleteWalk(net: Network, route: Route, walk: seq<Connection>)
  {
    && EndStop(net.origin, walk) == net.interchange
    && forall k :: 0 <= k < |route.required| ==>
         route.required[k] == net.origin || route.required[k] in Reached(net.origin, walk)
  }

  /** What every node the search creates satisfies. */
  ghost predicate NodeOk(cfg: Config, route: Route, start: real, trail: bool, n: Node)
    requires route.num in cfg.budgets
  {
    var net := cfg.net;
    && n.stop == EndStop(net.origin, n.walk)
    && n.time == start + Duration(n.walk)
    && ValidFrom(net.origin, n.walk, start, start, cfg.budgets[route.num])
    && Linked(net.origin, n.walk)
    && (forall c :: c in n.walk ==> c in net.connections)
    && (forall c :: multiset(n.walk)[c] <= UseLimit(trail))
    && |n.walk| <= 2 * |net.connections|
    && (forall s :: s in n.visited ==> s == net.origin || s in Reached(net.origin, n.walk))
  }

  /** A popped solution node carries a complete walk. */
  lemma CompleteNode(cfg: Config, route: Route, start: real, trail: bool, n: Node)
    requires route.num in cfg.budgets
    requires NodeOk(cfg, route, start, trail, n)
    requires IsWalkComplete(cfg.net, route, n.stop, n.visited)
    ensures CompleteWalk(cfg.net, route, n.walk)
  {
  }

  /** A walk using no connection more than twice, all from `conns`, is at
      most twice as long as `conns`. */
  lemma {:induction false} WalkLengthBound(walk: seq<Connection>, m: multiset<Connection>)
    requires forall x :: multiset(walk)[x] <= m[x]
    ensures |walk| <= |m|
    decreases |walk|
  {
    if |walk| > 0 {
      var x := walk[0];
      assert multiset(walk) == multiset{x} + multiset(walk[1..]) by {
        assert walk == [x] + walk[1..];
      }
      WalkLengthBound(walk[1..], m - multiset{x});
    }
  }

  lemma WalkLengthBoundByUses(walk: seq<Connection>, conns: seq<Connection>)
    requires forall c :: c in walk ==> c in conns
    requires forall c :: multiset(walk)[c] <= 2
    ensures |walk| <= 2 * |conns|
  {
    var m := multiset(conns) + multiset(conns);
    forall x ensures multiset(walk)[x] <= m[x] {
      if x in walk {
        assert x in multiset(conns);
      }
    }
    WalkLengthBound(walk, m);
  }

  /** A child built by one expansion step is again a well-formed node. */
  lemma ChildOk(cfg: Config, route: Route, start: real, trail: bool, node: Node, c: Connection, child: Node)
    requires route.num in cfg.budgets
    requires NodeOk(cfg, route, start, trail, node)
    requires c in cfg.net.connections && Touches(c, node.stop)
    requires trail ==> c !in node.walk
    requires child.stop == Other(c, node.stop)
    requires child.walk == node.walk + [c]
    requires !IsWalkSuboptimal(child.walk, c)
    requires var step := StepValid(node.stop, child.stop, c, node.time);
      step.valid && step.time - start <= cfg.budgets[route.num] && child.time == step.time
    requires child.visited == node.visited || child.visited == node.visited + {child.stop}
    ensures NodeOk(cfg, route, start, trail, child)
    ensures |child.walk| == |node.walk| + 1 <= 2 * |cfg.net.connections|
  {
    var net := cfg.net;
    var budget := cfg.budgets[route.num];
    AppendStep(net.origin, node.walk, c);
    AppendValid(net.origin, node.walk, c, start, start, budget);
    ChildUses(node.walk, c, trail, net.connections);
    ChildVisited(net.origin, node.walk, c, node.visited, child.visited);
    assert child.stop == EndStop(net.origin, child.walk);
    assert child.time == start + Duration(child.walk);
    assert ValidFrom(net.origin, child.walk, start, start, budget);
    assert Linked(net.origin, child.walk);
  }

  /** One more connection, not already used up, keeps the use counts within
      the mode's limit and the walk within twice the connection list. */
  lemma ChildUses(walk: seq<Connection>, c: Connection, trail: bool, conns: seq<Connection>)
    requires c in conns && forall x :: x in walk ==> x in conns
    requires forall x :: multiset(walk)[x] <= UseLimit(trail)
    requires trail ==> c !in walk
    requires !IsWalkSuboptimal(walk + [c], c)
    ensures forall x :: x in walk + [c] ==> x in conns
    ensures forall x :: multiset(walk + [c])[x] <= UseLimit(trail)
    ensures |walk + [c]| <= 2 * |conns|
  {
    assert multiset(walk + [c]) == multiset(walk) + multiset{c};
    assert forall x :: x in walk + [c] ==> x in walk || x == c;
    if trail {
      assert multiset(walk)[c] == 0;
    }
    WalkLengthBoundByUses(walk + [c], conns);
  }

  /** The required stops seen stay among the stops the walk reached. */
  lemma ChildVisited(origin: Stop, walk: seq<Connection>, c: Connection, visited: set<Stop>, visited': set<Stop>)
    requires forall s :: s in visited ==> s == origin || s in Reached(origin, walk)
    requires visited' == visited || visited' == visited + {Other(c, EndStop(origin, walk))}
    ensures forall s :: s in visited' ==> s == origin || s in Reached(origin, walk + [c])
  {
    AppendStep(origin, walk, c);
    var reached := Reached(origin, walk + [c]);
    assert Other(c, EndStop(origin, walk)) == reached[|reached| - 1];
    assert forall s :: s in Reached(origin, walk) ==> s in reached;
  }

  /** The body of the source's loop over the connections of the popped
      node's stop: every surviving child becomes a new node. */
  method Expand(cfg: Config, table: Table, route: Route, start: real, trail: bool, node: Node)
    returns (children: seq<Node>)
    requires route.num in cfg.budgets
    requires HeuristicDefined(cfg.net, table)
    requires NodeOk(cfg, route, start, trail, node)
    ensures children == Survivors(cfg, table, route, start, trail, node, ConnectionsFor(cfg.net.connections, node.stop))
    ensures forall c :: Offer(cfg, table, route, start, trail, node, c).Some? ==>
      Offer(cfg, table, route, start, trail, node, c).value in children
    ensures forall i :: 0 <= i < |children| ==>
      Offered(cfg, table, route, start, trail, node, children[i])
    ensures |children| <= |cfg.net.connections|
    ensures forall i :: 0 <= i < |children| ==> NodeOk(cfg, route, start, trail, children[i])
    ensures forall i :: 0 <= i < |children| ==> |children[i].walk| == |node.walk| + 1
    ensures |children| > 0 ==> |node.walk| + 1 <= 2 * |cfg.net.connections|
  {
    var edges := ConnectionsFor(cfg.net.connections, node.stop);
    children := [];
    var j := 0;
    while j < |edges|
      invariant 0 <= j <= |edges|
      invariant children == Survivors(cfg, table, route, start, trail, node, edges[..j])
    {
      SurvivorsStep(cfg, table, route, start, trail, node, edges, j);
      var child := Child(cfg, table, route, start, trail, node, edges[j]);
      if child.Some? {
        children := children + [child.value];
      }
      j := j + 1;
    }
    assert edges[..|edges|] == edges;
    ExpandFacts(cfg, table, route, start, trail, node, children);
  }

  /** One more connection of the loop adds its child, if it survives. */
  lemma SurvivorsStep(cfg: Config, table: Table, route: Route, start: real, trail: bool, node: Node,
                      edges: seq<Connection>, j: nat)
    requires route.num in cfg.budgets
    requires HeuristicDefined(cfg.net, table)
    requires NodeOk(cfg, route, start, trail, node)
    requires edges == ConnectionsFor(cfg.net.connections, node.stop)
    requires j < |edges|
    ensures edges[j] in cfg.net.connections && Touches(edges[j], node.stop)
    ensures var child := Child(cfg, table, route, start, trail, node, edges[j]);
      Survivors(cfg, table, route, start, trail, node, edges[..j + 1])
        == Survivors(cfg, table, route, start, trail, node, edges[..j]) + (if child.Some? then [child.value] else [])
  {
    assert edges[j] in edges;
    var prefix := edges[..j + 1];
    assert prefix[..|prefix| - 1] == edges[..j];
    assert prefix[|prefix| - 1] == edges[j];
    assert Offer(cfg, table, route, start, trail, node, edges[j]) == Child(cfg, table, route, start, trail, node, edges[j]);
  }

  /** What the children of a full pass over the node's connections satisfy. */
  lemma ExpandFacts(cfg: Config, table: Table, route: Route, start: real, trail: bool, node: Node, children: seq<Node>)
    requires route.num in cfg.budgets
    requires HeuristicDefined(cfg.net, table)
    requires NodeOk(cfg, route, start, trail, node)
    requires children == Survivors(cfg, table, route, start, trail, node, ConnectionsFor(cfg.net.connections, node.stop))
    ensures forall c :: Offer(cfg, table, route, start, trail, node, c).Some? ==>
      Offer(cfg, table, route, start, trail, node, c).value in children
    ensures forall i :: 0 <= i < |children| ==>
      Offered(cfg, table, route, start, trail, node, children[i])
    ensures |children| <= |cfg.net.connections|
    ensures forall i :: 0 <= i < |children| ==> NodeOk(cfg, route, start, trail, children[i])
    ensures forall i :: 0 <= i < |children| ==> |children[i].walk| == |node.walk| + 1
    ensures |children| > 0 ==> |node.walk| + 1 <= 2 * |cfg.net.connections|
  {
    var edges := ConnectionsFor(cfg.net.connections, node.stop);
    SurvivorsSound(cfg, table, route, start, trail, node, edges);
    SurvivorsComplete(cfg, table, route, start, trail, node, edges);
    if |children| > 0 {
      assert NodeOk(cfg, route, start, trail, children[0]);
    }
  }

  /** The child along `c` when `c` is a connection of the node's stop, and
      nothing otherwise. */
  function Offer(cfg: Config, table: Table, route: Route, start: real, trail: bool, node: Node, c: Connection)
    : (r: Option<Node>)
    requires route.num in cfg.budgets
    requires HeuristicDefined(cfg.net, table)
    requires NodeOk(cfg, route, start, trail, node)
    ensures r.Some? ==> c in ConnectionsFor(cfg.net.connections, node.stop)
    ensures r.Some? ==> NodeOk(cfg, route, start, trail, r.value) && r.value.walk == node.walk + [c]
  {
    if c in cfg.net.connections && Touches(c, node.stop) then Child(cfg, table, route, start, trail, node, c) else None
  }

  /** `n` is the child offered to `node` along some connection. */
  ghost predicate Offered(cfg: Config, table: Table, route: Route, start: real, trail: bool, node: Node, n: Node)
    requires route.num in cfg.budgets
    requires HeuristicDefined(cfg.net, table)
    requires NodeOk(cfg, route, start, trail, node)
  {
    exists c :: Offer(cfg, table, route, start, trail, node, c) == Some(n)
  }

  /** The children the source's loop appends for the connections `edges`,
      in order. */
  function Survivors(cfg: Config, table: Table, route: Route, start: real, trail: bool, node: Node,
                     edges: seq<Connection>): seq<Node>
    requires route.num in cfg.budgets
    requires HeuristicDefined(cfg.net, table)
    requires NodeOk(cfg, route, start, trail, node)
    decreases |edges|
  {
    if |edges| == 0 then []
    else
      var rest := Survivors(cfg, table, route, start, trail, node, edges[..|edges| - 1]);
      var child := Offer(cfg, table, route, start, trail, node, edges[|edges| - 1]);
      if child.Some? then rest + [child.value] else rest
  }

  /** Every survivor of `edges` is the child offered along one of them. */
  lemma {:induction false} SurvivorsSound(cfg: Config, table: Table, route: Route, start: real, trail: bool,
                                          node: Node, edges: seq<Connection>)
    requires route.num in cfg.budgets
    requires HeuristicDefined(cfg.net, table)
    requires NodeOk(cfg, route, start, trail, node)
    ensures var s := Survivors(cfg, table, route, start, trail, node, edges);
      && |s| <= |edges|
      && (forall i :: 0 <= i < |s| ==> exists c :: c in edges && Offer(cfg, table, route, start, trail, node, c) == Some(s[i]))
      && (forall i :: 0 <= i < |s| ==> NodeOk(cfg, route, start, trail, s[i]) && |s[i].walk| == |node.walk| + 1)
    decreases |edges|
  {
    if |edges| > 0 {
      var front := edges[..|edges| - 1];
      var last := edges[|edges| - 1];
      SurvivorsSound(cfg, table, route, start, trail, node, front);
      var s := Survivors(cfg, table, route, start, trail, node, edges);
      var rest := Survivors(cfg, table, route, start, trail, node, front);
      forall i | 0 <= i < |s|
        ensures exists c :: c in edges && Offer(cfg, table, route, start, trail, node, c) == Some(s[i])
      {
        if i < |rest| {
          var c :| c in front && Offer(cfg, table, route, start, trail, node, c) == Some(rest[i]);
          assert c in edges;
        } else {
          assert last in edges;
        }
      }
    }
  }

  /** Every child offered along one of `edges` is among their survivors. */
  lemma {:induction false} SurvivorsComplete(cfg: Config, table: Table, route: Route, start: real, trail: bool,
                                             node: Node, edges: seq<Connection>)
    requires route.num in cfg.budgets
    requires HeuristicDefined(cfg.net, table)
    requires NodeOk(cfg, route, start, trail, node)
    ensures forall c :: c in edges && Offer(cfg, table, route, start, trail, node, c).Some? ==>
      Offer(cfg, table, route, start, trail, node, c).value in Survivors(cfg, table, route, start, trail, node, edges)
    decreases |edges|
  {
    if |edges| > 0 {
      var front := edges[..|edges| - 1];
      SurvivorsComplete(cfg, table, route, start, trail, node, front);
      forall c | c in edges && Offer(cfg, table, route, start, trail, node, c).Some?
        ensures Offer(cfg, table, route, start, trail, node, c).value in Survivors(cfg, table, route, start, trail, node, edges)
      {
        if c != edges[|edges| - 1] {
          assert edges == front + [edges[|edges| - 1]];
          assert c in front;
        }
      }
    }
  }

  /** The child of `node` along connection `c`, unless the step is pruned:
      `c` already used in trail mode, the step flooded or over budget, the
      connection used a third time, or the priority over budget. */
  function Child(cfg: Config, table: Table, route: Route, start: real, trail: bool, node: Node, c: Connection)
    : (r: Option<Node>)
    requires route.num in cfg.budgets
    requires HeuristicDefined(cfg.net, table)
    requires NodeOk(cfg, route, start, trail, node)
    requires c in cfg.net.connections && Touches(c, node.stop)
    ensures var next := Other(c, node.stop);
      var step := StepValid(node.stop, next, c, node.time);
      var budget := cfg.budgets[route.num];
      r.Some? <==>
        && !(trail && c in node.walk)
        && step.valid && step.time - start <= budget
        && !IsWalkSuboptimal(node.walk + [c], c)
        && step.time + Heuristic(table, cfg.net.interchange, next) - start <= budget
    ensures r.Some? ==> NodeOk(cfg, route, start, trail, r.value)
    ensures r.Some? ==> r.value.walk == node.walk + [c] && r.value.stop == Other(c, node.stop)
    ensures r.Some? ==> var next := Other(c, node.stop);
      && r.value.time == node.time + c.time
      && r.value.priority == r.value.time + Heuristic(table, cfg.net.interchange, next)
      && r.value.visited == (if next in route.required then node.visited + {next} else node.visited)
    ensures r.Some? ==> |r.value.walk| == |node.walk| + 1 <= 2 * |cfg.net.connections|
  {
    var budget := cfg.budgets[route.num];
    var next := Other(c, node.stop);
    var step := StepValid(node.stop, next, c, node.time);
    var walk := node.walk + [c];
    if trail && c in node.walk then None
    else if !step.valid || step.time - start > budget then None
    else if IsWalkSuboptimal(walk, c) then None
    else
      var priority := step.time + Heuristic(table, cfg.net.interchange, next);
      var seen := if next !in node.visited && next in route.required then node.visited + {next} else node.visited;
      var child := Node(next, step.time, walk, seen, priority);
      if child.priority - start > budget then None
      else
        ChildOk(cfg, route, start, trail, node, c, child);
        Some(child)
  }

  /**
   * Searches a walk for `route` leaving the origin at `time`. A returned
   * walk can always be driven from the origin at `time` and uses no
   * connection more than the mode allows; it is complete unless the
   * controller is disaster-resistant, which then returns its best
   * incomplete walk (ending at the interchange, or empty) rather than none.
   */
  method OptimalWalkSearch(cfg: Config, table: Table, route: Route, time: real, trail: bool)
    returns (r: Option<seq<Connection>>)
    requires route.num in cfg.budgets
    requires HeuristicDefined(cfg.net, table)
    ensures r.None? ==> !cfg.disasterResistant
    ensures r.Some? ==> SoundWalk(cfg, route, time, trail, r.value)
    ensures (exists w :: TreeSolution(cfg, table, route, time, trail, w)) ==>
      r.Some? && TreeSolution(cfg, table, route, time, trail, r.value)
    ensures r.Some? && !cfg.disasterResistant ==> TreeSolution(cfg, table, route, time, trail, r.value)
  {
    var net := cfg.net;
    var root := Root(cfg, table, route, time, trail);
    var best := root;
    var open := [root];
    ghost var K := |net.connections|;
    ghost var D := 2 * K;
    RootFrontier(cfg, table, route, time, trail);
    while |open| > 0
      invariant forall i :: 0 <= i < |open| ==> NodeOk(cfg, route, time, trail, open[i])
      invariant AllInTree(cfg, table, route, time, trail, open)
      invariant Frontier(cfg, table, route, time, trail, open)
      invariant NodeOk(cfg, route, time, trail, best)
      invariant best.walk == [] || best.stop == net.interchange
      decreases Weight(open, K, D)
    {
      var node := open[0];
      if IsWalkComplete(net, route, node.stop, node.visited) {
        CompleteNode(cfg, route, time, trail, node);
        NodeAnswer(cfg, route, time, trail, node);
        assert TreeSolution(cfg, table, route, time, trail, node.walk);
        return Some(node.walk);
      }
      if node.stop == net.interchange && |node.visited| > |best.visited| {
        best := node;
      }
      var children := Expand(cfg, table, route, time, trail, node);
      assert |node.walk| <= D;
      ExpansionShrinks(open, children, K, D);
      NextOpen(cfg, route, time, trail, open, children);
      NextTree(cfg, table, route, time, trail, open, children);
      NextFrontier(cfg, table, route, time, trail, open, children);
      open := SortBy(open[1..] + children, PriorityOf);
    }
    NoSolutionLeft(cfg, table, route, time, trail);
    if cfg.disasterResistant {
      NodeAnswer(cfg, route, time, trail, best);
      r := Some(best.walk);
    } else {
      r := None;
    }
  }

  // The search tree: the root node at the origin, and below every node the
  // children `Offer` gives it. A walk names the node reached by offering
  // its connections one by one from the root, if none of them is pruned.

  /** The node the search starts from: at the origin at `start`, with the
      empty walk and the origin seen. */
  function Root(cfg: Config, table: Table, route: Route, start: real, trail: bool): (r: Node)
    requires route.num in cfg.budgets
    requires HeuristicDefined(cfg.net, table)
    ensures NodeOk(cfg, route, start, trail, r)
    ensures r.stop == cfg.net.origin && r.time == start && r.walk == [] && r.visited == {cfg.net.origin}
    ensures r.priority == start + Heuristic(table, cfg.net.interchange, cfg.net.origin)
  {
    Node(cfg.net.origin, start, [], {cfg.net.origin}, start + Heuristic(table, cfg.net.interchange, cfg.net.origin))
  }

  /** The node reached from `node` by offering the connections of `w` in
      turn, or `None` once one of them is pruned (no node is offered below
      one that is not a search node). */
  ghost function Descend(cfg: Config, table: Table, route: Route, start: real, trail: bool, node: Node,
                         w: seq<Connection>): (r: Option<Node>)
    requires route.num in cfg.budgets
    requires HeuristicDefined(cfg.net, table)
    decreases |w|
  {
    if |w| == 0 then Some(node)
    else if !NodeOk(cfg, route, start, trail, node) then None
    else
      var n := Offer(cfg, table, route, start, trail, node, w[0]);
      if n.None? then None else Descend(cfg, table, route, start, trail, n.value, w[1..])
  }

  /** Every node below a search node is a search node. */
  lemma {:induction false} DescendOk(cfg: Config, table: Table, route: Route, start: real, trail: bool, node: Node,
                                     w: seq<Connection>)
    requires route.num in cfg.budgets
    requires HeuristicDefined(cfg.net, table)
    requires NodeOk(cfg, route, start, trail, node)
    ensures var r := Descend(cfg, table, route, start, trail, node, w);
      r.Some? ==> NodeOk(cfg, route, start, trail, r.value)
    decreases |w|
  {
    if |w| > 0 {
      var n := Offer(cfg, table, route, start, trail, node, w[0]);
      if n.Some? {
        DescendOk(cfg, table, route, start, trail, n.value, w[1..]);
      }
    }
  }

  /** The node below a search node along `w` is named by its walk extended
      by `w`. */
  lemma {:induction false} DescendWalk(cfg: Config, table: Table, route: Route, start: real, trail: bool,
                                       node: Node, w: seq<Connection>)
    requires route.num in cfg.budgets
    requires HeuristicDefined(cfg.net, table)
    requires NodeOk(cfg, route, start, trail, node)
    ensures var r := Descend(cfg, table, route, start, trail, node, w);
      r.Some? ==> r.value.walk == node.walk + w
    decreases |w|
  {
    if |w| > 0 {
      var n := Offer(cfg, table, route, start, trail, node, w[0]);
      if n.Some? {
        DescendWalk(cfg, table, route, start, trail, n.value, w[1..]);
        AppendFirst(node.walk, w);
      }
    }
  }

  lemma AppendFirst<T>(p: seq<T>, w: seq<T>)
    requires |w| > 0
    ensures p + [w[0]] + w[1..] == p + w
  {
    assert w == [w[0]] + w[1..];
  }

  /** Descending along `p + q` is descending along `p`, then along `q`. */
  lemma {:induction false} DescendSplit(cfg: Config, table: Table, route: Route, start: real, trail: bool,
                                        node: Node, p: seq<Connection>, q: seq<Connection>)
    requires route.num in cfg.budgets
    requires HeuristicDefined(cfg.net, table)
    requires NodeOk(cfg, route, start, trail, node)
    ensures var m := Descend(cfg, table, route, start, trail, node, p);
      Descend(cfg, table, route, start, trail, node, p + q)
        == if m.None? then None else Descend(cfg, table, route, start, trail, m.value, q)
    decreases |p|
  {
    if |p| == 0 {
      assert p + q == q;
    } else {
      assert (p + q)[0] == p[0];
      assert (p + q)[1..] == p[1..] + q;
      var n := Offer(cfg, table, route, start, trail, node, p[0]);
      if n.Some? {
        DescendSplit(cfg, table, route, start, trail, n.value, p[1..], q);
      }
    }
  }

  /** `n` is the node of the search tree that its own walk names. */
  ghost predicate InTree(cfg: Config, table: Table, route: Route, start: real, trail: bool, n: Node)
    requires route.num in cfg.budgets
    requires HeuristicDefined(cfg.net, table)
  {
    Descend(cfg, table, route, start, trail, Root(cfg, table, route, start, trail), n.walk) == Some(n)
  }

  /** `w` names a node of the search tree that passes the completeness test:
      a walk the search is after. */
  ghost predicate TreeSolution(cfg: Config, table: Table, route: Route, start: real, trail: bool, w: seq<Connection>)
    requires route.num in cfg.budgets
    requires HeuristicDefined(cfg.net, table)
  {
    var n := Descend(cfg, table, route, start, trail, Root(cfg, table, route, start, trail), w);
    n.Some? && IsWalkComplete(cfg.net, route, n.value.stop, n.value.visited)
  }

  /** Every solution of the tree lies below some node of the open list. */
  ghost predicate Frontier(cfg: Config, table: Table, route: Route, start: real, trail: bool, open: seq<Node>)
    requires route.num in cfg.budgets
    requires HeuristicDefined(cfg.net, table)
  {
    forall w :: TreeSolution(cfg, table, route, start, trail, w) ==>
      exists i :: 0 <= i < |open| && open[i].walk <= w
  }

  /** The open list holding only the root covers the whole tree. */
  lemma RootFrontier(cfg: Config, table: Table, route: Route, start: real, trail: bool)
    requires route.num in cfg.budgets
    requires HeuristicDefined(cfg.net, table)
    ensures var root := Root(cfg, table, route, start, trail);
      InTree(cfg, table, route, start, trail, root) && Frontier(cfg, table, route, start, trail, [root])
  {
    var root := Root(cfg, table, route, start, trail);
    forall w | TreeSolution(cfg, table, route, start, trail, w)
      ensures exists i :: 0 <= i < |[root]| && [root][i].walk <= w
    {
      assert [root][0].walk <= w;
    }
  }

  /** An empty open list that covers the tree means the tree has no solution. */
  lemma NoSolutionLeft(cfg: Config, table: Table, route: Route, start: real, trail: bool)
    requires route.num in cfg.budgets
    requires HeuristicDefined(cfg.net, table)
    requires Frontier(cfg, table, route, start, trail, [])
    ensures !exists w :: TreeSolution(cfg, table, route, start, trail, w)
  {
  }

  /** The child offered along `c` is the tree node named by the parent's
      walk extended by `c`. */
  lemma OfferInTree(cfg: Config, table: Table, route: Route, start: real, trail: bool, node: Node, c: Connection)
    requires route.num in cfg.budgets
    requires HeuristicDefined(cfg.net, table)
    requires NodeOk(cfg, route, start, trail, node)
    requires InTree(cfg, table, route, start, trail, node)
    requires Offer(cfg, table, route, start, trail, node, c).Some?
    ensures InTree(cfg, table, route, start, trail, Offer(cfg, table, route, start, trail, node, c).value)
  {
    var root := Root(cfg, table, route, start, trail);
    DescendSplit(cfg, table, route, start, trail, root, node.walk, [c]);
    assert Descend(cfg, table, route, start, trail, node, [c]) == Offer(cfg, table, route, start, trail, node, c);
  }

  /** Every node of `nodes` is a tree node. */
  ghost predicate AllInTree(cfg: Config, table: Table, route: Route, start: real, trail: bool, nodes: seq<Node>)
    requires route.num in cfg.budgets
    requires HeuristicDefined(cfg.net, table)
  {
    forall i :: 0 <= i < |nodes| ==> InTree(cfg, table, route, start, trail, nodes[i])
  }

  /** After an expansion every node of the open list is still a tree node. */
  lemma NextTree(cfg: Config, table: Table, route: Route, start: real, trail: bool,
                 open: seq<Node>, children: seq<Node>)
    requires route.num in cfg.budgets
    requires HeuristicDefined(cfg.net, table)
    requires |open| > 0
    requires NodeOk(cfg, route, start, trail, open[0])
    requires AllInTree(cfg, table, route, start, trail, open)
    requires forall i :: 0 <= i < |children| ==>
      Offered(cfg, table, route, start, trail, open[0], children[i])
    ensures AllInTree(cfg, table, route, start, trail, SortBy(open[1..] + children, PriorityOf))
  {
    assert InTree(cfg, table, route, start, trail, open[0]);
    ChildrenInTree(cfg, table, route, start, trail, open[0], children);
    TailInTree(cfg, table, route, start, trail, open);
    ConcatInTree(cfg, table, route, start, trail, open[1..], children);
    SortedInTree(cfg, table, route, start, trail, open[1..] + children);
  }

  lemma TailInTree(cfg: Config, table: Table, route: Route, start: real, trail: bool, open: seq<Node>)
    requires route.num in cfg.budgets
    requires HeuristicDefined(cfg.net, table)
    requires |open| > 0
    requires AllInTree(cfg, table, route, start, trail, open)
    ensures AllInTree(cfg, table, route, start, trail, open[1..])
  {
    forall i | 0 <= i < |open[1..]| ensures InTree(cfg, table, route, start, trail, open[1..][i]) {
      assert open[1..][i] == open[i + 1];
    }
  }

  lemma ConcatInTree(cfg: Config, table: Table, route: Route, start: real, trail: bool, a: seq<Node>, b: seq<Node>)
    requires route.num in cfg.budgets
    requires HeuristicDefined(cfg.net, table)
    requires AllInTree(cfg, table, route, start, trail, a)
    requires AllInTree(cfg, table, route, start, trail, b)
    ensures AllInTree(cfg, table, route, start, trail, a + b)
  {
    forall i | 0 <= i < |a + b| ensures InTree(cfg, table, route, start, trail, (a + b)[i]) {
      if i < |a| {
        assert (a + b)[i] == a[i];
      } else {
        assert (a + b)[i] == b[i - |a|];
      }
    }
  }

  lemma ChildrenInTree(cfg: Config, table: Table, route: Route, start: real, trail: bool,
                       node: Node, children: seq<Node>)
    requires route.num in cfg.budgets
    requires HeuristicDefined(cfg.net, table)
    requires NodeOk(cfg, route, start, trail, node)
    requires InTree(cfg, table, route, start, trail, node)
    requires forall i :: 0 <= i < |children| ==>
      Offered(cfg, table, route, start, trail, node, children[i])
    ensures AllInTree(cfg, table, route, start, trail, children)
  {
    forall i | 0 <= i < |children| ensures InTree(cfg, table, route, start, trail, children[i]) {
      assert Offered(cfg, table, route, start, trail, node, children[i]);
      assert exists c :: Offer(cfg, table, route, start, trail, node, c) == Some(children[i]);
      var c :| Offer(cfg, table, route, start, trail, node, c) == Some(children[i]);
      OfferInTree(cfg, table, route, start, trail, node, c);
    }
  }

  lemma SortedInTree(cfg: Config, table: Table, route: Route, start: real, trail: bool, nodes: seq<Node>)
    requires route.num in cfg.budgets
    requires HeuristicDefined(cfg.net, table)
    requires AllInTree(cfg, table, route, start, trail, nodes)
    ensures AllInTree(cfg, table, route, start, trail, SortBy(nodes, PriorityOf))
  {
    var sorted := SortBy(nodes, PriorityOf);
    forall i | 0 <= i < |sorted| ensures InTree(cfg, table, route, start, trail, sorted[i]) {
      MemberOfSorted(nodes, PriorityOf, sorted[i]);
      var k :| 0 <= k < |nodes| && nodes[k] == sorted[i];
    }
  }

  /** Popping an incomplete node and adding all its children keeps every
      solution of the tree below some open node. */
  lemma NextFrontier(cfg: Config, table: Table, route: Route, start: real, trail: bool,
                     open: seq<Node>, children: seq<Node>)
    requires route.num in cfg.budgets
    requires HeuristicDefined(cfg.net, table)
    requires |open| > 0
    requires NodeOk(cfg, route, start, trail, open[0])
    requires InTree(cfg, table, route, start, trail, open[0])
    requires !IsWalkComplete(cfg.net, route, open[0].stop, open[0].visited)
    requires Frontier(cfg, table, route, start, trail, open)
    requires forall c :: Offer(cfg, table, route, start, trail, open[0], c).Some? ==>
      Offer(cfg, table, route, start, trail, open[0], c).value in children
    ensures Frontier(cfg, table, route, start, trail, SortBy(open[1..] + children, PriorityOf))
  {
    var next := open[1..] + children;
    var open' := SortBy(next, PriorityOf);
    forall w | TreeSolution(cfg, table, route, start, trail, w)
      ensures exists j :: 0 <= j < |open'| && open'[j].walk <= w
    {
      var m := Covering(cfg, table, route, start, trail, open, children, w);
      var j := SortedIndex(next, m);
      assert open'[j].walk <= w;
    }
  }

  /** Where a node of `s` ends up once `s` is sorted by priority. */
  lemma SortedIndex(s: seq<Node>, m: Node) returns (j: nat)
    requires m in s
    ensures j < |SortBy(s, PriorityOf)| && SortBy(s, PriorityOf)[j] == m
  {
    SortByMembers(s, PriorityOf);
    assert m in multiset(s);
    assert m in SortBy(s, PriorityOf);
    j :| 0 <= j < |SortBy(s, PriorityOf)| && SortBy(s, PriorityOf)[j] == m;
  }

  /** A node of `open[1..] + children` above the solution `w`. */
  lemma Covering(cfg: Config, table: Table, route: Route, start: real, trail: bool,
                 open: seq<Node>, children: seq<Node>, w: seq<Connection>) returns (m: Node)
    requires route.num in cfg.budgets
    requires HeuristicDefined(cfg.net, table)
    requires |open| > 0
    requires NodeOk(cfg, route, start, trail, open[0])
    requires InTree(cfg, table, route, start, trail, open[0])
    requires !IsWalkComplete(cfg.net, route, open[0].stop, open[0].visited)
    requires Frontier(cfg, table, route, start, trail, open)
    requires forall c :: Offer(cfg, table, route, start, trail, open[0], c).Some? ==>
      Offer(cfg, table, route, start, trail, open[0], c).value in children
    requires TreeSolution(cfg, table, route, start, trail, w)
    ensures m in open[1..] + children && m.walk <= w
  {
    var i :| 0 <= i < |open| && open[i].walk <= w;
    if i > 0 {
      m := open[i];
      assert m == (open[1..] + children)[i - 1];
    } else {
      var c := BelowHead(cfg, table, route, start, trail, open[0], w);
      m := Offer(cfg, table, route, start, trail, open[0], c).value;
      assert m in children;
    }
  }

  /** A solution below an incomplete tree node lies below one of its
      children. */
  lemma BelowHead(cfg: Config, table: Table, route: Route, start: real, trail: bool, node: Node, w: seq<Connection>)
    returns (c: Connection)
    requires route.num in cfg.budgets
    requires HeuristicDefined(cfg.net, table)
    requires NodeOk(cfg, route, start, trail, node)
    requires InTree(cfg, table, route, start, trail, node)
    requires !IsWalkComplete(cfg.net, route, node.stop, node.visited)
    requires node.walk <= w
    requires TreeSolution(cfg, table, route, start, trail, w)
    ensures Offer(cfg, table, route, start, trail, node, c).Some?
    ensures Offer(cfg, table, route, start, trail, node, c).value.walk <= w
  {
    var p := node.walk;
    var root := Root(cfg, table, route, start, trail);
    var q := w[|p|..];
    assert w == p + q;
    DescendSplit(cfg, table, route, start, trail, root, p, q);
    assert Descend(cfg, table, route, start, trail, node, q) == Descend(cfg, table, route, start, trail, root, w);
    c := q[0];
    DescendFirst(cfg, table, route, start, trail, node, q);
    ExtendPrefix(p, w);
  }

  /** Descending along a non-empty walk first offers its first connection. */
  lemma DescendFirst(cfg: Config, table: Table, route: Route, start: real, trail: bool, node: Node, q: seq<Connection>)
    requires route.num in cfg.budgets
    requires HeuristicDefined(cfg.net, table)
    requires NodeOk(cfg, route, start, trail, node)
    requires |q| > 0
    requires Descend(cfg, table, route, start, trail, node, q).Some?
    ensures Offer(cfg, table, route, start, trail, node, q[0]).Some?
  {
  }

  lemma ExtendPrefix<T>(p: seq<T>, w: seq<T>)
    requires p <= w && |p| < |w|
    ensures p + [w[|p|]] <= w
  {
    assert p + [w[|p|]] == w[..|p| + 1];
  }

  /**
   * What a walk the search returns for `route` leaving at `start` is: it
   * can be driven from the origin at `start`, runs along connections of
   * the network, uses none more often than the mode allows, and is
   * complete unless the controller is disaster-resistant, in which case it
   * may be its best incomplete walk (ending at the interchange, or empty).
   */
  ghost predicate SoundWalk(cfg: Config, route: Route, start: real, trail: bool, walk: seq<Connection>)
    requires route.num in cfg.budgets
  {
    && IsWalkValid(cfg, walk, start, route.num)
    && Linked(cfg.net.origin, walk) && (forall c :: c in walk ==> c in cfg.net.connections)
    && (forall c :: multiset(walk)[c] <= UseLimit(trail))
    && (!CompleteWalk(cfg.net, route, walk) ==>
          cfg.disasterResistant && (walk == [] || EndStop(cfg.net.origin, walk) == cfg.net.interchange))
  }

  /** The walk of a well-formed node that is complete, or that a
      disaster-resistant controller may fall back on, is sound. */
  lemma NodeAnswer(cfg: Config, route: Route, start: real, trail: bool, n: Node)
    requires route.num in cfg.budgets
    requires NodeOk(cfg, route, start, trail, n)
    requires CompleteWalk(cfg.net, route, n.walk) ||
      (cfg.disasterResistant && (n.walk == [] || n.stop == cfg.net.interchange))
    ensures SoundWalk(cfg, route, start, trail, n.walk)
  {
  }

  /** Replacing the head of the open list by its children and re-sorting
      keeps every node well-formed. */
  lemma NextOpen(cfg: Config, route: Route, start: real, trail: bool, open: seq<Node>, children: seq<Node>)
    requires route.num in cfg.budgets
    requires |open| > 0
    requires forall i :: 0 <= i < |open| ==> NodeOk(cfg, route, start, trail, open[i])
    requires forall i :: 0 <= i < |children| ==> NodeOk(cfg, route, start, trail, children[i])
    ensures var open' := SortBy(open[1..] + children, PriorityOf);
      forall i :: 0 <= i < |open'| ==> NodeOk(cfg, route, start, trail, open'[i])
  {
    var next := open[1..] + children;
    forall i | 0 <= i < |next| ensures NodeOk(cfg, route, start, trail, next[i]) {
      if i < |open| - 1 {
        assert next[i] == open[i + 1];
      } else {
        assert next[i] == children[i - |open| + 1];
      }
    }
    SortedNodesOk(cfg, route, start, trail, next);
  }

  lemma SortedNodesOk(cfg: Config, route: Route, start: real, trail: bool, nodes: seq<Node>)
    requires route.num in cfg.budgets
    requires forall i :: 0 <= i < |nodes| ==> NodeOk(cfg, route, start, trail, nodes[i])
    ensures forall i :: 0 <= i < |SortBy(nodes, PriorityOf)| ==> NodeOk(cfg, route, start, trail, SortBy(nodes, PriorityOf)[i])
  {
    var sorted := SortBy(nodes, PriorityOf);
    forall i | 0 <= i < |sorted| ensures NodeOk(cfg, route, start, trail, sorted[i]) {
      MemberOfSorted(nodes, PriorityOf, sorted[i]);
      var k :| 0 <= k < |nodes| && nodes[k] == sorted[i];
    }
  }

  // Termination: a node at depth d weighs (K+1)^(D-d), where K is the
  // number of connections and D = 2K bounds the depth. Expanding a node
  // replaces it by at most K children of depth d+1, which weigh less.

  function Pow(b: nat, e: nat): (r: nat)
    ensures b >= 1 ==> r >= 1
  {
    if e == 0 then 1 else b * Pow(b, e - 1)
  }

  function NodeWeight(n: Node, k: nat, d: nat): nat
  {
    if |n.walk| <= d then Pow(k + 1, d - |n.walk|) else 0
  }

  function Weight(open: seq<Node>, k: nat, d: nat): nat
  {
    if |open| == 0 then 0 else NodeWeight(open[0], k, d) + Weight(open[1..], k, d)
  }

  lemma {:induction false} WeightConcat(a: seq<Node>, b: seq<Node>, k: nat, d: nat)
    ensures Weight(a + b, k, d) == Weight(a, k, d) + Weight(b, k, d)
    decreases |a|
  {
    if |a| > 0 {
      assert (a + b)[1..] == a[1..] + b;
      WeightConcat(a[1..], b, k, d);
    } else {
      assert a + b == b;
    }
  }

  lemma {:induction false} WeightInsert(x: Node, s: seq<Node>, k: nat, d: nat)
    ensures Weight(Insert(x, s, PriorityOf), k, d) == NodeWeight(x, k, d) + Weight(s, k, d)
    decreases |s|
  {
    if |s| == 0 || PriorityOf(x) <= PriorityOf(s[0]) {
      assert ([x] + s)[1..] == s;
    } else {
      WeightInsert(x, s[1..], k, d);
      var r := Insert(x, s, PriorityOf);
      assert r[1..] == Insert(x, s[1..], PriorityOf);
    }
  }

  lemma {:induction false} WeightSort(s: seq<Node>, k: nat, d: nat)
    ensures Weight(SortBy(s, PriorityOf), k, d) == Weight(s, k, d)
    decreases |s|
  {
    if |s| > 0 {
      WeightSort(s[1..], k, d);
      WeightInsert(s[0], SortBy(s[1..], PriorityOf), k, d);
    }
  }

  lemma {:induction false} WeightUniform(children: seq<Node>, depth: nat, k: nat, d: nat)
    requires depth <= d
    requires forall i :: 0 <= i < |children| ==> |children[i].walk| == depth
    ensures Weight(children, k, d) == |children| * Pow(k + 1, d - depth)
    decreases |children|
  {
    if |children| > 0 {
      WeightUniform(children[1..], depth, k, d);
    }
  }

  lemma MulLeft(a: nat, b: nat, p: nat)
    requires a <= b
    ensures a * p <= b * p
  {
  }

  lemma MulSucc(k: nat, p: nat)
    requires p >= 1
    ensures k * p < (k + 1) * p
  {
    assert (k + 1) * p == k * p + p;
  }

  /** The children of a node weigh strictly less than the node. */
  lemma WeightDrops(node: Node, children: seq<Node>, k: nat, d: nat)
    requires |node.walk| <= d
    requires |children| <= k
    requires forall i :: 0 <= i < |children| ==> |children[i].walk| == |node.walk| + 1
    requires |children| > 0 ==> |node.walk| + 1 <= d
    ensures Weight(children, k, d) < NodeWeight(node, k, d)
  {
    if |children| > 0 {
      var e := d - |node.walk| - 1;
      var p := Pow(k + 1, e);
      WeightUniform(children, |node.walk| + 1, k, d);
      assert Weight(children, k, d) == |children| * p;
      MulLeft(|children|, k, p);
      MulSucc(k, p);
      assert NodeWeight(node, k, d) == Pow(k + 1, e + 1) == (k + 1) * p;
    }
  }

  /** Popping the head and adding its children lowers the total weight. */
  lemma ExpansionShrinks(open: seq<Node>, children: seq<Node>, k: nat, d: nat)
    requires |open| > 0 && |open[0].walk| <= d
    requires |children| <= k
    requires forall i :: 0 <= i < |children| ==> |children[i].walk| == |open[0].walk| + 1
    requires |children| > 0 ==> |open[0].walk| + 1 <= d
    ensures Weight(SortBy(open[1..] + children, PriorityOf), k, d) < Weight(open, k, d)
  {
    WeightDrops(open[0], children, k, d);
    WeightConcat(open[1..], children, k, d);
    WeightSort(open[1..] + children, k, d);
  }
}
