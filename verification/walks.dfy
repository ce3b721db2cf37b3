/**
 * Flood validity of single steps and of whole walks. A walk is a sequence
 * of connections replayed from the fixed origin: each step leaves the
 * current stop along the connection and arrives at its other end.
 */
module Walks {
  import opened Flood
  import opened Graph

  /** What the controller is configured with: the network, whether broken
      walks are searched again, and the time budget of each route number. */
  datatype Config = Config(net: Network, disasterResistant: bool, budgets: map<int, real>)

  /** The per-route budgets the controller starts with, in seconds: one for
      each route the network constructor adds, and every one positive. */
  function DefaultBudgets(): (b: map<int, real>)
    ensures forall num :: num in b <==> num in RouteNumbers
    ensures forall num :: num in b ==> 0.0 < b[num]
  {
    map[414 := 60.0 * 47.0, 427 := 60.0 * 38.0, 428 := 60.0 * 42.0, 432 := 60.0 * 37.0]
  }

  /** The outcome of one step: whether it is passable and, if so, the
      arrival time (-1 otherwise). */
  datatype Step = Step(valid: bool, time: real)

  /** One step from `src` to `dst` along `c`, leaving at time `t`; it is
      judged by the water level at the arrival time. */
  function StepValid(src: Stop, dst: Stop, c: Connection, t: real): (r: Step)
    ensures r.valid <==> !Flooded(c.elevation, t + c.time) && !Flooded(dst.elevation, t + c.time)
    ensures r.valid ==> r.time == t + c.time
    ensures !r.valid ==> r.time == -1.0
  {
    var arrival := t + c.time;
    var level := WaterLevel(arrival);
    if c.elevation <= level || dst.elevation <= level then Step(false, -1.0) else Step(true, arrival)
  }

  /** A step that is blocked stays blocked when taken later. */
  lemma StepInvalidPersists(src: Stop, dst: Stop, c: Connection, t1: real, t2: real)
    requires t1 <= t2
    requires !StepValid(src, dst, c, t1).valid
    ensures !StepValid(src, dst, c, t2).valid
  {
    WaterLevelMonotone(t1 + c.time, t2 + c.time);
  }

  /** Water rising from 0 m to 20 m over four hours reaches a 5 m roadway
      between two stops at 30 m one hour in: the step is passable exactly
      when it arrives before 3600 s. */
  lemma FloodScenario(a: Stop, b: Stop, c: Connection, t: real)
    requires a.elevation == 30.0 && b.elevation == 30.0
    requires c == Connection(a, b, c.time, 5.0)
    ensures StepValid(a, b, c, t).valid <==> t + c.time < 3600.0
  {
  }

  /** The stop reached after replaying `walk` from `prev`. */
  function EndStop(prev: Stop, walk: seq<Connection>): Stop
    decreases |walk|
  {
    if |walk| == 0 then prev else EndStop(Other(walk[0], prev), walk[1..])
  }

  /** The stops arrived at, step by step, when replaying `walk` from `prev`. */
  function Reached(prev: Stop, walk: seq<Connection>): (r: seq<Stop>)
    ensures |r| == |walk|
    ensures forall i :: 0 <= i < |r| ==> Touches(walk[i], r[i])
    decreases |walk|
  {
    if |walk| == 0 then [] else [Other(walk[0], prev)] + Reached(Other(walk[0], prev), walk[1..])
  }

  /** Each connection of `walk` leaves from the stop the previous one
      reached, starting at `prev`. */
  predicate Linked(prev: Stop, walk: seq<Connection>)
    decreases |walk|
  {
    |walk| == 0 || (Touches(walk[0], prev) && Linked(Other(walk[0], prev), walk[1..]))
  }

  /** Total travel time of a walk. */
  function Duration(walk: seq<Connection>): real
  {
    if |walk| == 0 then 0.0 else walk[0].time + Duration(walk[1..])
  }

  /** The replay loop of the controller: from `prev` at time `t`, every step
      must be passable and arrive within `budget` of `start`. */
  predicate ValidFrom(prev: Stop, walk: seq<Connection>, t: real, start: real, budget: real)
    decreases |walk|
  {
    if |walk| == 0 then true
    else
      var next := Other(walk[0], prev);
      var step := StepValid(prev, next, walk[0], t);
      step.valid && step.time - start <= budget && ValidFrom(next, walk[1..], step.time, start, budget)
  }

  /** The replay stops at the first bad step, so every prefix of a walk
      that can be driven can be driven too. */
  lemma {:induction false} ValidPrefix(prev: Stop, walk: seq<Connection>, t: real, start: real, budget: real, k: nat)
    requires ValidFrom(prev, walk, t, start, budget)
    requires k <= |walk|
    ensures ValidFrom(prev, walk[..k], t, start, budget)
    decreases k
  {
    if k > 0 {
      var next := Other(walk[0], prev);
      ValidPrefix(next, walk[1..], t + walk[0].time, start, budget, k - 1);
      assert walk[..k][1..] == walk[1..][..k - 1];
    }
  }

  /** Step `i` of `walk`, replayed from `prev` leaving at `t`, is clear of
      water at its arrival and arrives within `budget` of `start`. */
  predicate StepOk(prev: Stop, walk: seq<Connection>, i: nat, t: real, start: real, budget: real)
    requires i < |walk|
  {
    var arrival := t + Duration(walk[..i + 1]);
    && !Flooded(walk[i].elevation, arrival)
    && !Flooded(EndStop(prev, walk[..i + 1]).elevation, arrival)
    && arrival - start <= budget
  }

  /** Whether the walk can still be driven from the origin leaving at `t`. */
  function IsWalkValid(cfg: Config, walk: seq<Connection>, t: real, routeNum: int): (r: bool)
    requires routeNum in cfg.budgets
    ensures r <==> forall i :: 0 <= i < |walk| ==> StepOk(cfg.net.origin, walk, i, t, t, cfg.budgets[routeNum])
  {
    ValidFromSteps(cfg.net.origin, walk, t, t, cfg.budgets[routeNum]);
    ValidFrom(cfg.net.origin, walk, t, t, cfg.budgets[routeNum])
  }

  lemma PrefixShift(walk: seq<Connection>, i: nat)
    requires 1 <= i < |walk|
    ensures walk[..i + 1] == [walk[0]] + walk[1..][..i]
    ensures Duration(walk[..i + 1]) == walk[0].time + Duration(walk[1..][..i])
  {
    assert walk[..i + 1] == [walk[0]] + walk[1..][..i];
    assert walk[..i + 1][1..] == walk[1..][..i];
  }

  /** The replay loop accepts a walk exactly when every step is clear of
      water at its own arrival time and within the budget. */
  lemma {:induction false} ValidFromSteps(prev: Stop, walk: seq<Connection>, t: real, start: real, budget: real)
    ensures ValidFrom(prev, walk, t, start, budget)
        <==> forall i :: 0 <= i < |walk| ==> StepOk(prev, walk, i, t, start, budget)
    decreases |walk|
  {
    if |walk| > 0 {
      var c := walk[0];
      var next := Other(c, prev);
      var rest := walk[1..];
      var t' := t + c.time;
      ValidFromSteps(next, rest, t', start, budget);
      assert walk[..1] == [c];
      assert Duration(walk[..1]) == c.time;
      assert EndStop(prev, walk[..1]) == next;
      forall i | 1 <= i < |walk|
        ensures StepOk(prev, walk, i, t, start, budget) <==> StepOk(next, rest, i - 1, t', start, budget)
      {
        PrefixShift(walk, i);
        assert walk[..i + 1][1..] == rest[..i];
        assert EndStop(prev, walk[..i + 1]) == EndStop(next, rest[..i]);
      }
      if ValidFrom(prev, walk, t, start, budget) {
        forall i | 0 <= i < |walk| ensures StepOk(prev, walk, i, t, start, budget) {
          if i > 0 {
            assert StepOk(next, rest, i - 1, t', start, budget);
          }
        }
      }
      if forall i :: 0 <= i < |walk| ==> StepOk(prev, walk, i, t, start, budget) {
        assert StepOk(prev, walk, 0, t, start, budget);
        forall i | 0 <= i < |rest| ensures StepOk(next, rest, i, t', start, budget) {
          assert StepOk(prev, walk, i + 1, t, start, budget);
        }
      }
    }
  }

  /** Replaying one more connection: the end stop moves along it and the
      duration grows by its time. */
  lemma {:induction false} AppendStep(prev: Stop, walk: seq<Connection>, c: Connection)
    ensures EndStop(prev, walk + [c]) == Other(c, EndStop(prev, walk))
    ensures Linked(prev, walk + [c]) <==> Linked(prev, walk) && Touches(c, EndStop(prev, walk))
    ensures Reached(prev, walk + [c]) == Reached(prev, walk) + [Other(c, EndStop(prev, walk))]
    ensures Duration(walk + [c]) == Duration(walk) + c.time
    decreases |walk|
  {
    if |walk| > 0 {
      assert (walk + [c])[1..] == walk[1..] + [c];
      AppendStep(Other(walk[0], prev), walk[1..], c);
    } else {
      assert walk + [c] == [c];
    }
  }

  /** Replaying two walks one after the other: the second leaves from where
      the first ends. */
  lemma {:induction false} ConcatWalk(prev: Stop, w1: seq<Connection>, w2: seq<Connection>)
    ensures EndStop(prev, w1 + w2) == EndStop(EndStop(prev, w1), w2)
    ensures Linked(prev, w1 + w2) <==> Linked(prev, w1) && Linked(EndStop(prev, w1), w2)
    decreases |w1|
  {
    if |w1| > 0 {
      assert (w1 + w2)[0] == w1[0];
      assert (w1 + w2)[1..] == w1[1..] + w2;
      ConcatWalk(Other(w1[0], prev), w1[1..], w2);
    } else {
      assert w1 + w2 == w2;
    }
  }

  /** The stops reached and the durations of two walks driven one after
      the other add up. */
  lemma {:induction false} ConcatMeasures(prev: Stop, w1: seq<Connection>, w2: seq<Connection>)
    ensures Reached(prev, w1 + w2) == Reached(prev, w1) + Reached(EndStop(prev, w1), w2)
    ensures Duration(w1 + w2) == Duration(w1) + Duration(w2)
    decreases |w1|
  {
    if |w1| > 0 {
      assert (w1 + w2)[0] == w1[0];
      assert (w1 + w2)[1..] == w1[1..] + w2;
      ConcatMeasures(Other(w1[0], prev), w1[1..], w2);
    } else {
      assert w1 + w2 == w2;
    }
  }

  /** The connections of a walk in the opposite order. */
  function Reversed(walk: seq<Connection>): (r: seq<Connection>)
    ensures |r| == |walk|
    ensures forall c :: c in r <==> c in walk
  {
    if |walk| == 0 then [] else
      var r := Reversed(walk[1..]) + [walk[0]];
      assert walk == [walk[0]] + walk[1..];
      r
  }

  /** Driving a linked walk backwards leads from its end to its start in
      the same time, through the start and the stops it reached. */
  lemma {:induction false} ReverseWalk(prev: Stop, walk: seq<Connection>)
    requires Linked(prev, walk)
    ensures Linked(EndStop(prev, walk), Reversed(walk))
    ensures EndStop(EndStop(prev, walk), Reversed(walk)) == prev
    ensures Duration(Reversed(walk)) == Duration(walk)
    ensures forall s :: s in Reached(EndStop(prev, walk), Reversed(walk)) ==> s == prev || s in Reached(prev, walk)
    decreases |walk|
  {
    if |walk| > 0 {
      var c := walk[0];
      var next := Other(c, prev);
      var e := EndStop(prev, walk);
      ReverseWalk(next, walk[1..]);
      AppendStep(e, Reversed(walk[1..]), c);
      assert Other(c, next) == prev;
    }
  }

  /** A walk extended by one connection replays validly exactly when the
      walk does and the new step is passable and within the budget. */
  lemma {:induction false} AppendValid(prev: Stop, walk: seq<Connection>, c: Connection,
                                        t: real, start: real, budget: real)
    ensures var e := EndStop(prev, walk);
      var step := StepValid(e, Other(c, e), c, t + Duration(walk));
      ValidFrom(prev, walk + [c], t, start, budget)
      <==> ValidFrom(prev, walk, t, start, budget) && step.valid && step.time - start <= budget
    decreases |walk|
  {
    if |walk| > 0 {
      var next := Other(walk[0], prev);
      assert (walk + [c])[1..] == walk[1..] + [c];
      assert (walk + [c])[0] == walk[0];
      AppendValid(next, walk[1..], c, t + walk[0].time, start, budget);
    } else {
      assert walk + [c] == [c];
    }
  }

  /** A walk that can be driven leaving at `t2` can be driven leaving at any
      earlier `t1`: the water is no higher at each earlier arrival. */
  lemma {:induction false} ValidEarlier(prev: Stop, walk: seq<Connection>, t1: real, start1: real,
                                         t2: real, start2: real, budget: real)
    requires t1 <= t2 && t1 - start1 == t2 - start2
    requires ValidFrom(prev, walk, t2, start2, budget)
    ensures ValidFrom(prev, walk, t1, start1, budget)
    decreases |walk|
  {
    if |walk| > 0 {
      var c := walk[0];
      WaterLevelMonotone(t1 + c.time, t2 + c.time);
      ValidEarlier(Other(c, prev), walk[1..], t1 + c.time, start1, t2 + c.time, start2, budget);
    }
  }

  /** Once a walk cannot be driven, it cannot be driven at any later time. */
  lemma InvalidStaysInvalid(cfg: Config, walk: seq<Connection>, t1: real, t2: real, routeNum: int)
    requires routeNum in cfg.budgets
    requires t1 <= t2
    requires !IsWalkValid(cfg, walk, t1, routeNum)
    ensures !IsWalkValid(cfg, walk, t2, routeNum)
  {
    var b := cfg.budgets[routeNum];
    if ValidFrom(cfg.net.origin, walk, t2, t2, b) {
      ValidEarlier(cfg.net.origin, walk, t1, t1, t2, t2, b);
    }
  }
}
