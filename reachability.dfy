/**
 * The forward breadth-first exploration of check_explain_inv_spec: starting from
 * the initial states it keeps the set of reached states and the current frontier,
 * records every frontier in a trace, and stops when the frontier is empty or
 * contains a state violating the invariant.
 */
module Reachability {
  import opened SymbolicFsm

  /** satisfy_spec: the set xs does not meet the complement of the satisfying set spec. */
  function SatisfySpec<S(==,!new), I(==,!new)>(fsm: System<S, I>, spec: set<S>, xs: set<S>): (r: bool)
    ensures r <==> forall s :: s in xs && s in fsm.states ==> s in spec
  {
    var meets := xs * fsm.Complement(spec) != {};
    assert meets <==> exists s :: s in xs && s in fsm.states && s !in spec by {
      if meets {
        var s :| s in xs * fsm.Complement(spec);
      } else {
        forall s | s in xs && s in fsm.states ensures s in spec {
          assert s !in xs * fsm.Complement(spec);
        }
      }
    }
    !meets
  }

  /** A frontier trace: trace[0] is the initial set, and each later entry is the
      post-image of the one before minus everything recorded so far. */
  ghost predicate IsBfsTrace<S(!new), I(!new)>(fsm: System<S, I>, trace: seq<set<S>>)
  {
    && |trace| > 0
    && trace[0] == fsm.init
    && FollowsFrontierRule(fsm, trace)
  }

  /** Every frontier before the last was non-empty and satisfied the invariant. */
  ghost predicate EarlierFrontiersSafe<S(!new), I(!new)>(fsm: System<S, I>, spec: set<S>, trace: seq<set<S>>)
  {
    forall i :: 0 <= i < |trace| - 1 ==> trace[i] != {} && SatisfySpec(fsm, spec, trace[i])
  }

  /** The exploration stopped where its loop condition first failed: every earlier
      frontier was non-empty and satisfied the invariant, the last one is empty or does not. */
  ghost predicate StopsAtFirstFailure<S(!new), I(!new)>(fsm: System<S, I>, spec: set<S>, trace: seq<set<S>>)
    requires |trace| > 0
  {
    && EarlierFrontiersSafe(fsm, spec, trace)
    && (trace[|trace| - 1] == {} || !SatisfySpec(fsm, spec, trace[|trace| - 1]))
  }

  /** The exploration loop; it terminates because every non-empty new frontier grows
      the reached set inside the finite state space. */
  method Explore<S(==,!new), I(==,!new)>(fsm: System<S, I>, spec: set<S>) returns (trace: seq<set<S>>)
    requires fsm.Valid()
    ensures IsBfsTrace(fsm, trace)
    ensures StopsAtFirstFailure(fsm, spec, trace)
  {
    var reached := fsm.init;
    var current := fsm.init;
    trace := [reached];
    while current != {} && SatisfySpec(fsm, spec, current)
      invariant IsBfsTrace(fsm, trace) && current == trace[|trace| - 1]
      invariant reached == UnionOf(trace) && reached <= fsm.states
      invariant EarlierFrontiersSafe(fsm, spec, trace)
      decreases |fsm.states - reached|, if current == {} then 0 else 1
    {
      ghost var oldReached, oldTrace := reached, trace;
      current := fsm.Post(current) - reached;
      reached := reached + current;
      trace := trace + [current];
      ExtendTrace(fsm, spec, oldTrace);
      if current != {} {
        ProperGrowth(fsm.states, oldReached, current);
      }
    }
  }

  /** Appending the next frontier to a trace whose last frontier is non-empty and
      satisfies the invariant keeps the trace a frontier trace with safe earlier frontiers. */
  lemma ExtendTrace<S(!new), I(!new)>(fsm: System<S, I>, spec: set<S>, trace: seq<set<S>>)
    requires fsm.Valid() && IsBfsTrace(fsm, trace) && EarlierFrontiersSafe(fsm, spec, trace)
    requires trace[|trace| - 1] != {} && SatisfySpec(fsm, spec, trace[|trace| - 1])
    ensures var next := fsm.Post(trace[|trace| - 1]) - UnionOf(trace);
      && IsBfsTrace(fsm, trace + [next])
      && EarlierFrontiersSafe(fsm, spec, trace + [next])
      && UnionOf(trace + [next]) == UnionOf(trace) + next
      && next <= fsm.states
  {
    var next := fsm.Post(trace[|trace| - 1]) - UnionOf(trace);
    PostWithinStates(fsm, trace[|trace| - 1]);
    ExtendFrontierRule(fsm, trace);
    var longer := trace + [next];
    forall i | 0 <= i < |longer| - 1 ensures longer[i] != {} && SatisfySpec(fsm, spec, longer[i]) {
      assert longer[i] == trace[i];
    }
  }

  /** Adding a non-empty set of new states within the space shrinks what is left. */
  lemma ProperGrowth<S>(states: set<S>, reached: set<S>, added: set<S>)
    requires added != {} && added <= states && added !! reached
    ensures |states - (reached + added)| < |states - reached|
  {
    var x :| x in added;
    var left, before := states - (reached + added), states - reached;
    assert before == left + (before - left);
    assert left * (before - left) == {};
    assert {x} <= before - left;
    assert |before - left| >= |{x}|;
  }

  /** Frontier k is the post-image of frontier k - 1 minus the frontiers before it. */
  ghost predicate FrontierStep<S(!new), I(!new)>(fsm: System<S, I>, trace: seq<set<S>>, k: int)
  {
    0 < k < |trace| && trace[k] == fsm.Post(trace[k - 1]) - UnionOf(trace[..k])
  }

  /** The recurrence between consecutive frontiers of a trace. */
  ghost predicate FollowsFrontierRule<S(!new), I(!new)>(fsm: System<S, I>, trace: seq<set<S>>)
  {
    forall k :: 0 < k < |trace| ==> FrontierStep(fsm, trace, k)
  }

  /** Appending the next frontier keeps the recurrence and adds the frontier to the union. */
  lemma ExtendFrontierRule<S(!new), I(!new)>(fsm: System<S, I>, trace: seq<set<S>>)
    requires |trace| > 0 && FollowsFrontierRule(fsm, trace)
    ensures var next := fsm.Post(trace[|trace| - 1]) - UnionOf(trace);
      && FollowsFrontierRule(fsm, trace + [next])
      && UnionOf(trace + [next]) == UnionOf(trace) + next
  {
    var next := fsm.Post(trace[|trace| - 1]) - UnionOf(trace);
    var longer := trace + [next];
    assert longer[..|trace|] == trace;
    forall k | 0 < k < |longer| ensures FrontierStep(fsm, longer, k) {
      if k < |trace| {
        assert FrontierStep(fsm, trace, k);
        assert longer[..k] == trace[..k];
      }
    }
  }

  /** The post-image stays inside the state space. */
  lemma PostWithinStates<S(!new), I(!new)>(fsm: System<S, I>, xs: set<S>)
    requires fsm.Valid()
    ensures fsm.Post(xs) <= fsm.states
  {
    forall t | t in fsm.Post(xs) ensures t in fsm.states {
      var s :| s in xs && fsm.Succ(s, t);
      var i :| (s, i, t) in fsm.trans;
    }
  }

  /** Every frontier lies in the state space. */
  lemma FrontierBounds<S(!new), I(!new)>(fsm: System<S, I>, trace: seq<set<S>>)
    requires fsm.Valid() && IsBfsTrace(fsm, trace)
    ensures forall i :: 0 <= i < |trace| ==> trace[i] <= fsm.states
  {
    forall i | 0 < i < |trace| ensures trace[i] <= fsm.states {
      assert FrontierStep(fsm, trace, i);
      PostWithinStates(fsm, trace[i - 1]);
    }
  }

  /** Every state of a frontier after the first has a predecessor in the frontier before it. */
  lemma FrontierHasPredecessor<S(!new), I(!new)>(fsm: System<S, I>, trace: seq<set<S>>, k: int, t: S)
    requires IsBfsTrace(fsm, trace) && 0 < k < |trace| && t in trace[k]
    ensures exists s :: s in trace[k - 1] && fsm.Succ(s, t)
  {
    assert FrontierStep(fsm, trace, k);
  }

  /** Each frontier is disjoint from every earlier one. */
  lemma FrontiersDisjoint<S(!new), I(!new)>(fsm: System<S, I>, trace: seq<set<S>>)
    requires IsBfsTrace(fsm, trace)
    ensures forall i, j :: 0 <= i < j < |trace| ==> trace[i] * trace[j] == {}
  {
    forall i, j | 0 <= i < j < |trace| ensures trace[i] * trace[j] == {} {
      var before := trace[..j];
      assert before[i] == trace[i];
      assert trace[i] <= UnionOf(before);
      assert FrontierStep(fsm, trace, j);
    }
  }

  /** The last state of a path lies in a frontier whose index is smaller than the
      path's length, provided the path is no longer than the trace or the
      exploration ran to an empty frontier. */
  lemma {:induction false} PathEndsInTrace<S(!new), I(!new)>(fsm: System<S, I>, trace: seq<set<S>>, p: seq<S>)
    requires IsBfsTrace(fsm, trace) && fsm.IsPath(p)
    requires |p| <= |trace| || trace[|trace| - 1] == {}
    ensures exists j :: 0 <= j < |trace| && j < |p| && p[|p| - 1] in trace[j]
  {
    if |p| == 1 {
      assert p[0] in trace[0];
    } else {
      var q := p[..|p| - 1];
      assert fsm.IsPath(q) by {
        forall m | 0 <= m < |q| - 1 ensures fsm.Succ(q[m], q[m + 1]) {
          assert q[m] == p[m] && q[m + 1] == p[m + 1];
        }
      }
      PathEndsInTrace(fsm, trace, q);
      var j :| 0 <= j < |trace| && j < |q| && q[|q| - 1] in trace[j];
      assert j + 1 < |trace|;
      var s, t := p[|p| - 2], p[|p| - 1];
      assert fsm.Succ(s, t);
      assert t in fsm.Post(trace[j]);
      assert FrontierStep(fsm, trace, j + 1);
      var before := trace[..j + 1];
      if t in UnionOf(before) {
        var j' :| 0 <= j' < |before| && t in before[j'];
        assert t in trace[j'];
      } else {
        assert t in trace[j + 1];
      }
    }
  }

  /** Frontier i holds exactly the states at distance i: each is the end of a path
      of i + 1 states, and no path of at most |trace| states reaches it sooner. */
  lemma {:induction false} FrontierIsDepth<S(!new), I(!new)>(fsm: System<S, I>, trace: seq<set<S>>, i: nat, s: S)
    requires IsBfsTrace(fsm, trace) && i < |trace| && s in trace[i]
    ensures exists p :: fsm.IsPath(p) && |p| == i + 1 && p[i] == s
    ensures forall p :: fsm.IsPath(p) && |p| <= |trace| && p[|p| - 1] == s ==> |p| >= i + 1
  {
    if i == 0 {
      assert fsm.IsPath([s]);
    } else {
      FrontierHasPredecessor(fsm, trace, i, s);
      var r :| r in trace[i - 1] && fsm.Succ(r, s);
      FrontierIsDepth(fsm, trace, i - 1, r);
      var q :| fsm.IsPath(q) && |q| == i && q[i - 1] == r;
      var p := q + [s];
      assert forall m :: 0 <= m < i ==> p[m] == q[m];
      assert fsm.IsPath(p);
    }
    forall p | fsm.IsPath(p) && |p| <= |trace| && p[|p| - 1] == s ensures |p| >= i + 1 {
      PathEndsInTrace(fsm, trace, p);
      var j :| 0 <= j < |trace| && j < |p| && s in trace[j];
      FrontiersDisjoint(fsm, trace);
      assert s in trace[j] * trace[i];
    }
  }

  /** The converse of FrontierIsDepth: a state first reached by a path of n states,
      n at most |trace|, lies in frontier n - 1. */
  lemma DepthIsFrontier<S(!new), I(!new)>(fsm: System<S, I>, trace: seq<set<S>>, p: seq<S>)
    requires IsBfsTrace(fsm, trace) && fsm.IsPath(p) && |p| <= |trace|
    requires forall q :: fsm.IsPath(q) && q[|q| - 1] == p[|p| - 1] ==> |q| >= |p|
    ensures p[|p| - 1] in trace[|p| - 1]
  {
    PathEndsInTrace(fsm, trace, p);
    var j :| 0 <= j < |trace| && j < |p| && p[|p| - 1] in trace[j];
    FrontierIsDepth(fsm, trace, j, p[|p| - 1]);
  }

  /** Soundness of PASS: when the exploration stops with a last frontier that
      satisfies the invariant, every reachable state satisfies it. */
  lemma PassSound<S(!new), I(!new)>(fsm: System<S, I>, spec: set<S>, trace: seq<set<S>>)
    requires fsm.Valid() && IsBfsTrace(fsm, trace) && StopsAtFirstFailure(fsm, spec, trace)
    requires SatisfySpec(fsm, spec, trace[|trace| - 1])
    ensures forall p :: fsm.IsPath(p) ==> p[|p| - 1] in spec
  {
    FrontierBounds(fsm, trace);
    forall p | fsm.IsPath(p) ensures p[|p| - 1] in spec {
      PathEndsInTrace(fsm, trace, p);
      var j :| 0 <= j < |trace| && j < |p| && p[|p| - 1] in trace[j];
      assert SatisfySpec(fsm, spec, trace[j]);
    }
  }

  /** No path with fewer states than the trace has frontiers reaches a violation. */
  lemma ShortestViolation<S(!new), I(!new)>(fsm: System<S, I>, spec: set<S>, trace: seq<set<S>>)
    requires fsm.Valid() && IsBfsTrace(fsm, trace) && StopsAtFirstFailure(fsm, spec, trace)
    ensures forall p :: fsm.IsPath(p) && |p| < |trace| ==> p[|p| - 1] in spec
  {
    FrontierBounds(fsm, trace);
    forall p | fsm.IsPath(p) && |p| < |trace| ensures p[|p| - 1] in spec {
      PathEndsInTrace(fsm, trace, p);
      var j :| 0 <= j < |trace| && j < |p| && p[|p| - 1] in trace[j];
      assert SatisfySpec(fsm, spec, trace[j]);
    }
  }
}
