/**
 * check_explain_inv_spec as written in solution_prettyPrint.py: explore forward,
 * re-test the last frontier, and on a violation walk the frontier trace backward
 * from a violating state of the last frontier, prepending one record per frontier.
 */
module InvariantChecker {
  import opened Wrappers
  import opened SymbolicFsm
  import opened Reachability

  /** cex is the part of the counterexample built so far: one record for each of
      the frontiers i .. |trace| - 1, starting in frontier i and ending in last. */
  ghost predicate BuiltSuffix<S(!new), I(!new)>(fsm: System<S, I>, trace: seq<set<S>>, i: int, cex: seq<Step<S, I>>, last: S)
  {
    && 0 <= i < |trace|
    && |cex| == |trace| - i
    && (forall m :: 0 <= m < |cex| ==> cex[m].state in trace[i + m])
    && cex[|cex| - 1] == Step(last, None)
    && (forall m :: 0 <= m < |cex| - 1 ==> fsm.Links(cex[m], cex[m + 1].state))
    && (forall m :: 0 <= m < |cex| - 1 ==> (cex[m].inputs.Some? <==> fsm.hasInputs))
  }

  /** Prepending a record of frontier i - 1 that steps to the first built state
      extends the built part by one frontier. */
  lemma PrependRecord<S(!new), I(!new)>(fsm: System<S, I>, trace: seq<set<S>>, i: int, cex: seq<Step<S, I>>, last: S, node: Step<S, I>)
    requires BuiltSuffix(fsm, trace, i, cex, last) && 0 < i
    requires node.state in trace[i - 1] && fsm.Links(node, cex[0].state)
    requires node.inputs.Some? <==> fsm.hasInputs
    ensures BuiltSuffix(fsm, trace, i - 1, [node] + cex, last)
  {
    var longer := [node] + cex;
    assert forall m :: 0 < m < |longer| ==> longer[m] == cex[m - 1];
  }

  /** The fully built counterexample is an execution from an initial state. */
  lemma BuiltIsExecution<S(!new), I(!new)>(fsm: System<S, I>, trace: seq<set<S>>, cex: seq<Step<S, I>>, last: S)
    requires BuiltSuffix(fsm, trace, 0, cex, last) && trace[0] == fsm.init
    ensures fsm.IsExecution(cex)
    ensures forall j :: 0 <= j < |cex| ==> (cex[j].inputs.Some? <==> fsm.hasInputs && j < |cex| - 1)
  {
    assert cex[0].state in trace[0];
  }

  /** The backward counterexample builder. Each pick is from a set that the
      frontier trace guarantees to be non-empty. */
  method BuildCounterexample<S(==,!new), I(==,!new)>(fsm: System<S, I>, spec: set<S>, trace: seq<set<S>>)
    returns (cex: seq<Step<S, I>>)
    requires fsm.Valid() && IsBfsTrace(fsm, trace)
    requires !SatisfySpec(fsm, spec, trace[|trace| - 1])
    ensures |cex| == |trace|
    ensures fsm.IsExecution(cex)
    ensures forall j :: 0 <= j < |cex| ==> cex[j].state in trace[j]
    ensures cex[|cex| - 1].state in fsm.states && cex[|cex| - 1].state !in spec
    ensures forall j :: 0 <= j < |cex| ==> (cex[j].inputs.Some? <==> fsm.hasInputs && j < |cex| - 1)
  {
    var negated := fsm.Complement(spec);
    var k := |trace| - 1;
    var last :| last in trace[k] * negated;
    cex := [Step(last, None)];
    var next := last;
    var previous := fsm.Pre({next});
    for i := k downto 0
      invariant BuiltSuffix(fsm, trace, i, cex, last)
      invariant cex[0].state == next && previous == fsm.Pre({next})
    {
      var node := PickStep(fsm, trace, i, next, previous);
      PrependRecord(fsm, trace, i + 1, cex, last, node);
      cex := [node] + cex;
      next := node.state;
      previous := fsm.Pre({next});
    }
    BuiltIsExecution(fsm, trace, cex, last);
  }

  /** One backward step: a state of trace[i] among the predecessors of next, with an
      input enabling the transition when the model has input variables. */
  method PickStep<S(==,!new), I(==,!new)>(fsm: System<S, I>, trace: seq<set<S>>, i: int, next: S, previous: set<S>)
    returns (node: Step<S, I>)
    requires IsBfsTrace(fsm, trace) && 0 <= i < |trace| - 1 && next in trace[i + 1]
    requires previous == fsm.Pre({next})
    ensures node.state in trace[i] && fsm.Links(node, next)
    ensures node.inputs.Some? <==> fsm.hasInputs
  {
    var current := trace[i];
    FrontierHasPredecessor(fsm, trace, i + 1, next);
    var intersect := current * previous;
    assert intersect != {} by {
      var s :| s in trace[i] && fsm.Succ(s, next);
      assert next in {next};
      assert s in fsm.Pre({next});
      assert s in intersect;
    }
    var state :| state in intersect;
    assert fsm.Succ(state, next) by {
      var t :| t in {next} && fsm.Succ(state, t);
    }
    node := Step(state, None);
    if fsm.hasInputs {
      var inputs := fsm.InputsBetween(state, next);
      var input :| input in inputs;
      node := Step(state, Some(input));
    }
  }

  /** The verdict and, on a violation, a counterexample: a shortest execution from an
      initial state to a state outside spec. */
  method CheckExplainInvSpec<S(==,!new), I(==,!new)>(fsm: System<S, I>, spec: set<S>)
    returns (holds: bool, cex: Option<seq<Step<S, I>>>)
    requires fsm.Valid()
    ensures holds <==> forall p :: fsm.IsPath(p) ==> p[|p| - 1] in spec
    ensures holds <==> cex.None?
    ensures cex.Some? ==> fsm.IsExecution(cex.value) && cex.value[|cex.value| - 1].state !in spec
    ensures cex.Some? ==> forall p :: fsm.IsPath(p) && |p| < |cex.value| ==> p[|p| - 1] in spec
    ensures !SatisfySpec(fsm, spec, fsm.init) ==> cex.Some? && |cex.value| == 1 && cex.value[0].inputs.None?
  {
    var trace := Explore(fsm, spec);
    holds := SatisfySpec(fsm, spec, trace[|trace| - 1]);
    if holds {
      PassSound(fsm, spec, trace);
      return true, None;
    }
    var c := BuildCounterexample(fsm, spec, trace);
    ShortestViolation(fsm, spec, trace);
    fsm.ExecutionIsPath(c);
    assert StatesOf(c)[|c| - 1] == c[|c| - 1].state;
    cex := Some(c);
  }
}
