/**
 * check_explain_inv_spec as written in solution.py. The exploration and the
 * verdict are those of solution_prettyPrint.py; the backward walk differs: it
 * starts from a predecessor of the last frontier instead of a violating state of
 * it, appends records newest first and reverses the list at the end.
 */
module InvariantCheckerAsWritten {
  import opened Wrappers
  import opened SymbolicFsm
  import opened Reachability

  /** The error the engine raises when a state or an input is picked from an empty set. */
  datatype CheckError = PickFromEmptySet

  /** list(reversed(s)). */
  function Reverse<T>(s: seq<T>): (r: seq<T>)
    ensures |r| == |s|
    ensures forall j :: 0 <= j < |s| ==> r[j] == s[|s| - 1 - j]
  {
    if s == [] then [] else Reverse(s[1..]) + [s[0]]
  }

  /** The backward builder of solution.py. Every pick is guarded: picking from an
      empty set raises, which is returned as a failure. */
  method BuildCounterexampleAsWritten<S(==,!new), I(==,!new)>(fsm: System<S, I>, trace: seq<set<S>>)
    returns (r: Result<seq<Step<S, I>>, CheckError>)
    requires |trace| > 0
    ensures fsm.Pre(trace[|trace| - 1]) == {} ==> r.Failure?
    ensures r.Success? ==> |r.value| == |trace|
    ensures r.Success? ==> r.value[|trace| - 1].state in fsm.Pre(trace[|trace| - 1])
    ensures r.Success? ==> forall j :: 0 <= j < |trace| - 1 ==>
      r.value[j].state in trace[j] && fsm.Links(r.value[j], r.value[j + 1].state)
    ensures r.Success? ==> forall j :: 0 <= j < |trace| ==>
      (r.value[j].inputs.Some? <==> fsm.hasInputs && j < |trace| - 1)
  {
    var k := |trace| - 1;
    var invalidFinalStates := fsm.Pre(trace[k]);
    if invalidFinalStates == {} {
      return Failure(PickFromEmptySet);
    }
    var nextState :| nextState in invalidFinalStates;
    var previousStates := fsm.Pre({nextState});
    var counterExample := [Step(nextState, None)];
    for i := k downto 0
      invariant |counterExample| == k - i + 1
      invariant counterExample[|counterExample| - 1].state == nextState && previousStates == fsm.Pre({nextState})
      invariant counterExample[0].inputs.None?
      invariant counterExample[0].state in fsm.Pre(trace[k])
      invariant forall m :: 1 <= m < |counterExample| ==>
        && counterExample[m].state in trace[k - m]
        && fsm.Links(counterExample[m], counterExample[m - 1].state)
        && (counterExample[m].inputs.Some? <==> fsm.hasInputs)
    {
      var currentStates := trace[i];
      var intersect := currentStates * previousStates;
      if intersect == {} {
        return Failure(PickFromEmptySet);
      }
      var chosenState :| chosenState in intersect;
      assert fsm.Succ(chosenState, nextState) by {
        var t :| t in {nextState} && fsm.Succ(chosenState, t);
      }
      var traceNode := Step(chosenState, None);
      if fsm.hasInputs {
        var possibleInputs := fsm.InputsBetween(chosenState, nextState);
        var input :| input in possibleInputs;
        traceNode := Step(chosenState, Some(input));
      }
      counterExample := counterExample + [traceNode];
      nextState := chosenState;
      previousStates := fsm.Pre({chosenState});
    }
    var ordered := Reverse(counterExample);
    return Success(ordered);
  }

  /** The verdict of solution.py and, on a violation, whatever its builder returns. */
  method CheckExplainInvSpecAsWritten<S(==,!new), I(==,!new)>(fsm: System<S, I>, spec: set<S>)
    returns (r: Result<(bool, Option<seq<Step<S, I>>>), CheckError>)
    requires fsm.Valid()
    ensures r == Success((true, None)) <==> forall p :: fsm.IsPath(p) ==> p[|p| - 1] in spec
    ensures r.Success? ==> (r.value.0 <==> r.value.1.None?)
    ensures r.Success? && r.value.1.Some? ==>
      var cex := r.value.1.value;
      && |cex| > 0
      && (|cex| > 1 ==> cex[0].state in fsm.init)
      && cex[|cex| - 1].inputs.None?
      && forall j :: 0 <= j < |cex| - 1 ==> fsm.Links(cex[j], cex[j + 1].state)
  {
    var trace := Explore(fsm, spec);
    var isSatisfied := SatisfySpec(fsm, spec, trace[|trace| - 1]);
    if isSatisfied {
      PassSound(fsm, spec, trace);
      return Success((true, None));
    }
    ViolationIsReachable(fsm, spec, trace);
    var built := BuildCounterexampleAsWritten(fsm, trace);
    if built.Failure? {
      return Failure(built.error);
    }
    return Success((false, Some(built.value)));
  }

  /** When the last frontier does not satisfy the invariant, some path ends outside spec. */
  lemma ViolationIsReachable<S(!new), I(!new)>(fsm: System<S, I>, spec: set<S>, trace: seq<set<S>>)
    requires IsBfsTrace(fsm, trace) && !SatisfySpec(fsm, spec, trace[|trace| - 1])
    ensures exists p :: fsm.IsPath(p) && p[|p| - 1] !in spec
  {
    var k := |trace| - 1;
    var s :| s in trace[k] && s in fsm.states && s !in spec;
    FrontierIsDepth(fsm, trace, k, s);
    var p :| fsm.IsPath(p) && |p| == k + 1 && p[k] == s;
  }
}
