/**
 * The worked example: a two-bit counter n -> (n + 1) % 4 without input
 * variables, started in 0, checked against the invariant n != 3.
 */
module WorkedCounter {
  import opened Wrappers
  import opened SymbolicFsm
  import opened Reachability
  import InvariantChecker
  import InvariantCheckerAsWritten

  function Counter(): (fsm: System<int, ()>)
  {
    System({0, 1, 2, 3}, {0}, {(0, (), 1), (1, (), 2), (2, (), 3), (3, (), 0)}, false)
  }

  /** The states satisfying n != 3. */
  function NotThree(): (r: set<int>)
  {
    {0, 1, 2}
  }

  /** The counter steps from n to (n + 1) % 4 and nowhere else. */
  lemma CounterSucc(a: int, b: int)
    ensures Counter().Succ(a, b) <==> 0 <= a < 4 && b == (a + 1) % 4
  {
    if 0 <= a < 4 && b == (a + 1) % 4 {
      assert (a, (), b) in Counter().trans;
    }
  }

  /** The post-image of a single counter state. */
  lemma CounterPost(n: int)
    requires 0 <= n < 4
    ensures Counter().Post({n}) == {(n + 1) % 4}
  {
    forall t ensures t in Counter().Post({n}) <==> t == (n + 1) % 4 {
      CounterSucc(n, t);
    }
  }

  /** Once frontiers 0 .. k - 1 are {0} .. {k - 1}, frontier k is {k}. */
  lemma CounterFrontierAt(trace: seq<set<int>>, k: nat)
    requires IsBfsTrace(Counter(), trace) && 0 < k < |trace| && k < 4
    requires forall j :: 0 <= j < k ==> trace[j] == {j}
    ensures trace[k] == {k}
  {
    assert FrontierStep(Counter(), trace, k);
    assert trace[k - 1] == {k - 1};
    CounterPost(k - 1);
    forall j | 0 <= j < k ensures k !in trace[..k][j] {
      assert trace[..k][j] == trace[j];
    }
  }

  /** The reachability loop on the counter yields the frontiers {0}, {1}, {2}, {3}. */
  lemma CounterFrontiers(trace: seq<set<int>>)
    requires IsBfsTrace(Counter(), trace) && StopsAtFirstFailure(Counter(), NotThree(), trace)
    ensures trace == [{0}, {1}, {2}, {3}]
  {
    var fsm, spec := Counter(), NotThree();
    assert SatisfySpec(fsm, spec, {0}) && SatisfySpec(fsm, spec, {1}) && SatisfySpec(fsm, spec, {2});
    assert !SatisfySpec(fsm, spec, {3});
    assert trace[0] == {0};
    assert |trace| > 1;
    CounterFrontierAt(trace, 1);
    assert |trace| > 2;
    CounterFrontierAt(trace, 2);
    assert |trace| > 3;
    CounterFrontierAt(trace, 3);
    assert |trace| == 4;
  }

  /** The correct builder turns the counter's frontiers into the counterexample 0, 1, 2, 3. */
  method CounterCounterexample() returns (trace: seq<set<int>>, cex: seq<Step<int, ()>>)
    ensures trace == [{0}, {1}, {2}, {3}]
    ensures StatesOf(cex) == [0, 1, 2, 3]
    ensures forall j :: 0 <= j < |cex| ==> cex[j].inputs.None?
  {
    var fsm, spec := Counter(), NotThree();
    trace := Explore(fsm, spec);
    CounterFrontiers(trace);
    cex := InvariantChecker.BuildCounterexample(fsm, spec, trace);
    assert cex[0].state in {0} && cex[1].state in {1} && cex[2].state in {2} && cex[3].state in {3};
  }

  /** The checker of solution_prettyPrint.py reports the violation. */
  method CounterVerdict() returns (holds: bool, cex: Option<seq<Step<int, ()>>>)
    ensures !holds && cex.Some? && |cex.value| == 4
  {
    var fsm, spec := Counter(), NotThree();
    holds, cex := InvariantChecker.CheckExplainInvSpec(fsm, spec);
    var path := [0, 1, 2, 3];
    assert fsm.IsPath(path) by {
      CounterSucc(0, 1);
      CounterSucc(1, 2);
      CounterSucc(2, 3);
    }
    assert path[3] !in spec;
    CounterExecution(cex.value);
  }

  /** An execution of the counter visits 0, 1, 2, ... in order. */
  lemma {:induction false} CounterExecution(cex: seq<Step<int, ()>>)
    requires Counter().IsExecution(cex)
    ensures forall j :: 0 <= j < |cex| ==> cex[j].state == j % 4
  {
    forall j | 0 <= j < |cex| ensures cex[j].state == j % 4 {
      CounterExecutionAt(cex, j);
    }
  }

  /** The state of step j of a counter execution is j % 4. */
  lemma {:induction false} CounterExecutionAt(cex: seq<Step<int, ()>>, j: nat)
    requires Counter().IsExecution(cex) && j < |cex|
    ensures cex[j].state == j % 4
  {
    if j > 0 {
      CounterExecutionAt(cex, j - 1);
      assert Counter().Links(cex[j - 1], cex[j].state);
      CounterSucc(cex[j - 1].state, cex[j].state);
    }
  }

  /** The builder of solution.py fails on the counter: it starts from 2, the only
      predecessor of the last frontier {3}, and then finds no state of frontier {2}
      leading to 2, so picking from the empty intersection raises. */
  method CounterAsWrittenFails() returns (r: Result<seq<Step<int, ()>>, InvariantCheckerAsWritten.CheckError>)
    ensures r.Failure?
  {
    var fsm, spec := Counter(), NotThree();
    var trace := Explore(fsm, spec);
    CounterFrontiers(trace);
    r := InvariantCheckerAsWritten.BuildCounterexampleAsWritten(fsm, trace);
    assert trace[2] == {2} && trace[3] == {3};
    CounterSucc(2, 2);
    assert !fsm.Succ(2, 2);
    assert fsm.Pre({3}) == {2} by {
      forall s ensures s in fsm.Pre({3}) <==> s == 2 {
        CounterSucc(s, 3);
      }
    }
  }
}
