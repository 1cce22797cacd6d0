/**
 * The finite-state machine the checker works on, with the set algebra that the
 * decision-diagram engine offers over it: post-image, pre-image, complement,
 * the non-empty-intersection test and the inputs enabling a transition.
 * State sets are explicit finite sets; a transition is a triple (state, input, state).
 */
module SymbolicFsm {
  import opened Wrappers

  /**
   * A transition system: the state space, the initial states, the labelled
   * transition relation, and whether the model declares any input variable.
   */
  datatype System<S(==,!new), I(==,!new)> = System(states: set<S>, init: set<S>, trans: set<(S, I, S)>, hasInputs: bool)
  {
    /** The initial states and both ends of every transition lie in the state space. */
    ghost predicate Valid()
    {
      && init <= states
      && forall s, i, t :: (s, i, t) in trans ==> s in states && t in states
    }

    /** There is a one-step transition from s to t under some input. */
    ghost predicate Succ(s: S, t: S)
    {
      exists i :: (s, i, t) in trans
    }

    /** The states reachable in one step from some state of xs (inputs quantified away). */
    function Post(xs: set<S>): (r: set<S>)
      ensures forall t :: t in r <==> exists s :: s in xs && Succ(s, t)
    {
      var r := set tr | tr in trans && tr.0 in xs :: tr.2;
      assert forall t :: (exists s :: s in xs && Succ(s, t)) ==> t in r by {
        forall t | exists s :: s in xs && Succ(s, t) ensures t in r {
          var s :| s in xs && Succ(s, t);
          var i :| (s, i, t) in trans;
          assert (s, i, t).2 == t;
        }
      }
      r
    }

    /** The states that have a one-step transition into some state of xs. */
    function Pre(xs: set<S>): (r: set<S>)
      ensures forall s :: s in r <==> exists t :: t in xs && Succ(s, t)
    {
      var r := set tr | tr in trans && tr.2 in xs :: tr.0;
      assert forall s :: (exists t :: t in xs && Succ(s, t)) ==> s in r by {
        forall s | exists t :: t in xs && Succ(s, t) ensures s in r {
          var t :| t in xs && Succ(s, t);
          var i :| (s, i, t) in trans;
          assert (s, i, t).0 == s;
        }
      }
      r
    }

    /** The inputs under which the machine steps from s to t. */
    function InputsBetween(s: S, t: S): (r: set<I>)
      ensures forall i :: i in r <==> (s, i, t) in trans
      ensures r != {} <==> Succ(s, t)
    {
      var r := set tr | tr in trans && tr.0 == s && tr.2 == t :: tr.1;
      assert forall i :: (s, i, t) in trans ==> i in r by {
        forall i | (s, i, t) in trans ensures i in r {
          assert (s, i, t).1 == i;
        }
      }
      r
    }

    /** The complement of xs within the state space (the engine's unary minus). */
    function Complement(xs: set<S>): (r: set<S>)
      ensures forall s :: s in r <==> s in states && s !in xs
    {
      states - xs
    }

    /** A path of the machine: it starts in an initial state and follows transitions. */
    ghost predicate IsPath(p: seq<S>)
    {
      && |p| > 0
      && p[0] in init
      && forall m :: 0 <= m < |p| - 1 ==> Succ(p[m], p[m + 1])
    }

    /** Step a of a counterexample leads to state t: under its recorded input when
        the model has input variables, under some input (not recorded) otherwise. */
    ghost predicate Links(a: Step<S, I>, t: S)
    {
      if hasInputs then a.inputs.Some? && (a.state, a.inputs.value, t) in trans
      else a.inputs.None? && Succ(a.state, t)
    }

    /** A finite execution: an initial state, then steps that each lead to the next
        one; the final step carries no inputs. */
    ghost predicate IsExecution(cex: seq<Step<S, I>>)
    {
      && |cex| > 0
      && cex[0].state in init
      && cex[|cex| - 1].inputs.None?
      && forall m :: 0 <= m < |cex| - 1 ==> Links(cex[m], cex[m + 1].state)
    }

    /** The states of an execution form a path of the machine, and a step carries
        inputs exactly when the model has input variables and it is not the last. */
    lemma ExecutionIsPath(cex: seq<Step<S, I>>)
      requires IsExecution(cex)
      ensures IsPath(StatesOf(cex))
      ensures forall m :: 0 <= m < |cex| ==> (cex[m].inputs.Some? <==> hasInputs && m < |cex| - 1)
    {
      var p := StatesOf(cex);
      forall m | 0 <= m < |p| - 1 ensures Succ(p[m], p[m + 1]) {
        assert Links(cex[m], cex[m + 1].state);
        if hasInputs {
          assert (cex[m].state, cex[m].inputs.value, cex[m + 1].state) in trans;
        }
      }
      forall m | 0 <= m < |cex| - 1 ensures cex[m].inputs.Some? <==> hasInputs {
        assert Links(cex[m], cex[m + 1].state);
      }
    }
  }

  /** One record of a counterexample: a state and, optionally, the inputs that
      lead from it to the state of the following record. */
  datatype Step<S, I> = Step(state: S, inputs: Option<I>)

  /** The sequence of states of a counterexample. */
  function StatesOf<S, I>(cex: seq<Step<S, I>>): (p: seq<S>)
    ensures |p| == |cex| && forall m :: 0 <= m < |cex| ==> p[m] == cex[m].state
  {
    seq(|cex|, m requires 0 <= m < |cex| => cex[m].state)
  }

  /** The union of a sequence of state sets. */
  function UnionOf<S(!new)>(fs: seq<set<S>>): (r: set<S>)
    ensures forall x :: x in r <==> exists j :: 0 <= j < |fs| && x in fs[j]
  {
    if fs == [] then {}
    else
      var front := fs[..|fs| - 1];
      assert forall j :: 0 <= j < |fs| - 1 ==> front[j] == fs[j];
      UnionOf(front) + fs[|fs| - 1]
  }
}
