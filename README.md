# Invariant checking with counterexamples over a finite transition system

This project models the core of a NuSMV invariant checker written over pynusmv:
`check_explain_inv_spec` and `pretty_print_trace`, which come in two near-identical
copies, `solution_prettyPrint.py` and `solution.py`.

- **Transition system** (`SymbolicFsm`): the decision-diagram sets of the engine
  become finite Dafny sets. A `System` has a finite state space, the initial states,
  a transition relation of triples `(state, input, state)` and a flag telling whether
  the model declares input variables. `post`, `pre`, `get_inputs_between_states`, the
  unary minus (complement within the state space) and `intersected` are plain set algebra.
- **Reachability** (`Reachability`): the breadth-first loop. `reached` and the current
  frontier start at the initial states. Each round sets the frontier to
  `post(frontier) - reached`, adds it to `reached` and appends it to the trace. The loop
  stops at an empty frontier or at one that meets the complement of the invariant.
  The verdict re-tests the last frontier. This loop is the same in both files, so one
  definition serves both.
- **Counterexample builder, correct copy** (`InvariantChecker`): `solution_prettyPrint.py`
  starts from a violating state of the last frontier. It then walks the trace backward,
  picking from `trace[i] ∩ pre(next)`, an input from `inputs_between` when the model has
  inputs, and prepending each record.
- **Counterexample builder, as written in `solution.py`** (`InvariantCheckerAsWritten`):
  this copy starts from a predecessor of the last frontier. It appends records and
  reverses the list at the end. Picking from an empty set raises an error in the
  engine; the model returns that error as `Failure(PickFromEmptySet)`. Like the other
  copy it intersects with the frontier at every backward step (solution.py:107); apart
  from appending and then reversing, it differs from `solution_prettyPrint.py` only in
  its starting state (solution.py:93-97).
- **Trace printer** (`TracePrinter`): produces the printed lines. Dictionaries are lists
  of distinct-key entries in iteration order. The single combined `last_printed`
  dictionary is a map, updated with a step's inputs and then with its state.
- **Worked example** (`WorkedCounter`): the counter `n -> (n + 1) % 4` from `{0}`,
  checked against `n != 3`.

The proved properties are these:
- The exploration terminates.
- The frontiers are pairwise disjoint, and frontier `i` holds exactly the states at
  distance `i`.
- PASS is sound and complete with respect to paths of the machine.
- On FAIL, the counterexample is a valid execution from an initial state to a
  violating state. It has one record per frontier, which makes it a shortest one.
- A record carries inputs exactly when the model has input variables and the record
  is not the last one. Those inputs enable the transition to the next record's state.
- The printer prints `key = value` exactly when the value differs from the last
  printed one. Its headers are numbered from 1, and each INPUTS header comes before
  the STATE header of the same step.

## Model

| member | source | states |
|---|---|---|
| `SymbolicFsm.System.Post` | solution.py:76 | `t` is in the post-image of `xs` iff some state of `xs` has a transition to `t` |
| `SymbolicFsm.System.Pre` | solution_prettyPrint.py:103 | `s` is in the pre-image of `xs` iff `s` has a transition into some state of `xs` |
| `SymbolicFsm.System.InputsBetween` | solution_prettyPrint.py:116 | exactly the inputs labelling a transition from `s` to `t`; non-empty iff such a transition exists |
| `SymbolicFsm.System.Complement` | solution_prettyPrint.py:56 | the negated spec: the states of the state space outside the satisfying set |
| `SymbolicFsm.System.ExecutionIsPath` | solution_prettyPrint.py:105-125 | the states of a counterexample form a path from an initial state; a record has inputs iff the model has inputs and it is not the last record |
| `SymbolicFsm.UnionOf` | solution_prettyPrint.py:77 | a state is in the union iff it is in one of the frontiers (what `reached` accumulates) |
| `Reachability.SatisfySpec` | solution_prettyPrint.py:59-63 | true iff every state of the set that lies in the state space satisfies the invariant |
| `Reachability.Explore` | solution_prettyPrint.py:65-79 | the trace starts with `init`; each later frontier is `post` of the previous one minus all earlier frontiers; every frontier before the last is non-empty and safe; the last is empty or meets the negated spec (also solution.py:66-80) |
| `Reachability.ExtendTrace` | solution_prettyPrint.py:75-79 | one loop round keeps the trace a frontier trace, keeps earlier frontiers safe, and makes `reached` grow by exactly the new frontier |
| `Reachability.ExtendFrontierRule` | solution.py:76-80 | appending `post(last) - reached` preserves the frontier recurrence |
| `Reachability.ProperGrowth` | solution_prettyPrint.py:73-79 | a non-empty new frontier strictly shrinks the unreached part of the state space, which bounds the loop |
| `Reachability.PostWithinStates` | solution.py:76 | the post-image stays inside the state space |
| `Reachability.FrontierBounds` | solution.py:67-80 | every frontier lies inside the state space |
| `Reachability.FrontierHasPredecessor` | solution_prettyPrint.py:105-107 | every state of frontier `k > 0` has a predecessor in frontier `k - 1`, so the backward pick is from a non-empty set |
| `Reachability.FrontiersDisjoint` | solution.py:76 | each frontier is disjoint from every earlier one |
| `Reachability.PathEndsInTrace` | solution.py:74-80 | a path no longer than the trace, or any path once the frontier ran empty, ends in a frontier of index below its length |
| `Reachability.DepthIsFrontier` | solution_prettyPrint.py:65-79 | conversely, a state whose shortest path has `n <= len(trace)` states lies in frontier `n - 1` |
| `Reachability.FrontierIsDepth` | solution_prettyPrint.py:65-79 | frontier `i` holds the states at distance exactly `i`: reachable by a path of `i + 1` states and by no shorter one |
| `Reachability.PassSound` | solution_prettyPrint.py:81-86 | if the last frontier satisfies the invariant, every state reachable from `init` satisfies it |
| `Reachability.ShortestViolation` | solution.py:74-80 | no path with fewer states than the trace has frontiers reaches a violating state |
| `InvariantChecker.BuildCounterexample` | solution_prettyPrint.py:88-134 | one record per frontier, oldest first; record `j` is in frontier `j`; the first is initial; the last is outside the spec and has no inputs; each record steps to the next, under its recorded input when the model has inputs |
| `InvariantChecker.PickStep` | solution_prettyPrint.py:105-119 | one pass of the backward loop: the picked state lies in the earlier frontier and steps to `next`; when the model has inputs, the recorded input enables that very transition, otherwise no input is recorded |
| `InvariantChecker.PrependRecord` | solution_prettyPrint.py:124-125 | inserting the picked record at the front keeps the partial counterexample a chain of linked records, one per remaining frontier, ending in the violating state |
| `InvariantChecker.BuiltIsExecution` | solution_prettyPrint.py:105-134 | once every frontier has been walked back, the records form an execution from an initial state, with inputs on every record but the last exactly when the model has inputs |
| `InvariantChecker.CheckExplainInvSpec` | solution_prettyPrint.py:36-134 | holds iff every reachable state satisfies the invariant; a counterexample exactly when it does not; it is a valid execution ending in a violation and no path shorter than it violates; when `init` already violates, it is a single record without inputs |
| `InvariantCheckerAsWritten.Reverse` | solution.py:127 | `list(reversed(s))`: same length, element `j` is element `len - 1 - j` |
| `InvariantCheckerAsWritten.BuildCounterexampleAsWritten` | solution.py:89-128 | an empty `pre(trace[-1])` raises; on success there is one record per frontier; the last is a predecessor of the last frontier (not necessarily violating); earlier records lie in their frontiers and step to the next record; inputs only when the model has inputs |
| `InvariantCheckerAsWritten.CheckExplainInvSpecAsWritten` | solution.py:35-128 | returns `(True, None)` iff every reachable state satisfies the invariant; otherwise raises or returns a record list whose records step one to the next and whose first record is initial when longer than one |
| `InvariantCheckerAsWritten.ViolationIsReachable` | solution.py:82-87 | a last frontier that fails the re-test contains a reachable violating state |
| `WorkedCounter.CounterFrontiers` | solution.py:74-80 | on the counter from `{0}` with invariant `n != 3` the frontiers are `{0}, {1}, {2}, {3}` |
| `WorkedCounter.CounterCounterexample` | solution_prettyPrint.py:91-134 | on the counter the correct builder returns the states `0, 1, 2, 3` without inputs |
| `WorkedCounter.CounterVerdict` | solution_prettyPrint.py:81-86 | on the counter the verdict is a violation with a four-record counterexample |
| `WorkedCounter.CounterExecution` | solution_prettyPrint.py:105-132 | any execution of the counter visits `0, 1, 2, …` in order |
| `WorkedCounter.CounterAsWrittenFails` | solution.py:93-107 | on the counter the builder of `solution.py` raises a picking error |
| `TracePrinter.UpdateFacts` | solution.py:18 | `dict.update`: the keys are those of both; keys absent from `d` keep their value; with distinct keys each entry of `d` is the value recorded |
| `TracePrinter.EmitChanged` | solution_prettyPrint.py:15-18 | the inner key loop emits the lines of `Changed` for the dictionary |
| `TracePrinter.PrintStep` | solution_prettyPrint.py:12-26 | one step prints its block and leaves `last_printed` updated with inputs, then state |
| `TracePrinter.PrettyPrintTrace` | solution_prettyPrint.py:4-26 | the printed lines are the blocks of all steps, each printed against the combined `last_printed` of the steps before it |
| `TracePrinter.ChangedLines` | solution.py:14-17 | a line is printed for a dictionary iff it is `key = value` for an entry whose value differs from `last_printed`, absent keys counting as different |
| `TracePrinter.ReprintIsEmpty` | solution.py:21-25 | printing a dictionary right after recording it prints nothing |
| `TracePrinter.NothingChanged` | solution.py:22-24 | no line is printed when every entry equals its last printed value |
| `TracePrinter.BlockPrints` | solution_prettyPrint.py:13-26 | an input assignment is printed iff it differs from `last_printed`; a state assignment iff it differs from `last_printed` updated with the step's inputs |
| `TracePrinter.LastPrintedAfterStep` | solution.py:18-25 | after a step, `last_printed` holds its state values, and its input values for variables the state does not mention |
| `TracePrinter.ChangedHasNoHeader` | solution.py:14-24 | the key loops print no header |
| `TracePrinter.PrettyHeaders` | solution.py:12-20 | there is a STATE header `n` iff `1 <= n <= len(trace)`, and an INPUTS header `n` iff in addition step `n - 1` has inputs |
| `TracePrinter.BlockHeaders` | solution.py:12-20 | the block of step `m` prints STATE header `m` once, INPUTS header `m` once exactly when the step has inputs, and no other header |
| `TracePrinter.HeadersOnce` | solution.py:12-20 | no header is printed twice: each STATE or INPUTS header number occurs at most once in the output |
| `TracePrinter.InputsBeforeState` | solution.py:12-20 | for a step with inputs, its INPUTS header comes before its STATE header |
| `TracePrinter.NatToString` | solution.py:13 | the step number printed in a header is a non-empty string of decimal digits that spells the number, without a leading zero unless it is `0` |
| `TracePrinter.Render` | solution.py:13-24 | a header line is `-------INPUTS ` or `-------STATE ` and ` ------` around exactly the decimal digits of the step number (`NatToString`: digits only, no leading zero), which read back as the number; an assignment line is a tab, the key, ` = ` and the value |

## Left out

- `spec_to_bdd` and `eval_ctl_spec`: the satisfying set of the invariant is a parameter `spec`.
- The representation as decision diagrams, the `bddFsm` and `bddEnc` lookups, and `get_str_values`. States and inputs are abstract values in the checker. In the printer they are dictionaries. The number of input variables becomes the flag `hasInputs`.
- Which representative `pick_one_state` and `pick_one_inputs` return. Any element may be chosen (`:|`); the model states only that it belongs to the set.
- The top-level script: argument checking, `init_nusmv`/`deinit_nusmv`, model loading, `compute_model`, and the loop over the property database with its INVARSPEC dispatch and messages. This is process and I/O plumbing.
- Writing to standard output. The printer yields `Line` values; `Render` gives their text.
- `InvariantCheckerAsWritten.BuildCounterexampleAsWritten`: the failure is characterised only for an empty `pre(trace[-1])`. A failing later pick depends on which states were picked before, so it is not stated as an if-and-only-if.
- `InvariantCheckerAsWritten.CheckExplainInvSpecAsWritten`: states nothing about where the returned records lie. The builder itself does.
- `TracePrinter.ReprintIsEmpty` and `TracePrinter.LastPrintedAfterStep` require distinct keys in the dictionaries, as Python dictionaries have.

## Findings

| source | as written | input that shows it | evidently intended | confidence | as-written member | corrected member |
|---|---|---|---|---|---|---|
| solution.py:93-107 | The backward walk starts from a state of `pre(trace[-1])`, a predecessor of the last frontier. It then looks for a predecessor of that state in `trace[-2]`, which is one frontier too late. | Counter `n -> (n + 1) % 4`, init `{0}`, invariant `n != 3`. The frontiers are `{0},{1},{2},{3}` and the walk starts from 2. Then `{2} ∩ pre({2})` is empty, so `pick_one_state` raises (`WorkedCounter.CounterAsWrittenFails`). | Start from a state of `last frontier ∩ ¬spec`, as solution_prettyPrint.py:92 does. The result is then the counterexample `0, 1, 2, 3` (`WorkedCounter.CounterCounterexample`). | high; not executed | `InvariantCheckerAsWritten.BuildCounterexampleAsWritten` | `InvariantChecker.BuildCounterexample` |
