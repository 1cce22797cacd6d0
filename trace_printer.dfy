/**
 * pretty_print_trace: renders a counterexample step by step, printing an INPUTS
 * block (when the step has inputs) and then a STATE block, and inside each block
 * only the assignments whose value differs from the one printed last for that
 * variable. States and inputs are dictionaries from variable names to printed
 * values; the output is the sequence of printed lines.
 */
module TracePrinter {
  import opened Wrappers
  import opened SymbolicFsm

  type Key = string
  type Value = string

  /** A dictionary of variable values, as an insertion-ordered list of entries. */
  type Dict = seq<(Key, Value)>

  /** A dictionary has each key once. */
  predicate DistinctKeys(d: Dict)
  {
    forall a, b :: 0 <= a < b < |d| ==> d[a].0 != d[b].0
  }

  /** One printed line: a block header numbered from 1, or a "key = value" line. */
  datatype Line = InputsHeader(index: nat) | StateHeader(index: nat) | Assignment(key: Key, value: Value)

  /** dict.get: the value of k, or None when k is absent. */
  function Get(m: map<Key, Value>, k: Key): (r: Option<Value>)
  {
    if k in m then Some(m[k]) else None
  }

  /** dict.update: the entries of d, in order, overwrite those of m. */
  function Update(m: map<Key, Value>, d: Dict): (r: map<Key, Value>)
  {
    if d == [] then m
    else Update(m, d[..|d| - 1])[d[|d| - 1].0 := d[|d| - 1].1]
  }

  /** After dict.update the keys are those of both; a key absent from d keeps its
      value; with distinct keys, every entry of d is the value recorded. */
  lemma {:induction false} UpdateFacts(m: map<Key, Value>, d: Dict)
    ensures var r := Update(m, d);
      && (forall k :: k in r <==> k in m || exists j :: 0 <= j < |d| && d[j].0 == k)
      && (forall k :: k in m && (forall j :: 0 <= j < |d| ==> d[j].0 != k) ==> r[k] == m[k])
      && (DistinctKeys(d) ==> forall j :: 0 <= j < |d| ==> r[d[j].0] == d[j].1)
  {
    if d != [] {
      var front := d[..|d| - 1];
      assert forall j :: 0 <= j < |d| - 1 ==> front[j] == d[j];
      UpdateFacts(m, front);
    }
  }

  /** The "key = value" lines of d for the entries whose value differs from the one in last. */
  function Changed(d: Dict, last: map<Key, Value>): (r: seq<Line>)
  {
    if d == [] then []
    else
      var (k, v) := d[|d| - 1];
      Changed(d[..|d| - 1], last) + (if Get(last, k) != Some(v) then [Assignment(k, v)] else [])
  }

  /** What last_printed holds once the inputs of a step have been printed. */
  function AfterInputs(last: map<Key, Value>, step: Step<Dict, Dict>): (r: map<Key, Value>)
  {
    if step.inputs.Some? then Update(last, step.inputs.value) else last
  }

  /** What last_printed holds once a whole step has been printed. */
  function AfterStep(last: map<Key, Value>, step: Step<Dict, Dict>): (r: map<Key, Value>)
  {
    Update(AfterInputs(last, step), step.state)
  }

  /** last_printed after printing the given steps from an empty dictionary. */
  function LastPrinted(steps: seq<Step<Dict, Dict>>): (r: map<Key, Value>)
  {
    if steps == [] then map[]
    else AfterStep(LastPrinted(steps[..|steps| - 1]), steps[|steps| - 1])
  }

  /** The lines printed for step number n (counted from 1) when last holds the last printed values. */
  function Block(n: nat, step: Step<Dict, Dict>, last: map<Key, Value>): (r: seq<Line>)
  {
    (if step.inputs.Some? then [InputsHeader(n)] + Changed(step.inputs.value, last) else [])
    + [StateHeader(n)] + Changed(step.state, AfterInputs(last, step))
  }

  /** All lines printed for a trace. */
  function PrettyLines(steps: seq<Step<Dict, Dict>>): (r: seq<Line>)
  {
    if steps == [] then []
    else
      var front := steps[..|steps| - 1];
      PrettyLines(front) + Block(|steps|, steps[|steps| - 1], LastPrinted(front))
  }

  /** The inner loop over the keys of one dictionary. */
  method EmitChanged(d: Dict, lastPrinted: map<Key, Value>) returns (out: seq<Line>)
    ensures out == Changed(d, lastPrinted)
  {
    out := [];
    for j := 0 to |d|
      invariant out == Changed(d[..j], lastPrinted)
    {
      assert d[..j + 1][..j] == d[..j];
      var (key, value) := d[j];
      if Get(lastPrinted, key) != Some(value) {
        out := out + [Assignment(key, value)];
      }
    }
    assert d[..|d|] == d;
  }

  /** pretty_print_trace, producing the printed lines. */
  method PrettyPrintTrace(trace: seq<Step<Dict, Dict>>) returns (out: seq<Line>)
    ensures out == PrettyLines(trace)
  {
    var lastPrinted: map<Key, Value> := map[];
    out := [];
    for i := 0 to |trace|
      invariant out == PrettyLines(trace[..i]) && lastPrinted == LastPrinted(trace[..i])
    {
      assert trace[..i + 1][..i] == trace[..i];
      var printed;
      printed, lastPrinted := PrintStep(i + 1, trace[i], lastPrinted);
      out := out + printed;
    }
    assert trace[..|trace|] == trace;
  }

  /** One iteration of the loop of pretty_print_trace: the INPUTS block when the step
      has inputs, then the STATE block, updating last_printed after each. */
  method PrintStep(n: nat, step: Step<Dict, Dict>, lastPrinted: map<Key, Value>)
    returns (out: seq<Line>, newLastPrinted: map<Key, Value>)
    ensures out == Block(n, step, lastPrinted)
    ensures newLastPrinted == AfterStep(lastPrinted, step)
  {
    out := [];
    newLastPrinted := lastPrinted;
    if step.inputs.Some? {
      out := out + [InputsHeader(n)];
      var printed := EmitChanged(step.inputs.value, newLastPrinted);
      out := out + printed;
      newLastPrinted := Update(newLastPrinted, step.inputs.value);
    }
    assert newLastPrinted == AfterInputs(lastPrinted, step);
    ghost var inputsPart := out;
    out := out + [StateHeader(n)];
    var printed := EmitChanged(step.state, newLastPrinted);
    out := out + printed;
    newLastPrinted := Update(newLastPrinted, step.state);
    assert out == inputsPart + [StateHeader(n)] + Changed(step.state, AfterInputs(lastPrinted, step));
  }

  /** A line is printed for a dictionary exactly when it assigns one of its entries
      whose value differs from the last printed value, absent keys counting as different. */
  lemma {:induction false} ChangedLines(d: Dict, last: map<Key, Value>)
    ensures forall l :: l in Changed(d, last) <==>
      l.Assignment? && (l.key, l.value) in d && Get(last, l.key) != Some(l.value)
  {
    if d != [] {
      var front := d[..|d| - 1];
      ChangedLines(front, last);
      assert d == front + [d[|d| - 1]];
      assert forall x :: x in d <==> x in front || x == d[|d| - 1];
    }
  }

  /** Printing a dictionary right after recording it prints no assignment. */
  lemma ReprintIsEmpty(d: Dict, last: map<Key, Value>)
    requires DistinctKeys(d)
    ensures Changed(d, Update(last, d)) == []
  {
    UpdateFacts(last, d);
    NothingChanged(d, Update(last, d));
  }

  /** No line is printed for a dictionary whose every entry was the last printed value. */
  lemma {:induction false} NothingChanged(d: Dict, last: map<Key, Value>)
    requires forall j :: 0 <= j < |d| ==> Get(last, d[j].0) == Some(d[j].1)
    ensures Changed(d, last) == []
  {
    if d != [] {
      var front := d[..|d| - 1];
      assert forall j :: 0 <= j < |front| ==> front[j] == d[j];
      NothingChanged(front, last);
    }
  }

  /** A step's block prints an input assignment when it differs from last_printed, and a
      state assignment when it differs from last_printed updated with the step's inputs. */
  lemma BlockPrints(n: nat, step: Step<Dict, Dict>, last: map<Key, Value>, k: Key, v: Value)
    ensures Assignment(k, v) in Block(n, step, last) <==>
      || (step.inputs.Some? && (k, v) in step.inputs.value && Get(last, k) != Some(v))
      || ((k, v) in step.state && Get(AfterInputs(last, step), k) != Some(v))
  {
    ChangedLines(step.state, AfterInputs(last, step));
    if step.inputs.Some? {
      ChangedLines(step.inputs.value, last);
    }
  }

  /** After a step is printed, last_printed holds that step's state values, and its input
      values for the variables the state does not mention. */
  lemma LastPrintedAfterStep(steps: seq<Step<Dict, Dict>>, i: nat)
    requires i < |steps| && DistinctKeys(steps[i].state)
    requires steps[i].inputs.Some? ==> DistinctKeys(steps[i].inputs.value)
    ensures var last := LastPrinted(steps[..i + 1]);
      && (forall j :: 0 <= j < |steps[i].state| ==> Get(last, steps[i].state[j].0) == Some(steps[i].state[j].1))
      && (steps[i].inputs.Some? ==> forall j :: 0 <= j < |steps[i].inputs.value| ==>
            (forall m :: 0 <= m < |steps[i].state| ==> steps[i].state[m].0 != steps[i].inputs.value[j].0) ==>
            Get(last, steps[i].inputs.value[j].0) == Some(steps[i].inputs.value[j].1))
  {
    assert steps[..i + 1][..i] == steps[..i];
    assert steps[..i + 1][i] == steps[i];
    var step := steps[i];
    var middle := AfterInputs(LastPrinted(steps[..i]), step);
    UpdateFacts(middle, step.state);
    if step.inputs.Some? {
      UpdateFacts(LastPrinted(steps[..i]), step.inputs.value);
    }
  }

  /** Every line of Changed is an assignment, never a header. */
  lemma ChangedHasNoHeader(d: Dict, last: map<Key, Value>, n: nat)
    ensures InputsHeader(n) !in Changed(d, last) && StateHeader(n) !in Changed(d, last)
  {
    ChangedLines(d, last);
  }

  /** The printed trace has one STATE header per step, numbered 1 to |steps|, and
      an INPUTS header exactly for the steps that carry inputs. */
  lemma {:induction false} PrettyHeaders(steps: seq<Step<Dict, Dict>>, n: nat)
    ensures StateHeader(n) in PrettyLines(steps) <==> 1 <= n <= |steps|
    ensures InputsHeader(n) in PrettyLines(steps) <==> 1 <= n <= |steps| && steps[n - 1].inputs.Some?
  {
    if steps != [] {
      var front := steps[..|steps| - 1];
      var step := steps[|steps| - 1];
      PrettyHeaders(front, n);
      var last := LastPrinted(front);
      ChangedHasNoHeader(step.state, AfterInputs(last, step), n);
      if step.inputs.Some? {
        ChangedHasNoHeader(step.inputs.value, last, n);
      }
      if 1 <= n < |steps| {
        assert front[n - 1] == steps[n - 1];
      }
    }
  }

  /** A block holds its own two headers once each and no other header. */
  lemma BlockHeaders(m: nat, step: Step<Dict, Dict>, last: map<Key, Value>, n: nat)
    ensures multiset(Block(m, step, last))[StateHeader(n)] == if n == m then 1 else 0
    ensures multiset(Block(m, step, last))[InputsHeader(n)] == if n == m && step.inputs.Some? then 1 else 0
  {
    var states := Changed(step.state, AfterInputs(last, step));
    ChangedHasNoHeader(step.state, AfterInputs(last, step), n);
    assert multiset(states)[StateHeader(n)] == 0 && multiset(states)[InputsHeader(n)] == 0;
    var inputsPart: seq<Line> := [];
    if step.inputs.Some? {
      var inputs := Changed(step.inputs.value, last);
      ChangedHasNoHeader(step.inputs.value, last, n);
      assert multiset(inputs)[StateHeader(n)] == 0 && multiset(inputs)[InputsHeader(n)] == 0;
      inputsPart := [InputsHeader(m)] + inputs;
    }
    assert Block(m, step, last) == inputsPart + [StateHeader(m)] + states;
  }

  /** Each header is printed at most once. */
  lemma {:induction false} HeadersOnce(steps: seq<Step<Dict, Dict>>, n: nat)
    ensures multiset(PrettyLines(steps))[StateHeader(n)] <= 1
    ensures multiset(PrettyLines(steps))[InputsHeader(n)] <= 1
  {
    if steps != [] {
      var front := steps[..|steps| - 1];
      var step := steps[|steps| - 1];
      var before := PrettyLines(front);
      var block := Block(|steps|, step, LastPrinted(front));
      HeadersOnce(front, n);
      PrettyHeaders(front, n);
      BlockHeaders(|steps|, step, LastPrinted(front), n);
      assert PrettyLines(steps) == before + block;
      assert multiset(before + block) == multiset(before) + multiset(block);
    }
  }

  /** Some INPUTS header numbered n comes before some STATE header numbered n. */
  ghost predicate InputsHeaderFirst(out: seq<Line>, n: nat)
  {
    exists a, b :: 0 <= a < b < |out| && out[a] == InputsHeader(n) && out[b] == StateHeader(n)
  }

  /** For a step with inputs, its INPUTS header comes before its STATE header. */
  lemma {:induction false} InputsBeforeState(steps: seq<Step<Dict, Dict>>, n: nat)
    requires 1 <= n <= |steps| && steps[n - 1].inputs.Some?
    ensures InputsHeaderFirst(PrettyLines(steps), n)
  {
    var front := steps[..|steps| - 1];
    var step := steps[|steps| - 1];
    var before := PrettyLines(front);
    var out := PrettyLines(steps);
    assert out == before + Block(|steps|, step, LastPrinted(front));
    if n < |steps| {
      assert front[n - 1] == steps[n - 1];
      InputsBeforeState(front, n);
      var a, b :| 0 <= a < b < |before| && before[a] == InputsHeader(n) && before[b] == StateHeader(n);
      assert out[a] == before[a] && out[b] == before[b];
    } else {
      var blk := Block(n, step, LastPrinted(front));
      var inputsPart := [InputsHeader(n)] + Changed(step.inputs.value, LastPrinted(front));
      assert blk == inputsPart + [StateHeader(n)] + Changed(step.state, AfterInputs(LastPrinted(front), step));
      assert out[|before|] == InputsHeader(n);
      assert out[|before| + |inputsPart|] == StateHeader(n);
    }
  }

  /** The value of a single decimal digit. */
  function DigitValue(c: char): (r: nat)
  {
    if '0' <= c <= '9' then (c as int) - ('0' as int) else 0
  }

  /** The number a string of decimal digits spells. */
  function DecimalValue(s: string): (r: nat)
  {
    if s == [] then 0 else DecimalValue(s[..|s| - 1]) * 10 + DigitValue(s[|s| - 1])
  }

  /** The decimal digits of n, as str.format prints them: the digits spell n, and
      there is no leading zero except in "0" itself. */
  function NatToString(n: nat): (s: string)
    ensures |s| > 0 && forall c :: c in s ==> '0' <= c <= '9'
    ensures DecimalValue(s) == n
    ensures s[0] == '0' <==> n == 0
    ensures s[0] == '0' ==> |s| == 1
  {
    var digit := ['0', '1', '2', '3', '4', '5', '6', '7', '8', '9'][n % 10];
    assert DigitValue(digit) == n % 10;
    if n < 10 then [digit]
    else
      var front := NatToString(n / 10);
      assert (front + [digit])[..|front|] == front;
      front + [digit]
  }

  /** The text of a printed line. A header is its fixed prefix and suffix around
      exactly the decimal digits of the step number (no leading zero, digits only),
      which read back as that number; an assignment is a tab, the key, " = " and
      the value. */
  function Render(line: Line): (r: string)
    ensures line.InputsHeader? ==>
      && |r| > 21 && r[..14] == "-------INPUTS " && r[|r| - 7..] == " ------"
      && r[14..|r| - 7] == NatToString(line.index) && DecimalValue(r[14..|r| - 7]) == line.index
    ensures line.StateHeader? ==>
      && |r| > 20 && r[..13] == "-------STATE " && r[|r| - 7..] == " ------"
      && r[13..|r| - 7] == NatToString(line.index) && DecimalValue(r[13..|r| - 7]) == line.index
    ensures line.Assignment? ==>
      && |r| == |line.key| + |line.value| + 4 && r[0] == '\t'
      && r[1..|line.key| + 1] == line.key && r[|line.key| + 1..|line.key| + 4] == " = "
      && r[|line.key| + 4..] == line.value
  {
    match line
    case InputsHeader(n) =>
      var digits := NatToString(n);
      var r := "-------INPUTS " + digits + " ------";
      assert r[14..|r| - 7] == digits;
      r
    case StateHeader(n) =>
      var digits := NatToString(n);
      var r := "-------STATE " + digits + " ------";
      assert r[13..|r| - 7] == digits;
      r
    case Assignment(k, v) => "\t" + k + " = " + v
  }
}
