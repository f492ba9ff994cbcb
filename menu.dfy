/** The main menu of `create_structure.py` (`main`): a loop that reads a choice,
    strips it, and runs the operations it names until `5` is chosen. The
    operations themselves are recorded in a trace instead of being run. */
module Menu {
  import opened Text

  /** The three operations the menu can start. */
  datatype Operation = CreateStructure | CreateVirtualEnvironment | ManageRequirements

  /** `AtMenu` loops; `Exited` is reached only by choosing `5`. */
  datatype State = AtMenu | Exited

  /** The operations a stripped choice runs, in order; `5` and every
      unrecognised choice run none. */
  function Dispatch(choice: string): (ops: seq<Operation>)
    ensures CreateStructure in ops <==> choice == "1" || choice == "3"
    ensures ManageRequirements in ops <==> choice == "2" || choice == "3"
    ensures CreateVirtualEnvironment in ops <==> choice == "3" || choice == "4"
    ensures forall i, j :: 0 <= i < j < |ops| ==> ops[i] != ops[j]
  {
    if choice == "1" then [CreateStructure]
    else if choice == "2" then [ManageRequirements]
    else if choice == "3" then [CreateStructure, CreateVirtualEnvironment, ManageRequirements]
    else if choice == "4" then [CreateVirtualEnvironment]
    else []
  }

  /** The stripped choice that ends the loop. */
  predicate IsExit(choice: string) {
    choice == "5"
  }

  /** Index of the first exit choice, `|choices|` when there is none. */
  function ExitIndex(choices: seq<string>): (k: nat)
    ensures k <= |choices|
    ensures forall j :: 0 <= j < k ==> !IsExit(choices[j])
    ensures k < |choices| ==> IsExit(choices[k])
  {
    if choices == [] || IsExit(choices[0]) then 0 else 1 + ExitIndex(choices[1..])
  }

  /** The operations run, in order, for the choices `cs`, none of which exits. */
  function Trace(cs: seq<string>): seq<Operation>
    decreases |cs|
  {
    if cs == [] then []
    else Trace(cs[..|cs| - 1]) + Dispatch(cs[|cs| - 1])
  }

  /** The trace of a menu session: every choice before the first exit counts. */
  function MenuTrace(choices: seq<string>): seq<Operation> {
    Trace(choices[..ExitIndex(choices)])
  }

  /** The state in which the session ends. Without an exit choice the input runs
      out while at the menu (`input()` raises `EOFError`). */
  function FinalState(choices: seq<string>): State {
    if ExitIndex(choices) < |choices| then Exited else AtMenu
  }

  lemma ExitIndexAt(choices: seq<string>, i: nat)
    requires i <= |choices|
    requires forall j :: 0 <= j < i ==> !IsExit(choices[j])
    requires i < |choices| ==> IsExit(choices[i])
    ensures ExitIndex(choices) == i
  {
  }

  /** Reading one more choice before any exit extends the trace by what it
      names. */
  lemma TraceSnoc(choices: seq<string>, i: nat)
    requires i < |choices|
    ensures Trace(choices[..i + 1]) == Trace(choices[..i]) + Dispatch(choices[i])
  {
    assert choices[..i + 1][..i] == choices[..i];
  }

  /** The loop of `main` over the stripped choices: run what each one names
      until `5`. Returns the trace, the final state and how many choices were
      read. */
  method RunMenu(choices: seq<string>) returns (trace: seq<Operation>, state: State, consumed: nat)
    ensures trace == MenuTrace(choices)
    ensures state == FinalState(choices)
    ensures consumed == if state == Exited then ExitIndex(choices) + 1 else |choices|
  {
    trace := [];
    state := AtMenu;
    var i := 0;
    while true
      invariant i <= |choices|
      invariant forall j :: 0 <= j < i ==> !IsExit(choices[j])
      invariant trace == Trace(choices[..i])
      decreases |choices| - i
    {
      if i == |choices| {
        ExitIndexAt(choices, i);
        return trace, state, i;
      }
      var choice := choices[i];
      TraceSnoc(choices, i);
      if choice == "1" {
        trace := trace + [CreateStructure];
      } else if choice == "2" {
        trace := trace + [ManageRequirements];
      } else if choice == "3" {
        trace := trace + [CreateStructure, CreateVirtualEnvironment, ManageRequirements];
      } else if choice == "4" {
        trace := trace + [CreateVirtualEnvironment];
      } else if choice == "5" {
        ExitIndexAt(choices, i);
        state := Exited;
        return trace, state, i + 1;
      }
      i := i + 1;
    }
  }

  /** `main`: each typed line is stripped before it is dispatched. */
  method MainMenu(lines: seq<string>) returns (trace: seq<Operation>, state: State, consumed: nat)
    ensures trace == MenuTrace(Trims(lines))
    ensures state == FinalState(Trims(lines))
    ensures consumed == if state == Exited then ExitIndex(Trims(lines)) + 1 else |lines|
  {
    trace, state, consumed := RunMenu(Trims(lines));
  }

  /** The session ends in `Exited` exactly when some choice is `5`. */
  lemma ExitedExactly(choices: seq<string>)
    ensures FinalState(choices) == Exited <==> exists j :: 0 <= j < |choices| && IsExit(choices[j])
  {
  }

  /** A choice before any exit adds the operations it names at the end of the
      trace. */
  lemma ChoiceAppends(cs: seq<string>, c: string)
    requires forall x :: x in cs ==> !IsExit(x)
    requires !IsExit(c)
    ensures MenuTrace(cs + [c]) == MenuTrace(cs) + Dispatch(c)
    ensures FinalState(cs + [c]) == AtMenu
  {
    var all := cs + [c];
    assert forall j :: 0 <= j < |cs| ==> all[j] in cs;
    ExitIndexAt(all, |all|);
    ExitIndexAt(cs, |cs|);
    assert all[..|all|] == all && cs[..|cs|] == cs;
    assert all[..|all| - 1] == cs;
  }

  /** Choosing `5` ends the session: the choices after it are not read and
      start nothing. */
  lemma ExitStops(cs: seq<string>, c: string, rest: seq<string>)
    requires forall x :: x in cs ==> !IsExit(x)
    requires IsExit(c)
    ensures MenuTrace(cs + [c] + rest) == MenuTrace(cs)
    ensures FinalState(cs + [c] + rest) == Exited
  {
    var all := cs + [c] + rest;
    assert forall j :: 0 <= j < |cs| ==> all[j] in cs;
    ExitIndexAt(all, |cs|);
    ExitIndexAt(cs, |cs|);
    assert all[..|cs|] == cs[..|cs|];
  }

  /** The full setup runs the structure step, then the environment, then the
      requirements manager. */
  lemma FullSetupOrder(cs: seq<string>, c: string)
    requires forall x :: x in cs ==> !IsExit(x)
    requires c == "3"
    ensures MenuTrace(cs + [c]) ==
      MenuTrace(cs) + [CreateStructure, CreateVirtualEnvironment, ManageRequirements]
  {
    ChoiceAppends(cs, c);
  }

  /** An unrecognised choice runs nothing and stays at the menu. */
  lemma InvalidChoiceRunsNothing(cs: seq<string>, c: string)
    requires forall x :: x in cs ==> !IsExit(x)
    requires c !in {"1", "2", "3", "4", "5"}
    ensures MenuTrace(cs + [c]) == MenuTrace(cs)
    ensures FinalState(cs + [c]) == AtMenu
  {
    ChoiceAppends(cs, c);
  }

  /** Operations run in the order of the choices: the trace of earlier choices is
      a prefix of the trace of later ones. */
  lemma {:induction false} TracePrefix(cs: seq<string>, n: nat)
    requires n <= |cs|
    ensures Trace(cs[..n]) <= Trace(cs)
    decreases |cs|
  {
    if n < |cs| {
      var init := cs[..|cs| - 1];
      assert cs[..n] == init[..n];
      TracePrefix(init, n);
    } else {
      assert cs[..n] == cs;
    }
  }
}
