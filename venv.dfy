/** The decision logic of `create_virtual_environment`: whether the environment
    is (re)created, and which activation command is shown afterwards. Running
    the environment tool is a parameter: only whether it succeeded matters. */
module Venv {
  import opened Text
  import opened Wrappers

  /** The activation command shown on Windows (`sys.platform == "win32"`). */
  const WindowsActivation: string := "venv\\Scripts\\activate"

  /** The activation command shown on every other platform. */
  const PosixActivation: string := "source venv/bin/activate"

  /** The activation command for a platform identifier. */
  function ActivationCommand(platform: string): (cmd: string)
    ensures cmd == WindowsActivation <==> platform == "win32"
    ensures cmd == PosixActivation <==> platform != "win32"
  {
    if platform == "win32" then WindowsActivation else PosixActivation
  }

  /** `response == 'y'` for `response = answer.strip().lower()`. */
  predicate IsYes(answer: string) {
    var s := Trim(answer);
    |s| == 1 && LowerChar(s[0]) == 'y'
  }

  /** The character-wise test is `strip().lower()` compared with `y`, and only
      `y` and `Y`, possibly surrounded by whitespace, pass it. */
  lemma YesSpellings(answer: string)
    ensures IsYes(answer) <==> Lower(Trim(answer)) == "y"
    ensures IsYes(answer) <==> Trim(answer) == "y" || Trim(answer) == "Y"
  {
    var s := Trim(answer);
    if |s| == 1 {
      assert Lower(s) == [Lower(s)[0]];
    }
  }

  /** How provisioning ends: the existing environment is kept, it was created
      and the activation command is shown, the tool failed and the process
      exits with status 1, or the input ended at the overwrite question
      (`input()` raises `EOFError`, which nothing catches). */
  datatype Provision =
    | Kept
    | Created(activate: string)
    | Failed(exitStatus: int)
    | EndOfInput

  /** Whether the reply read at the overwrite question is a yes; `None` is the
      end of the input, where no reply is read. */
  predicate Agreed(answer: Option<string>) {
    answer.Some? && IsYes(answer.value)
  }

  /** `create_virtual_environment`. `answer` is the line typed at the overwrite
      question, asked only when the environment exists, or `None` when the input
      has ended; `toolSucceeded` is whether `python -m venv venv` exited with
      status 0. */
  function Provisioning(venvExists: bool, answer: Option<string>, toolSucceeded: bool, platform: string)
    : (r: Provision)
    ensures r == EndOfInput <==> venvExists && answer.None?
    ensures r == Kept <==> venvExists && answer.Some? && !IsYes(answer.value)
    ensures r.Failed? <==> (!venvExists || Agreed(answer)) && !toolSucceeded
    ensures r.Created? <==> (!venvExists || Agreed(answer)) && toolSucceeded
    ensures r.Failed? ==> r.exitStatus == 1
    ensures r.Created? ==> r.activate == ActivationCommand(platform)
  {
    if venvExists && answer.None? then EndOfInput
    else if venvExists && !IsYes(answer.value) then Kept
    else if toolSucceeded then Created(ActivationCommand(platform))
    else Failed(1)
  }

  /** Declining the overwrite keeps the environment whatever the tool would have
      done: the tool is not run. */
  lemma DeclineRunsNoTool(answer: string, ok1: bool, ok2: bool, p1: string, p2: string)
    requires !IsYes(answer)
    ensures Provisioning(true, Some(answer), ok1, p1) == Provisioning(true, Some(answer), ok2, p2) == Kept
  {
  }

  /** Without an existing environment no question is asked: the answer makes no
      difference. */
  lemma AbsentIgnoresAnswer(a1: Option<string>, a2: Option<string>, ok: bool, platform: string)
    ensures Provisioning(false, a1, ok, platform) == Provisioning(false, a2, ok, platform)
    ensures Provisioning(false, a1, ok, platform) != Kept
  {
  }
}
