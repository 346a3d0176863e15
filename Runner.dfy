/**
 * The test runner preloaded by `setup.ts`: a tally of assertions kept in one
 * record shared through a global key, `assert.strictEqual` and
 * `assert.deepStrictEqual` wrapped so that each call is counted, a summary
 * status printed once before the process exits, and error hooks that mark a
 * runtime error.
 *
 * `process.exitCode` is kept as a field of the tally, 0 standing for the
 * unset exit code. Output to the console is not modelled: a method returns
 * what decides the output (the status, whether an error propagates).
 */
module Runner {
  import opened Wrappers
  import opened Strings

  /** What the wrapped assertion did when it ran the original one. */
  datatype Outcome =
    | Held              // the original returned
    | AssertionFailed   // it threw an `AssertionError`
    | OtherError        // it threw anything else

  /** The summary's headline. */
  datatype Status = RuntimeError | Fail | Done | Pass

  /** How many of the outcomes are `o`. */
  function Count(outcomes: seq<Outcome>, o: Outcome): (n: nat)
    ensures n <= |outcomes|
  {
    if outcomes == [] then 0
    else Count(outcomes[..|outcomes| - 1], o) + (if outcomes[|outcomes| - 1] == o then 1 else 0)
  }

  /** Every outcome is one of the three kinds. */
  lemma {:induction false} CountsAddUp(outcomes: seq<Outcome>)
    ensures Count(outcomes, Held) + Count(outcomes, AssertionFailed) + Count(outcomes, OtherError) == |outcomes|
  {
    if outcomes != [] {
      CountsAddUp(outcomes[..|outcomes| - 1]);
    }
  }

  /** A kind is counted exactly when it occurs. */
  lemma {:induction false} CountPositive(outcomes: seq<Outcome>, o: Outcome)
    ensures Count(outcomes, o) > 0 <==> o in outcomes
  {
    if outcomes != [] {
      var init := outcomes[..|outcomes| - 1];
      CountPositive(init, o);
      assert outcomes == init + [outcomes[|outcomes| - 1]];
    }
  }

  /**
   * The status `printSummary` reports: a runtime error outranks failed
   * assertions, which outrank an empty run, and only a run with assertions,
   * none failed, passes.
   */
  function StatusOf(runtimeError: bool, failed: nat, total: nat): (s: Status)
    ensures s == RuntimeError <==> runtimeError
    ensures s == Fail <==> !runtimeError && failed > 0
    ensures s == Done <==> !runtimeError && failed == 0 && total == 0
    ensures s == Pass <==> !runtimeError && failed == 0 && total > 0
  {
    if runtimeError then RuntimeError
    else if failed > 0 then Fail
    else if total == 0 then Done
    else Pass
  }

  /**
   * The shared record of the run. `history` is the outcome of every counted
   * assertion, in order; the counters are its tallies.
   */
  class RunnerState {
    var total: nat
    var passed: nat
    var failed: nat
    var runtimeError: bool
    var finalized: bool
    var exitCode: int
    ghost var history: seq<Outcome>

    /** The counters tally the history, so `passed + failed <= total`. */
    ghost predicate Valid()
      reads this
    {
      total == |history| &&
      passed == Count(history, Held) &&
      failed == Count(history, AssertionFailed)
    }

    /** The record made when none exists yet: all counters 0, no error, not finalized. */
    constructor ()
      ensures Valid() && history == []
      ensures total == 0 && passed == 0 && failed == 0
      ensures !runtimeError && !finalized && exitCode == 0
    {
      total, passed, failed := 0, 0, 0;
      runtimeError, finalized := false, false;
      exitCode := 0;
      history := [];
    }

    /**
     * The body of a wrapped assertion: count the call, then count a pass or
     * a failure. A failed assertion sets the exit code to 1 and is swallowed;
     * any other error propagates (`rethrown`) with only `total` counted.
     */
    method Record(outcome: Outcome) returns (rethrown: bool)
      requires Valid()
      modifies this
      ensures Valid() && history == old(history) + [outcome]
      ensures passed + failed <= total
      ensures total == old(total) + 1
      ensures passed == old(passed) + (if outcome == Held then 1 else 0)
      ensures failed == old(failed) + (if outcome == AssertionFailed then 1 else 0)
      ensures exitCode == (if outcome == AssertionFailed then 1 else old(exitCode))
      ensures rethrown <==> outcome == OtherError
      ensures runtimeError == old(runtimeError) && finalized == old(finalized)
    {
      total := total + 1;
      history := history + [outcome];
      assert history[..|history| - 1] == old(history);
      rethrown := false;
      match outcome {
        case Held =>
          passed := passed + 1;
        case AssertionFailed =>
          failed := failed + 1;
          exitCode := 1;
        case OtherError =>
          rethrown := true;
      }
      TallyBound(history);
    }

    /**
     * `printSummary`: the first call finalizes the record and reports the
     * status of the counters; every later call does nothing (`None`).
     */
    method PrintSummary() returns (status: Option<Status>)
      modifies this
      ensures finalized
      ensures status == if old(finalized) then None else Some(StatusOf(runtimeError, failed, total))
      ensures total == old(total) && passed == old(passed) && failed == old(failed)
      ensures runtimeError == old(runtimeError) && exitCode == old(exitCode) && history == old(history)
    {
      if finalized {
        return None;
      }
      finalized := true;
      status := Some(StatusOf(runtimeError, failed, total));
    }

    /** The `uncaughtException` and `unhandledRejection` hooks: a runtime error, exit code 1, counters untouched. */
    method OnRuntimeError()
      modifies this
      ensures runtimeError && exitCode == 1
      ensures total == old(total) && passed == old(passed) && failed == old(failed)
      ensures finalized == old(finalized) && history == old(history)
    {
      runtimeError := true;
      exitCode := 1;
    }
  }

  /**
   * The summary of a run whose assertions had `outcomes` and which met no
   * runtime error: it fails exactly when an assertion failed, is empty
   * exactly when no assertion ran, and passes otherwise.
   */
  lemma RunStatus(outcomes: seq<Outcome>)
    ensures StatusOf(false, Count(outcomes, AssertionFailed), |outcomes|) == Fail <==> AssertionFailed in outcomes
    ensures StatusOf(false, Count(outcomes, AssertionFailed), |outcomes|) == Done <==> outcomes == []
    ensures StatusOf(false, Count(outcomes, AssertionFailed), |outcomes|) == Pass <==>
      outcomes != [] && AssertionFailed !in outcomes
  {
    CountPositive(outcomes, AssertionFailed);
  }

  /** The tallies never exceed the count of assertions. */
  lemma TallyBound(outcomes: seq<Outcome>)
    ensures Count(outcomes, Held) + Count(outcomes, AssertionFailed) <= |outcomes|
    ensures Count(outcomes, Held) + Count(outcomes, AssertionFailed) == |outcomes| <==> OtherError !in outcomes
  {
    CountsAddUp(outcomes);
    CountPositive(outcomes, OtherError);
  }

  /**
   * The process-wide globals `setup.ts` reads and writes: the record under its
   * symbol key, and the flag saying the assertions are already wrapped.
   * `layers` counts the wrappers put around each assertion method.
   */
  class Globals {
    var state: RunnerState?
    var patched: bool
    ghost var layers: nat

    /** The flag is set exactly when one layer of wrappers is in place. */
    ghost predicate Valid()
      reads this
    {
      layers == if patched then 1 else 0
    }

    /** The globals of a fresh process: no record, nothing wrapped. */
    constructor ()
      ensures Valid() && state == null && !patched
    {
      state, patched := null, false;
      layers := 0;
    }

    /**
     * `patchAssert`: wrap the assertion methods unless the flag says they
     * already are, and set the flag.
     */
    method PatchAssert()
      requires Valid()
      modifies this
      ensures Valid() && patched && state == old(state)
      ensures layers == if old(patched) then old(layers) else old(layers) + 1
    {
      if patched {
        return;
      }
      patched := true;
      layers := layers + 1;
    }

    /**
     * Loading `setup.ts`: reuse the record under the global key or make a
     * fresh one, store it, and patch. Loading it once or many times leaves
     * one record and one layer of wrappers.
     */
    method Load()
      requires Valid()
      modifies this
      ensures Valid() && state != null && patched && layers == 1
      ensures old(state) != null ==> state == old(state)
      ensures old(state) == null ==> fresh(state) && state.Valid() && state.total == 0 && !state.finalized
    {
      if state == null {
        state := new RunnerState();
      }
      PatchAssert();
    }
  }

  // ---------------------------------------------------------------------------
  // getSourceLine

  /** The marker of a frame in a problem's own file. */
  const ProblemsDir := "src/problems/"

  /** `lines.find(...)`: the first line that contains the marker. */
  function FirstProblemLine(lines: seq<string>): (r: Option<nat>)
    ensures r.Some? ==> r.value < |lines| && Contains(lines[r.value], ProblemsDir)
    ensures r.Some? ==> forall k :: 0 <= k < r.value ==> !Contains(lines[k], ProblemsDir)
    ensures r.None? ==> forall k :: 0 <= k < |lines| ==> !Contains(lines[k], ProblemsDir)
  {
    if lines == [] then None
    else if Contains(lines[0], ProblemsDir) then Some(0)
    else
      match FirstProblemLine(lines[1..])
      case Some(k) => Some(k + 1)
      case None => None
  }

  /** The stack's lines, each trimmed. */
  function StackLines(stack: string): (lines: seq<string>)
    ensures |lines| == |Split(stack, '\n')|
    ensures forall k :: 0 <= k < |lines| ==> lines[k] == Trim(Split(stack, '\n')[k])
  {
    var parts := Split(stack, '\n');
    seq(|parts|, k requires 0 <= k < |parts| => Trim(parts[k]))
  }

  /**
   * `getSourceLine(stack)`: nothing for a missing or empty stack; else the
   * first trimmed line in a problem's file, else the second trimmed line
   * (which may be empty), else nothing.
   */
  function GetSourceLine(stack: Option<string>): (r: Option<string>)
    ensures stack.None? || stack == Some("") ==> r.None?
    ensures r.Some? ==> IsTrimmed(r.value)
  {
    if stack.None? || stack.value == "" then None
    else
      var lines := StackLines(stack.value);
      match FirstProblemLine(lines)
      case Some(k) => Some(lines[k])
      case None => if |lines| >= 2 then Some(lines[1]) else None
  }

  /**
   * What `getSourceLine` picks, stated against the trimmed lines of a
   * non-empty stack: a line in a problem's file whenever there is one, and
   * then the first; otherwise the second line, if any.
   */
  lemma SourceLineChoice(stack: string)
    requires stack != ""
    ensures var r := GetSourceLine(Some(stack));
      (r.Some? && Contains(r.value, ProblemsDir)) <==>
      exists k :: 0 <= k < |StackLines(stack)| && Contains(StackLines(stack)[k], ProblemsDir)
    ensures var r := GetSourceLine(Some(stack));
      r.Some? && Contains(r.value, ProblemsDir) ==>
      exists k :: 0 <= k < |StackLines(stack)| && StackLines(stack)[k] == r.value &&
        forall j :: 0 <= j < k ==> !Contains(StackLines(stack)[j], ProblemsDir)
    ensures var lines := StackLines(stack);
      (forall k :: 0 <= k < |lines| ==> !Contains(lines[k], ProblemsDir)) ==>
      GetSourceLine(Some(stack)) == if |lines| >= 2 then Some(lines[1]) else None
  {
    var lines := StackLines(stack);
    match FirstProblemLine(lines)
    case Some(k) =>
      assert GetSourceLine(Some(stack)) == Some(lines[k]);
    case None =>
      assert |lines| >= 2 ==> !Contains(lines[1], ProblemsDir);
  }
}
