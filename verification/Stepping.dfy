/** The stepping a PCI revision stands for (NootedBlue/kern_nblue.cpp). */
module Stepping {
  import opened Options

  /** enum intel_step: STEP_NONE is 0, and STEP_FUTURE comes after all named steppings. */
  type Step = nat
  const STEP_NONE: Step := 0

  /** The map that applies: the sub-platform's unless it is missing or empty. */
  function Applicable(main: Option<seq<Step>>, sub: Option<seq<Step>>): seq<Step> {
    if sub.Some? && sub.value != [] then sub.value else if main.Some? then main.value else []
  }

  /** The first named stepping at or after a revision, else `future`. */
  function StepFrom(steps: seq<Step>, revision: nat, future: Step): Step
    decreases |steps| - revision
  {
    if revision >= |steps| then future
    else if steps[revision] != STEP_NONE then steps[revision]
    else StepFrom(steps, revision + 1, future)
  }

  /** get_pre_gmdid_step: the search in a non-empty sub-platform map, else in a non-empty main map, else STEP_NONE. */
  method GetPreGmdidStep(main: Option<seq<Step>>, sub: Option<seq<Step>>, revision: nat, future: Step) returns (step: Step)
    ensures sub.Some? && sub.value != [] ==> step == StepFrom(sub.value, revision, future)
    ensures (sub.None? || sub.value == []) && main.Some? && main.value != [] ==> step == StepFrom(main.value, revision, future)
    ensures (sub.None? || sub.value == []) && (main.None? || main.value == []) ==> step == STEP_NONE
  {
    var steps := Applicable(main, sub);
    if steps == [] {
      return STEP_NONE;
    }
    if revision < |steps| && steps[revision] != STEP_NONE {
      return steps[revision];
    }
    var r := revision;
    while r < |steps| && steps[r] == STEP_NONE
      invariant StepFrom(steps, revision, future) == StepFrom(steps, r, future)
    {
      r := r + 1;
    }
    return if r < |steps| then steps[r] else future;
  }

  /** The result is the entry at the least index from `revision` on that names a stepping. */
  lemma {:induction false} StepFromLeast(steps: seq<Step>, revision: nat, i: nat, future: Step)
    requires revision <= i <= |steps| && forall j :: revision <= j < i ==> steps[j] == STEP_NONE
    requires i < |steps| ==> steps[i] != STEP_NONE
    ensures StepFrom(steps, revision, future) == if i < |steps| then steps[i] else future
    decreases i - revision
  {
    if revision < i { StepFromLeast(steps, revision + 1, i, future); }
  }

  lemma {:induction false} StepFromIsEntry(steps: seq<Step>, revision: nat, future: Step)
    ensures var step := StepFrom(steps, revision, future);
            step == future || exists i :: revision <= i < |steps| && steps[i] == step != STEP_NONE
    decreases |steps| - revision
  {
    if revision < |steps| && steps[revision] == STEP_NONE { StepFromIsEntry(steps, revision + 1, future); }
  }

  /** On maps whose named steppings do not decrease, a later revision never has an earlier stepping. */
  lemma StepFromMonotone(steps: seq<Step>, r: nat, r': nat, future: Step)
    requires forall i, j :: 0 <= i < j < |steps| && steps[i] != STEP_NONE && steps[j] != STEP_NONE ==> steps[i] <= steps[j]
    requires forall i :: 0 <= i < |steps| ==> steps[i] <= future
    requires r <= r'
    ensures StepFrom(steps, r, future) <= StepFrom(steps, r', future)
    decreases |steps| - r
  {
    if r < |steps| && r < r' {
      if steps[r] == STEP_NONE {
        StepFromMonotone(steps, r + 1, r', future);
      } else {
        StepFromIsEntry(steps, r', future);
      }
    }
  }
}
