/** The signup step wizard (script.js:119-157). Each step container is a
    record of its step class (`step-1` ... `step-4`) and whether it carries
    `active`, in document order. Navigations scheduled with `setTimeout` are
    recorded in the order they were scheduled. */
module SignupWizard {
  import opened Browser

  datatype Step = Step(name: string, active: bool)

  /** The fixed table from a continue button's id to the step it shows next. */
  const StepButtons: map<string, string> := map[
    "plan-continue-btn" := "step-1",
    "registration-continue-btn" := "step-2",
    "payment-continue-btn" := "step-3",
    "start-membership-btn" := "step-4"
  ]

  /** The step that is never shown in the page: reaching it leaves for the
      browse page instead. */
  const FinalStep := "step-4"
  const BrowsePage := "browse.html"
  const SignupPath := "signup.html"

  /** The first step, in document order, that satisfies `p`: what
      `document.querySelector` returns for a selector matching exactly those
      steps. */
  function FirstWhere(steps: seq<Step>, p: Step -> bool): (r: Option<nat>)
    ensures r.None? <==> forall j :: 0 <= j < |steps| ==> !p(steps[j])
    ensures r.Some? ==> r.value < |steps| && p(steps[r.value])
    ensures r.Some? ==> forall j :: 0 <= j < r.value ==> !p(steps[j])
  {
    if steps == [] then None
    else if p(steps[0]) then Some(0)
    else match FirstWhere(steps[1..], p)
      case None => None
      case Some(k) => Some(k + 1)
  }

  /** `.step.active`: the first active step. */
  function CurrentStep(steps: seq<Step>): (r: Option<nat>)
    ensures r.None? <==> forall j :: 0 <= j < |steps| ==> !steps[j].active
    ensures r.Some? ==> r.value < |steps| && steps[r.value].active
    ensures r.Some? ==> forall j :: 0 <= j < r.value ==> !steps[j].active
  {
    FirstWhere(steps, (s: Step) => s.active)
  }

  /** `.step-N`: the first step of the given class. */
  function FindStep(steps: seq<Step>, name: string): (r: Option<nat>)
    ensures r.None? <==> forall j :: 0 <= j < |steps| ==> steps[j].name != name
    ensures r.Some? ==> r.value < |steps| && steps[r.value].name == name
    ensures r.Some? ==> forall j :: 0 <= j < r.value ==> steps[j].name != name
  {
    FirstWhere(steps, (s: Step) => s.name == name)
  }

  /** The indices of the active steps. */
  ghost function ActiveSteps(steps: seq<Step>): set<nat>
  {
    set j: nat | j < |steps| && steps[j].active
  }

  /** The names are the same step by step. */
  ghost predicate SameNames(a: seq<Step>, b: seq<Step>)
  {
    |a| == |b| && forall j :: 0 <= j < |a| ==> a[j].name == b[j].name
  }

  /** An in-page move to step `next`: if an active step and a step named
      `next` both exist, the first active one is deactivated and the first
      one named `next` activated; otherwise nothing changes. */
  function Advance(steps: seq<Step>, next: string): (r: seq<Step>)
    ensures SameNames(r, steps)
  {
    match (CurrentStep(steps), FindStep(steps, next))
    case (Some(c), Some(t)) =>
      steps[c := steps[c].(active := false)][t := steps[t].(active := true)]
    case _ => steps
  }

  /** The move trades the first active step for the target in the set of
      active steps, and changes nothing when either is missing. */
  lemma AdvanceActiveSteps(steps: seq<Step>, next: string)
    ensures CurrentStep(steps).Some? && FindStep(steps, next).Some? ==>
      ActiveSteps(Advance(steps, next))
        == ActiveSteps(steps) - {CurrentStep(steps).value} + {FindStep(steps, next).value}
    ensures CurrentStep(steps).None? || FindStep(steps, next).None? ==>
      Advance(steps, next) == steps
  {
    var r := Advance(steps, next);
    if CurrentStep(steps).Some? && FindStep(steps, next).Some? {
      var c, t := CurrentStep(steps).value, FindStep(steps, next).value;
      forall j: nat | j < |r| ensures r[j].active == (if j == t then true else if j == c then false else steps[j].active) {
      }
      assert ActiveSteps(r) == ActiveSteps(steps) - {c} + {t};
    }
  }

  /** With exactly one step shown, a move to an existing step shows exactly
      that step. */
  lemma AdvanceKeepsOneStepShown(steps: seq<Step>, next: string, c: nat)
    requires ActiveSteps(steps) == {c}
    requires FindStep(steps, next).Some?
    ensures ActiveSteps(Advance(steps, next)) == {FindStep(steps, next).value}
  {
    assert c in ActiveSteps(steps);
    assert CurrentStep(steps).Some?;
    assert CurrentStep(steps).value in ActiveSteps(steps);
    AdvanceActiveSteps(steps, next);
  }

  /** Every in-page target of the table is a step other than the final one,
      and only the start-membership button leads to the final step. */
  lemma TableTargets()
    ensures forall id :: id in StepButtons && StepButtons[id] != FinalStep ==>
      StepButtons[id] in {"step-1", "step-2", "step-3"}
    ensures forall id :: id in StepButtons && StepButtons[id] == FinalStep ==>
      id == "start-membership-btn"
    ensures StepButtons["plan-continue-btn"] == "step-1"
  {
  }

  /** A move to any step but the final one never shows a final step that was
      hidden. */
  lemma AdvanceNeverShowsFinalStep(steps: seq<Step>, next: string, j: nat)
    requires next != FinalStep
    requires j < |steps| && steps[j].name == FinalStep && !steps[j].active
    ensures !Advance(steps, next)[j].active
  {
    var t := FindStep(steps, next);
    if t.Some? {
      assert t.value != j;
    }
  }

  /** The page's step wizard. */
  class Wizard {
    /** `window.location.pathname.includes('signup.html')`: the handlers are
        attached only on the signup page. */
    const onSignupPage: bool
    /** The ids of the buttons the markup contains. */
    const buttons: set<string>
    /** The step containers, in document order. */
    const steps: array<Step>
    /** Navigations scheduled by `setTimeout`, oldest first. */
    var scheduled: seq<string>

    /** A click on `id` reaches a handler of the wizard. */
    predicate Wired(id: string)
    {
      onSignupPage && id in StepButtons && id in buttons
    }

    constructor (pathname: string, buttonIds: set<string>, containers: array<Step>)
      ensures onSignupPage == Includes(pathname, SignupPath)
      ensures buttons == buttonIds && steps == containers
      ensures scheduled == []
    {
      onSignupPage := Includes(pathname, SignupPath);
      buttons := buttonIds;
      steps := containers;
      scheduled := [];
    }

    /** A click on the button with id `id`. */
    method Click(id: string)
      modifies steps, this`scheduled
      ensures Wired(id) && StepButtons[id] == FinalStep ==>
        steps[..] == old(steps[..]) && scheduled == old(scheduled) + [BrowsePage]
      ensures Wired(id) && StepButtons[id] != FinalStep ==>
        steps[..] == Advance(old(steps[..]), StepButtons[id]) && scheduled == old(scheduled)
      ensures !Wired(id) ==> steps[..] == old(steps[..]) && scheduled == old(scheduled)
    {
      if Wired(id) {
        var next := StepButtons[id];
        if next == FinalStep {
          scheduled := scheduled + [BrowsePage];
        } else {
          var current := CurrentStep(steps[..]);
          var target := FindStep(steps[..], next);
          if current.Some? && target.Some? {
            steps[current.value] := steps[current.value].(active := false);
            steps[target.value] := steps[target.value].(active := true);
          }
        }
      }
    }
  }

  /** Starting on step 1, the registration button's move hides step 1 and
      shows step 2. */
  lemma StepOneToStepTwo()
    ensures Advance([Step("step-1", true), Step("step-2", false), Step("step-3", false), Step("step-4", false)],
                    StepButtons["registration-continue-btn"])
         == [Step("step-1", false), Step("step-2", true), Step("step-3", false), Step("step-4", false)]
  {
    var steps := [Step("step-1", true), Step("step-2", false), Step("step-3", false), Step("step-4", false)];
    assert CurrentStep(steps) == Some(0);
    assert FindStep(steps, "step-2") == Some(1) by {
      assert steps[0].name != "step-2" by { assert steps[0].name[5] != "step-2"[5]; }
    }
  }
}
