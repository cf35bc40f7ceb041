/**
 * When a pass completes things. A step's entry becomes Completed when every
 * task of the step reported done (StepRunsAllTasks in WorkflowProperties);
 * here: the step loop of a phase reports no step left exactly when every step
 * of the phase has a Completed entry, and a pass without error leaves the plan
 * Completed exactly when every phase of the spec has a Completed entry. Both
 * hold when the names at that level are distinct: with a repeated name two
 * spec positions share one status entry and the counters count it twice.
 */
module WorkflowCompletion {
  import opened Wrappers
  import opened KudoApi
  import opened Workflow
  import opened WorkflowTasks
  import opened WorkflowFacts

  ghost predicate DistinctPhaseNames(plan: Plan) {
    forall a, b :: 0 <= a < b < |plan.phases| ==> plan.phases[a].name != plan.phases[b].name
  }

  ghost predicate DistinctStepNames(phase: Phase) {
    forall a, b :: 0 <= a < b < |phase.steps| ==> phase.steps[a].name != phase.steps[b].name
  }

  /** Phase names are distinct in the plan, and step names within each phase. */
  ghost predicate DistinctNames(plan: Plan) {
    DistinctPhaseNames(plan) && forall i :: 0 <= i < |plan.phases| ==> DistinctStepNames(plan.phases[i])
  }

  /** No phase of the spec from i on is called `name`. */
  ghost predicate NotLaterPhase(env: Env, name: string, i: nat) {
    forall i' :: i <= i' < |env.pl.spec.phases| ==> env.pl.spec.phases[i'].name != name
  }

  /** No step of phase i from s on is called `name`. */
  ghost predicate NotLaterStep(env: Env, i: nat, name: string, s: nat)
    requires i < |env.pl.spec.phases|
  {
    forall s' :: s <= s' < |env.pl.spec.phases[i].steps| ==> env.pl.spec.phases[i].steps[s'].name != name
  }

  // ---- frames: the loops leave the entries of positions already passed alone ----

  /** Within phase entry j, the walk from step s on changes no step entry whose name no later step has. */
  ghost predicate StepsFrameOk(env: Env, i: nat, j: nat, s: nat, ps: PlanStatus, w: Walk)
    requires i < |env.pl.spec.phases| && j < |ps.phases|
  {
    w.Walked? ==>
      j < |w.status.phases| && |w.status.phases[j].steps| == |ps.phases[j].steps| &&
      forall k :: 0 <= k < |ps.phases[j].steps| && NotLaterStep(env, i, ps.phases[j].steps[k].name, s) ==>
        w.status.phases[j].steps[k] == ps.phases[j].steps[k]
  }

  lemma TasksStepFrame(env: Env, i: nat, s: nat, j: nat, k: nat, ps: PlanStatus, tr: seq<Call>)
    requires ValidStep(env.pl.spec, i, s) && ValidEntry(ps, j, k)
    ensures var w := RunTasks(env, i, s, 0, j, k, ps, |TasksOf(env, i, s)|, tr);
      w.Walked? ==>
        && j < |w.status.phases| && |w.status.phases[j].steps| == |ps.phases[j].steps|
        && (forall k' :: 0 <= k' < |ps.phases[j].steps| && k' != k ==> w.status.phases[j].steps[k'] == ps.phases[j].steps[k'])
        && (w.status.phases[j].steps[k].status == Error || w.status.phases[j].steps[k].status == ps.phases[j].steps[k].status)
  {
    RunTasksMatchesReference(env, i, s, 0, j, k, ps, |TasksOf(env, i, s)|, tr);
  }

  lemma {:induction false} StepsFrame(env: Env, i: nat, j: nat, s: nat, ps: PlanStatus, left: int, tr: seq<Call>)
    requires i < |env.pl.spec.phases| && s <= |env.pl.spec.phases[i].steps| && j < |ps.phases|
    ensures StepsFrameOk(env, i, j, s, ps, RunSteps(env, i, j, s, ps, left, tr))
    decreases |env.pl.spec.phases[i].steps| - s, 2
  {
    var phase := env.pl.spec.phases[i];
    if s < |phase.steps| {
      match IndexOfName(StepNames(ps.phases[j].steps), phase.steps[s].name)
      case None =>
      case Some(k) =>
        var current := ps.phases[j].steps[k].status;
        if IsFinished(current) {
          StepsFrame(env, i, j, s + 1, ps, left - 1, tr);
        } else if IsInProgress(current) {
          StepVisitFrame(env, i, j, s, k, ps, left, tr);
        }
    }
  }

  lemma {:induction false} StepVisitFrame(env: Env, i: nat, j: nat, s: nat, k: nat, ps: PlanStatus, left: int, tr: seq<Call>)
    requires ValidStep(env.pl.spec, i, s) && ValidEntry(ps, j, k)
    requires IndexOfName(StepNames(ps.phases[j].steps), env.pl.spec.phases[i].steps[s].name) == Some(k)
    requires IsInProgress(ps.phases[j].steps[k].status)
    ensures StepsFrameOk(env, i, j, s, ps, RunSteps(env, i, j, s, ps, left, tr))
    decreases |env.pl.spec.phases[i].steps| - s, 1
  {
    var ps1 := WithStepStatus(ps, j, k, InProgress);
    var w := RunTasks(env, i, s, 0, j, k, ps1, |TasksOf(env, i, s)|, tr);
    TasksStepFrame(env, i, s, j, k, ps1, tr);
    RunStepsVisit(env, i, j, s, k, ps, left, tr);
    AfterTasksFrame(env, i, j, s, k, ps, w, left);
  }

  lemma {:induction false} AfterTasksFrame(env: Env, i: nat, j: nat, s: nat, k: nat, ps: PlanStatus, w: Walk, left: int)
    requires ValidStep(env.pl.spec, i, s) && ValidEntry(ps, j, k)
    requires ps.phases[j].steps[k].name == env.pl.spec.phases[i].steps[s].name
    requires w.Walked? ==>
      && ValidEntry(w.status, j, k) && |w.status.phases[j].steps| == |ps.phases[j].steps|
      && forall k' :: 0 <= k' < |ps.phases[j].steps| && k' != k ==> w.status.phases[j].steps[k'] == ps.phases[j].steps[k']
    ensures StepsFrameOk(env, i, j, s, ps, AfterTasks(env, i, j, s, k, w, left))
    decreases |env.pl.spec.phases[i].steps| - s, 0
  {
    match w
    case Aborted(_) =>
    case Walked(ps', tasksLeft, tr') =>
      if tasksLeft > 0 {
        if env.pl.spec.phases[i].strategy != Serial {
          StepsFrame(env, i, j, s + 1, ps', left, tr');
        }
      } else {
        StepsFrame(env, i, j, s + 1, WithStepStatus(ps', j, k, Completed), left - 1, tr');
      }
  }

  /** The walk from phase i on changes no phase entry whose name no later phase has. */
  ghost predicate PhasesFrameOk(env: Env, i: nat, ps: PlanStatus, out: Outcome) {
    |out.status.phases| == |ps.phases| &&
    forall j :: 0 <= j < |ps.phases| && NotLaterPhase(env, ps.phases[j].name, i) ==> out.status.phases[j] == ps.phases[j]
  }

  lemma {:induction false} PhasesFrame(env: Env, i: nat, ps: PlanStatus, left: int, tr: seq<Call>)
    requires i <= |env.pl.spec.phases|
    ensures PhasesFrameOk(env, i, ps, RunPhases(env, i, ps, left, tr))
    decreases |env.pl.spec.phases| - i, 2
  {
    var phases := env.pl.spec.phases;
    if i < |phases| {
      match IndexOfName(PhaseNames(ps.phases), phases[i].name)
      case None =>
      case Some(j) =>
        var current := ps.phases[j].status;
        if IsFinished(current) {
          PhaseSkipFrame(env, i, j, ps, left, tr);
        } else if IsInProgress(current) {
          PhaseVisitFrame(env, i, j, ps, left, tr);
        }
    }
  }

  lemma {:induction false} PhaseSkipFrame(env: Env, i: nat, j: nat, ps: PlanStatus, left: int, tr: seq<Call>)
    requires i < |env.pl.spec.phases| && j < |ps.phases|
    requires IndexOfName(PhaseNames(ps.phases), env.pl.spec.phases[i].name) == Some(j)
    requires IsFinished(ps.phases[j].status)
    ensures PhasesFrameOk(env, i, ps, RunPhases(env, i, ps, left, tr))
    decreases |env.pl.spec.phases| - i, 1
  {
    assert RunPhases(env, i, ps, left, tr) == RunPhases(env, i + 1, ps, left - 1, tr);
    PhasesFrame(env, i + 1, ps, left - 1, tr);
  }

  lemma {:induction false} PhaseVisitFrame(env: Env, i: nat, j: nat, ps: PlanStatus, left: int, tr: seq<Call>)
    requires i < |env.pl.spec.phases| && j < |ps.phases|
    requires IndexOfName(PhaseNames(ps.phases), env.pl.spec.phases[i].name) == Some(j)
    requires IsInProgress(ps.phases[j].status)
    ensures PhasesFrameOk(env, i, ps, RunPhases(env, i, ps, left, tr))
    decreases |env.pl.spec.phases| - i, 1
  {
    var ps1 := WithPhaseStatus(ps, j, InProgress);
    var n := |env.pl.spec.phases[i].steps|;
    var w := RunSteps(env, i, j, 0, ps1, n, tr);
    StepsKeep(env, i, j, 0, ps1, n, tr);
    assert |PhaseNames(w.Status().phases)| == |PhaseNames(ps.phases)|;
    RunPhasesVisit(env, i, j, ps, left, tr);
    AfterStepsFrame(env, i, j, ps, w, left);
  }

  lemma {:induction false} AfterStepsFrame(env: Env, i: nat, j: nat, ps: PlanStatus, w: Walk, left: int)
    requires i < |env.pl.spec.phases| && j < |ps.phases|
    requires ps.phases[j].name == env.pl.spec.phases[i].name
    requires w.Walked? ==>
      && |w.status.phases| == |ps.phases|
      && forall j' :: 0 <= j' < |ps.phases| && j' != j ==> w.status.phases[j'] == ps.phases[j']
    ensures w.Walked? ==> PhasesFrameOk(env, i, ps, AfterSteps(env, i, j, w, left))
    decreases |env.pl.spec.phases| - i, 0
  {
    match w
    case Aborted(_) =>
    case Walked(ps', stepsLeft, tr') =>
      if stepsLeft > 0 {
        if env.pl.spec.strategy != Serial {
          PhasesFrame(env, i + 1, ps', left, tr');
        }
      } else {
        PhasesFrame(env, i + 1, WithPhaseStatus(ps', j, Completed), left - 1, tr');
      }
  }

  // ---- completion ----

  /** Every phase of the spec from i on has a Completed entry in st. */
  ghost predicate PhasesDoneFrom(env: Env, st: PlanStatus, i: nat)
    decreases |env.pl.spec.phases| - i
  {
    i < |env.pl.spec.phases| ==> PhaseStatusIs(env, st, i, Completed) && PhasesDoneFrom(env, st, i + 1)
  }

  /** Every step of phase i from s on has a Completed entry in st. */
  ghost predicate StepsDoneFrom(env: Env, st: PlanStatus, i: nat, s: nat)
    requires i < |env.pl.spec.phases|
    decreases |env.pl.spec.phases[i].steps| - s
  {
    s < |env.pl.spec.phases[i].steps| ==> StepStatusIs(env, st, i, s, Completed) && StepsDoneFrom(env, st, i, s + 1)
  }

  lemma {:induction false} PhasesDoneFromAll(env: Env, st: PlanStatus, i: nat)
    ensures PhasesDoneFrom(env, st, i) <==> forall i' :: i <= i' < |env.pl.spec.phases| ==> PhaseStatusIs(env, st, i', Completed)
    decreases |env.pl.spec.phases| - i
  {
    if i < |env.pl.spec.phases| {
      PhasesDoneFromAll(env, st, i + 1);
    }
  }

  lemma {:induction false} StepsDoneFromAll(env: Env, st: PlanStatus, i: nat, s: nat)
    requires i < |env.pl.spec.phases|
    ensures StepsDoneFrom(env, st, i, s) <==> forall s' :: s <= s' < |env.pl.spec.phases[i].steps| ==> StepStatusIs(env, st, i, s', Completed)
    decreases |env.pl.spec.phases[i].steps| - s
  {
    if s < |env.pl.spec.phases[i].steps| {
      StepsDoneFromAll(env, st, i, s + 1);
    }
  }

  /** Two trees that resolve phase i to entry j and agree on that entry agree on its status. */
  lemma PhaseStatusOfEntry(env: Env, a: PlanStatus, b: PlanStatus, i: nat, j: nat)
    requires i < |env.pl.spec.phases|
    requires PhaseEntry(env, a, i) == Some(j) && PhaseEntry(env, b, i) == Some(j) && a.phases[j] == b.phases[j]
    ensures PhaseStatusIs(env, a, i, Completed) <==> PhaseStatusIs(env, b, i, Completed)
  {
  }

  lemma StepStatusOfEntry(env: Env, a: PlanStatus, b: PlanStatus, i: nat, s: nat, j: nat, k: nat)
    requires ValidStep(env.pl.spec, i, s)
    requires PhaseEntry(env, a, i) == Some(j) && PhaseEntry(env, b, i) == Some(j)
    requires StepEntry(env, a, i, s) == Some(k) && StepEntry(env, b, i, s) == Some(k)
    requires a.phases[j].steps[k] == b.phases[j].steps[k]
    ensures StepStatusIs(env, a, i, s, Completed) <==> StepStatusIs(env, b, i, s, Completed)
  {
  }

  /** The walk from step s on reports no step left exactly when it started with one per step and every step from s on has a Completed entry. */
  ghost predicate StepsCompleteOk(env: Env, i: nat, s: nat, left: int, w: Walk)
    requires i < |env.pl.spec.phases| && s <= |env.pl.spec.phases[i].steps|
  {
    w.Walked? ==> (w.left == 0 <==> left == |env.pl.spec.phases[i].steps| - s && StepsDoneFrom(env, w.status, i, s))
  }

  /** From the walk's facts at step s + 1 and whether step s is done, the facts at step s. */
  lemma StepsCompleteBack(env: Env, i: nat, s: nat, left: int, w: Walk, done: bool)
    requires ValidStep(env.pl.spec, i, s) && left >= |env.pl.spec.phases[i].steps| - s
    requires w.Walked?
    requires w.left == 0 <==>
      (if done then left - 1 else left) == |env.pl.spec.phases[i].steps| - s - 1 && StepsDoneFrom(env, w.status, i, s + 1)
    requires StepsDoneFrom(env, w.status, i, s) <==> done && StepsDoneFrom(env, w.status, i, s + 1)
    ensures StepsCompleteOk(env, i, s, left, w)
  {
  }

  lemma {:induction false} StepsComplete(env: Env, i: nat, j: nat, s: nat, ps: PlanStatus, left: int, tr: seq<Call>)
    requires i < |env.pl.spec.phases| && s <= |env.pl.spec.phases[i].steps| && j < |ps.phases|
    requires DistinctStepNames(env.pl.spec.phases[i]) && PhaseEntry(env, ps, i) == Some(j)
    requires left >= |env.pl.spec.phases[i].steps| - s
    ensures StepsCompleteOk(env, i, s, left, RunSteps(env, i, j, s, ps, left, tr))
    decreases |env.pl.spec.phases[i].steps| - s, 4
  {
    var phase := env.pl.spec.phases[i];
    if s < |phase.steps| {
      match IndexOfName(StepNames(ps.phases[j].steps), phase.steps[s].name)
      case None =>
      case Some(k) =>
        var current := ps.phases[j].steps[k].status;
        if IsFinished(current) {
          StepSkipComplete(env, i, j, s, k, ps, left, tr);
        } else if !IsInProgress(current) {
          assert !StepStatusIs(env, ps, i, s, Completed);
        } else {
          StepVisitComplete(env, i, j, s, k, ps, left, tr);
        }
    }
  }

  /** A step already finished is passed over; its Completed entry stays. */
  lemma {:induction false} StepSkipComplete(env: Env, i: nat, j: nat, s: nat, k: nat, ps: PlanStatus, left: int, tr: seq<Call>)
    requires ValidStep(env.pl.spec, i, s) && ValidEntry(ps, j, k)
    requires DistinctStepNames(env.pl.spec.phases[i]) && PhaseEntry(env, ps, i) == Some(j)
    requires IndexOfName(StepNames(ps.phases[j].steps), env.pl.spec.phases[i].steps[s].name) == Some(k)
    requires IsFinished(ps.phases[j].steps[k].status)
    requires left >= |env.pl.spec.phases[i].steps| - s
    ensures StepsCompleteOk(env, i, s, left, RunSteps(env, i, j, s, ps, left, tr))
    decreases |env.pl.spec.phases[i].steps| - s, 3
  {
    assert StepStatusIs(env, ps, i, s, Completed);
    StepsCompleteNext(env, i, j, s, k, ps, left, left - 1, tr);
    assert RunSteps(env, i, j, s, ps, left, tr) == RunSteps(env, i, j, s + 1, ps, left - 1, tr);
  }

  /**
   * The walk goes on at step s + 1 from `next`, in which step s has entry k,
   * with one step fewer left when step s is Completed: the facts hold at step s.
   */
  lemma {:induction false} StepsCompleteNext(env: Env, i: nat, j: nat, s: nat, k: nat, next: PlanStatus, left: int, left': int, tr: seq<Call>)
    requires ValidStep(env.pl.spec, i, s) && ValidEntry(next, j, k)
    requires DistinctStepNames(env.pl.spec.phases[i])
    requires PhaseEntry(env, next, i) == Some(j) && StepEntry(env, next, i, s) == Some(k)
    requires left >= |env.pl.spec.phases[i].steps| - s
    requires left' == if StepStatusIs(env, next, i, s, Completed) then left - 1 else left
    ensures StepsCompleteOk(env, i, s, left, RunSteps(env, i, j, s + 1, next, left', tr))
    decreases |env.pl.spec.phases[i].steps| - s, 0
  {
    var w := RunSteps(env, i, j, s + 1, next, left', tr);
    StepsComplete(env, i, j, s + 1, next, left', tr);
    StepsFrame(env, i, j, s + 1, next, left', tr);
    StepsCompleteStep(env, i, j, s, k, next, left, left', w);
  }

  /** The facts at step s + 1 about a walk that kept step s's entry give the facts at step s. */
  lemma StepsCompleteStep(env: Env, i: nat, j: nat, s: nat, k: nat, next: PlanStatus, left: int, left': int, w: Walk)
    requires ValidStep(env.pl.spec, i, s) && ValidEntry(next, j, k)
    requires DistinctStepNames(env.pl.spec.phases[i])
    requires PhaseEntry(env, next, i) == Some(j) && StepEntry(env, next, i, s) == Some(k)
    requires left >= |env.pl.spec.phases[i].steps| - s
    requires left' == if StepStatusIs(env, next, i, s, Completed) then left - 1 else left
    requires SameShape(next, w.Status())
    requires StepsFrameOk(env, i, j, s + 1, next, w) && StepsCompleteOk(env, i, s + 1, left', w)
    ensures StepsCompleteOk(env, i, s, left, w)
  {
    StepEntryOfSameShape(env, next, w.Status(), i, s);
    if w.Walked? {
      assert next.phases[j].steps[k].name == env.pl.spec.phases[i].steps[s].name;
      StepStatusOfEntry(env, w.status, next, i, s, j, k);
      StepsCompleteBack(env, i, s, left, w, StepStatusIs(env, next, i, s, Completed));
    }
  }

  lemma {:induction false} StepVisitComplete(env: Env, i: nat, j: nat, s: nat, k: nat, ps: PlanStatus, left: int, tr: seq<Call>)
    requires ValidStep(env.pl.spec, i, s) && ValidEntry(ps, j, k)
    requires DistinctStepNames(env.pl.spec.phases[i]) && PhaseEntry(env, ps, i) == Some(j)
    requires IndexOfName(StepNames(ps.phases[j].steps), env.pl.spec.phases[i].steps[s].name) == Some(k)
    requires IsInProgress(ps.phases[j].steps[k].status)
    requires left >= |env.pl.spec.phases[i].steps| - s
    ensures StepsCompleteOk(env, i, s, left, RunSteps(env, i, j, s, ps, left, tr))
    decreases |env.pl.spec.phases[i].steps| - s, 3
  {
    var ps1 := WithStepStatus(ps, j, k, InProgress);
    var w := RunTasks(env, i, s, 0, j, k, ps1, |TasksOf(env, i, s)|, tr);
    TasksStepFrame(env, i, s, j, k, ps1, tr);
    StepEntryOfSameShape(env, ps, ps1, i, s);
    StepEntryOfSameShape(env, ps1, w.Status(), i, s);
    RunStepsVisit(env, i, j, s, k, ps, left, tr);
    AfterTasksComplete(env, i, j, s, k, w, left);
  }

  lemma {:induction false} AfterTasksComplete(env: Env, i: nat, j: nat, s: nat, k: nat, w: Walk, left: int)
    requires ValidStep(env.pl.spec, i, s) && DistinctStepNames(env.pl.spec.phases[i])
    requires w.Walked? ==>
      && ValidEntry(w.status, j, k) && PhaseEntry(env, w.status, i) == Some(j) && StepEntry(env, w.status, i, s) == Some(k)
      && !IsTerminal(w.status.phases[j].steps[k].status)
    requires left >= |env.pl.spec.phases[i].steps| - s
    ensures StepsCompleteOk(env, i, s, left, AfterTasks(env, i, j, s, k, w, left))
    decreases |env.pl.spec.phases[i].steps| - s, 2
  {
    match w
    case Aborted(_) =>
    case Walked(ps', tasksLeft, tr') =>
      if tasksLeft > 0 {
        StepTasksLeft(env, i, j, s, k, ps', tasksLeft, tr', left);
      } else {
        StepTasksDone(env, i, j, s, k, ps', tr', left);
      }
  }

  /** Tasks are left in step s: the step is not Completed, so the walk does not report every step done. */
  lemma {:induction false} StepTasksLeft(env: Env, i: nat, j: nat, s: nat, k: nat, ps': PlanStatus, tasksLeft: int, tr': seq<Call>, left: int)
    requires ValidStep(env.pl.spec, i, s) && DistinctStepNames(env.pl.spec.phases[i])
    requires ValidEntry(ps', j, k) && PhaseEntry(env, ps', i) == Some(j) && StepEntry(env, ps', i, s) == Some(k)
    requires !IsTerminal(ps'.phases[j].steps[k].status)
    requires tasksLeft > 0 && left >= |env.pl.spec.phases[i].steps| - s
    ensures StepsCompleteOk(env, i, s, left, AfterTasks(env, i, j, s, k, Walked(ps', tasksLeft, tr'), left))
    decreases |env.pl.spec.phases[i].steps| - s, 1
  {
    assert !StepStatusIs(env, ps', i, s, Completed);
    if env.pl.spec.phases[i].strategy != Serial {
      StepsCompleteNext(env, i, j, s, k, ps', left, left, tr');
    }
  }

  /** No task is left in step s: the step is marked Completed and the walk goes on. */
  lemma {:induction false} StepTasksDone(env: Env, i: nat, j: nat, s: nat, k: nat, ps': PlanStatus, tr': seq<Call>, left: int)
    requires ValidStep(env.pl.spec, i, s) && DistinctStepNames(env.pl.spec.phases[i])
    requires ValidEntry(ps', j, k) && PhaseEntry(env, ps', i) == Some(j) && StepEntry(env, ps', i, s) == Some(k)
    requires left >= |env.pl.spec.phases[i].steps| - s
    ensures StepsCompleteOk(env, i, s, left, AfterTasks(env, i, j, s, k, Walked(ps', 0, tr'), left))
    decreases |env.pl.spec.phases[i].steps| - s, 1
  {
    var ps2 := WithStepStatus(ps', j, k, Completed);
    StepEntryOfSameShape(env, ps', ps2, i, s);
    assert StepStatusIs(env, ps2, i, s, Completed);
    StepsCompleteNext(env, i, j, s, k, ps2, left, left - 1, tr');
  }

  /** A pass from phase i on without error completes the plan exactly when it started with one per phase left and every phase from i on has a Completed entry. */
  ghost predicate PhasesCompleteOk(env: Env, i: nat, left: int, out: Outcome)
    requires i <= |env.pl.spec.phases|
  {
    out.err.None? ==> (out.status.status == Completed <==> left == |env.pl.spec.phases| - i && PhasesDoneFrom(env, out.status, i))
  }

  /** From the pass's facts at phase i + 1 and whether phase i is done, the facts at phase i. */
  lemma PhasesCompleteBack(env: Env, i: nat, left: int, out: Outcome, done: bool)
    requires i < |env.pl.spec.phases| && left >= |env.pl.spec.phases| - i
    requires out.err.None?
    requires out.status.status == Completed <==>
      (if done then left - 1 else left) == |env.pl.spec.phases| - i - 1 && PhasesDoneFrom(env, out.status, i + 1)
    requires PhasesDoneFrom(env, out.status, i) <==> done && PhasesDoneFrom(env, out.status, i + 1)
    ensures PhasesCompleteOk(env, i, left, out)
  {
  }

  lemma {:induction false} PhasesComplete(env: Env, i: nat, ps: PlanStatus, left: int, tr: seq<Call>)
    requires i <= |env.pl.spec.phases| && DistinctPhaseNames(env.pl.spec)
    requires ps.status == InProgress && left >= |env.pl.spec.phases| - i
    ensures PhasesCompleteOk(env, i, left, RunPhases(env, i, ps, left, tr))
    decreases |env.pl.spec.phases| - i, 4
  {
    var phases := env.pl.spec.phases;
    if i < |phases| {
      match IndexOfName(PhaseNames(ps.phases), phases[i].name)
      case None =>
      case Some(j) =>
        var current := ps.phases[j].status;
        if IsFinished(current) {
          PhaseSkipComplete(env, i, j, ps, left, tr);
        } else if !IsInProgress(current) {
          assert !PhaseStatusIs(env, ps, i, Completed);
        } else {
          PhaseVisitComplete(env, i, j, ps, left, tr);
        }
    }
  }

  /** A phase already finished is passed over; its Completed entry stays. */
  lemma {:induction false} PhaseSkipComplete(env: Env, i: nat, j: nat, ps: PlanStatus, left: int, tr: seq<Call>)
    requires i < |env.pl.spec.phases| && j < |ps.phases| && DistinctPhaseNames(env.pl.spec)
    requires IndexOfName(PhaseNames(ps.phases), env.pl.spec.phases[i].name) == Some(j)
    requires IsFinished(ps.phases[j].status)
    requires ps.status == InProgress && left >= |env.pl.spec.phases| - i
    ensures PhasesCompleteOk(env, i, left, RunPhases(env, i, ps, left, tr))
    decreases |env.pl.spec.phases| - i, 3
  {
    assert PhaseStatusIs(env, ps, i, Completed);
    PhasesCompleteNext(env, i, j, ps, left, left - 1, tr);
    assert RunPhases(env, i, ps, left, tr) == RunPhases(env, i + 1, ps, left - 1, tr);
  }

  /**
   * The pass goes on at phase i + 1 from `next`, in which phase i has entry j,
   * with one phase fewer left when phase i is Completed.
   */
  ghost predicate PassOn(env: Env, i: nat, j: nat, next: PlanStatus, left: int, left': int) {
    && i < |env.pl.spec.phases| && j < |next.phases| && DistinctPhaseNames(env.pl.spec)
    && PhaseEntry(env, next, i) == Some(j)
    && left >= |env.pl.spec.phases| - i
    && left' == if PhaseStatusIs(env, next, i, Completed) then left - 1 else left
  }

  /**
   * The pass goes on at phase i + 1 from `next`, in which phase i has entry j,
   * with one phase fewer left when phase i is Completed: the facts hold at phase i.
   */
  lemma {:induction false} PhasesCompleteNext(env: Env, i: nat, j: nat, next: PlanStatus, left: int, left': int, tr: seq<Call>)
    requires PassOn(env, i, j, next, left, left') && next.status == InProgress
    ensures PhasesCompleteOk(env, i, left, RunPhases(env, i + 1, next, left', tr))
    decreases |env.pl.spec.phases| - i, 0
  {
    var out := RunPhases(env, i + 1, next, left', tr);
    PhasesComplete(env, i + 1, next, left', tr);
    PhasesFrame(env, i + 1, next, left', tr);
    PhasesCompleteStep(env, i, j, next, left, left', out);
  }

  /** The facts at phase i + 1 about a pass that kept phase i's entry give the facts at phase i. */
  lemma PhasesCompleteStep(env: Env, i: nat, j: nat, next: PlanStatus, left: int, left': int, out: Outcome)
    requires PassOn(env, i, j, next, left, left') && SameShape(next, out.status)
    requires PhasesFrameOk(env, i + 1, next, out) && PhasesCompleteOk(env, i + 1, left', out)
    ensures PhasesCompleteOk(env, i, left, out)
  {
    PhaseEntryOfSameShape(env, next, out.status, i);
    assert next.phases[j].name == env.pl.spec.phases[i].name;
    PhaseStatusOfEntry(env, out.status, next, i, j);
    if out.err.None? {
      PhasesCompleteBack(env, i, left, out, PhaseStatusIs(env, next, i, Completed));
    }
  }

  lemma {:induction false} PhaseVisitComplete(env: Env, i: nat, j: nat, ps: PlanStatus, left: int, tr: seq<Call>)
    requires i < |env.pl.spec.phases| && j < |ps.phases| && DistinctPhaseNames(env.pl.spec)
    requires IndexOfName(PhaseNames(ps.phases), env.pl.spec.phases[i].name) == Some(j)
    requires IsInProgress(ps.phases[j].status)
    requires ps.status == InProgress && left >= |env.pl.spec.phases| - i
    ensures PhasesCompleteOk(env, i, left, RunPhases(env, i, ps, left, tr))
    decreases |env.pl.spec.phases| - i, 3
  {
    var ps1 := WithPhaseStatus(ps, j, InProgress);
    var n := |env.pl.spec.phases[i].steps|;
    var w := RunSteps(env, i, j, 0, ps1, n, tr);
    StepsPlanFields(env, i, j, 0, ps1, n, tr);
    PhaseEntryOfSameShape(env, ps, ps1, i);
    PhaseEntryOfSameShape(env, ps1, w.Status(), i);
    RunPhasesVisit(env, i, j, ps, left, tr);
    AfterStepsComplete(env, i, j, w, left);
  }

  lemma {:induction false} AfterStepsComplete(env: Env, i: nat, j: nat, w: Walk, left: int)
    requires i < |env.pl.spec.phases| && DistinctPhaseNames(env.pl.spec)
    requires w.Walked? ==>
      && j < |w.status.phases| && PhaseEntry(env, w.status, i) == Some(j)
      && w.status.status == InProgress && w.status.phases[j].status == InProgress
    requires w.Aborted? ==> w.outcome.err.Some?
    requires left >= |env.pl.spec.phases| - i
    ensures PhasesCompleteOk(env, i, left, AfterSteps(env, i, j, w, left))
    decreases |env.pl.spec.phases| - i, 2
  {
    match w
    case Aborted(_) =>
    case Walked(ps', stepsLeft, tr') =>
      if stepsLeft > 0 {
        PhaseStepsLeft(env, i, j, ps', stepsLeft, tr', left);
      } else {
        PhaseStepsDone(env, i, j, ps', tr', left);
      }
  }

  /** Steps are left in phase i: the phase is not Completed, so the pass does not complete. */
  lemma {:induction false} PhaseStepsLeft(env: Env, i: nat, j: nat, ps': PlanStatus, stepsLeft: int, tr': seq<Call>, left: int)
    requires i < |env.pl.spec.phases| && DistinctPhaseNames(env.pl.spec)
    requires j < |ps'.phases| && PhaseEntry(env, ps', i) == Some(j)
    requires ps'.status == InProgress && ps'.phases[j].status == InProgress
    requires stepsLeft > 0 && left >= |env.pl.spec.phases| - i
    ensures PhasesCompleteOk(env, i, left, AfterSteps(env, i, j, Walked(ps', stepsLeft, tr'), left))
    decreases |env.pl.spec.phases| - i, 1
  {
    assert !PhaseStatusIs(env, ps', i, Completed);
    if env.pl.spec.strategy != Serial {
      PhasesCompleteNext(env, i, j, ps', left, left, tr');
    }
  }

  /** No step is left in phase i: the phase is marked Completed and the pass goes on. */
  lemma {:induction false} PhaseStepsDone(env: Env, i: nat, j: nat, ps': PlanStatus, tr': seq<Call>, left: int)
    requires i < |env.pl.spec.phases| && DistinctPhaseNames(env.pl.spec)
    requires j < |ps'.phases| && PhaseEntry(env, ps', i) == Some(j)
    requires ps'.status == InProgress
    requires left >= |env.pl.spec.phases| - i
    ensures PhasesCompleteOk(env, i, left, AfterSteps(env, i, j, Walked(ps', 0, tr'), left))
    decreases |env.pl.spec.phases| - i, 1
  {
    var ps2 := WithPhaseStatus(ps', j, Completed);
    PhaseEntryOfSameShape(env, ps', ps2, i);
    assert PhaseStatusIs(env, ps2, i, Completed);
    PhasesCompleteNext(env, i, j, ps2, left, left - 1, tr');
  }

  /**
   * Step completion: when the names of a phase's steps are distinct, the step
   * loop of the phase, run over the whole phase, reports no step left exactly
   * when every step of the phase has a Completed entry (which is when the
   * engine marks the phase Completed).
   */
  lemma PhaseStepsComplete(env: Env, i: nat, j: nat, ps: PlanStatus, tr: seq<Call>)
    requires i < |env.pl.spec.phases| && DistinctStepNames(env.pl.spec.phases[i])
    requires PhaseEntry(env, ps, i) == Some(j)
    ensures var w := RunSteps(env, i, j, 0, ps, |env.pl.spec.phases[i].steps|, tr);
      w.Walked? ==>
        (w.left == 0 <==> forall s :: 0 <= s < |env.pl.spec.phases[i].steps| ==> StepStatusIs(env, w.status, i, s, Completed))
  {
    var w := RunSteps(env, i, j, 0, ps, |env.pl.spec.phases[i].steps|, tr);
    StepsComplete(env, i, j, 0, ps, |env.pl.spec.phases[i].steps|, tr);
    if w.Walked? {
      StepsDoneFromAll(env, w.status, i, 0);
    }
  }

  /**
   * Plan completion: when the names of the plan's phases are distinct, a pass
   * over a non-terminal plan that returns no error leaves the plan Completed
   * exactly when every phase of the spec has a Completed entry.
   */
  lemma PassCompletes(env: Env)
    requires !IsTerminal(env.pl.status.status) && DistinctPhaseNames(env.pl.spec)
    ensures var out := Pass(env);
      out.err.None? ==>
        (out.status.status == Completed <==>
           forall i :: 0 <= i < |env.pl.spec.phases| ==> PhaseStatusIs(env, out.status, i, Completed))
  {
    PhasesComplete(env, 0, env.pl.status.(status := InProgress), |env.pl.spec.phases|, []);
    PhasesDoneFromAll(env, Pass(env).status, 0);
  }
}
