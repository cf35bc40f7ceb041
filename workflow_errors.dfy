/**
 * What the status tree records when a pass stops with an error: a missing
 * phase status has no entry; a missing step status leaves its phase
 * FatalError; an unknown task name, a task that does not build, or a task
 * that fails fatally leaves its step and its phase FatalError.
 */
module WorkflowErrors {
  import opened Wrappers
  import opened KudoApi
  import opened Workflow
  import opened WorkflowTasks
  import opened WorkflowFacts

  /** The step entry and the phase entry of task position c are FatalError in st. */
  ghost predicate StepFatalAt(env: Env, st: PlanStatus, c: Call)
    requires IsCall(env, c)
  {
    PhaseStatusIs(env, st, c.phase, FatalError) && StepStatusIs(env, st, c.phase, c.step, FatalError)
  }

  /** Error e is what the spec and the status tree st show at e's position. */
  ghost predicate ErrorRecorded(env: Env, st: PlanStatus, e: ExecError) {
    match e
    case MissingPhaseStatus(i) =>
      i < |env.pl.spec.phases| && PhaseEntry(env, st, i).None?
    case MissingStepStatus(i, s) =>
      ValidStep(env.pl.spec, i, s) && PhaseStatusIs(env, st, i, FatalError) && StepEntry(env, st, i, s).None?
    case UnknownTaskName(c) =>
      && IsCall(env, c) && StepFatalAt(env, st, c)
      && TaskNamed(env.pl.tasks, TasksOf(env, c.phase, c.step)[c.task]).None?
    case UnknownTaskKind(c) =>
      && IsCall(env, c) && StepFatalAt(env, st, c)
      && var task := TaskNamed(env.pl.tasks, TasksOf(env, c.phase, c.step)[c.task]);
         task.Some? && !env.builds(task.value)
    case TaskFatal(c) =>
      && IsCall(env, c) && StepFatalAt(env, st, c)
      && Invocable(env, c.phase, c.step, c.task) && ResultAt(env, c.phase, c.step, c.task) == RunFatal
  }

  ghost predicate WalkErrorOk(env: Env, w: Walk) {
    w.Aborted? ==> w.outcome.err.Some? && ErrorRecorded(env, w.outcome.status, w.outcome.err.value)
  }

  ghost predicate ErrorOk(env: Env, out: Outcome) {
    out.err.Some? ==> ErrorRecorded(env, out.status, out.err.value)
  }

  lemma TasksError(env: Env, i: nat, s: nat, j: nat, k: nat, ps: PlanStatus, tr: seq<Call>)
    requires ValidStep(env.pl.spec, i, s)
    requires PhaseEntry(env, ps, i) == Some(j) && StepEntry(env, ps, i, s) == Some(k)
    ensures WalkErrorOk(env, RunTasks(env, i, s, 0, j, k, ps, |TasksOf(env, i, s)|, tr))
  {
    var n := |TasksOf(env, i, s)|;
    RunTasksMatchesReference(env, i, s, 0, j, k, ps, n, tr);
    var stop := FirstStop(env, i, s, 0);
    if stop < n {
      var st := MarkFatal(ps, j, k);
      EntriesOfSameShape(env, ps, st);
      assert st.phases[j].status == FatalError;
    }
  }

  lemma {:induction false} StepsError(env: Env, i: nat, j: nat, s: nat, ps: PlanStatus, left: int, tr: seq<Call>)
    requires i < |env.pl.spec.phases| && s <= |env.pl.spec.phases[i].steps|
    requires PhaseEntry(env, ps, i) == Some(j)
    ensures WalkErrorOk(env, RunSteps(env, i, j, s, ps, left, tr)) == true
    decreases |env.pl.spec.phases[i].steps| - s, 2
  {
    var phase := env.pl.spec.phases[i];
    if s < |phase.steps| {
      match IndexOfName(StepNames(ps.phases[j].steps), phase.steps[s].name)
      case None =>
        var st := WithPhaseStatus(ps, j, FatalError).(status := FatalError);
        EntriesOfSameShape(env, ps, st);
      case Some(k) =>
        var current := ps.phases[j].steps[k].status;
        if IsFinished(current) {
          StepsError(env, i, j, s + 1, ps, left - 1, tr);
        } else if IsInProgress(current) {
          StepVisitError(env, i, j, s, k, ps, left, tr);
        }
    }
  }

  lemma {:induction false} StepVisitError(env: Env, i: nat, j: nat, s: nat, k: nat, ps: PlanStatus, left: int, tr: seq<Call>)
    requires ValidStep(env.pl.spec, i, s) && ValidEntry(ps, j, k)
    requires PhaseEntry(env, ps, i) == Some(j) && StepEntry(env, ps, i, s) == Some(k)
    requires IsInProgress(ps.phases[j].steps[k].status)
    ensures WalkErrorOk(env, RunSteps(env, i, j, s, ps, left, tr)) == true
    decreases |env.pl.spec.phases[i].steps| - s, 1
  {
    var ps1 := WithStepStatus(ps, j, k, InProgress);
    var w := RunTasks(env, i, s, 0, j, k, ps1, |TasksOf(env, i, s)|, tr);
    EntriesOfSameShape(env, ps, ps1);
    TasksError(env, i, s, j, k, ps1, tr);
    EntriesOfSameShape(env, ps1, w.Status());
    RunStepsVisit(env, i, j, s, k, ps, left, tr);
    AfterTasksError(env, i, j, s, k, w, left);
  }

  lemma {:induction false} AfterTasksError(env: Env, i: nat, j: nat, s: nat, k: nat, w: Walk, left: int)
    requires ValidStep(env.pl.spec, i, s)
    requires w.Walked? ==> ValidEntry(w.status, j, k) && PhaseEntry(env, w.status, i) == Some(j)
    requires WalkErrorOk(env, w)
    ensures WalkErrorOk(env, AfterTasks(env, i, j, s, k, w, left)) == true
    decreases |env.pl.spec.phases[i].steps| - s, 0
  {
    match w
    case Aborted(_) =>
    case Walked(ps', tasksLeft, tr') =>
      if tasksLeft > 0 {
        if env.pl.spec.phases[i].strategy != Serial {
          StepsError(env, i, j, s + 1, ps', left, tr');
        }
      } else {
        var ps2 := WithStepStatus(ps', j, k, Completed);
        EntriesOfSameShape(env, ps', ps2);
        StepsError(env, i, j, s + 1, ps2, left - 1, tr');
      }
  }

  lemma {:induction false} PhasesError(env: Env, i: nat, ps: PlanStatus, left: int, tr: seq<Call>)
    requires i <= |env.pl.spec.phases|
    ensures ErrorOk(env, RunPhases(env, i, ps, left, tr)) == true
    decreases |env.pl.spec.phases| - i, 3
  {
    var phases := env.pl.spec.phases;
    if i < |phases| {
      match IndexOfName(PhaseNames(ps.phases), phases[i].name)
      case None =>
        EntriesOfSameShape(env, ps, ps.(status := FatalError));
      case Some(j) =>
        var current := ps.phases[j].status;
        if IsFinished(current) {
          PhasesError(env, i + 1, ps, left - 1, tr);
        } else if IsInProgress(current) {
          PhaseVisitError(env, i, j, ps, left, tr);
        }
    }
  }

  lemma {:induction false} PhaseVisitError(env: Env, i: nat, j: nat, ps: PlanStatus, left: int, tr: seq<Call>)
    requires i < |env.pl.spec.phases| && j < |ps.phases|
    requires PhaseEntry(env, ps, i) == Some(j)
    requires IsInProgress(ps.phases[j].status)
    ensures ErrorOk(env, RunPhases(env, i, ps, left, tr)) == true
    decreases |env.pl.spec.phases| - i, 2
  {
    var ps1 := WithPhaseStatus(ps, j, InProgress);
    var w := RunSteps(env, i, j, 0, ps1, |env.pl.spec.phases[i].steps|, tr);
    EntriesOfSameShape(env, ps, ps1);
    StepsError(env, i, j, 0, ps1, |env.pl.spec.phases[i].steps|, tr);
    RunPhasesVisit(env, i, j, ps, left, tr);
    AfterStepsError(env, i, j, w, left);
  }

  lemma {:induction false} AfterStepsError(env: Env, i: nat, j: nat, w: Walk, left: int)
    requires i < |env.pl.spec.phases|
    requires w.Walked? ==> j < |w.status.phases|
    requires WalkErrorOk(env, w)
    ensures ErrorOk(env, AfterSteps(env, i, j, w, left)) == true
    decreases |env.pl.spec.phases| - i, 1
  {
    match w
    case Aborted(_) =>
    case Walked(ps', stepsLeft, tr') =>
      AfterStepsWalkedError(env, i, j, ps', stepsLeft, tr', left);
  }

  lemma {:induction false} AfterStepsWalkedError(env: Env, i: nat, j: nat, ps': PlanStatus, stepsLeft: int, tr': seq<Call>, left: int)
    requires i < |env.pl.spec.phases| && j < |ps'.phases|
    ensures ErrorOk(env, AfterSteps(env, i, j, Walked(ps', stepsLeft, tr'), left)) == true
    decreases |env.pl.spec.phases| - i, 0
  {
    if stepsLeft > 0 {
      if env.pl.spec.strategy != Serial {
        AfterStepsOn(env, i, j, ps', stepsLeft, tr', left);
        PhasesError(env, i + 1, ps', left, tr');
      }
    } else {
      AfterStepsDone(env, i, j, ps', tr', left);
      PhasesError(env, i + 1, WithPhaseStatus(ps', j, Completed), left - 1, tr');
    }
  }

  /**
   * A pass that returns an error leaves the cause in the status tree: a
   * missing phase status has no entry; a missing step status has none within
   * its phase, whose entry is FatalError; a task that cannot be resolved or
   * built, or that fails fatally, has its step entry and phase entry FatalError.
   */
  lemma PassError(env: Env)
    ensures ErrorOk(env, Pass(env))
  {
    if !IsTerminal(env.pl.status.status) {
      PhasesError(env, 0, env.pl.status.(status := InProgress), |env.pl.spec.phases|, []);
    }
  }
}
