/**
 * Properties of one pass of the engine (Workflow.Pass, which Workflow.Execute
 * computes): how a step treats its tasks' results, the plan-level status and
 * timestamp, the order of the task runs and where an error stops them, and the
 * status entries a fatal condition leaves behind.
 */
module WorkflowProperties {
  import opened Wrappers
  import opened KudoApi
  import opened Workflow
  import opened WorkflowTasks
  import opened WorkflowFacts

  // ---- one step ----

  /**
   * The task loop of a step: it runs every task of the step, in order, unless
   * one stops the pass; a transient result leaves the step Error (and the
   * remaining tasks still run); the counter reaches zero exactly when every
   * task reported done.
   */
  lemma StepRunsAllTasks(env: Env, i: nat, s: nat, j: nat, k: nat, ps: PlanStatus, tr: seq<Call>)
    requires ValidStep(env.pl.spec, i, s) && ValidEntry(ps, j, k)
    ensures var n := |TasksOf(env, i, s)|;
      var w := RunTasks(env, i, s, 0, j, k, ps, n, tr);
      && (w.Walked? <==> forall t :: 0 <= t < n ==> !Stops(env, i, s, t))
      && (w.Walked? ==> w.trace == tr + StepCalls(i, s, 0, n))
      && (w.Walked? ==> (w.left == 0 <==> forall t :: 0 <= t < n ==> ResultAt(env, i, s, t) == RunDone))
      && (w.Walked? ==> w.status.phases[j].steps[k].status ==
                          if exists t :: 0 <= t < n && ResultAt(env, i, s, t) == RunTransient then Error
                          else ps.phases[j].steps[k].status)
  {
    var n := |TasksOf(env, i, s)|;
    RunTasksMatchesReference(env, i, s, 0, j, k, ps, n, tr);
    CountDoneAll(env, i, s, 0, n);
  }

  // ---- plan status, error and timestamp ----

  ghost predicate StatusAfterPass(env: Env, ps: PlanStatus, out: Outcome) {
    && (out.err.Some? <==> out.status.status == FatalError)
    && (out.status.status == InProgress || out.status.status == Completed || out.status.status == FatalError)
    && (out.status.status == Completed ==> out.status.lastFinishedRun == env.now)
    && (out.status.status != Completed ==> out.status.lastFinishedRun == ps.lastFinishedRun)
  }

  lemma {:induction false} PhasesStatus(env: Env, i: nat, ps: PlanStatus, left: int, tr: seq<Call>)
    requires i <= |env.pl.spec.phases| && ps.status == InProgress
    ensures StatusAfterPass(env, ps, RunPhases(env, i, ps, left, tr)) == true
    decreases |env.pl.spec.phases| - i, 2
  {
    var phases := env.pl.spec.phases;
    if i < |phases| {
      var phase := phases[i];
      match IndexOfName(PhaseNames(ps.phases), phase.name)
      case None =>
      case Some(j) =>
        var current := ps.phases[j].status;
        if IsFinished(current) {
          PhasesStatus(env, i + 1, ps, left - 1, tr);
        } else if IsInProgress(current) {
          PhaseVisitStatus(env, i, j, ps, left, tr);
        }
    }
  }

  lemma {:induction false} PhaseVisitStatus(env: Env, i: nat, j: nat, ps: PlanStatus, left: int, tr: seq<Call>)
    requires i < |env.pl.spec.phases| && j < |ps.phases| && ps.status == InProgress
    requires IndexOfName(PhaseNames(ps.phases), env.pl.spec.phases[i].name) == Some(j)
    requires IsInProgress(ps.phases[j].status)
    ensures StatusAfterPass(env, ps, RunPhases(env, i, ps, left, tr)) == true
    decreases |env.pl.spec.phases| - i, 1
  {
    var ps1 := WithPhaseStatus(ps, j, InProgress);
    var w := RunSteps(env, i, j, 0, ps1, |env.pl.spec.phases[i].steps|, tr);
    StepsPlanFields(env, i, j, 0, ps1, |env.pl.spec.phases[i].steps|, tr);
    RunPhasesVisit(env, i, j, ps, left, tr);
    AfterStepsStatus(env, i, j, ps, w, left);
  }

  lemma {:induction false} AfterStepsStatus(env: Env, i: nat, j: nat, ps: PlanStatus, w: Walk, left: int)
    requires i < |env.pl.spec.phases| && j < |ps.phases| && ps.status == InProgress
    requires w.Walked? ==> j < |w.status.phases|
    requires w.Status().lastFinishedRun == ps.lastFinishedRun
    requires w.Walked? ==> w.status.status == InProgress
    requires w.Aborted? ==> w.outcome.status.status == FatalError && w.outcome.err.Some?
    ensures StatusAfterPass(env, ps, AfterSteps(env, i, j, w, left)) == true
    decreases |env.pl.spec.phases| - i, 0
  {
    match w
    case Aborted(out) =>
    case Walked(ps', stepsLeft, tr') =>
      if stepsLeft > 0 {
        if env.pl.spec.strategy != Serial {
          PhasesStatus(env, i + 1, ps', left, tr');
        }
      } else {
        PhasesStatus(env, i + 1, WithPhaseStatus(ps', j, Completed), left - 1, tr');
      }
  }

  /**
   * After a pass over a plan that was not terminal, the plan is FatalError
   * exactly when an error is returned; otherwise it is InProgress or Completed,
   * and only a Completed plan gets the current time as its last finished run.
   */
  lemma PassStatus(env: Env)
    requires !IsTerminal(env.pl.status.status)
    ensures var out := Pass(env);
      && (out.err.Some? <==> out.status.status == FatalError)
      && (out.status.status == InProgress || out.status.status == Completed || out.status.status == FatalError)
      && (out.status.status == Completed ==> out.status.lastFinishedRun == env.now)
      && (out.status.status != Completed ==> out.status.lastFinishedRun == env.pl.status.lastFinishedRun)
  {
    PhasesStatus(env, 0, env.pl.status.(status := InProgress), |env.pl.spec.phases|, []);
  }
}
