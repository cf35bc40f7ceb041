/**
 * The order of the task runs of one pass: tasks run in the order of the plan
 * spec (phase, then step, then task), only tasks that resolve, build and do not
 * fail fatally let the pass go on, and an error stops the pass at its position,
 * with the fatally failing task, if any, as the last run.
 */
module WorkflowTrace {
  import opened Wrappers
  import opened KudoApi
  import opened Workflow
  import opened WorkflowTasks
  import opened WorkflowFacts

  /** Call a comes before call b in the order of the plan spec. */
  predicate Before(a: Call, b: Call) {
    a.phase < b.phase || (a.phase == b.phase && (a.step < b.step || (a.step == b.step && a.task < b.task)))
  }

  ghost predicate AllBefore(tr: seq<Call>, c: Call) {
    forall x :: 0 <= x < |tr| ==> Before(tr[x], c)
  }

  ghost predicate Increasing(tr: seq<Call>) {
    forall x, y :: 0 <= x < y < |tr| ==> Before(tr[x], tr[y])
  }

  /** A run after which the pass went on: the task resolved, built, and did not fail fatally. */
  ghost predicate RanOn(env: Env, c: Call) {
    IsCall(env, c) && !Stops(env, c.phase, c.step, c.task)
  }

  ghost predicate RunsInOrder(env: Env, tr: seq<Call>) {
    Increasing(tr) && forall x :: 0 <= x < |tr| ==> RanOn(env, tr[x])
  }

  /**
   * The runs of a pass that ended with error e: all before e's position, and a
   * task that failed fatally is the last run.
   */
  ghost predicate EndsAt(env: Env, tr: seq<Call>, e: ExecError) {
    if e.TaskFatal? then
      && |tr| > 0 && tr[|tr| - 1] == e.at
      && RunsInOrder(env, tr[..|tr| - 1]) && AllBefore(tr[..|tr| - 1], e.at)
    else RunsInOrder(env, tr) && AllBefore(tr, e.Location())
  }

  ghost predicate TraceOk(env: Env, out: Outcome) {
    if out.err.None? then RunsInOrder(env, out.trace) else EndsAt(env, out.trace, out.err.value)
  }

  ghost predicate WalkTraceOk(env: Env, i: nat, w: Walk) {
    if w.Walked? then RunsInOrder(env, w.trace) && AllBefore(w.trace, Call(i + 1, 0, 0))
    else w.outcome.err.Some? && EndsAt(env, w.outcome.trace, w.outcome.err.value)
  }

  lemma AllBeforeLater(tr: seq<Call>, c: Call, d: Call)
    requires AllBefore(tr, c) && (c == d || Before(c, d))
    ensures AllBefore(tr, d)
  {
    forall x | 0 <= x < |tr|
      ensures Before(tr[x], d)
    {
    }
  }

  /** Appending the first `stop` tasks of step s, none of which stops the pass, keeps the runs in order. */
  lemma RunsThrough(env: Env, tr: seq<Call>, i: nat, s: nat, stop: nat)
    requires ValidStep(env.pl.spec, i, s) && stop <= |TasksOf(env, i, s)|
    requires RunsInOrder(env, tr) && AllBefore(tr, Call(i, s, 0))
    requires forall t :: 0 <= t < stop ==> !Stops(env, i, s, t)
    ensures RunsInOrder(env, tr + StepCalls(i, s, 0, stop))
    ensures AllBefore(tr + StepCalls(i, s, 0, stop), Call(i, s, stop))
  {
    var cs := StepCalls(i, s, 0, stop);
    var tr2 := tr + cs;
    forall x, y | 0 <= x < y < |tr2|
      ensures Before(tr2[x], tr2[y])
    {
      if y >= |tr| {
        assert tr2[y] == cs[y - |tr|];
        if x >= |tr| {
          assert tr2[x] == cs[x - |tr|];
        }
      }
    }
    forall x | 0 <= x < |tr2|
      ensures RanOn(env, tr2[x]) && Before(tr2[x], Call(i, s, stop))
    {
      if x >= |tr| {
        assert tr2[x] == cs[x - |tr|];
      }
    }
  }

  /** What the task loop of step s leaves in the trace: runs in order, ending before the next step or at the error. */
  ghost predicate TasksTraceOk(env: Env, i: nat, s: nat, w: Walk) {
    && (w.Walked? ==> RunsInOrder(env, w.trace) && AllBefore(w.trace, Call(i, s + 1, 0)))
    && (w.Aborted? ==> w.outcome.err.Some? && EndsAt(env, w.outcome.trace, w.outcome.err.value))
  }

  lemma ReferenceTrace(env: Env, i: nat, s: nat, j: nat, k: nat, ps: PlanStatus, left: int, tr: seq<Call>)
    requires ValidStep(env.pl.spec, i, s) && ValidEntry(ps, j, k)
    requires RunsInOrder(env, tr) && AllBefore(tr, Call(i, s, 0))
    ensures TasksTraceOk(env, i, s, TasksReference(env, i, s, 0, j, k, ps, left, tr))
  {
    var n := |TasksOf(env, i, s)|;
    var stop := FirstStop(env, i, s, 0);
    var ran := tr + StepCalls(i, s, 0, stop);
    RunsThrough(env, tr, i, s, stop);
    if stop == n {
      AllBeforeLater(ran, Call(i, s, stop), Call(i, s + 1, 0));
    } else if StopError(env, i, s, stop).TaskFatal? {
      assert (ran + [Call(i, s, stop)])[..|ran|] == ran;
    }
  }

  /** The task loop of step s keeps the runs in order and ends them before the next step, or at its error. */
  lemma TasksTrace(env: Env, i: nat, s: nat, j: nat, k: nat, ps: PlanStatus, tr: seq<Call>)
    requires ValidStep(env.pl.spec, i, s) && ValidEntry(ps, j, k)
    requires RunsInOrder(env, tr) && AllBefore(tr, Call(i, s, 0))
    ensures TasksTraceOk(env, i, s, RunTasks(env, i, s, 0, j, k, ps, |TasksOf(env, i, s)|, tr)) == true
  {
    var n := |TasksOf(env, i, s)|;
    RunTasksMatchesReference(env, i, s, 0, j, k, ps, n, tr);
    ReferenceTrace(env, i, s, j, k, ps, n, tr);
  }

  lemma {:induction false} StepsTrace(env: Env, i: nat, j: nat, s: nat, ps: PlanStatus, left: int, tr: seq<Call>)
    requires i < |env.pl.spec.phases| && s <= |env.pl.spec.phases[i].steps| && j < |ps.phases|
    requires RunsInOrder(env, tr) && AllBefore(tr, Call(i, s, 0))
    ensures WalkTraceOk(env, i, RunSteps(env, i, j, s, ps, left, tr)) == true
    decreases |env.pl.spec.phases[i].steps| - s, 2
  {
    var phase := env.pl.spec.phases[i];
    if s == |phase.steps| {
      AllBeforeLater(tr, Call(i, s, 0), Call(i + 1, 0, 0));
    } else {
      match IndexOfName(StepNames(ps.phases[j].steps), phase.steps[s].name)
      case None =>
      case Some(k) =>
        var current := ps.phases[j].steps[k].status;
        if IsFinished(current) {
          AllBeforeLater(tr, Call(i, s, 0), Call(i, s + 1, 0));
          StepsTrace(env, i, j, s + 1, ps, left - 1, tr);
        } else if !IsInProgress(current) {
          AllBeforeLater(tr, Call(i, s, 0), Call(i + 1, 0, 0));
        } else {
          StepVisitTrace(env, i, j, s, k, ps, left, tr);
        }
    }
  }

  lemma {:induction false} StepVisitTrace(env: Env, i: nat, j: nat, s: nat, k: nat, ps: PlanStatus, left: int, tr: seq<Call>)
    requires ValidStep(env.pl.spec, i, s) && ValidEntry(ps, j, k)
    requires IndexOfName(StepNames(ps.phases[j].steps), env.pl.spec.phases[i].steps[s].name) == Some(k)
    requires IsInProgress(ps.phases[j].steps[k].status)
    requires RunsInOrder(env, tr) && AllBefore(tr, Call(i, s, 0))
    ensures WalkTraceOk(env, i, RunSteps(env, i, j, s, ps, left, tr)) == true
    decreases |env.pl.spec.phases[i].steps| - s, 1
  {
    var ps1 := WithStepStatus(ps, j, k, InProgress);
    var w := RunTasks(env, i, s, 0, j, k, ps1, |TasksOf(env, i, s)|, tr);
    TasksTrace(env, i, s, j, k, ps1, tr);
    RunStepsVisit(env, i, j, s, k, ps, left, tr);
    AfterTasksTrace(env, i, j, s, k, w, left);
  }

  lemma {:induction false} AfterTasksTrace(env: Env, i: nat, j: nat, s: nat, k: nat, w: Walk, left: int)
    requires ValidStep(env.pl.spec, i, s)
    requires w.Walked? ==> ValidEntry(w.status, j, k) && RunsInOrder(env, w.trace) && AllBefore(w.trace, Call(i, s + 1, 0))
    requires w.Aborted? ==> w.outcome.err.Some? && EndsAt(env, w.outcome.trace, w.outcome.err.value)
    ensures WalkTraceOk(env, i, AfterTasks(env, i, j, s, k, w, left)) == true
    decreases |env.pl.spec.phases[i].steps| - s, 0
  {
    match w
    case Aborted(_) =>
    case Walked(ps', tasksLeft, tr') =>
      if tasksLeft > 0 && env.pl.spec.phases[i].strategy == Serial {
        AllBeforeLater(tr', Call(i, s + 1, 0), Call(i + 1, 0, 0));
      } else if tasksLeft > 0 {
        StepsTrace(env, i, j, s + 1, ps', left, tr');
      } else {
        StepsTrace(env, i, j, s + 1, WithStepStatus(ps', j, k, Completed), left - 1, tr');
      }
  }

  lemma {:induction false} PhasesTrace(env: Env, i: nat, ps: PlanStatus, left: int, tr: seq<Call>)
    requires i <= |env.pl.spec.phases|
    requires RunsInOrder(env, tr) && AllBefore(tr, Call(i, 0, 0))
    ensures TraceOk(env, RunPhases(env, i, ps, left, tr)) == true
    decreases |env.pl.spec.phases| - i, 2
  {
    var phases := env.pl.spec.phases;
    if i < |phases| {
      match IndexOfName(PhaseNames(ps.phases), phases[i].name)
      case None =>
      case Some(j) =>
        var current := ps.phases[j].status;
        if IsFinished(current) {
          AllBeforeLater(tr, Call(i, 0, 0), Call(i + 1, 0, 0));
          PhasesTrace(env, i + 1, ps, left - 1, tr);
        } else if IsInProgress(current) {
          PhaseVisitTrace(env, i, j, ps, left, tr);
        }
    }
  }

  lemma {:induction false} PhaseVisitTrace(env: Env, i: nat, j: nat, ps: PlanStatus, left: int, tr: seq<Call>)
    requires i < |env.pl.spec.phases| && j < |ps.phases|
    requires IndexOfName(PhaseNames(ps.phases), env.pl.spec.phases[i].name) == Some(j)
    requires IsInProgress(ps.phases[j].status)
    requires RunsInOrder(env, tr) && AllBefore(tr, Call(i, 0, 0))
    ensures TraceOk(env, RunPhases(env, i, ps, left, tr)) == true
    decreases |env.pl.spec.phases| - i, 1
  {
    var ps1 := WithPhaseStatus(ps, j, InProgress);
    var w := RunSteps(env, i, j, 0, ps1, |env.pl.spec.phases[i].steps|, tr);
    StepsTrace(env, i, j, 0, ps1, |env.pl.spec.phases[i].steps|, tr);
    RunPhasesVisit(env, i, j, ps, left, tr);
    AfterStepsTrace(env, i, j, w, left);
  }

  lemma {:induction false} AfterStepsTrace(env: Env, i: nat, j: nat, w: Walk, left: int)
    requires i < |env.pl.spec.phases|
    requires w.Walked? ==> j < |w.status.phases|
    requires WalkTraceOk(env, i, w)
    ensures TraceOk(env, AfterSteps(env, i, j, w, left)) == true
    decreases |env.pl.spec.phases| - i, 0
  {
    match w
    case Aborted(_) =>
    case Walked(ps', stepsLeft, tr') =>
      if stepsLeft > 0 {
        if env.pl.spec.strategy != Serial {
          PhasesTrace(env, i + 1, ps', left, tr');
        }
      } else {
        PhasesTrace(env, i + 1, WithPhaseStatus(ps', j, Completed), left - 1, tr');
      }
  }

  /**
   * The task runs of a pass: in the order of the plan spec, each of a task that
   * resolved, built and did not fail fatally; a pass that returns an error made
   * no run at or after the error's position, except the fatally failing task
   * itself, which is the last run.
   */
  lemma PassTrace(env: Env)
    ensures TraceOk(env, Pass(env))
  {
    if !IsTerminal(env.pl.status.status) {
      PhasesTrace(env, 0, env.pl.status.(status := InProgress), |env.pl.spec.phases|, []);
    }
  }
}
