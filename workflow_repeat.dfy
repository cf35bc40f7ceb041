/**
 * A second pass over the status tree a pass left behind changes nothing.
 * When the plan's phase names, and the step names of each phase, are
 * distinct, the second pass revisits exactly what the first left unfinished
 * and every task reports what it reported before, so every entry ends as it
 * was and no error is returned. With a repeated name two spec positions share
 * one status entry and a later pass can see the entry the first one completed.
 */
module WorkflowRepeat {
  import opened Wrappers
  import opened KudoApi
  import opened Workflow
  import opened WorkflowTasks
  import opened WorkflowFacts
  import opened WorkflowProperties
  import opened WorkflowCompletion

  /** The environment of a later pass: the same plan, catalogue and oracles, with another stored status. */
  ghost function WithStored(env: Env, st: PlanStatus): (r: Env)
    ensures r.pl.spec == env.pl.spec && r.pl.status == st
  {
    env.(pl := env.pl.(status := st))
  }

  // ---- the walk reads only the status tree it is given, not the stored one ----

  /** The environments differ only in the stored status, which the walk never reads. */
  lemma StoredOnly(env: Env, st: PlanStatus)
    ensures var env2 := WithStored(env, st);
      && env2.pl.spec == env.pl.spec && env2.pl.tasks == env.pl.tasks && env2.pl.name == env.pl.name
      && env2.em == env.em && env2.builds == env.builds && env2.run == env.run && env2.now == env.now
  {
  }

  lemma {:induction false} TasksIgnoreStored(env: Env, st: PlanStatus, i: nat, s: nat, t: nat, j: nat, k: nat, ps: PlanStatus, left: int, tr: seq<Call>)
    requires ValidStep(env.pl.spec, i, s) && t <= |TasksOf(env, i, s)| && ValidEntry(ps, j, k)
    ensures RunTasks(WithStored(env, st), i, s, t, j, k, ps, left, tr) == RunTasks(env, i, s, t, j, k, ps, left, tr)
    decreases |TasksOf(env, i, s)| - t, 1
  {
    StoredOnly(env, st);
    if t < |TasksOf(env, i, s)| {
      var found := TaskNamed(env.pl.tasks, TasksOf(env, i, s)[t]);
      if found.Some? && env.builds(found.value) {
        TaskRunIgnoreStored(env, st, i, s, t, j, k, ps, left, tr);
      }
    }
  }

  /** A task that resolves and builds runs with the same metadata in both environments. */
  lemma {:induction false} TaskRunIgnoreStored(env: Env, st: PlanStatus, i: nat, s: nat, t: nat, j: nat, k: nat, ps: PlanStatus, left: int, tr: seq<Call>)
    requires ValidStep(env.pl.spec, i, s) && t < |TasksOf(env, i, s)| && ValidEntry(ps, j, k)
    requires TaskNamed(env.pl.tasks, TasksOf(env, i, s)[t]).Some?
    requires env.builds(TaskNamed(env.pl.tasks, TasksOf(env, i, s)[t]).value)
    ensures RunTasks(WithStored(env, st), i, s, t, j, k, ps, left, tr) == RunTasks(env, i, s, t, j, k, ps, left, tr)
    decreases |TasksOf(env, i, s)| - t, 0
  {
    StoredOnly(env, st);
    var meta := MetaAt(env, i, s, t);
    assert MetaAt(WithStored(env, st), i, s, t) == meta;
    var r := env.run(meta);
    if r != RunFatal {
      var ps' := if r == RunTransient then WithStepStatus(ps, j, k, Error) else ps;
      var left' := if r == RunDone then left - 1 else left;
      TasksIgnoreStored(env, st, i, s, t + 1, j, k, ps', left', tr + [Call(i, s, t)]);
    }
  }

  lemma {:induction false} StepsIgnoreStored(env: Env, st: PlanStatus, i: nat, j: nat, s: nat, ps: PlanStatus, left: int, tr: seq<Call>)
    requires i < |env.pl.spec.phases| && s <= |env.pl.spec.phases[i].steps| && j < |ps.phases|
    ensures RunSteps(WithStored(env, st), i, j, s, ps, left, tr) == RunSteps(env, i, j, s, ps, left, tr)
    decreases |env.pl.spec.phases[i].steps| - s, 2
  {
    StoredOnly(env, st);
    var phase := env.pl.spec.phases[i];
    if s < |phase.steps| {
      match IndexOfName(StepNames(ps.phases[j].steps), phase.steps[s].name)
      case None =>
      case Some(k) =>
        if IsFinished(ps.phases[j].steps[k].status) {
          StepSkipIgnoreStored(env, st, i, j, s, k, ps, left, tr);
        } else if IsInProgress(ps.phases[j].steps[k].status) {
          StepVisitIgnoreStored(env, st, i, j, s, k, ps, left, tr);
        }
    }
  }

  lemma {:induction false} StepSkipIgnoreStored(env: Env, st: PlanStatus, i: nat, j: nat, s: nat, k: nat, ps: PlanStatus, left: int, tr: seq<Call>)
    requires i < |env.pl.spec.phases| && s < |env.pl.spec.phases[i].steps| && ValidEntry(ps, j, k)
    requires IndexOfName(StepNames(ps.phases[j].steps), env.pl.spec.phases[i].steps[s].name) == Some(k)
    requires IsFinished(ps.phases[j].steps[k].status)
    ensures RunSteps(WithStored(env, st), i, j, s, ps, left, tr) == RunSteps(env, i, j, s, ps, left, tr)
    decreases |env.pl.spec.phases[i].steps| - s, 1
  {
    StoredOnly(env, st);
    assert RunSteps(env, i, j, s, ps, left, tr) == RunSteps(env, i, j, s + 1, ps, left - 1, tr);
    StepsIgnoreStored(env, st, i, j, s + 1, ps, left - 1, tr);
  }

  lemma {:induction false} StepVisitIgnoreStored(env: Env, st: PlanStatus, i: nat, j: nat, s: nat, k: nat, ps: PlanStatus, left: int, tr: seq<Call>)
    requires i < |env.pl.spec.phases| && s < |env.pl.spec.phases[i].steps| && ValidEntry(ps, j, k)
    requires IndexOfName(StepNames(ps.phases[j].steps), env.pl.spec.phases[i].steps[s].name) == Some(k)
    requires IsInProgress(ps.phases[j].steps[k].status)
    ensures RunSteps(WithStored(env, st), i, j, s, ps, left, tr) == RunSteps(env, i, j, s, ps, left, tr)
    decreases |env.pl.spec.phases[i].steps| - s, 1
  {
    StoredOnly(env, st);
    var ps1 := WithStepStatus(ps, j, k, InProgress);
    var n := |TasksOf(env, i, s)|;
    TasksIgnoreStored(env, st, i, s, 0, j, k, ps1, n, tr);
    RunStepsVisit(env, i, j, s, k, ps, left, tr);
    RunStepsVisit(WithStored(env, st), i, j, s, k, ps, left, tr);
    AfterTasksIgnoreStored(env, st, i, j, s, k, RunTasks(env, i, s, 0, j, k, ps1, n, tr), left);
  }

  lemma {:induction false} AfterTasksIgnoreStored(env: Env, st: PlanStatus, i: nat, j: nat, s: nat, k: nat, w: Walk, left: int)
    requires i < |env.pl.spec.phases| && s < |env.pl.spec.phases[i].steps|
    requires w.Walked? ==> ValidEntry(w.status, j, k)
    ensures AfterTasks(WithStored(env, st), i, j, s, k, w, left) == AfterTasks(env, i, j, s, k, w, left)
    decreases |env.pl.spec.phases[i].steps| - s, 0
  {
    StoredOnly(env, st);
    match w
    case Aborted(_) =>
    case Walked(ps', tasksLeft, tr') =>
      if tasksLeft > 0 {
        if env.pl.spec.phases[i].strategy != Serial {
          StepsIgnoreStored(env, st, i, j, s + 1, ps', left, tr');
        }
      } else {
        StepsIgnoreStored(env, st, i, j, s + 1, WithStepStatus(ps', j, k, Completed), left - 1, tr');
      }
  }

  lemma {:induction false} PhasesIgnoreStored(env: Env, st: PlanStatus, i: nat, ps: PlanStatus, left: int, tr: seq<Call>)
    requires i <= |env.pl.spec.phases|
    ensures RunPhases(WithStored(env, st), i, ps, left, tr) == RunPhases(env, i, ps, left, tr)
    decreases |env.pl.spec.phases| - i, 2
  {
    StoredOnly(env, st);
    var phases := env.pl.spec.phases;
    if i < |phases| {
      match IndexOfName(PhaseNames(ps.phases), phases[i].name)
      case None =>
      case Some(j) =>
        if IsFinished(ps.phases[j].status) {
          PhaseSkipIgnoreStored(env, st, i, j, ps, left, tr);
        } else if IsInProgress(ps.phases[j].status) {
          PhaseVisitIgnoreStored(env, st, i, j, ps, left, tr);
        }
    }
  }

  lemma {:induction false} PhaseSkipIgnoreStored(env: Env, st: PlanStatus, i: nat, j: nat, ps: PlanStatus, left: int, tr: seq<Call>)
    requires i < |env.pl.spec.phases| && j < |ps.phases|
    requires IndexOfName(PhaseNames(ps.phases), env.pl.spec.phases[i].name) == Some(j)
    requires IsFinished(ps.phases[j].status)
    ensures RunPhases(WithStored(env, st), i, ps, left, tr) == RunPhases(env, i, ps, left, tr)
    decreases |env.pl.spec.phases| - i, 1
  {
    StoredOnly(env, st);
    assert RunPhases(env, i, ps, left, tr) == RunPhases(env, i + 1, ps, left - 1, tr);
    PhasesIgnoreStored(env, st, i + 1, ps, left - 1, tr);
  }

  lemma {:induction false} PhaseVisitIgnoreStored(env: Env, st: PlanStatus, i: nat, j: nat, ps: PlanStatus, left: int, tr: seq<Call>)
    requires i < |env.pl.spec.phases| && j < |ps.phases|
    requires IndexOfName(PhaseNames(ps.phases), env.pl.spec.phases[i].name) == Some(j)
    requires IsInProgress(ps.phases[j].status)
    ensures RunPhases(WithStored(env, st), i, ps, left, tr) == RunPhases(env, i, ps, left, tr)
    decreases |env.pl.spec.phases| - i, 1
  {
    StoredOnly(env, st);
    var ps1 := WithPhaseStatus(ps, j, InProgress);
    var m := |env.pl.spec.phases[i].steps|;
    StepsIgnoreStored(env, st, i, j, 0, ps1, m, tr);
    RunPhasesVisit(env, i, j, ps, left, tr);
    RunPhasesVisit(WithStored(env, st), i, j, ps, left, tr);
    AfterStepsIgnoreStored(env, st, i, j, RunSteps(env, i, j, 0, ps1, m, tr), left);
  }

  lemma {:induction false} AfterStepsIgnoreStored(env: Env, st: PlanStatus, i: nat, j: nat, w: Walk, left: int)
    requires i < |env.pl.spec.phases|
    requires w.Walked? ==> j < |w.status.phases|
    ensures AfterSteps(WithStored(env, st), i, j, w, left) == AfterSteps(env, i, j, w, left)
    decreases |env.pl.spec.phases| - i, 0
  {
    StoredOnly(env, st);
    match w
    case Aborted(_) =>
    case Walked(ps', stepsLeft, tr') =>
      if stepsLeft > 0 {
        if env.pl.spec.strategy != Serial {
          PhasesIgnoreStored(env, st, i + 1, ps', left, tr');
        }
      } else {
        PhasesIgnoreStored(env, st, i + 1, WithPhaseStatus(ps', j, Completed), left - 1, tr');
      }
  }

  // ---- writing an entry's own status back changes nothing ----

  lemma WithStepStatusSame(ps: PlanStatus, j: nat, k: nat, x: ExecutionStatus)
    requires ValidEntry(ps, j, k) && ps.phases[j].steps[k].status == x
    ensures WithStepStatus(ps, j, k, x) == ps
  {
    assert ps.phases[j].steps[k := ps.phases[j].steps[k].(status := x)] == ps.phases[j].steps;
    assert ps.phases[j := ps.phases[j].(steps := ps.phases[j].steps)] == ps.phases;
  }

  lemma WithPhaseStatusSame(ps: PlanStatus, j: nat, x: ExecutionStatus)
    requires j < |ps.phases| && ps.phases[j].status == x
    ensures WithPhaseStatus(ps, j, x) == ps
  {
    assert ps.phases[j := ps.phases[j].(status := x)] == ps.phases;
  }

  // ---- the second pass repeats the first ----

  /**
   * A step's task loop started from two trees whose entry (j, k) is InProgress:
   * whether it walks, and the tasks left, do not depend on the tree, and the
   * second tree gets the status the first one's entry got.
   */
  lemma TasksReplay(env: Env, i: nat, s: nat, j: nat, k: nat, a: PlanStatus, b: PlanStatus, tr: seq<Call>, trB: seq<Call>)
    requires ValidStep(env.pl.spec, i, s) && ValidEntry(a, j, k) && ValidEntry(b, j, k)
    requires a.phases[j].steps[k].status == InProgress && b.phases[j].steps[k].status == InProgress
    ensures var n := |TasksOf(env, i, s)|;
      var wa := RunTasks(env, i, s, 0, j, k, a, n, tr);
      var wb := RunTasks(env, i, s, 0, j, k, b, n, trB);
      wa.Walked? ==>
        && ValidEntry(wa.status, j, k) && wb.Walked? && wb.left == wa.left
        && wb.status == WithStepStatus(b, j, k, wa.status.phases[j].steps[k].status)
  {
    var n := |TasksOf(env, i, s)|;
    RunTasksMatchesReference(env, i, s, 0, j, k, a, n, tr);
    RunTasksMatchesReference(env, i, s, 0, j, k, b, n, trB);
    WithStepStatusSame(b, j, k, InProgress);
  }

  /**
   * The second walk of a phase's steps, over the tree b the first walk wa
   * leaves for the phase, walks too, keeps b, and reports the same steps left.
   */
  ghost predicate StepsReplayOk(j: nat, b: PlanStatus, wa: Walk, wb: Walk)
    requires j < |b.phases|
  {
    wa.Walked? && j < |wa.status.phases| && b.phases[j] == wa.status.phases[j] ==>
      wb.Walked? && wb.status == b && wb.left == wa.left
  }

  lemma {:induction false} StepsReplay(env: Env, i: nat, j: nat, s: nat, a: PlanStatus, left: int, tr: seq<Call>, b: PlanStatus, trB: seq<Call>)
    requires i < |env.pl.spec.phases| && s <= |env.pl.spec.phases[i].steps|
    requires j < |a.phases| && j < |b.phases| && DistinctStepNames(env.pl.spec.phases[i])
    ensures StepsReplayOk(j, b, RunSteps(env, i, j, s, a, left, tr), RunSteps(env, i, j, s, b, left, trB)) == true
    decreases |env.pl.spec.phases[i].steps| - s, 2
  {
    var phase := env.pl.spec.phases[i];
    if s < |phase.steps| {
      match IndexOfName(StepNames(a.phases[j].steps), phase.steps[s].name)
      case None =>
      case Some(k) =>
        if IsFinished(a.phases[j].steps[k].status) {
          StepSkipReplay(env, i, j, s, k, a, left, tr, b, trB);
        } else if IsInProgress(a.phases[j].steps[k].status) {
          StepVisitReplay(env, i, j, s, k, a, left, tr, b, trB);
        } else {
          StepStopReplay(env, i, j, s, k, a, left, tr, b, trB);
        }
    }
  }

  /** A Completed step is skipped by both walks: the frame keeps its entry in b. */
  lemma {:induction false} StepSkipReplay(env: Env, i: nat, j: nat, s: nat, k: nat, a: PlanStatus, left: int, tr: seq<Call>, b: PlanStatus, trB: seq<Call>)
    requires i < |env.pl.spec.phases| && s < |env.pl.spec.phases[i].steps|
    requires ValidEntry(a, j, k) && j < |b.phases| && DistinctStepNames(env.pl.spec.phases[i])
    requires IndexOfName(StepNames(a.phases[j].steps), env.pl.spec.phases[i].steps[s].name) == Some(k)
    requires IsFinished(a.phases[j].steps[k].status)
    ensures StepsReplayOk(j, b, RunSteps(env, i, j, s, a, left, tr), RunSteps(env, i, j, s, b, left, trB)) == true
    decreases |env.pl.spec.phases[i].steps| - s, 1
  {
    var wa := RunSteps(env, i, j, s, a, left, tr);
    assert wa == RunSteps(env, i, j, s + 1, a, left - 1, tr);
    StepsReplay(env, i, j, s + 1, a, left - 1, tr, b, trB);
    if wa.Walked? && j < |wa.status.phases| && b.phases[j] == wa.status.phases[j] {
      assert StepNames(b.phases[j].steps) == StepNames(a.phases[j].steps);
      StepsFrame(env, i, j, s + 1, a, left - 1, tr);
      assert NotLaterStep(env, i, a.phases[j].steps[k].name, s + 1);
      assert RunSteps(env, i, j, s, b, left, trB) == RunSteps(env, i, j, s + 1, b, left - 1, trB);
    }
  }

  /** A FatalError step stops both walks, which leave the trees as they are. */
  lemma StepStopReplay(env: Env, i: nat, j: nat, s: nat, k: nat, a: PlanStatus, left: int, tr: seq<Call>, b: PlanStatus, trB: seq<Call>)
    requires i < |env.pl.spec.phases| && s < |env.pl.spec.phases[i].steps|
    requires ValidEntry(a, j, k) && j < |b.phases|
    requires IndexOfName(StepNames(a.phases[j].steps), env.pl.spec.phases[i].steps[s].name) == Some(k)
    requires !IsFinished(a.phases[j].steps[k].status) && !IsInProgress(a.phases[j].steps[k].status)
    ensures StepsReplayOk(j, b, RunSteps(env, i, j, s, a, left, tr), RunSteps(env, i, j, s, b, left, trB)) == true
  {
    var wa := RunSteps(env, i, j, s, a, left, tr);
    assert wa == Walked(a, left, tr);
    if b.phases[j] == a.phases[j] {
      assert RunSteps(env, i, j, s, b, left, trB) == Walked(b, left, trB);
    }
  }

  /** An eligible step: both walks run its tasks, and what follows is replayed. */
  lemma {:induction false} StepVisitReplay(env: Env, i: nat, j: nat, s: nat, k: nat, a: PlanStatus, left: int, tr: seq<Call>, b: PlanStatus, trB: seq<Call>)
    requires i < |env.pl.spec.phases| && s < |env.pl.spec.phases[i].steps|
    requires ValidEntry(a, j, k) && j < |b.phases| && DistinctStepNames(env.pl.spec.phases[i])
    requires IndexOfName(StepNames(a.phases[j].steps), env.pl.spec.phases[i].steps[s].name) == Some(k)
    requires IsInProgress(a.phases[j].steps[k].status)
    ensures StepsReplayOk(j, b, RunSteps(env, i, j, s, a, left, tr), RunSteps(env, i, j, s, b, left, trB)) == true
    decreases |env.pl.spec.phases[i].steps| - s, 1
  {
    var a1 := WithStepStatus(a, j, k, InProgress);
    RunStepsVisit(env, i, j, s, k, a, left, tr);
    var wt := RunTasks(env, i, s, 0, j, k, a1, |TasksOf(env, i, s)|, tr);
    TasksStepFrame(env, i, s, j, k, a1, tr);
    if wt.Walked? {
      SameShapeSteps(a1, wt.status, j);
    }
    AfterTasksReplay(env, i, j, s, k, a1, tr, wt, left, b, trB);
  }

  lemma {:induction false} AfterTasksReplay(env: Env, i: nat, j: nat, s: nat, k: nat, a1: PlanStatus, tr: seq<Call>, wt: Walk, left: int, b: PlanStatus, trB: seq<Call>)
    requires i < |env.pl.spec.phases| && s < |env.pl.spec.phases[i].steps|
    requires ValidEntry(a1, j, k) && j < |b.phases| && DistinctStepNames(env.pl.spec.phases[i])
    requires IndexOfName(StepNames(a1.phases[j].steps), env.pl.spec.phases[i].steps[s].name) == Some(k)
    requires a1.phases[j].steps[k].status == InProgress
    requires wt == RunTasks(env, i, s, 0, j, k, a1, |TasksOf(env, i, s)|, tr)
    requires wt.Walked? ==>
      && ValidEntry(wt.status, j, k) && StepNames(wt.status.phases[j].steps) == StepNames(a1.phases[j].steps)
      && (wt.status.phases[j].steps[k].status == Error || wt.status.phases[j].steps[k].status == InProgress)
    ensures StepsReplayOk(j, b, AfterTasks(env, i, j, s, k, wt, left), RunSteps(env, i, j, s, b, left, trB)) == true
    decreases |env.pl.spec.phases[i].steps| - s, 0
  {
    var phase := env.pl.spec.phases[i];
    var wa := AfterTasks(env, i, j, s, k, wt, left);
    if wt.Walked? && wa.Walked? && j < |wa.status.phases| && b.phases[j] == wa.status.phases[j] {
      var a' := wt.status;
      var name := phase.steps[s].name;
      assert a1.phases[j].steps[k].name == name;
      assert StepNames(b.phases[j].steps) == StepNames(a'.phases[j].steps);
      if wt.left > 0 && phase.strategy == Serial {
        assert b.phases[j] == a'.phases[j];
        StepTasksReplay(env, i, j, s, k, a1, tr, b, left, trB);
      } else if wt.left > 0 {
        StepsFrame(env, i, j, s + 1, a', left, wt.trace);
        assert NotLaterStep(env, i, name, s + 1);
        assert b.phases[j].steps[k] == a'.phases[j].steps[k];
        StepTasksReplay(env, i, j, s, k, a1, tr, b, left, trB);
        var wtb := RunTasks(env, i, s, 0, j, k, WithStepStatus(b, j, k, InProgress), |TasksOf(env, i, s)|, trB);
        StepsReplay(env, i, j, s + 1, a', left, wt.trace, b, wtb.trace);
      } else {
        var a2 := WithStepStatus(a', j, k, Completed);
        StepsFrame(env, i, j, s + 1, a2, left - 1, wt.trace);
        assert NotLaterStep(env, i, name, s + 1);
        assert b.phases[j].steps[k].status == Completed;
        StepsReplay(env, i, j, s + 1, a2, left - 1, wt.trace, b, trB);
      }
    }
  }

  /** The second walk visits step s again: its task loop leaves exactly the tree b, with the same tasks left. */
  lemma StepTasksReplay(env: Env, i: nat, j: nat, s: nat, k: nat, a1: PlanStatus, tr: seq<Call>, b: PlanStatus, left: int, trB: seq<Call>)
    requires i < |env.pl.spec.phases| && s < |env.pl.spec.phases[i].steps|
    requires ValidEntry(a1, j, k) && ValidEntry(b, j, k)
    requires IndexOfName(StepNames(b.phases[j].steps), env.pl.spec.phases[i].steps[s].name) == Some(k)
    requires a1.phases[j].steps[k].status == InProgress
    requires var wt := RunTasks(env, i, s, 0, j, k, a1, |TasksOf(env, i, s)|, tr);
      && wt.Walked? && ValidEntry(wt.status, j, k)
      && b.phases[j].steps[k].status == wt.status.phases[j].steps[k].status
      && (b.phases[j].steps[k].status == Error || b.phases[j].steps[k].status == InProgress)
    ensures var wt := RunTasks(env, i, s, 0, j, k, a1, |TasksOf(env, i, s)|, tr);
      var wtb := RunTasks(env, i, s, 0, j, k, WithStepStatus(b, j, k, InProgress), |TasksOf(env, i, s)|, trB);
      && wtb.Walked? && wtb.status == b && wtb.left == wt.left
      && ValidEntry(wtb.status, j, k)
      && RunSteps(env, i, j, s, b, left, trB) == AfterTasks(env, i, j, s, k, wtb, left)
  {
    var x := b.phases[j].steps[k].status;
    var b1 := WithStepStatus(b, j, k, InProgress);
    TasksReplay(env, i, s, j, k, a1, b1, tr, trB);
    WithStepStatusTwice(b, j, k, InProgress, x);
    WithStepStatusSame(b, j, k, x);
    RunStepsVisit(env, i, j, s, k, b, left, trB);
  }

  /**
   * The second walk of the phases, over the tree b the first walk left
   * behind, returns no error and keeps b, when the first walk returned no
   * error and did not complete the plan.
   */
  ghost predicate PhasesReplayOk(out: Outcome, b: PlanStatus, outB: Outcome) {
    out.err.None? && out.status.status != Completed && b == out.status ==>
      outB.err.None? && outB.status == b
  }

  lemma {:induction false} PhasesReplay(env: Env, i: nat, a: PlanStatus, left: int, tr: seq<Call>, b: PlanStatus, trB: seq<Call>)
    requires i <= |env.pl.spec.phases| && DistinctNames(env.pl.spec)
    ensures PhasesReplayOk(RunPhases(env, i, a, left, tr), b, RunPhases(env, i, b, left, trB)) == true
    decreases |env.pl.spec.phases| - i, 4
  {
    var phases := env.pl.spec.phases;
    if i < |phases| {
      match IndexOfName(PhaseNames(a.phases), phases[i].name)
      case None =>
      case Some(j) =>
        if IsFinished(a.phases[j].status) {
          PhaseSkipReplay(env, i, j, a, left, tr, b, trB);
        } else if IsInProgress(a.phases[j].status) {
          PhaseVisitReplay(env, i, j, a, left, tr, b, trB);
        } else {
          PhaseStopReplay(env, i, j, a, left, tr, b, trB);
        }
    }
  }

  /** A Completed phase is skipped by both walks: the frame keeps its entry in b. */
  lemma {:induction false} PhaseSkipReplay(env: Env, i: nat, j: nat, a: PlanStatus, left: int, tr: seq<Call>, b: PlanStatus, trB: seq<Call>)
    requires i < |env.pl.spec.phases| && j < |a.phases| && DistinctNames(env.pl.spec)
    requires IndexOfName(PhaseNames(a.phases), env.pl.spec.phases[i].name) == Some(j)
    requires IsFinished(a.phases[j].status)
    ensures PhasesReplayOk(RunPhases(env, i, a, left, tr), b, RunPhases(env, i, b, left, trB)) == true
    decreases |env.pl.spec.phases| - i, 3
  {
    var out := RunPhases(env, i, a, left, tr);
    assert out == RunPhases(env, i + 1, a, left - 1, tr);
    PhasesReplay(env, i + 1, a, left - 1, tr, b, trB);
    if out.err.None? && b == out.status {
      assert PhaseNames(b.phases) == PhaseNames(a.phases);
      PhasesFrame(env, i + 1, a, left - 1, tr);
      assert NotLaterPhase(env, a.phases[j].name, i + 1);
      assert RunPhases(env, i, b, left, trB) == RunPhases(env, i + 1, b, left - 1, trB);
    }
  }

  /** A FatalError phase ends both walks, which leave the trees as they are. */
  lemma PhaseStopReplay(env: Env, i: nat, j: nat, a: PlanStatus, left: int, tr: seq<Call>, b: PlanStatus, trB: seq<Call>)
    requires i < |env.pl.spec.phases| && j < |a.phases|
    requires IndexOfName(PhaseNames(a.phases), env.pl.spec.phases[i].name) == Some(j)
    requires !IsFinished(a.phases[j].status) && !IsInProgress(a.phases[j].status)
    ensures PhasesReplayOk(RunPhases(env, i, a, left, tr), b, RunPhases(env, i, b, left, trB)) == true
  {
    var out := RunPhases(env, i, a, left, tr);
    assert out == Finish(env, a, left, tr);
    if left != 0 && b == a {
      assert RunPhases(env, i, b, left, trB) == Finish(env, b, left, trB);
    }
  }

  /** An eligible phase: both walks run its steps, and what follows is replayed. */
  lemma {:induction false} PhaseVisitReplay(env: Env, i: nat, j: nat, a: PlanStatus, left: int, tr: seq<Call>, b: PlanStatus, trB: seq<Call>)
    requires i < |env.pl.spec.phases| && j < |a.phases| && DistinctNames(env.pl.spec)
    requires IndexOfName(PhaseNames(a.phases), env.pl.spec.phases[i].name) == Some(j)
    requires IsInProgress(a.phases[j].status)
    ensures PhasesReplayOk(RunPhases(env, i, a, left, tr), b, RunPhases(env, i, b, left, trB)) == true
    decreases |env.pl.spec.phases| - i, 3
  {
    var a1 := WithPhaseStatus(a, j, InProgress);
    var m := |env.pl.spec.phases[i].steps|;
    RunPhasesVisit(env, i, j, a, left, tr);
    StepsOutOk(env, i, j, 0, a1, m, tr);
    var w := RunSteps(env, i, j, 0, a1, m, tr);
    if w.Walked? {
      SameShapeSteps(a1, w.status, j);
    }
    AfterStepsReplay(env, i, j, a1, tr, w, left, b, trB);
  }

  lemma {:induction false} AfterStepsReplay(env: Env, i: nat, j: nat, a1: PlanStatus, tr: seq<Call>, w: Walk, left: int, b: PlanStatus, trB: seq<Call>)
    requires i < |env.pl.spec.phases| && j < |a1.phases| && DistinctNames(env.pl.spec)
    requires IndexOfName(PhaseNames(a1.phases), env.pl.spec.phases[i].name) == Some(j)
    requires a1.phases[j].status == InProgress
    requires w == RunSteps(env, i, j, 0, a1, |env.pl.spec.phases[i].steps|, tr)
    requires w.Walked? ==>
      && j < |w.status.phases| && PhaseNames(w.status.phases) == PhaseNames(a1.phases)
      && w.status.phases[j].status == InProgress
    ensures PhasesReplayOk(AfterSteps(env, i, j, w, left), b, RunPhases(env, i, b, left, trB)) == true
    decreases |env.pl.spec.phases| - i, 2
  {
    if w.Walked? {
      if w.left > 0 && env.pl.spec.strategy == Serial {
        PhaseSerialReplay(env, i, j, a1, tr, w, left, b, trB);
      } else if w.left > 0 {
        PhaseParallelReplay(env, i, j, a1, tr, w, left, b, trB);
      } else {
        PhaseDoneReplay(env, i, j, a1, tr, w, left, b, trB);
      }
    }
  }

  /** Under a Serial plan both walks end at a phase with steps left. */
  lemma PhaseSerialReplay(env: Env, i: nat, j: nat, a1: PlanStatus, tr: seq<Call>, w: Walk, left: int, b: PlanStatus, trB: seq<Call>)
    requires i < |env.pl.spec.phases| && j < |a1.phases| && DistinctNames(env.pl.spec)
    requires IndexOfName(PhaseNames(a1.phases), env.pl.spec.phases[i].name) == Some(j)
    requires a1.phases[j].status == InProgress
    requires w == RunSteps(env, i, j, 0, a1, |env.pl.spec.phases[i].steps|, tr)
    requires w.Walked? ==>
      && j < |w.status.phases| && PhaseNames(w.status.phases) == PhaseNames(a1.phases)
      && w.status.phases[j].status == InProgress
    requires w.Walked? && w.left > 0 && env.pl.spec.strategy == Serial
    ensures PhasesReplayOk(AfterSteps(env, i, j, w, left), b, RunPhases(env, i, b, left, trB)) == true
  {
    var out := AfterSteps(env, i, j, w, left);
    if out.err.None? && out.status.status != Completed && b == out.status {
      assert b == w.status && left != 0;
      PhaseStepsReplay(env, i, j, a1, tr, b, left, trB);
    }
  }

  /** Under a Parallel plan both walks go on past a phase with steps left. */
  lemma {:induction false} PhaseParallelReplay(env: Env, i: nat, j: nat, a1: PlanStatus, tr: seq<Call>, w: Walk, left: int, b: PlanStatus, trB: seq<Call>)
    requires i < |env.pl.spec.phases| && j < |a1.phases| && DistinctNames(env.pl.spec)
    requires IndexOfName(PhaseNames(a1.phases), env.pl.spec.phases[i].name) == Some(j)
    requires a1.phases[j].status == InProgress
    requires w == RunSteps(env, i, j, 0, a1, |env.pl.spec.phases[i].steps|, tr)
    requires w.Walked? ==>
      && j < |w.status.phases| && PhaseNames(w.status.phases) == PhaseNames(a1.phases)
      && w.status.phases[j].status == InProgress
    requires w.Walked? && w.left > 0 && env.pl.spec.strategy != Serial
    ensures PhasesReplayOk(AfterSteps(env, i, j, w, left), b, RunPhases(env, i, b, left, trB)) == true
    decreases |env.pl.spec.phases| - i, 1
  {
    var out := AfterSteps(env, i, j, w, left);
    assert out == RunPhases(env, i + 1, w.status, left, w.trace);
    if out.err.None? && out.status.status != Completed && b == out.status {
      PhaseParallelTail(env, i, j, a1, tr, w, left, b, trB);
    }
  }

  lemma {:induction false} PhaseParallelTail(env: Env, i: nat, j: nat, a1: PlanStatus, tr: seq<Call>, w: Walk, left: int, b: PlanStatus, trB: seq<Call>)
    requires i < |env.pl.spec.phases| && j < |a1.phases| && DistinctNames(env.pl.spec)
    requires IndexOfName(PhaseNames(a1.phases), env.pl.spec.phases[i].name) == Some(j)
    requires w == RunSteps(env, i, j, 0, a1, |env.pl.spec.phases[i].steps|, tr)
    requires w.Walked? && w.left > 0 && env.pl.spec.strategy != Serial
    requires j < |w.status.phases| && PhaseNames(w.status.phases) == PhaseNames(a1.phases) && w.status.phases[j].status == InProgress
    requires var out := RunPhases(env, i + 1, w.status, left, w.trace);
      out.err.None? && out.status.status != Completed && b == out.status
    ensures var outB := RunPhases(env, i, b, left, trB);
      outB.err.None? && outB.status == b
    decreases |env.pl.spec.phases| - i, 0
  {
    var name := env.pl.spec.phases[i].name;
    assert IndexOfName(PhaseNames(b.phases), name) == Some(j) && j < |b.phases| && b.phases[j] == w.status.phases[j] by {
      assert a1.phases[j].name == name;
      assert PhaseNames(b.phases) == PhaseNames(w.status.phases);
      PhasesFrame(env, i + 1, w.status, left, w.trace);
      assert NotLaterPhase(env, name, i + 1);
    }
    var trB' := PhaseStepsReplayOn(env, i, j, a1, tr, b, left, trB);
    PhasesReplay(env, i + 1, w.status, left, w.trace, b, trB');
  }

  /** Under a Parallel plan the second walk goes on from phase i + 1 with the tree b. */
  lemma PhaseStepsReplayOn(env: Env, i: nat, j: nat, a1: PlanStatus, tr: seq<Call>, b: PlanStatus, left: int, trB: seq<Call>) returns (trB': seq<Call>)
    requires i < |env.pl.spec.phases| && j < |a1.phases| && j < |b.phases| && DistinctNames(env.pl.spec)
    requires IndexOfName(PhaseNames(b.phases), env.pl.spec.phases[i].name) == Some(j)
    requires env.pl.spec.strategy != Serial
    requires var w := RunSteps(env, i, j, 0, a1, |env.pl.spec.phases[i].steps|, tr);
      w.Walked? && w.left > 0 && j < |w.status.phases| && b.phases[j] == w.status.phases[j] && b.phases[j].status == InProgress
    ensures RunPhases(env, i, b, left, trB) == RunPhases(env, i + 1, b, left, trB')
  {
    PhaseStepsReplay(env, i, j, a1, tr, b, left, trB);
    trB' := RunSteps(env, i, j, 0, b, |env.pl.spec.phases[i].steps|, trB).trace;
  }

  /** A phase whose steps are all done: the first walk completes it, and the second skips it. */
  lemma {:induction false} PhaseDoneReplay(env: Env, i: nat, j: nat, a1: PlanStatus, tr: seq<Call>, w: Walk, left: int, b: PlanStatus, trB: seq<Call>)
    requires i < |env.pl.spec.phases| && j < |a1.phases| && DistinctNames(env.pl.spec)
    requires IndexOfName(PhaseNames(a1.phases), env.pl.spec.phases[i].name) == Some(j)
    requires a1.phases[j].status == InProgress
    requires w == RunSteps(env, i, j, 0, a1, |env.pl.spec.phases[i].steps|, tr)
    requires w.Walked? ==>
      && j < |w.status.phases| && PhaseNames(w.status.phases) == PhaseNames(a1.phases)
      && w.status.phases[j].status == InProgress
    requires w.Walked? && w.left <= 0
    ensures PhasesReplayOk(AfterSteps(env, i, j, w, left), b, RunPhases(env, i, b, left, trB)) == true
    decreases |env.pl.spec.phases| - i, 1
  {
    var a2 := WithPhaseStatus(w.status, j, Completed);
    var out := RunPhases(env, i + 1, a2, left - 1, w.trace);
    assert AfterSteps(env, i, j, w, left) == out;
    PhasesReplay(env, i + 1, a2, left - 1, w.trace, b, trB);
    if out.err.None? && out.status.status != Completed && b == out.status {
      var name := env.pl.spec.phases[i].name;
      assert a1.phases[j].name == name;
      assert PhaseNames(b.phases) == PhaseNames(a2.phases);
      PhasesFrame(env, i + 1, a2, left - 1, w.trace);
      assert NotLaterPhase(env, name, i + 1);
      assert b.phases[j].status == Completed;
      assert RunPhases(env, i, b, left, trB) == RunPhases(env, i + 1, b, left - 1, trB);
    }
  }

  /** The second walk visits phase i again: its step loop leaves exactly the tree b, with the same steps left. */
  lemma PhaseStepsReplay(env: Env, i: nat, j: nat, a1: PlanStatus, tr: seq<Call>, b: PlanStatus, left: int, trB: seq<Call>)
    requires i < |env.pl.spec.phases| && j < |a1.phases| && j < |b.phases| && DistinctNames(env.pl.spec)
    requires IndexOfName(PhaseNames(b.phases), env.pl.spec.phases[i].name) == Some(j)
    requires var w := RunSteps(env, i, j, 0, a1, |env.pl.spec.phases[i].steps|, tr);
      w.Walked? && j < |w.status.phases| && b.phases[j] == w.status.phases[j] && b.phases[j].status == InProgress
    ensures var w := RunSteps(env, i, j, 0, a1, |env.pl.spec.phases[i].steps|, tr);
      var wb := RunSteps(env, i, j, 0, b, |env.pl.spec.phases[i].steps|, trB);
      && wb.Walked? && wb.status == b && wb.left == w.left
      && RunPhases(env, i, b, left, trB) == AfterSteps(env, i, j, wb, left)
  {
    var m := |env.pl.spec.phases[i].steps|;
    StepsReplay(env, i, j, 0, a1, m, tr, b, trB);
    WithPhaseStatusSame(b, j, InProgress);
    RunPhasesVisit(env, i, j, b, left, trB);
  }

  /**
   * Execute is idempotent. When phase names are distinct in the plan, and
   * step names within each phase, a second pass over the status tree a pass
   * returned returns that tree again, with no error: entries the first pass
   * completed are skipped, the tasks it ran report the same results, and a
   * plan it left FatalError or Completed is terminal.
   */
  lemma PassIdempotent(env: Env)
    requires DistinctNames(env.pl.spec)
    ensures var out := Pass(env);
      var again := Pass(WithStored(env, out.status));
      again.err.None? && again.status == out.status
  {
    var out := Pass(env);
    if !IsTerminal(env.pl.status.status) {
      PassStatus(env);
      if out.status.status == InProgress {
        var n := |env.pl.spec.phases|;
        assert out.status.(status := InProgress) == out.status;
        PhasesIgnoreStored(env, out.status, 0, out.status, n, []);
        PhasesReplay(env, 0, env.pl.status.(status := InProgress), n, [], out.status, []);
      }
    } else {
      assert WithStored(env, out.status) == env;
    }
  }
}
