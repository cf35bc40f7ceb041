/**
 * Which tasks a pass may run. A task runs only where the incoming status tree
 * lets the walk reach it: its phase and step have entries that are pending,
 * in progress or in error, and no earlier phase or step of the walk is
 * FatalError (Completed ones are skipped, a FatalError one stops the walk).
 * Under a Serial strategy a task runs only once every earlier step of its
 * phase, or every earlier phase of the plan, is Completed.
 */
module WorkflowGating {
  import opened Wrappers
  import opened KudoApi
  import opened Workflow
  import opened WorkflowTasks
  import opened WorkflowFacts

  // ---- eligibility in the incoming status tree ----

  ghost predicate PhaseNotFatal(env: Env, st: PlanStatus, i: nat)
    requires i < |env.pl.spec.phases|
  {
    PhaseEntry(env, st, i).Some? && st.phases[PhaseEntry(env, st, i).value].status != FatalError
  }

  ghost predicate StepNotFatal(env: Env, st: PlanStatus, i: nat, s: nat)
    requires ValidStep(env.pl.spec, i, s)
  {
    StepEntry(env, st, i, s).Some? && st.phases[PhaseEntry(env, st, i).value].steps[StepEntry(env, st, i, s).value].status != FatalError
  }

  /** The walk over st can reach task position c: see the module comment. */
  ghost predicate ReachableIn(env: Env, st: PlanStatus, c: Call) {
    && IsCall(env, c)
    && PhaseEntry(env, st, c.phase).Some?
    && IsInProgress(st.phases[PhaseEntry(env, st, c.phase).value].status)
    && StepEntry(env, st, c.phase, c.step).Some?
    && IsInProgress(st.phases[PhaseEntry(env, st, c.phase).value].steps[StepEntry(env, st, c.phase, c.step).value].status)
    && (forall i :: 0 <= i < c.phase ==> PhaseNotFatal(env, st, i))
    && (forall s :: 0 <= s < c.step ==> StepNotFatal(env, st, c.phase, s))
  }

  ghost predicate AllReachable(env: Env, st: PlanStatus, tr: seq<Call>) {
    forall x :: 0 <= x < |tr| ==> ReachableIn(env, st, tr[x])
  }

  /** The task loop of step s (entry (j, k)) in a walk that started from init and reached that step. */
  ghost predicate TasksReach(env: Env, init: PlanStatus, i: nat, s: nat, j: nat, k: nat, tr: seq<Call>) {
    && ValidStep(env.pl.spec, i, s) && ValidEntry(init, j, k)
    && PhaseEntry(env, init, i) == Some(j) && StepEntry(env, init, i, s) == Some(k)
    && IsInProgress(init.phases[j].status) && IsInProgress(init.phases[j].steps[k].status)
    && (forall i' :: 0 <= i' < i ==> PhaseNotFatal(env, init, i'))
    && (forall s' :: 0 <= s' < s ==> StepNotFatal(env, init, i, s'))
    && AllReachable(env, init, tr)
  }

  lemma TasksReachable(env: Env, init: PlanStatus, i: nat, s: nat, j: nat, k: nat, ps: PlanStatus, tr: seq<Call>)
    requires TasksReach(env, init, i, s, j, k, tr) && ValidEntry(ps, j, k)
    ensures AllReachable(env, init, RunTasks(env, i, s, 0, j, k, ps, |TasksOf(env, i, s)|, tr).Trace())
  {
    TasksCalls(env, i, s, j, k, ps, tr);
    var tr2 := RunTasks(env, i, s, 0, j, k, ps, |TasksOf(env, i, s)|, tr).Trace();
    forall x | 0 <= x < |tr2|
      ensures ReachableIn(env, init, tr2[x])
    {
      if x < |tr| {
        assert tr2[x] == tr[x];
      }
    }
  }

  /** The step loop of phase i (entry j) at step s, over ps, in a walk that started from init and reached it. */
  ghost predicate StepsReach(env: Env, init: PlanStatus, i: nat, j: nat, s: nat, ps: PlanStatus, tr: seq<Call>) {
    && i < |env.pl.spec.phases| && s <= |env.pl.spec.phases[i].steps| && j < |ps.phases|
    && KeepsTerminal(init, ps) && PhaseEntry(env, init, i) == Some(j)
    && IsInProgress(init.phases[j].status) && !IsTerminal(ps.phases[j].status)
    && (forall i' :: 0 <= i' < i ==> PhaseNotFatal(env, init, i'))
    && (forall s' :: 0 <= s' < s ==> StepNotFatal(env, init, i, s'))
    && AllReachable(env, init, tr)
  }

  /** What the step loop needs once the task loop of step s has returned w. */
  ghost predicate AfterTasksReach(env: Env, init: PlanStatus, i: nat, j: nat, s: nat, k: nat, w: Walk) {
    && ValidStep(env.pl.spec, i, s) && j < |init.phases|
    && (w.Walked? ==>
          && ValidEntry(w.status, j, k) && KeepsTerminal(init, w.status)
          && !IsTerminal(w.status.phases[j].status) && !IsTerminal(w.status.phases[j].steps[k].status))
    && PhaseEntry(env, init, i) == Some(j) && IsInProgress(init.phases[j].status)
    && (forall i' :: 0 <= i' < i ==> PhaseNotFatal(env, init, i'))
    && (forall s' :: 0 <= s' <= s ==> StepNotFatal(env, init, i, s'))
    && AllReachable(env, init, w.Trace())
  }

  lemma StepsReachSkip(env: Env, init: PlanStatus, i: nat, j: nat, s: nat, k: nat, ps: PlanStatus, tr: seq<Call>)
    requires StepsReach(env, init, i, j, s, ps, tr) && s < |env.pl.spec.phases[i].steps|
    requires StepEntry(env, init, i, s) == Some(k) && k < |ps.phases[j].steps|
    requires IsFinished(ps.phases[j].steps[k].status)
    ensures StepsReach(env, init, i, j, s + 1, ps, tr)
  {
    assert StepNotFatal(env, init, i, s);
  }

  lemma StepsReachVisit(env: Env, init: PlanStatus, i: nat, j: nat, s: nat, k: nat, ps: PlanStatus, tr: seq<Call>)
    requires StepsReach(env, init, i, j, s, ps, tr) && s < |env.pl.spec.phases[i].steps|
    requires StepEntry(env, init, i, s) == Some(k) && k < |ps.phases[j].steps|
    requires IsInProgress(ps.phases[j].steps[k].status)
    ensures TasksReach(env, init, i, s, j, k, tr)
    ensures var ps1 := WithStepStatus(ps, j, k, InProgress);
      !IsTerminal(ps1.phases[j].status) && !IsTerminal(ps1.phases[j].steps[k].status)
  {
    SameShapeSteps(init, ps, j);
  }

  lemma AfterTasksReachOf(env: Env, init: PlanStatus, i: nat, j: nat, s: nat, k: nat, ps: PlanStatus, tr: seq<Call>, w: Walk)
    requires StepsReach(env, init, i, j, s, ps, tr) && s < |env.pl.spec.phases[i].steps|
    requires StepEntry(env, init, i, s) == Some(k) && k < |ps.phases[j].steps|
    requires IsInProgress(ps.phases[j].steps[k].status)
    requires TasksOut(i, j, k, WithStepStatus(ps, j, k, InProgress), tr, w) && AllReachable(env, init, w.Trace())
    ensures AfterTasksReach(env, init, i, j, s, k, w)
  {
    var ps1 := WithStepStatus(ps, j, k, InProgress);
    SameShapeSteps(init, ps, j);
    KeepsTerminalStepUpdate(ps, j, k, InProgress);
    KeepsTerminalTrans(init, ps, ps1);
    KeepsTerminalTrans(init, ps1, w.Status());
    assert StepNotFatal(env, init, i, s);
  }

  lemma AfterTasksReachNext(env: Env, init: PlanStatus, i: nat, j: nat, s: nat, k: nat, ps': PlanStatus, tasksLeft: int, tr': seq<Call>)
    requires AfterTasksReach(env, init, i, j, s, k, Walked(ps', tasksLeft, tr'))
    ensures StepsReach(env, init, i, j, s + 1, ps', tr')
    ensures StepsReach(env, init, i, j, s + 1, WithStepStatus(ps', j, k, Completed), tr')
  {
    KeepsTerminalStepUpdate(ps', j, k, Completed);
    KeepsTerminalTrans(init, ps', WithStepStatus(ps', j, k, Completed));
  }

  lemma {:induction false} StepsReachable(env: Env, init: PlanStatus, i: nat, j: nat, s: nat, ps: PlanStatus, left: int, tr: seq<Call>)
    requires StepsReach(env, init, i, j, s, ps, tr)
    ensures AllReachable(env, init, RunSteps(env, i, j, s, ps, left, tr).Trace())
    decreases |env.pl.spec.phases[i].steps| - s, 2
  {
    var phase := env.pl.spec.phases[i];
    if s < |phase.steps| {
      StepEntryOfSameShape(env, init, ps, i, s);
      match IndexOfName(StepNames(ps.phases[j].steps), phase.steps[s].name)
      case None =>
      case Some(k) =>
        var current := ps.phases[j].steps[k].status;
        if IsFinished(current) {
          StepsReachSkip(env, init, i, j, s, k, ps, tr);
          StepsReachable(env, init, i, j, s + 1, ps, left - 1, tr);
        } else if IsInProgress(current) {
          StepVisitReachable(env, init, i, j, s, k, ps, left, tr);
        }
    }
  }

  lemma {:induction false} StepVisitReachable(env: Env, init: PlanStatus, i: nat, j: nat, s: nat, k: nat, ps: PlanStatus, left: int, tr: seq<Call>)
    requires StepsReach(env, init, i, j, s, ps, tr) && s < |env.pl.spec.phases[i].steps|
    requires StepEntry(env, init, i, s) == Some(k) && k < |ps.phases[j].steps|
    requires IndexOfName(StepNames(ps.phases[j].steps), env.pl.spec.phases[i].steps[s].name) == Some(k)
    requires IsInProgress(ps.phases[j].steps[k].status)
    ensures AllReachable(env, init, RunSteps(env, i, j, s, ps, left, tr).Trace())
    decreases |env.pl.spec.phases[i].steps| - s, 1
  {
    var ps1 := WithStepStatus(ps, j, k, InProgress);
    var w := RunTasks(env, i, s, 0, j, k, ps1, |TasksOf(env, i, s)|, tr);
    StepsReachVisit(env, init, i, j, s, k, ps, tr);
    TasksReachable(env, init, i, s, j, k, ps1, tr);
    TasksOutOk(env, i, s, j, k, ps1, tr);
    AfterTasksReachOf(env, init, i, j, s, k, ps, tr, w);
    RunStepsVisit(env, i, j, s, k, ps, left, tr);
    AfterTasksReachable(env, init, i, j, s, k, w, left);
  }

  lemma {:induction false} AfterTasksReachable(env: Env, init: PlanStatus, i: nat, j: nat, s: nat, k: nat, w: Walk, left: int)
    requires AfterTasksReach(env, init, i, j, s, k, w)
    ensures AllReachable(env, init, AfterTasks(env, i, j, s, k, w, left).Trace())
    decreases |env.pl.spec.phases[i].steps| - s, 0
  {
    match w
    case Aborted(_) =>
    case Walked(ps', tasksLeft, tr') =>
      AfterTasksReachNext(env, init, i, j, s, k, ps', tasksLeft, tr');
      if tasksLeft > 0 {
        if env.pl.spec.phases[i].strategy != Serial {
          StepsReachable(env, init, i, j, s + 1, ps', left, tr');
        }
      } else {
        StepsReachable(env, init, i, j, s + 1, WithStepStatus(ps', j, k, Completed), left - 1, tr');
      }
  }

  /** The phase loop at phase i, over ps, in a pass that started from init and reached it. */
  ghost predicate PhasesReach(env: Env, init: PlanStatus, i: nat, ps: PlanStatus, tr: seq<Call>) {
    && i <= |env.pl.spec.phases| && KeepsTerminal(init, ps)
    && (forall i' :: 0 <= i' < i ==> PhaseNotFatal(env, init, i'))
    && AllReachable(env, init, tr)
  }

  /** What the phase loop needs once the step loop of phase i has returned w. */
  ghost predicate AfterStepsReach(env: Env, init: PlanStatus, i: nat, j: nat, w: Walk) {
    && i < |env.pl.spec.phases|
    && (w.Walked? ==> j < |w.status.phases| && KeepsTerminal(init, w.status) && !IsTerminal(w.status.phases[j].status))
    && (forall i' :: 0 <= i' <= i ==> PhaseNotFatal(env, init, i'))
    && AllReachable(env, init, w.Trace())
  }

  lemma PhasesReachSkip(env: Env, init: PlanStatus, i: nat, j: nat, ps: PlanStatus, tr: seq<Call>)
    requires PhasesReach(env, init, i, ps, tr) && i < |env.pl.spec.phases| && j < |ps.phases|
    requires PhaseEntry(env, init, i) == Some(j) && IsFinished(ps.phases[j].status)
    ensures PhasesReach(env, init, i + 1, ps, tr)
  {
    assert PhaseNotFatal(env, init, i);
  }

  lemma PhasesReachVisit(env: Env, init: PlanStatus, i: nat, j: nat, ps: PlanStatus, tr: seq<Call>)
    requires PhasesReach(env, init, i, ps, tr) && i < |env.pl.spec.phases| && j < |ps.phases|
    requires PhaseEntry(env, init, i) == Some(j) && IsInProgress(ps.phases[j].status)
    ensures StepsReach(env, init, i, j, 0, WithPhaseStatus(ps, j, InProgress), tr)
  {
    assert IsInProgress(init.phases[j].status);
    KeepsTerminalPhaseUpdate(ps, j, InProgress);
    KeepsTerminalTrans(init, ps, WithPhaseStatus(ps, j, InProgress));
  }

  lemma AfterStepsReachOf(env: Env, init: PlanStatus, i: nat, j: nat, ps: PlanStatus, tr: seq<Call>, w: Walk)
    requires PhasesReach(env, init, i, ps, tr) && i < |env.pl.spec.phases| && j < |ps.phases|
    requires StepsReach(env, init, i, j, 0, WithPhaseStatus(ps, j, InProgress), tr)
    requires StepsOut(i, j, WithPhaseStatus(ps, j, InProgress), tr, w) && AllReachable(env, init, w.Trace())
    ensures AfterStepsReach(env, init, i, j, w)
  {
    var ps1 := WithPhaseStatus(ps, j, InProgress);
    KeepsTerminalTrans(init, ps1, w.Status());
    assert PhaseNotFatal(env, init, i);
  }

  lemma AfterStepsReachNext(env: Env, init: PlanStatus, i: nat, j: nat, ps': PlanStatus, stepsLeft: int, tr': seq<Call>)
    requires AfterStepsReach(env, init, i, j, Walked(ps', stepsLeft, tr'))
    ensures PhasesReach(env, init, i + 1, ps', tr')
    ensures PhasesReach(env, init, i + 1, WithPhaseStatus(ps', j, Completed), tr')
  {
    KeepsTerminalPhaseUpdate(ps', j, Completed);
    KeepsTerminalTrans(init, ps', WithPhaseStatus(ps', j, Completed));
  }

  lemma {:induction false} PhasesReachable(env: Env, init: PlanStatus, i: nat, ps: PlanStatus, left: int, tr: seq<Call>)
    requires PhasesReach(env, init, i, ps, tr)
    ensures AllReachable(env, init, RunPhases(env, i, ps, left, tr).trace)
    decreases |env.pl.spec.phases| - i, 2
  {
    var phases := env.pl.spec.phases;
    if i < |phases| {
      PhaseEntryOfSameShape(env, init, ps, i);
      match IndexOfName(PhaseNames(ps.phases), phases[i].name)
      case None =>
      case Some(j) =>
        var current := ps.phases[j].status;
        if IsFinished(current) {
          PhasesReachSkip(env, init, i, j, ps, tr);
          PhasesReachable(env, init, i + 1, ps, left - 1, tr);
        } else if IsInProgress(current) {
          PhaseVisitReachable(env, init, i, j, ps, left, tr);
        }
    }
  }

  lemma {:induction false} PhaseVisitReachable(env: Env, init: PlanStatus, i: nat, j: nat, ps: PlanStatus, left: int, tr: seq<Call>)
    requires PhasesReach(env, init, i, ps, tr) && i < |env.pl.spec.phases| && j < |ps.phases|
    requires PhaseEntry(env, init, i) == Some(j)
    requires IndexOfName(PhaseNames(ps.phases), env.pl.spec.phases[i].name) == Some(j)
    requires IsInProgress(ps.phases[j].status)
    ensures AllReachable(env, init, RunPhases(env, i, ps, left, tr).trace)
    decreases |env.pl.spec.phases| - i, 1
  {
    var ps1 := WithPhaseStatus(ps, j, InProgress);
    var n := |env.pl.spec.phases[i].steps|;
    var w := RunSteps(env, i, j, 0, ps1, n, tr);
    PhasesReachVisit(env, init, i, j, ps, tr);
    StepsReachable(env, init, i, j, 0, ps1, n, tr);
    StepsOutOk(env, i, j, 0, ps1, n, tr);
    AfterStepsReachOf(env, init, i, j, ps, tr, w);
    RunPhasesVisit(env, i, j, ps, left, tr);
    AfterStepsReachable(env, init, i, j, w, left);
  }

  lemma {:induction false} AfterStepsReachable(env: Env, init: PlanStatus, i: nat, j: nat, w: Walk, left: int)
    requires AfterStepsReach(env, init, i, j, w)
    ensures AllReachable(env, init, AfterSteps(env, i, j, w, left).trace)
    decreases |env.pl.spec.phases| - i, 0
  {
    match w
    case Aborted(_) =>
    case Walked(ps', stepsLeft, tr') =>
      AfterStepsReachNext(env, init, i, j, ps', stepsLeft, tr');
      if stepsLeft > 0 {
        if env.pl.spec.strategy != Serial {
          PhasesReachable(env, init, i + 1, ps', left, tr');
        }
      } else {
        PhasesReachable(env, init, i + 1, WithPhaseStatus(ps', j, Completed), left - 1, tr');
      }
  }

  /**
   * Every task a pass runs is reachable in the incoming status tree: its phase
   * and step entries exist and are Pending, InProgress or Error, and every
   * earlier phase, and every earlier step of its phase, has an entry that is
   * not FatalError. So Completed phases and steps are skipped without running
   * a task, and a FatalError phase or step stops the walk.
   */
  lemma PassReachable(env: Env)
    ensures AllReachable(env, env.pl.status, Pass(env).trace)
  {
    var init := env.pl.status;
    if !IsTerminal(init.status) {
      KeepsTerminalRefl(init.(status := InProgress));
      PhasesReachable(env, init, 0, init.(status := InProgress), |env.pl.spec.phases|, []);
    }
  }

  // ---- serial strategies, in the returned status tree ----

  /** Under a Serial plan, every phase before i is Completed in st. */
  ghost predicate PhasesBeforeDone(env: Env, st: PlanStatus, i: nat)
    requires i <= |env.pl.spec.phases|
  {
    env.pl.spec.strategy == Serial ==> forall i' :: 0 <= i' < i ==> PhaseStatusIs(env, st, i', Completed)
  }

  /** Under a Serial phase i, every step of it before s is Completed in st. */
  ghost predicate StepsBeforeDone(env: Env, st: PlanStatus, i: nat, s: nat)
    requires i < |env.pl.spec.phases| && s <= |env.pl.spec.phases[i].steps|
  {
    env.pl.spec.phases[i].strategy == Serial ==> forall s' :: 0 <= s' < s ==> StepStatusIs(env, st, i, s', Completed)
  }

  ghost predicate SerialDone(env: Env, st: PlanStatus, c: Call) {
    IsCall(env, c) && PhasesBeforeDone(env, st, c.phase) && StepsBeforeDone(env, st, c.phase, c.step)
  }

  ghost predicate AllSerialDone(env: Env, st: PlanStatus, tr: seq<Call>) {
    forall x :: 0 <= x < |tr| ==> SerialDone(env, st, tr[x])
  }

  lemma SerialDoneKept(env: Env, a: PlanStatus, b: PlanStatus, tr: seq<Call>)
    requires KeepsTerminal(a, b)
    ensures forall i :: 0 <= i <= |env.pl.spec.phases| && PhasesBeforeDone(env, a, i) ==> PhasesBeforeDone(env, b, i)
    ensures forall i: nat, s: nat :: i < |env.pl.spec.phases| && s <= |env.pl.spec.phases[i].steps| && StepsBeforeDone(env, a, i, s) ==> StepsBeforeDone(env, b, i, s)
    ensures AllSerialDone(env, a, tr) ==> AllSerialDone(env, b, tr)
  {
    CompletedKept(env, a, b);
    forall i: nat, s: nat | i < |env.pl.spec.phases| && s <= |env.pl.spec.phases[i].steps| && StepsBeforeDone(env, a, i, s)
      ensures StepsBeforeDone(env, b, i, s)
    {
      if env.pl.spec.phases[i].strategy == Serial {
        forall s' | 0 <= s' < s
          ensures StepStatusIs(env, b, i, s', Completed)
        {
          assert StepStatusIs(env, a, i, s', Completed);
        }
      }
    }
  }

  lemma TasksSerial(env: Env, i: nat, s: nat, j: nat, k: nat, ps: PlanStatus, tr: seq<Call>)
    requires ValidStep(env.pl.spec, i, s) && ValidEntry(ps, j, k)
    requires !IsTerminal(ps.phases[j].status) && !IsTerminal(ps.phases[j].steps[k].status)
    requires PhasesBeforeDone(env, ps, i) && StepsBeforeDone(env, ps, i, s)
    requires AllSerialDone(env, ps, tr)
    ensures var w := RunTasks(env, i, s, 0, j, k, ps, |TasksOf(env, i, s)|, tr);
      AllSerialDone(env, w.Status(), w.Trace())
  {
    var w := RunTasks(env, i, s, 0, j, k, ps, |TasksOf(env, i, s)|, tr);
    TasksCalls(env, i, s, j, k, ps, tr);
    TasksKeep(env, i, s, j, k, ps, tr);
    SerialDoneKept(env, ps, w.Status(), tr);
    forall x | 0 <= x < |w.Trace()|
      ensures SerialDone(env, w.Status(), w.Trace()[x])
    {
      if x < |tr| {
        assert w.Trace()[x] == tr[x];
      }
    }
  }

  lemma {:induction false} StepsSerial(env: Env, i: nat, j: nat, s: nat, ps: PlanStatus, left: int, tr: seq<Call>)
    requires i < |env.pl.spec.phases| && s <= |env.pl.spec.phases[i].steps| && j < |ps.phases|
    requires PhaseEntry(env, ps, i) == Some(j) && !IsTerminal(ps.phases[j].status)
    requires PhasesBeforeDone(env, ps, i) && StepsBeforeDone(env, ps, i, s)
    requires AllSerialDone(env, ps, tr)
    ensures var w := RunSteps(env, i, j, s, ps, left, tr);
      AllSerialDone(env, w.Status(), w.Trace())
    decreases |env.pl.spec.phases[i].steps| - s, 2
  {
    var phase := env.pl.spec.phases[i];
    if s < |phase.steps| {
      match IndexOfName(StepNames(ps.phases[j].steps), phase.steps[s].name)
      case None =>
        KeepsTerminalPhaseUpdate(ps, j, FatalError);
        SerialDoneKept(env, ps, WithPhaseStatus(ps, j, FatalError).(status := FatalError), tr);
      case Some(k) =>
        var current := ps.phases[j].steps[k].status;
        if IsFinished(current) {
          assert StepStatusIs(env, ps, i, s, Completed);
          StepsSerial(env, i, j, s + 1, ps, left - 1, tr);
        } else if IsInProgress(current) {
          StepVisitSerial(env, i, j, s, k, ps, left, tr);
        }
    }
  }

  lemma {:induction false} StepVisitSerial(env: Env, i: nat, j: nat, s: nat, k: nat, ps: PlanStatus, left: int, tr: seq<Call>)
    requires ValidStep(env.pl.spec, i, s) && ValidEntry(ps, j, k)
    requires PhaseEntry(env, ps, i) == Some(j) && StepEntry(env, ps, i, s) == Some(k)
    requires !IsTerminal(ps.phases[j].status) && IsInProgress(ps.phases[j].steps[k].status)
    requires PhasesBeforeDone(env, ps, i) && StepsBeforeDone(env, ps, i, s)
    requires AllSerialDone(env, ps, tr)
    ensures var w := RunSteps(env, i, j, s, ps, left, tr);
      AllSerialDone(env, w.Status(), w.Trace())
    decreases |env.pl.spec.phases[i].steps| - s, 1
  {
    var ps1 := WithStepStatus(ps, j, k, InProgress);
    KeepsTerminalStepUpdate(ps, j, k, InProgress);
    SerialDoneKept(env, ps, ps1, tr);
    EntriesOfSameShape(env, ps, ps1);
    var w := RunTasks(env, i, s, 0, j, k, ps1, |TasksOf(env, i, s)|, tr);
    TasksSerial(env, i, s, j, k, ps1, tr);
    TasksKeep(env, i, s, j, k, ps1, tr);
    TasksPlanFields(env, i, s, j, k, ps1, tr);
    SerialDoneKept(env, ps1, w.Status(), tr);
    EntriesOfSameShape(env, ps1, w.Status());
    RunStepsVisit(env, i, j, s, k, ps, left, tr);
    AfterTasksSerial(env, i, j, s, k, w, left);
  }

  lemma {:induction false} AfterTasksSerial(env: Env, i: nat, j: nat, s: nat, k: nat, w: Walk, left: int)
    requires ValidStep(env.pl.spec, i, s)
    requires w.Walked? ==>
      && ValidEntry(w.status, j, k) && PhaseEntry(env, w.status, i) == Some(j) && StepEntry(env, w.status, i, s) == Some(k)
      && !IsTerminal(w.status.phases[j].status) && !IsTerminal(w.status.phases[j].steps[k].status)
      && PhasesBeforeDone(env, w.status, i) && StepsBeforeDone(env, w.status, i, s)
    requires AllSerialDone(env, w.Status(), w.Trace())
    ensures var w' := AfterTasks(env, i, j, s, k, w, left);
      AllSerialDone(env, w'.Status(), w'.Trace())
    decreases |env.pl.spec.phases[i].steps| - s, 0
  {
    match w
    case Aborted(_) =>
    case Walked(ps', tasksLeft, tr') =>
      if tasksLeft > 0 {
        if env.pl.spec.phases[i].strategy != Serial {
          StepsSerial(env, i, j, s + 1, ps', left, tr');
        }
      } else {
        var ps2 := WithStepStatus(ps', j, k, Completed);
        KeepsTerminalStepUpdate(ps', j, k, Completed);
        SerialDoneKept(env, ps', ps2, tr');
        EntriesOfSameShape(env, ps', ps2);
        assert StepStatusIs(env, ps2, i, s, Completed);
        StepsSerial(env, i, j, s + 1, ps2, left - 1, tr');
      }
  }

  lemma {:induction false} PhasesSerial(env: Env, i: nat, ps: PlanStatus, left: int, tr: seq<Call>)
    requires i <= |env.pl.spec.phases|
    requires PhasesBeforeDone(env, ps, i) && AllSerialDone(env, ps, tr)
    ensures var out := RunPhases(env, i, ps, left, tr);
      AllSerialDone(env, out.status, out.trace)
    decreases |env.pl.spec.phases| - i, 2
  {
    var phases := env.pl.spec.phases;
    if i == |phases| {
      SerialDoneKept(env, ps, Finish(env, ps, left, tr).status, tr);
    } else {
      match IndexOfName(PhaseNames(ps.phases), phases[i].name)
      case None =>
        SerialDoneKept(env, ps, ps.(status := FatalError), tr);
      case Some(j) =>
        var current := ps.phases[j].status;
        if IsFinished(current) {
          assert PhaseStatusIs(env, ps, i, Completed);
          PhasesSerial(env, i + 1, ps, left - 1, tr);
        } else if IsInProgress(current) {
          PhaseVisitSerial(env, i, j, ps, left, tr);
        } else {
          SerialDoneKept(env, ps, Finish(env, ps, left, tr).status, tr);
        }
    }
  }

  lemma {:induction false} PhaseVisitSerial(env: Env, i: nat, j: nat, ps: PlanStatus, left: int, tr: seq<Call>)
    requires i < |env.pl.spec.phases| && j < |ps.phases|
    requires PhaseEntry(env, ps, i) == Some(j) && IsInProgress(ps.phases[j].status)
    requires PhasesBeforeDone(env, ps, i) && AllSerialDone(env, ps, tr)
    ensures var out := RunPhases(env, i, ps, left, tr);
      AllSerialDone(env, out.status, out.trace)
    decreases |env.pl.spec.phases| - i, 1
  {
    var ps1 := WithPhaseStatus(ps, j, InProgress);
    KeepsTerminalPhaseUpdate(ps, j, InProgress);
    SerialDoneKept(env, ps, ps1, tr);
    EntriesOfSameShape(env, ps, ps1);
    var n := |env.pl.spec.phases[i].steps|;
    var w := RunSteps(env, i, j, 0, ps1, n, tr);
    StepsSerial(env, i, j, 0, ps1, n, tr);
    StepsKeep(env, i, j, 0, ps1, n, tr);
    StepsPlanFields(env, i, j, 0, ps1, n, tr);
    SerialDoneKept(env, ps1, w.Status(), tr);
    EntriesOfSameShape(env, ps1, w.Status());
    RunPhasesVisit(env, i, j, ps, left, tr);
    AfterStepsSerial(env, i, j, w, left);
  }

  lemma {:induction false} AfterStepsSerial(env: Env, i: nat, j: nat, w: Walk, left: int)
    requires i < |env.pl.spec.phases|
    requires w.Walked? ==>
      && j < |w.status.phases| && PhaseEntry(env, w.status, i) == Some(j)
      && !IsTerminal(w.status.phases[j].status) && PhasesBeforeDone(env, w.status, i)
    requires AllSerialDone(env, w.Status(), w.Trace())
    ensures var out := AfterSteps(env, i, j, w, left);
      AllSerialDone(env, out.status, out.trace)
    decreases |env.pl.spec.phases| - i, 0
  {
    match w
    case Aborted(_) =>
    case Walked(ps', stepsLeft, tr') =>
      if stepsLeft > 0 {
        if env.pl.spec.strategy == Serial {
          SerialDoneKept(env, ps', Finish(env, ps', left, tr').status, tr');
        } else {
          PhasesSerial(env, i + 1, ps', left, tr');
        }
      } else {
        var ps2 := WithPhaseStatus(ps', j, Completed);
        KeepsTerminalPhaseUpdate(ps', j, Completed);
        SerialDoneKept(env, ps', ps2, tr');
        EntriesOfSameShape(env, ps', ps2);
        assert PhaseStatusIs(env, ps2, i, Completed);
        PhasesSerial(env, i + 1, ps2, left - 1, tr');
      }
  }

  /**
   * Serial gating: in the status tree a pass returns, every task it ran has,
   * when its phase's strategy is Serial, every earlier step of that phase
   * Completed, and when the plan's strategy is Serial, every earlier phase
   * Completed. So no step (phase) after an incomplete one runs.
   */
  lemma PassSerial(env: Env)
    ensures var out := Pass(env);
      AllSerialDone(env, out.status, out.trace)
  {
    var init := env.pl.status;
    if !IsTerminal(init.status) {
      PhasesSerial(env, 0, init.(status := InProgress), |env.pl.spec.phases|, []);
    }
  }
}
