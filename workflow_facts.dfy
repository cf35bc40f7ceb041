/**
 * Facts about one pass that the property lemmas build on: what the task and
 * step loops leave unchanged, how they extend the trace of task runs, and the
 * counting behind step completion.
 */
module WorkflowFacts {
  import opened Wrappers
  import opened KudoApi
  import opened Workflow
  import opened WorkflowTasks

  /** Entries that are Completed or FatalError in `a` have the same status in `b`. */
  ghost predicate KeepsTerminal(a: PlanStatus, b: PlanStatus) {
    && SameShape(a, b)
    && (forall j :: 0 <= j < |a.phases| && IsTerminal(a.phases[j].status) ==>
          b.phases[j].status == a.phases[j].status)
    && (forall j, k :: 0 <= j < |a.phases| && 0 <= k < |a.phases[j].steps| && IsTerminal(a.phases[j].steps[k].status) ==>
          k < |b.phases[j].steps| && b.phases[j].steps[k].status == a.phases[j].steps[k].status)
  }

  /** `tr2` is `tr` followed by runs of tasks of phase i only. */
  ghost predicate Extends(tr: seq<Call>, tr2: seq<Call>, i: nat) {
    |tr| <= |tr2| && tr2[..|tr|] == tr && forall x :: |tr| <= x < |tr2| ==> tr2[x].phase == i
  }

  lemma SameShapeSteps(a: PlanStatus, b: PlanStatus, j: nat)
    requires SameShape(a, b) && j < |a.phases|
    ensures j < |b.phases| && |b.phases[j].steps| == |a.phases[j].steps|
  {
    assert |PhaseNames(a.phases)| == |PhaseNames(b.phases)|;
    assert |StepNames(a.phases[j].steps)| == |StepNames(b.phases[j].steps)|;
  }

  lemma KeepsTerminalRefl(a: PlanStatus)
    ensures KeepsTerminal(a, a)
  {
  }

  lemma KeepsTerminalTrans(a: PlanStatus, b: PlanStatus, c: PlanStatus)
    requires KeepsTerminal(a, b) && KeepsTerminal(b, c)
    ensures KeepsTerminal(a, c)
  {
    forall j, k | 0 <= j < |a.phases| && 0 <= k < |a.phases[j].steps| && IsTerminal(a.phases[j].steps[k].status)
      ensures k < |c.phases[j].steps| && c.phases[j].steps[k].status == a.phases[j].steps[k].status
    {
      SameShapeSteps(a, b, j);
      SameShapeSteps(b, c, j);
    }
  }

  /** Changing a status that is not terminal, or the plan's own fields, keeps every terminal entry. */
  lemma KeepsTerminalPhaseUpdate(a: PlanStatus, j: nat, st: ExecutionStatus)
    requires j < |a.phases| && !IsTerminal(a.phases[j].status)
    ensures KeepsTerminal(a, WithPhaseStatus(a, j, st))
  {
  }

  lemma KeepsTerminalStepUpdate(a: PlanStatus, j: nat, k: nat, st: ExecutionStatus)
    requires ValidEntry(a, j, k) && !IsTerminal(a.phases[j].steps[k].status)
    ensures KeepsTerminal(a, WithStepStatus(a, j, k, st))
  {
    var b := WithStepStatus(a, j, k, st);
    forall j', k' | 0 <= j' < |a.phases| && 0 <= k' < |a.phases[j'].steps| && IsTerminal(a.phases[j'].steps[k'].status)
      ensures k' < |b.phases[j'].steps| && b.phases[j'].steps[k'].status == a.phases[j'].steps[k'].status
    {
      SameShapeSteps(a, b, j');
    }
  }

  lemma KeepsTerminalMarkFatal(a: PlanStatus, j: nat, k: nat)
    requires ValidEntry(a, j, k) && !IsTerminal(a.phases[j].status) && !IsTerminal(a.phases[j].steps[k].status)
    ensures KeepsTerminal(a, MarkFatal(a, j, k))
  {
    var a1 := WithPhaseStatus(a, j, FatalError);
    KeepsTerminalPhaseUpdate(a, j, FatalError);
    KeepsTerminalStepUpdate(a1, j, k, FatalError);
    KeepsTerminalTrans(a, a1, WithStepStatus(a1, j, k, FatalError));
  }

  lemma ExtendsTrans(a: seq<Call>, b: seq<Call>, c: seq<Call>, i: nat)
    requires Extends(a, b, i) && Extends(b, c, i)
    ensures Extends(a, c, i)
  {
    assert c[..|a|] == c[..|b|][..|a|];
  }

  lemma ExtendsStepCalls(tr: seq<Call>, i: nat, s: nat, from: nat, to: nat, extra: seq<Call>)
    requires from <= to
    requires forall x :: 0 <= x < |extra| ==> extra[x].phase == i
    ensures Extends(tr, tr + StepCalls(i, s, from, to) + extra, i)
  {
    var tr2 := tr + StepCalls(i, s, from, to) + extra;
    assert tr2[..|tr|] == tr;
    forall x | |tr| <= x < |tr2|
      ensures tr2[x].phase == i
    {
      if x < |tr| + to - from {
        assert tr2[x] == StepCalls(i, s, from, to)[x - |tr|];
      } else {
        assert tr2[x] == extra[x - |tr| - (to - from)];
      }
    }
  }

  /** How many tasks report done is at most how many there are, and equal exactly when all of them do. */
  lemma {:induction false} CountDoneAll(env: Env, i: nat, s: nat, from: nat, to: nat)
    requires ValidStep(env.pl.spec, i, s) && from <= to <= |TasksOf(env, i, s)|
    ensures CountDone(env, i, s, from, to) <= to - from
    ensures CountDone(env, i, s, from, to) == to - from <==> (forall x :: from <= x < to ==> ResultAt(env, i, s, x) == RunDone)
    decreases (to as int) - (from as int)
  {
    if from < to {
      CountDoneAll(env, i, s, from + 1, to);
    }
  }

  /** The plan-level fields and the phase entry after the task loop of one step. */
  lemma TasksPlanFields(env: Env, i: nat, s: nat, j: nat, k: nat, ps: PlanStatus, tr: seq<Call>)
    requires ValidStep(env.pl.spec, i, s) && ValidEntry(ps, j, k)
    ensures var w := RunTasks(env, i, s, 0, j, k, ps, |TasksOf(env, i, s)|, tr);
      && w.Status().lastFinishedRun == ps.lastFinishedRun
      && (w.Walked? ==> w.status.status == ps.status && w.status.phases[j].status == ps.phases[j].status)
      && (w.Aborted? ==> w.outcome.status.status == FatalError && w.outcome.status.phases[j].status == FatalError)
  {
    RunTasksMatchesReference(env, i, s, 0, j, k, ps, |TasksOf(env, i, s)|, tr);
  }

  /** Walk w, begun from status ps and trace tr, changed no phase entry but j, kept terminal statuses and added runs of phase i only. */
  ghost predicate Kept(i: nat, j: nat, ps: PlanStatus, tr: seq<Call>, w: Walk)
    requires j < |ps.phases|
  {
    && Extends(tr, w.Trace(), i)
    && KeepsTerminal(ps, w.Status())
    && (forall j' :: 0 <= j' < |ps.phases| && j' != j ==> w.Status().phases[j'] == ps.phases[j'])
  }

  /** Kept, and a task loop that went on leaves its own step entry non-terminal. */
  ghost predicate TasksKept(i: nat, j: nat, k: nat, ps: PlanStatus, tr: seq<Call>, w: Walk)
    requires ValidEntry(ps, j, k)
  {
    Kept(i, j, ps, tr, w) && (w.Walked? ==> ValidEntry(w.status, j, k) && !IsTerminal(w.status.phases[j].steps[k].status))
  }

  /** Kept composes: a walk kept from an intermediate status that was itself kept from ps. */
  lemma KeptTrans(i: nat, j: nat, ps: PlanStatus, tr: seq<Call>, mid: PlanStatus, midTr: seq<Call>, w: Walk)
    requires j < |ps.phases| && j < |mid.phases|
    requires Kept(i, j, ps, tr, Walked(mid, 0, midTr)) && Kept(i, j, mid, midTr, w)
    ensures Kept(i, j, ps, tr, w)
  {
    KeepsTerminalTrans(ps, mid, w.Status());
    ExtendsTrans(tr, midTr, w.Trace(), i);
  }

  /** Setting a non-terminal step entry of phase j keeps what Kept asks. */
  lemma KeptStepUpdate(i: nat, j: nat, k: nat, ps: PlanStatus, tr: seq<Call>, st: ExecutionStatus)
    requires ValidEntry(ps, j, k) && !IsTerminal(ps.phases[j].steps[k].status)
    ensures Kept(i, j, ps, tr, Walked(WithStepStatus(ps, j, k, st), 0, tr))
  {
    KeepsTerminalStepUpdate(ps, j, k, st);
    assert tr[..|tr|] == tr;
  }

  lemma TasksKeepReference(env: Env, i: nat, s: nat, j: nat, k: nat, ps: PlanStatus, left: int, tr: seq<Call>)
    requires ValidStep(env.pl.spec, i, s) && ValidEntry(ps, j, k)
    requires !IsTerminal(ps.phases[j].status) && !IsTerminal(ps.phases[j].steps[k].status)
    ensures TasksKept(i, j, k, ps, tr, TasksReference(env, i, s, 0, j, k, ps, left, tr))
  {
    var n := |TasksOf(env, i, s)|;
    var stop := FirstStop(env, i, s, 0);
    if stop == n {
      ExtendsStepCalls(tr, i, s, 0, stop, []);
      assert tr + StepCalls(i, s, 0, stop) + [] == tr + StepCalls(i, s, 0, stop);
      if AnyTransient(env, i, s, 0, n) {
        KeepsTerminalStepUpdate(ps, j, k, Error);
      }
    } else {
      var e := StopError(env, i, s, stop);
      var extra := if e.TaskFatal? then [Call(i, s, stop)] else [];
      ExtendsStepCalls(tr, i, s, 0, stop, extra);
      assert tr + StepCalls(i, s, 0, stop) + extra == (if e.TaskFatal? then tr + StepCalls(i, s, 0, stop) + [Call(i, s, stop)] else tr + StepCalls(i, s, 0, stop));
      KeepsTerminalMarkFatal(ps, j, k);
    }
  }

  /** The task loop of one step changes only that step's entry, keeps terminal statuses, and adds runs of that step. */
  lemma TasksKeep(env: Env, i: nat, s: nat, j: nat, k: nat, ps: PlanStatus, tr: seq<Call>)
    requires ValidStep(env.pl.spec, i, s) && ValidEntry(ps, j, k)
    requires !IsTerminal(ps.phases[j].status) && !IsTerminal(ps.phases[j].steps[k].status)
    ensures TasksKept(i, j, k, ps, tr, RunTasks(env, i, s, 0, j, k, ps, |TasksOf(env, i, s)|, tr)) == true
  {
    var n := |TasksOf(env, i, s)|;
    RunTasksMatchesReference(env, i, s, 0, j, k, ps, n, tr);
    TasksKeepReference(env, i, s, j, k, ps, n, tr);
  }

  /** The plan-level fields and the phase entry after the step loop of one phase. */
  lemma {:induction false} StepsPlanFields(env: Env, i: nat, j: nat, s: nat, ps: PlanStatus, left: int, tr: seq<Call>)
    requires i < |env.pl.spec.phases| && s <= |env.pl.spec.phases[i].steps| && j < |ps.phases|
    ensures var w := RunSteps(env, i, j, s, ps, left, tr);
      && w.Status().lastFinishedRun == ps.lastFinishedRun
      && (w.Walked? ==> w.status.status == ps.status && w.status.phases[j].status == ps.phases[j].status)
      && (w.Aborted? ==> w.outcome.status.status == FatalError && w.outcome.status.phases[j].status == FatalError)
    decreases |env.pl.spec.phases[i].steps| - s
  {
    var phase := env.pl.spec.phases[i];
    if s < |phase.steps| {
      var step := phase.steps[s];
      match IndexOfName(StepNames(ps.phases[j].steps), step.name)
      case None =>
      case Some(k) =>
        var current := ps.phases[j].steps[k].status;
        if IsFinished(current) {
          StepsPlanFields(env, i, j, s + 1, ps, left - 1, tr);
        } else if IsInProgress(current) {
          var ps1 := WithStepStatus(ps, j, k, InProgress);
          TasksPlanFields(env, i, s, j, k, ps1, tr);
          match RunTasks(env, i, s, 0, j, k, ps1, |step.tasks|, tr)
          case Aborted(_) =>
          case Walked(ps', tasksLeft, tr') =>
            SameShapeSteps(ps, ps', j);
            if tasksLeft > 0 {
              if phase.strategy != Serial {
                StepsPlanFields(env, i, j, s + 1, ps', left, tr');
              }
            } else {
              StepsPlanFields(env, i, j, s + 1, WithStepStatus(ps', j, k, Completed), left - 1, tr');
            }
        }
    }
  }

  /** The step loop of one phase changes only that phase's entry, keeps terminal statuses, and adds runs of that phase. */
  lemma {:induction false} StepsKeep(env: Env, i: nat, j: nat, s: nat, ps: PlanStatus, left: int, tr: seq<Call>)
    requires i < |env.pl.spec.phases| && s <= |env.pl.spec.phases[i].steps| && j < |ps.phases|
    requires !IsTerminal(ps.phases[j].status)
    ensures Kept(i, j, ps, tr, RunSteps(env, i, j, s, ps, left, tr)) == true
    decreases |env.pl.spec.phases[i].steps| - s, 2
  {
    var phase := env.pl.spec.phases[i];
    if s == |phase.steps| {
      KeepsTerminalRefl(ps);
      assert tr[..|tr|] == tr;
    } else {
      var step := phase.steps[s];
      match IndexOfName(StepNames(ps.phases[j].steps), step.name)
      case None =>
        KeepsTerminalPhaseUpdate(ps, j, FatalError);
        assert tr[..|tr|] == tr;
      case Some(k) =>
        var current := ps.phases[j].steps[k].status;
        if IsFinished(current) {
          StepsKeep(env, i, j, s + 1, ps, left - 1, tr);
        } else if IsInProgress(current) {
          StepVisitKeep(env, i, j, s, k, ps, left, tr);
        } else {
          KeepsTerminalRefl(ps);
          assert tr[..|tr|] == tr;
        }
    }
  }

  lemma {:induction false} StepVisitKeep(env: Env, i: nat, j: nat, s: nat, k: nat, ps: PlanStatus, left: int, tr: seq<Call>)
    requires ValidStep(env.pl.spec, i, s) && ValidEntry(ps, j, k)
    requires !IsTerminal(ps.phases[j].status) && IsInProgress(ps.phases[j].steps[k].status)
    requires IndexOfName(StepNames(ps.phases[j].steps), env.pl.spec.phases[i].steps[s].name) == Some(k)
    ensures Kept(i, j, ps, tr, RunSteps(env, i, j, s, ps, left, tr)) == true
    decreases |env.pl.spec.phases[i].steps| - s, 1
  {
    var ps1 := WithStepStatus(ps, j, k, InProgress);
    var w := RunTasks(env, i, s, 0, j, k, ps1, |TasksOf(env, i, s)|, tr);
    KeptStepUpdate(i, j, k, ps, tr, InProgress);
    TasksKeep(env, i, s, j, k, ps1, tr);
    TasksPlanFields(env, i, s, j, k, ps1, tr);
    KeptTrans(i, j, ps, tr, ps1, tr, w);
    RunStepsVisit(env, i, j, s, k, ps, left, tr);
    AfterTasksKeep(env, i, j, s, k, ps, tr, w, left);
  }

  lemma {:induction false} AfterTasksKeep(env: Env, i: nat, j: nat, s: nat, k: nat, ps: PlanStatus, tr: seq<Call>, w: Walk, left: int)
    requires ValidStep(env.pl.spec, i, s) && j < |ps.phases|
    requires Kept(i, j, ps, tr, w)
    requires w.Walked? ==> ValidEntry(w.status, j, k) && !IsTerminal(w.status.phases[j].status) && !IsTerminal(w.status.phases[j].steps[k].status)
    ensures Kept(i, j, ps, tr, AfterTasks(env, i, j, s, k, w, left)) == true
    decreases |env.pl.spec.phases[i].steps| - s, 0
  {
    match w
    case Aborted(_) =>
    case Walked(ps', tasksLeft, tr') =>
      if tasksLeft > 0 {
        if env.pl.spec.phases[i].strategy != Serial {
          StepsKeep(env, i, j, s + 1, ps', left, tr');
          KeptTrans(i, j, ps, tr, ps', tr', RunSteps(env, i, j, s + 1, ps', left, tr'));
        }
      } else {
        var ps2 := WithStepStatus(ps', j, k, Completed);
        KeptStepUpdate(i, j, k, ps', tr', Completed);
        KeptTrans(i, j, ps, tr, ps', tr', Walked(ps2, 0, tr'));
        StepsKeep(env, i, j, s + 1, ps2, left - 1, tr');
        KeptTrans(i, j, ps, tr, ps2, tr', RunSteps(env, i, j, s + 1, ps2, left - 1, tr'));
      }
  }

  // ---- one visit of a phase or a step, with the inner loop's result as a parameter ----

  /** What the phase loop does once the step loop of phase i (status entry j) has returned w. */
  ghost function AfterSteps(env: Env, i: nat, j: nat, w: Walk, left: int): Outcome
    requires i < |env.pl.spec.phases|
    requires w.Walked? ==> j < |w.status.phases|
    decreases |env.pl.spec.phases| - i
  {
    match w
    case Aborted(out) => out
    case Walked(ps', stepsLeft, tr') =>
      if stepsLeft > 0 then
        if env.pl.spec.strategy == Serial then Finish(env, ps', left, tr')
        else RunPhases(env, i + 1, ps', left, tr')
      else RunPhases(env, i + 1, WithPhaseStatus(ps', j, Completed), left - 1, tr')
  }

  /** An eligible phase: the phase loop continues as AfterSteps says. */
  lemma RunPhasesVisit(env: Env, i: nat, j: nat, ps: PlanStatus, left: int, tr: seq<Call>)
    requires i < |env.pl.spec.phases| && j < |ps.phases|
    requires IndexOfName(PhaseNames(ps.phases), env.pl.spec.phases[i].name) == Some(j)
    requires IsInProgress(ps.phases[j].status)
    ensures var w := RunSteps(env, i, j, 0, WithPhaseStatus(ps, j, InProgress), |env.pl.spec.phases[i].steps|, tr);
      && (w.Walked? ==> j < |w.status.phases|)
      && RunPhases(env, i, ps, left, tr) == AfterSteps(env, i, j, w, left)
  {
    var w := RunSteps(env, i, j, 0, WithPhaseStatus(ps, j, InProgress), |env.pl.spec.phases[i].steps|, tr);
    SameShapeSteps(WithPhaseStatus(ps, j, InProgress), w.Status(), j);
  }

  /** A phase with no step left is marked Completed and the pass goes on with one phase fewer left. */
  lemma AfterStepsDone(env: Env, i: nat, j: nat, ps': PlanStatus, tr': seq<Call>, left: int)
    requires i < |env.pl.spec.phases| && j < |ps'.phases|
    ensures AfterSteps(env, i, j, Walked(ps', 0, tr'), left) == RunPhases(env, i + 1, WithPhaseStatus(ps', j, Completed), left - 1, tr')
  {
  }

  /** Under a Parallel plan a phase with steps left is passed over. */
  lemma AfterStepsOn(env: Env, i: nat, j: nat, ps': PlanStatus, stepsLeft: int, tr': seq<Call>, left: int)
    requires i < |env.pl.spec.phases| && j < |ps'.phases|
    requires stepsLeft > 0 && env.pl.spec.strategy != Serial
    ensures AfterSteps(env, i, j, Walked(ps', stepsLeft, tr'), left) == RunPhases(env, i + 1, ps', left, tr')
  {
  }

  /** What the step loop does once the task loop of step s (status entry (j, k)) has returned w. */
  ghost function AfterTasks(env: Env, i: nat, j: nat, s: nat, k: nat, w: Walk, left: int): Walk
    requires i < |env.pl.spec.phases| && s < |env.pl.spec.phases[i].steps|
    requires w.Walked? ==> ValidEntry(w.status, j, k)
    decreases |env.pl.spec.phases[i].steps| - s
  {
    match w
    case Aborted(out) => Aborted(out)
    case Walked(ps', tasksLeft, tr') =>
      if tasksLeft > 0 then
        if env.pl.spec.phases[i].strategy == Serial then Walked(ps', left, tr')
        else RunSteps(env, i, j, s + 1, ps', left, tr')
      else RunSteps(env, i, j, s + 1, WithStepStatus(ps', j, k, Completed), left - 1, tr')
  }

  /** An eligible step: the step loop continues as AfterTasks says. */
  lemma RunStepsVisit(env: Env, i: nat, j: nat, s: nat, k: nat, ps: PlanStatus, left: int, tr: seq<Call>)
    requires ValidStep(env.pl.spec, i, s) && ValidEntry(ps, j, k)
    requires IndexOfName(StepNames(ps.phases[j].steps), env.pl.spec.phases[i].steps[s].name) == Some(k)
    requires IsInProgress(ps.phases[j].steps[k].status)
    ensures var w := RunTasks(env, i, s, 0, j, k, WithStepStatus(ps, j, k, InProgress), |TasksOf(env, i, s)|, tr);
      && (w.Walked? ==> ValidEntry(w.status, j, k))
      && RunSteps(env, i, j, s, ps, left, tr) == AfterTasks(env, i, j, s, k, w, left)
  {
    var w := RunTasks(env, i, s, 0, j, k, WithStepStatus(ps, j, k, InProgress), |TasksOf(env, i, s)|, tr);
    SameShapeSteps(WithStepStatus(ps, j, k, InProgress), w.Status(), j);
  }

  // ---- status entries of spec positions ----

  /** (i, s, t) is the position of a task reference in the plan spec. */
  ghost predicate IsCall(env: Env, c: Call) {
    ValidStep(env.pl.spec, c.phase, c.step) && c.task < |TasksOf(env, c.phase, c.step)|
  }

  /** The status entry that getPhaseStatus finds in st for phase i of the spec. */
  ghost function PhaseEntry(env: Env, st: PlanStatus, i: nat): (r: Option<nat>)
    requires i < |env.pl.spec.phases|
    ensures r.Some? ==> r.value < |st.phases|
  {
    IndexOfName(PhaseNames(st.phases), env.pl.spec.phases[i].name)
  }

  /** The status entry that getStepStatus finds for step s of phase i, inside the phase's entry. */
  ghost function StepEntry(env: Env, st: PlanStatus, i: nat, s: nat): (r: Option<nat>)
    requires ValidStep(env.pl.spec, i, s)
    ensures r.Some? ==> PhaseEntry(env, st, i).Some? && r.value < |st.phases[PhaseEntry(env, st, i).value].steps|
  {
    match PhaseEntry(env, st, i)
    case None => None
    case Some(j) => IndexOfName(StepNames(st.phases[j].steps), env.pl.spec.phases[i].steps[s].name)
  }

  /** Phase i of the spec has a status entry in st, with status v. */
  ghost predicate PhaseStatusIs(env: Env, st: PlanStatus, i: nat, v: ExecutionStatus)
    requires i < |env.pl.spec.phases|
  {
    PhaseEntry(env, st, i).Some? && st.phases[PhaseEntry(env, st, i).value].status == v
  }

  /** Step s of phase i of the spec has a status entry in st, with status v. */
  ghost predicate StepStatusIs(env: Env, st: PlanStatus, i: nat, s: nat, v: ExecutionStatus)
    requires ValidStep(env.pl.spec, i, s)
  {
    StepEntry(env, st, i, s).Some? && st.phases[PhaseEntry(env, st, i).value].steps[StepEntry(env, st, i, s).value].status == v
  }

  /** Status trees of the same shape resolve every spec position to the same entries. */
  lemma EntriesOfSameShape(env: Env, a: PlanStatus, b: PlanStatus)
    requires SameShape(a, b)
    ensures forall i :: 0 <= i < |env.pl.spec.phases| ==> PhaseEntry(env, a, i) == PhaseEntry(env, b, i)
    ensures forall i, s :: ValidStep(env.pl.spec, i, s) ==> StepEntry(env, a, i, s) == StepEntry(env, b, i, s)
  {
  }

  /** Trace tr2 is tr followed by runs of tasks of step s of phase i only. */
  ghost predicate StepRuns(env: Env, i: nat, s: nat, tr: seq<Call>, tr2: seq<Call>)
    requires ValidStep(env.pl.spec, i, s)
  {
    && |tr| <= |tr2| && tr2[..|tr|] == tr
    && forall x :: |tr| <= x < |tr2| ==> tr2[x] == Call(i, s, tr2[x].task) && tr2[x].task < |TasksOf(env, i, s)|
  }

  lemma TasksCallsReference(env: Env, i: nat, s: nat, j: nat, k: nat, ps: PlanStatus, left: int, tr: seq<Call>)
    requires ValidStep(env.pl.spec, i, s) && ValidEntry(ps, j, k)
    ensures StepRuns(env, i, s, tr, TasksReference(env, i, s, 0, j, k, ps, left, tr).Trace())
  {
    var n := |TasksOf(env, i, s)|;
    var stop := FirstStop(env, i, s, 0);
    var ran := tr + StepCalls(i, s, 0, stop);
    assert ran[..|tr|] == tr;
    forall x | |tr| <= x < |ran|
      ensures ran[x] == Call(i, s, x - |tr|)
    {
      assert ran[x] == StepCalls(i, s, 0, stop)[x - |tr|];
    }
    if stop < n {
      assert (ran + [Call(i, s, stop)])[..|tr|] == tr;
      assert (ran + [Call(i, s, stop)])[..|ran|] == ran;
    }
  }

  /** The task loop of step s adds runs of tasks of that step only, after the runs before it. */
  lemma TasksCalls(env: Env, i: nat, s: nat, j: nat, k: nat, ps: PlanStatus, tr: seq<Call>)
    requires ValidStep(env.pl.spec, i, s) && ValidEntry(ps, j, k)
    ensures StepRuns(env, i, s, tr, RunTasks(env, i, s, 0, j, k, ps, |TasksOf(env, i, s)|, tr).Trace()) == true
  {
    var n := |TasksOf(env, i, s)|;
    RunTasksMatchesReference(env, i, s, 0, j, k, ps, n, tr);
    TasksCallsReference(env, i, s, j, k, ps, n, tr);
  }

  /** A status that is Completed stays Completed under KeepsTerminal, entry for entry. */
  lemma CompletedKept(env: Env, a: PlanStatus, b: PlanStatus)
    requires KeepsTerminal(a, b)
    ensures forall i :: 0 <= i < |env.pl.spec.phases| && PhaseStatusIs(env, a, i, Completed) ==> PhaseStatusIs(env, b, i, Completed)
    ensures forall i, s :: ValidStep(env.pl.spec, i, s) && StepStatusIs(env, a, i, s, Completed) ==> StepStatusIs(env, b, i, s, Completed)
  {
    EntriesOfSameShape(env, a, b);
  }

  lemma PhaseEntryOfSameShape(env: Env, a: PlanStatus, b: PlanStatus, i: nat)
    requires SameShape(a, b) && i < |env.pl.spec.phases|
    ensures PhaseEntry(env, a, i) == PhaseEntry(env, b, i)
  {
  }

  lemma StepEntryOfSameShape(env: Env, a: PlanStatus, b: PlanStatus, i: nat, s: nat)
    requires SameShape(a, b) && ValidStep(env.pl.spec, i, s)
    ensures PhaseEntry(env, a, i) == PhaseEntry(env, b, i)
    ensures StepEntry(env, a, i, s) == StepEntry(env, b, i, s)
  {
  }

  /** What the task loop of step s (entry (j, k)) promises about its result w, started from ps and tr. */
  ghost predicate TasksOut(i: nat, j: nat, k: nat, ps: PlanStatus, tr: seq<Call>, w: Walk)
    requires ValidEntry(ps, j, k)
  {
    && Extends(tr, w.Trace(), i)
    && KeepsTerminal(ps, w.Status())
    && (forall j' :: 0 <= j' < |ps.phases| && j' != j ==> w.Status().phases[j'] == ps.phases[j'])
    && w.Status().lastFinishedRun == ps.lastFinishedRun
    && (w.Walked? ==>
          && w.status.status == ps.status && w.status.phases[j].status == ps.phases[j].status
          && !IsTerminal(w.status.phases[j].steps[k].status))
    && (w.Aborted? ==> w.outcome.status.status == FatalError && w.outcome.status.phases[j].status == FatalError)
  }

  lemma TasksOutOk(env: Env, i: nat, s: nat, j: nat, k: nat, ps: PlanStatus, tr: seq<Call>)
    requires ValidStep(env.pl.spec, i, s) && ValidEntry(ps, j, k)
    requires !IsTerminal(ps.phases[j].status) && !IsTerminal(ps.phases[j].steps[k].status)
    ensures TasksOut(i, j, k, ps, tr, RunTasks(env, i, s, 0, j, k, ps, |TasksOf(env, i, s)|, tr))
  {
    TasksKeep(env, i, s, j, k, ps, tr);
    TasksPlanFields(env, i, s, j, k, ps, tr);
  }

  /** What the step loop of phase i (entry j) promises about its result w, started from ps and tr. */
  ghost predicate StepsOut(i: nat, j: nat, ps: PlanStatus, tr: seq<Call>, w: Walk)
    requires j < |ps.phases|
  {
    && Extends(tr, w.Trace(), i)
    && KeepsTerminal(ps, w.Status())
    && (forall j' :: 0 <= j' < |ps.phases| && j' != j ==> w.Status().phases[j'] == ps.phases[j'])
    && w.Status().lastFinishedRun == ps.lastFinishedRun
    && (w.Walked? ==> w.status.status == ps.status && w.status.phases[j].status == ps.phases[j].status)
    && (w.Aborted? ==> w.outcome.status.status == FatalError && w.outcome.status.phases[j].status == FatalError)
  }

  lemma StepsOutOk(env: Env, i: nat, j: nat, s: nat, ps: PlanStatus, left: int, tr: seq<Call>)
    requires i < |env.pl.spec.phases| && s <= |env.pl.spec.phases[i].steps| && j < |ps.phases|
    requires !IsTerminal(ps.phases[j].status)
    ensures StepsOut(i, j, ps, tr, RunSteps(env, i, j, s, ps, left, tr))
  {
    StepsKeep(env, i, j, s, ps, left, tr);
    StepsPlanFields(env, i, j, s, ps, left, tr);
  }
}
