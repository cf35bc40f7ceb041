/**
 * The plan execution engine (pkg/engine/workflow/engine.go).
 *
 * One call of Execute is one pass over an active plan: it walks the plan's
 * phases, their steps and their tasks in specification order, runs every
 * task of every eligible step, and returns the updated status tree together
 * with a fatal error, if one stopped the pass.
 *
 * The status tree is a value: the Go code updates a deep copy of it through
 * references to the entries found by name, which here becomes a lookup of the first entry with
 * that name followed by an update at that index.
 *
 * The two calls into task code, task.Build and Task.Run, are parameters: a
 * predicate telling whether a task of the catalogue can be built, and a
 * function giving the outcome of running a task in a given task context.
 */
module Workflow {
  import opened Wrappers
  import opened KudoApi

  /** What the active plan hands the engine (workflow.ActivePlan). */
  datatype ActivePlan = ActivePlan(
    name: string,
    status: PlanStatus,
    spec: Plan,
    tasks: seq<Task>,
    templates: map<string, string>,
    params: map<string, string>,
    pipes: map<string, string>)

  /**
   * The outcome of Task.Run: (done=true, nil), (done=false, nil), an error
   * that does not wrap the fatal-execution marker, and one that does.
   */
  datatype RunResult = RunDone | RunNotDone | RunTransient | RunFatal

  /** Position of a task reference in the plan specification. */
  datatype Call = Call(phase: nat, step: nat, task: nat)

  /**
   * The errors Execute returns. All of them wrap the fatal-execution marker.
   * The first four are ExecutionErrors carrying an event name; TaskFatal is the
   * task's own fatal error, passed through unchanged.
   */
  datatype ExecError =
    | MissingPhaseStatus(phase: nat)
    | MissingStepStatus(phase: nat, step: nat)
    | UnknownTaskName(at: Call)
    | UnknownTaskKind(at: Call)
    | TaskFatal(at: Call)
  {
    /** Event name published with the error; the task's own error carries none. */
    function EventName(): string {
      match this
      case MissingPhaseStatus(_) => "MissingPhaseStatus"
      case MissingStepStatus(_, _) => "MissingStepStatus"
      case UnknownTaskName(_) => "UnknownTaskName"
      case UnknownTaskKind(_) => "UnknownTaskKind"
      case TaskFatal(_) => ""
    }

    /** The spec position at which the pass stopped. */
    function Location(): Call {
      match this
      case MissingPhaseStatus(i) => Call(i, 0, 0)
      case MissingStepStatus(i, s) => Call(i, s, 0)
      case UnknownTaskName(c) => c
      case UnknownTaskKind(c) => c
      case TaskFatal(c) => c
    }
  }

  /** Everything one pass depends on: the plan, the metadata, the two task oracles and the clock reading. */
  datatype Env = Env(
    pl: ActivePlan,
    em: EngineMeta,
    builds: Task -> bool,
    run: TaskMeta -> RunResult,
    now: Time)

  // ---- status queries ----

  /** isFinished: a Completed element is skipped. */
  predicate IsFinished(s: ExecutionStatus)
    ensures IsFinished(s) ==> IsTerminal(s)
  {
    s == Completed
  }

  /** isInProgress: every status that is not terminal is eligible to run. */
  predicate IsInProgress(s: ExecutionStatus)
    ensures IsInProgress(s) <==> !IsTerminal(s)
  {
    s == InProgress || s == Pending || s == Error
  }

  // ---- lookups by name ----

  /** Index of the first name equal to `name`, if any. */
  function IndexOfName(names: seq<string>, name: string): (r: Option<nat>)
    ensures r.Some? ==> r.value < |names| && names[r.value] == name
    ensures r.Some? ==> forall k :: 0 <= k < r.value ==> names[k] != name
    ensures r.None? <==> name !in names
  {
    if |names| == 0 then None
    else if names[0] == name then Some(0)
    else match IndexOfName(names[1..], name)
      case None => None
      case Some(k) => Some(k + 1)
  }

  /** The first task of the catalogue with the given name. */
  function TaskNamed(tasks: seq<Task>, name: string): (r: Option<Task>)
    ensures r.Some? ==> r.value in tasks && r.value.name == name
    ensures r.None? <==> forall t :: t in tasks ==> t.name != name
  {
    match IndexOfName(TaskNames(tasks), name)
    case None => None
    case Some(k) => Some(tasks[k])
  }

  /** The task found is the first catalogue task with the name: every task before it has another name. */
  lemma TaskNamedFirst(tasks: seq<Task>, name: string)
    ensures var r := TaskNamed(tasks, name);
      r.Some? ==> exists k :: 0 <= k < |tasks| && tasks[k] == r.value && forall k' :: 0 <= k' < k ==> tasks[k'].name != name
  {
    var r := TaskNamed(tasks, name);
    if r.Some? {
      var k := IndexOfName(TaskNames(tasks), name).value;
      assert tasks[k] == r.value;
    }
  }

  /** getPhaseStatus: index of the first phase status with the given name. */
  method GetPhaseStatus(phaseName: string, planStatus: PlanStatus) returns (r: Option<nat>)
    ensures r == IndexOfName(PhaseNames(planStatus.phases), phaseName)
  {
    var i := 0;
    while i < |planStatus.phases|
      invariant 0 <= i <= |planStatus.phases|
      invariant forall k :: 0 <= k < i ==> planStatus.phases[k].name != phaseName
    {
      if planStatus.phases[i].name == phaseName {
        FirstNameHere(PhaseNames(planStatus.phases), phaseName, i);
        return Some(i);
      }
      i := i + 1;
    }
    return None;
  }

  /** getStepStatus: index of the first step status with the given name. */
  method GetStepStatus(stepName: string, phaseStatus: PhaseStatus) returns (r: Option<nat>)
    ensures r == IndexOfName(StepNames(phaseStatus.steps), stepName)
  {
    var i := 0;
    while i < |phaseStatus.steps|
      invariant 0 <= i <= |phaseStatus.steps|
      invariant forall k :: 0 <= k < i ==> phaseStatus.steps[k].name != stepName
    {
      if phaseStatus.steps[i].name == stepName {
        FirstNameHere(StepNames(phaseStatus.steps), stepName, i);
        return Some(i);
      }
      i := i + 1;
    }
    return None;
  }

  /** ActivePlan.taskByName (and the closure of the same name in pipesMap). */
  method TaskByName(tasks: seq<Task>, name: string) returns (r: Option<Task>)
    ensures r == TaskNamed(tasks, name)
  {
    var i := 0;
    while i < |tasks|
      invariant 0 <= i <= |tasks|
      invariant forall k :: 0 <= k < i ==> tasks[k].name != name
    {
      if tasks[i].name == name {
        FirstNameHere(TaskNames(tasks), name, i);
        return Some(tasks[i]);
      }
      i := i + 1;
    }
    return None;
  }

  /** The first-match specification pins the lookup result down. */
  lemma FirstNameHere(names: seq<string>, name: string, i: nat)
    requires i < |names| && names[i] == name
    requires forall k :: 0 <= k < i ==> names[k] != name
    ensures IndexOfName(names, name) == Some(i)
  {
  }

  // ---- status tree updates ----

  /** The names, order and lengths of a status tree: everything but its statuses and timestamp. */
  ghost predicate SameShape(a: PlanStatus, b: PlanStatus) {
    && a.name == b.name
    && PhaseNames(a.phases) == PhaseNames(b.phases)
    && forall j :: 0 <= j < |a.phases| ==> StepNames(a.phases[j].steps) == StepNames(b.phases[j].steps)
  }

  predicate ValidEntry(ps: PlanStatus, j: nat, k: nat) {
    j < |ps.phases| && k < |ps.phases[j].steps|
  }

  function WithPhaseStatus(ps: PlanStatus, j: nat, st: ExecutionStatus): (r: PlanStatus)
    requires j < |ps.phases|
    ensures SameShape(ps, r)
    ensures r.phases[j].status == st
  {
    var r := ps.(phases := ps.phases[j := ps.phases[j].(status := st)]);
    assert PhaseNames(r.phases) == PhaseNames(ps.phases);
    r
  }

  function WithStepStatus(ps: PlanStatus, j: nat, k: nat, st: ExecutionStatus): (r: PlanStatus)
    requires ValidEntry(ps, j, k)
    ensures SameShape(ps, r)
    ensures r.phases[j].steps[k].status == st
  {
    var ph := ps.phases[j];
    var ph' := ph.(steps := ph.steps[k := ph.steps[k].(status := st)]);
    var r := ps.(phases := ps.phases[j := ph']);
    assert StepNames(ph'.steps) == StepNames(ph.steps);
    assert PhaseNames(r.phases) == PhaseNames(ps.phases);
    r
  }

  /** A fatal condition inside a step marks the step, its phase and the plan FatalError. */
  function MarkFatal(ps: PlanStatus, j: nat, k: nat): (r: PlanStatus)
    requires ValidEntry(ps, j, k)
    ensures SameShape(ps, r)
  {
    WithStepStatus(WithPhaseStatus(ps, j, FatalError), j, k, FatalError).(status := FatalError)
  }

  // ---- the specification of one pass ----

  /** The result of a pass: the new status tree, the error, and the task runs made, in order. */
  datatype Outcome = Outcome(status: PlanStatus, err: Option<ExecError>, trace: seq<Call>)

  /** The result of walking the tasks of a step or the steps of a phase. */
  datatype Walk =
    | Aborted(outcome: Outcome)
    | Walked(status: PlanStatus, left: int, trace: seq<Call>)
  {
    function Status(): PlanStatus {
      if Aborted? then outcome.status else status
    }
    function Trace(): seq<Call> {
      if Aborted? then outcome.trace else trace
    }
  }

  ghost predicate ValidStep(plan: Plan, i: nat, s: nat) {
    i < |plan.phases| && s < |plan.phases[i].steps|
  }

  /** The task context's metadata for the task reference at (i, s, t). */
  ghost function MetaAt(env: Env, i: nat, s: nat, t: nat): TaskMeta
    requires ValidStep(env.pl.spec, i, s) && t < |env.pl.spec.phases[i].steps[s].tasks|
  {
    var phase := env.pl.spec.phases[i];
    var step := phase.steps[s];
    TaskMeta(env.em, env.pl.name, phase.name, step.name, step.tasks[t])
  }

  /**
   * The task loop of step s of phase i from task t on; (j, k) is the step's
   * status entry and `left` the tasks not yet reported done.
   */
  ghost function RunTasks(env: Env, i: nat, s: nat, t: nat, j: nat, k: nat, ps: PlanStatus, left: int, tr: seq<Call>): (w: Walk)
    requires ValidStep(env.pl.spec, i, s) && t <= |env.pl.spec.phases[i].steps[s].tasks|
    requires ValidEntry(ps, j, k)
    ensures SameShape(ps, w.Status())
    ensures w.Aborted? ==> w.outcome.err.Some?
    decreases |env.pl.spec.phases[i].steps[s].tasks| - t
  {
    var step := env.pl.spec.phases[i].steps[s];
    if t == |step.tasks| then Walked(ps, left, tr)
    else
      var at := Call(i, s, t);
      match TaskNamed(env.pl.tasks, step.tasks[t])
      case None => Aborted(Outcome(MarkFatal(ps, j, k), Some(UnknownTaskName(at)), tr))
      case Some(task) =>
        if !env.builds(task) then Aborted(Outcome(MarkFatal(ps, j, k), Some(UnknownTaskKind(at)), tr))
        else
          var tr' := tr + [at];
          match env.run(MetaAt(env, i, s, t))
          case RunFatal => Aborted(Outcome(MarkFatal(ps, j, k), Some(TaskFatal(at)), tr'))
          case RunTransient => RunTasks(env, i, s, t + 1, j, k, WithStepStatus(ps, j, k, Error), left, tr')
          case RunDone => RunTasks(env, i, s, t + 1, j, k, ps, left - 1, tr')
          case RunNotDone => RunTasks(env, i, s, t + 1, j, k, ps, left, tr')
  }

  /**
   * The step loop of phase i from step s on; j is the phase's status entry and
   * `left` the steps not yet completed.
   */
  ghost function RunSteps(env: Env, i: nat, j: nat, s: nat, ps: PlanStatus, left: int, tr: seq<Call>): (w: Walk)
    requires i < |env.pl.spec.phases| && s <= |env.pl.spec.phases[i].steps|
    requires j < |ps.phases|
    ensures SameShape(ps, w.Status())
    ensures w.Aborted? ==> w.outcome.err.Some?
    decreases |env.pl.spec.phases[i].steps| - s
  {
    var phase := env.pl.spec.phases[i];
    if s == |phase.steps| then Walked(ps, left, tr)
    else
      var step := phase.steps[s];
      match IndexOfName(StepNames(ps.phases[j].steps), step.name)
      case None =>
        Aborted(Outcome(WithPhaseStatus(ps, j, FatalError).(status := FatalError), Some(MissingStepStatus(i, s)), tr))
      case Some(k) =>
        var current := ps.phases[j].steps[k].status;
        if IsFinished(current) then RunSteps(env, i, j, s + 1, ps, left - 1, tr)
        else if !IsInProgress(current) then Walked(ps, left, tr)
        else
          match RunTasks(env, i, s, 0, j, k, WithStepStatus(ps, j, k, InProgress), |step.tasks|, tr)
          case Aborted(out) => Aborted(out)
          case Walked(ps', tasksLeft, tr') =>
            if tasksLeft > 0 then
              if phase.strategy == Serial then Walked(ps', left, tr')
              else RunSteps(env, i, j, s + 1, ps', left, tr')
            else RunSteps(env, i, j, s + 1, WithStepStatus(ps', j, k, Completed), left - 1, tr')
  }

  /** The end of a pass that was not aborted: the plan completes when no phase is left. */
  ghost function Finish(env: Env, ps: PlanStatus, left: int, tr: seq<Call>): (out: Outcome)
    ensures SameShape(ps, out.status) && out.err == None
  {
    if left == 0 then Outcome(ps.(status := Completed, lastFinishedRun := env.now), None, tr)
    else Outcome(ps, None, tr)
  }

  /** The phase loop from phase i on; `left` is the phases not yet completed. */
  ghost function RunPhases(env: Env, i: nat, ps: PlanStatus, left: int, tr: seq<Call>): (out: Outcome)
    requires i <= |env.pl.spec.phases|
    ensures SameShape(ps, out.status)
    decreases |env.pl.spec.phases| - i
  {
    var phases := env.pl.spec.phases;
    if i == |phases| then Finish(env, ps, left, tr)
    else
      var phase := phases[i];
      match IndexOfName(PhaseNames(ps.phases), phase.name)
      case None => Outcome(ps.(status := FatalError), Some(MissingPhaseStatus(i)), tr)
      case Some(j) =>
        var current := ps.phases[j].status;
        if IsFinished(current) then RunPhases(env, i + 1, ps, left - 1, tr)
        else if !IsInProgress(current) then Finish(env, ps, left, tr)
        else
          match RunSteps(env, i, j, 0, WithPhaseStatus(ps, j, InProgress), |phase.steps|, tr)
          case Aborted(out) => out
          case Walked(ps', stepsLeft, tr') =>
            if stepsLeft > 0 then
              if env.pl.spec.strategy == Serial then Finish(env, ps', left, tr')
              else RunPhases(env, i + 1, ps', left, tr')
            else RunPhases(env, i + 1, WithPhaseStatus(ps', j, Completed), left - 1, tr')
  }

  /** One pass of the engine over an active plan. */
  ghost function Pass(env: Env): (out: Outcome)
    ensures SameShape(env.pl.status, out.status)
  {
    if IsTerminal(env.pl.status.status) then Outcome(env.pl.status, None, [])
    else RunPhases(env, 0, env.pl.status.(status := InProgress), |env.pl.spec.phases|, [])
  }

  // ---- the engine ----

  /** A walk as the loop methods report it: an error aborts, otherwise the counter is returned. */
  function WalkOf(ps: PlanStatus, left: int, err: Option<ExecError>, tr: seq<Call>): Walk {
    if err.Some? then Aborted(Outcome(ps, err, tr)) else Walked(ps, left, tr)
  }

  /**
   * The task loop of Execute for step s of phase i, whose status entry is (j, k):
   * runs every task of the step in order unless a fatal condition stops it.
   */
  method ExecuteTasks(pl: ActivePlan, em: EngineMeta, builds: Task -> bool, run: TaskMeta -> RunResult, currentTime: Time,
                      i: nat, s: nat, j: nat, k: nat, planStatus0: PlanStatus, ghost trace0: seq<Call>)
    returns (planStatus: PlanStatus, tasksLeft: int, err: Option<ExecError>, ghost trace: seq<Call>)
    requires ValidStep(pl.spec, i, s) && ValidEntry(planStatus0, j, k)
    ensures WalkOf(planStatus, tasksLeft, err, trace)
         == RunTasks(Env(pl, em, builds, run, currentTime), i, s, 0, j, k, planStatus0, |pl.spec.phases[i].steps[s].tasks|, trace0)
  {
    ghost var env := Env(pl, em, builds, run, currentTime);
    var ph := pl.spec.phases[i];
    var st := ph.steps[s];
    planStatus, trace := planStatus0, trace0;
    tasksLeft := |st.tasks|;
    var t := 0;
    while t < |st.tasks|
      invariant 0 <= t <= |st.tasks|
      invariant SameShape(planStatus0, planStatus)
      invariant RunTasks(env, i, s, t, j, k, planStatus, tasksLeft, trace) == RunTasks(env, i, s, 0, j, k, planStatus0, |st.tasks|, trace0)
    {
      var tn := st.tasks[t];
      var taskOpt := TaskByName(pl.tasks, tn);
      if taskOpt.None? {
        planStatus := MarkFatal(planStatus, j, k);
        return planStatus, tasksLeft, Some(UnknownTaskName(Call(i, s, t))), trace;
      }
      var task := taskOpt.value;
      var meta := TaskMeta(em, pl.name, ph.name, st.name, tn);
      if !builds(task) {
        planStatus := MarkFatal(planStatus, j, k);
        return planStatus, tasksLeft, Some(UnknownTaskKind(Call(i, s, t))), trace;
      }

      var result := run(meta);
      trace := trace + [Call(i, s, t)];
      match result {
        case RunFatal =>
          planStatus := MarkFatal(planStatus, j, k);
          return planStatus, tasksLeft, Some(TaskFatal(Call(i, s, t))), trace;
        case RunTransient =>
          planStatus := WithStepStatus(planStatus, j, k, Error);
        case RunDone =>
          tasksLeft := tasksLeft - 1;
        case RunNotDone =>
      }
      t := t + 1;
    }
    err := None;
  }

  /**
   * The step loop of Execute for phase i, whose status entry is j: walks the
   * steps in order, skipping completed ones and gating on the phase strategy.
   */
  method ExecuteSteps(pl: ActivePlan, em: EngineMeta, builds: Task -> bool, run: TaskMeta -> RunResult, currentTime: Time,
                      i: nat, j: nat, planStatus0: PlanStatus, ghost trace0: seq<Call>)
    returns (planStatus: PlanStatus, stepsLeft: int, err: Option<ExecError>, ghost trace: seq<Call>)
    requires i < |pl.spec.phases| && j < |planStatus0.phases|
    ensures WalkOf(planStatus, stepsLeft, err, trace)
         == RunSteps(Env(pl, em, builds, run, currentTime), i, j, 0, planStatus0, |pl.spec.phases[i].steps|, trace0)
  {
    ghost var env := Env(pl, em, builds, run, currentTime);
    var ph := pl.spec.phases[i];
    planStatus, trace := planStatus0, trace0;
    stepsLeft := |ph.steps|;
    var s := 0;
    while s < |ph.steps|
      invariant 0 <= s <= |ph.steps|
      invariant SameShape(planStatus0, planStatus)
      invariant RunSteps(env, i, j, s, planStatus, stepsLeft, trace) == RunSteps(env, i, j, 0, planStatus0, |ph.steps|, trace0)
    {
      var st := ph.steps[s];
      var kOpt := GetStepStatus(st.name, planStatus.phases[j]);
      if kOpt.None? {
        planStatus := WithPhaseStatus(planStatus, j, FatalError);
        planStatus := planStatus.(status := FatalError);
        return planStatus, stepsLeft, Some(MissingStepStatus(i, s)), trace;
      }
      var k := kOpt.value;

      if IsFinished(planStatus.phases[j].steps[k].status) {
        stepsLeft := stepsLeft - 1;
        s := s + 1;
        continue;
      } else if IsInProgress(planStatus.phases[j].steps[k].status) {
        planStatus := WithStepStatus(planStatus, j, k, InProgress);
      } else {
        break;
      }

      var tasksLeft, taskErr;
      planStatus, tasksLeft, taskErr, trace := ExecuteTasks(pl, em, builds, run, currentTime, i, s, j, k, planStatus, trace);
      if taskErr.Some? {
        return planStatus, stepsLeft, taskErr, trace;
      }

      if tasksLeft > 0 {
        if ph.strategy == Serial {
          break;
        }
      } else {
        planStatus := WithStepStatus(planStatus, j, k, Completed);
        stepsLeft := stepsLeft - 1;
      }
      s := s + 1;
    }
    err := None;
  }

  /**
   * Execute: one pass over the active plan. Returns the new plan status, the
   * fatal error that stopped the pass if any, and (ghost) the positions of the
   * tasks it ran, in order. The phase loop is here; the step and task loops are
   * ExecuteSteps and ExecuteTasks.
   */
  method Execute(pl: ActivePlan, em: EngineMeta, builds: Task -> bool, run: TaskMeta -> RunResult, currentTime: Time)
    returns (r: PlanStatus, err: Option<ExecError>, ghost trace: seq<Call>)
    ensures Outcome(r, err, trace) == Pass(Env(pl, em, builds, run, currentTime))
    ensures IsTerminal(pl.status.status) ==> r == pl.status && err == None && trace == []
    ensures SameShape(pl.status, r)
  {
    ghost var env := Env(pl, em, builds, run, currentTime);
    if IsTerminal(pl.status.status) {
      return pl.status, None, [];
    }
    ghost var final := Pass(env);

    var planStatus := pl.status.(status := InProgress);
    trace := [];
    var phasesLeft := |pl.spec.phases|;
    var i := 0;
    while i < |pl.spec.phases|
      invariant 0 <= i <= |pl.spec.phases|
      invariant RunPhases(env, i, planStatus, phasesLeft, trace) == final
    {
      var ph := pl.spec.phases[i];
      var jOpt := GetPhaseStatus(ph.name, planStatus);
      if jOpt.None? {
        planStatus := planStatus.(status := FatalError);
        return planStatus, Some(MissingPhaseStatus(i)), trace;
      }
      var j := jOpt.value;

      if IsFinished(planStatus.phases[j].status) {
        phasesLeft := phasesLeft - 1;
        i := i + 1;
        continue;
      } else if IsInProgress(planStatus.phases[j].status) {
        planStatus := WithPhaseStatus(planStatus, j, InProgress);
      } else {
        break;
      }

      var stepsLeft, stepErr;
      planStatus, stepsLeft, stepErr, trace := ExecuteSteps(pl, em, builds, run, currentTime, i, j, planStatus, trace);
      if stepErr.Some? {
        return planStatus, stepErr, trace;
      }

      if stepsLeft > 0 {
        if pl.spec.strategy == Serial {
          break;
        }
      } else {
        planStatus := WithPhaseStatus(planStatus, j, Completed);
        phasesLeft := phasesLeft - 1;
      }
      i := i + 1;
    }

    if phasesLeft == 0 {
      planStatus := planStatus.(status := Completed, lastFinishedRun := currentTime);
    }
    return planStatus, None, trace;
  }
}
