/**
 * The task loop of one step, described without recursion: which tasks run,
 * where the loop stops, how many tasks report done and what becomes of the
 * step's status. RunTasksMatchesReference proves the engine's task loop
 * (Workflow.RunTasks) equal to this description.
 */
module WorkflowTasks {
  import opened Wrappers
  import opened KudoApi
  import opened Workflow

  ghost function TasksOf(env: Env, i: nat, s: nat): seq<string>
    requires ValidStep(env.pl.spec, i, s)
  {
    env.pl.spec.phases[i].steps[s].tasks
  }

  /** The task reference at (i, s, t) names a task of the catalogue that task.Build accepts. */
  ghost predicate Invocable(env: Env, i: nat, s: nat, t: nat)
    requires ValidStep(env.pl.spec, i, s) && t < |TasksOf(env, i, s)|
  {
    var task := TaskNamed(env.pl.tasks, TasksOf(env, i, s)[t]);
    task.Some? && env.builds(task.value)
  }

  /** What running the task at (i, s, t) reports. */
  ghost function ResultAt(env: Env, i: nat, s: nat, t: nat): RunResult
    requires ValidStep(env.pl.spec, i, s) && t < |TasksOf(env, i, s)|
  {
    env.run(MetaAt(env, i, s, t))
  }

  /** The task at (i, s, t) ends the pass: it cannot be resolved or built, or it fails fatally. */
  ghost predicate Stops(env: Env, i: nat, s: nat, t: nat)
    requires ValidStep(env.pl.spec, i, s) && t < |TasksOf(env, i, s)|
  {
    !Invocable(env, i, s, t) || ResultAt(env, i, s, t) == RunFatal
  }

  /** The first task from t on that ends the pass, or the number of tasks if none does. */
  ghost function FirstStop(env: Env, i: nat, s: nat, t: nat): (r: nat)
    requires ValidStep(env.pl.spec, i, s) && t <= |TasksOf(env, i, s)|
    ensures t <= r <= |TasksOf(env, i, s)|
    ensures forall x :: t <= x < r ==> !Stops(env, i, s, x)
    ensures r < |TasksOf(env, i, s)| ==> Stops(env, i, s, r)
    decreases |TasksOf(env, i, s)| - t
  {
    if t == |TasksOf(env, i, s)| then t
    else if Stops(env, i, s, t) then t
    else FirstStop(env, i, s, t + 1)
  }

  /** How many tasks in [from, to) report done. */
  ghost function CountDone(env: Env, i: nat, s: nat, from: nat, to: nat): nat
    requires ValidStep(env.pl.spec, i, s) && from <= to <= |TasksOf(env, i, s)|
    decreases (to as int) - (from as int)
  {
    if from == to then 0
    else (if ResultAt(env, i, s, from) == RunDone then 1 else 0) + CountDone(env, i, s, from + 1, to)
  }

  /** Some task in [from, to) reports a transient error. */
  ghost predicate AnyTransient(env: Env, i: nat, s: nat, from: nat, to: nat)
    requires ValidStep(env.pl.spec, i, s) && from <= to <= |TasksOf(env, i, s)|
  {
    exists x :: from <= x < to && ResultAt(env, i, s, x) == RunTransient
  }

  /** The positions of tasks from..to-1 of step s of phase i. */
  function StepCalls(i: nat, s: nat, from: nat, to: nat): (calls: seq<Call>)
    requires from <= to
    ensures |calls| == to - from
    ensures forall x :: 0 <= x < |calls| ==> calls[x] == Call(i, s, from + x)
  {
    seq(to - from, x requires 0 <= x < to - from => Call(i, s, from + x))
  }

  /** The error with which a stopping task ends the pass. */
  ghost function StopError(env: Env, i: nat, s: nat, t: nat): ExecError
    requires ValidStep(env.pl.spec, i, s) && t < |TasksOf(env, i, s)|
  {
    var task := TaskNamed(env.pl.tasks, TasksOf(env, i, s)[t]);
    if task.None? then UnknownTaskName(Call(i, s, t))
    else if !env.builds(task.value) then UnknownTaskKind(Call(i, s, t))
    else TaskFatal(Call(i, s, t))
  }

  /**
   * The task loop from task t on, stated directly: every task up to the first
   * stopping one runs, in order; a stop marks step, phase and plan FatalError;
   * otherwise the step is Error if some task was transient, and each done task
   * lowers the counter by one.
   */
  ghost function TasksReference(env: Env, i: nat, s: nat, t: nat, j: nat, k: nat, ps: PlanStatus, left: int, tr: seq<Call>): Walk
    requires ValidStep(env.pl.spec, i, s) && t <= |TasksOf(env, i, s)|
    requires ValidEntry(ps, j, k)
  {
    var n := |TasksOf(env, i, s)|;
    var stop := FirstStop(env, i, s, t);
    var ran := tr + StepCalls(i, s, t, stop);
    if stop == n then
      Walked(if AnyTransient(env, i, s, t, n) then WithStepStatus(ps, j, k, Error) else ps,
             left - CountDone(env, i, s, t, n),
             ran)
    else
      var e := StopError(env, i, s, stop);
      Aborted(Outcome(MarkFatal(ps, j, k), Some(e), if e.TaskFatal? then ran + [Call(i, s, stop)] else ran))
  }

  lemma WithStepStatusTwice(ps: PlanStatus, j: nat, k: nat, a: ExecutionStatus, b: ExecutionStatus)
    requires ValidEntry(ps, j, k)
    ensures WithStepStatus(WithStepStatus(ps, j, k, a), j, k, b) == WithStepStatus(ps, j, k, b)
  {
    var ps1 := WithStepStatus(ps, j, k, a);
    assert ps1.phases[j].steps[k := ps1.phases[j].steps[k].(status := b)] == ps.phases[j].steps[k := ps.phases[j].steps[k].(status := b)];
    assert ps1.phases[j := ps1.phases[j].(steps := ps1.phases[j].steps[k := ps1.phases[j].steps[k].(status := b)])]
        == ps.phases[j := ps.phases[j].(steps := ps.phases[j].steps[k := ps.phases[j].steps[k].(status := b)])];
  }

  lemma MarkFatalAbsorbs(ps: PlanStatus, j: nat, k: nat, a: ExecutionStatus)
    requires ValidEntry(ps, j, k)
    ensures MarkFatal(WithStepStatus(ps, j, k, a), j, k) == MarkFatal(ps, j, k)
  {
    var ps1 := WithStepStatus(ps, j, k, a);
    var q1 := WithPhaseStatus(ps1, j, FatalError);
    var q := WithPhaseStatus(ps, j, FatalError);
    assert q1 == WithStepStatus(q, j, k, a);
    WithStepStatusTwice(q, j, k, a, FatalError);
  }

  lemma StepCallsCons(i: nat, s: nat, from: nat, to: nat)
    requires from < to
    ensures [Call(i, s, from)] + StepCalls(i, s, from + 1, to) == StepCalls(i, s, from, to)
  {
  }

  /** The status and counter a non-stopping task at t leaves for the rest of the loop. */
  ghost function StatusAfter(env: Env, i: nat, s: nat, t: nat, j: nat, k: nat, ps: PlanStatus): PlanStatus
    requires ValidStep(env.pl.spec, i, s) && t < |TasksOf(env, i, s)| && ValidEntry(ps, j, k)
  {
    if ResultAt(env, i, s, t) == RunTransient then WithStepStatus(ps, j, k, Error) else ps
  }

  ghost function LeftAfter(env: Env, i: nat, s: nat, t: nat, left: int): int
    requires ValidStep(env.pl.spec, i, s) && t < |TasksOf(env, i, s)|
  {
    if ResultAt(env, i, s, t) == RunDone then left - 1 else left
  }

  lemma ReferenceAtStop(env: Env, i: nat, s: nat, t: nat, j: nat, k: nat, ps: PlanStatus, left: int, tr: seq<Call>)
    requires ValidStep(env.pl.spec, i, s) && t <= |TasksOf(env, i, s)|
    requires ValidEntry(ps, j, k)
    requires t == |TasksOf(env, i, s)| || Stops(env, i, s, t)
    ensures RunTasks(env, i, s, t, j, k, ps, left, tr) == TasksReference(env, i, s, t, j, k, ps, left, tr)
  {
    assert FirstStop(env, i, s, t) == t;
    assert tr + StepCalls(i, s, t, t) == tr;
  }

  /** The status a loop that runs every task from t on leaves, after the task at t has run. */
  lemma TransientAdvance(env: Env, i: nat, s: nat, t: nat, j: nat, k: nat, ps: PlanStatus)
    requires ValidStep(env.pl.spec, i, s) && t < |TasksOf(env, i, s)|
    requires ValidEntry(ps, j, k)
    ensures var n := |TasksOf(env, i, s)|;
      var ps' := StatusAfter(env, i, s, t, j, k, ps);
      (if AnyTransient(env, i, s, t, n) then WithStepStatus(ps, j, k, Error) else ps)
      == (if AnyTransient(env, i, s, t + 1, n) then WithStepStatus(ps', j, k, Error) else ps')
  {
    var n := |TasksOf(env, i, s)|;
    if ResultAt(env, i, s, t) == RunTransient {
      assert AnyTransient(env, i, s, t, n);
      WithStepStatusTwice(ps, j, k, Error, Error);
    } else {
      assert AnyTransient(env, i, s, t, n) <==> AnyTransient(env, i, s, t + 1, n);
    }
  }

  lemma ReferenceAdvanceWalked(env: Env, i: nat, s: nat, t: nat, j: nat, k: nat, ps: PlanStatus, left: int, tr: seq<Call>)
    requires ValidStep(env.pl.spec, i, s) && t < |TasksOf(env, i, s)|
    requires ValidEntry(ps, j, k)
    requires !Stops(env, i, s, t) && FirstStop(env, i, s, t) == |TasksOf(env, i, s)|
    ensures TasksReference(env, i, s, t, j, k, ps, left, tr)
         == TasksReference(env, i, s, t + 1, j, k, StatusAfter(env, i, s, t, j, k, ps), LeftAfter(env, i, s, t, left), tr + [Call(i, s, t)])
  {
    var n := |TasksOf(env, i, s)|;
    assert FirstStop(env, i, s, t + 1) == n;
    StepCallsCons(i, s, t, n);
    assert tr + [Call(i, s, t)] + StepCalls(i, s, t + 1, n) == tr + StepCalls(i, s, t, n);
    TransientAdvance(env, i, s, t, j, k, ps);
  }

  lemma ReferenceAdvanceAborted(env: Env, i: nat, s: nat, t: nat, j: nat, k: nat, ps: PlanStatus, left: int, tr: seq<Call>)
    requires ValidStep(env.pl.spec, i, s) && t < |TasksOf(env, i, s)|
    requires ValidEntry(ps, j, k)
    requires !Stops(env, i, s, t) && FirstStop(env, i, s, t) < |TasksOf(env, i, s)|
    ensures TasksReference(env, i, s, t, j, k, ps, left, tr)
         == TasksReference(env, i, s, t + 1, j, k, StatusAfter(env, i, s, t, j, k, ps), LeftAfter(env, i, s, t, left), tr + [Call(i, s, t)])
  {
    var stop := FirstStop(env, i, s, t);
    assert FirstStop(env, i, s, t + 1) == stop;
    StepCallsCons(i, s, t, stop);
    assert tr + [Call(i, s, t)] + StepCalls(i, s, t + 1, stop) == tr + StepCalls(i, s, t, stop);
    MarkFatalAbsorbs(ps, j, k, Error);
  }

  /** A task that does not stop the pass hands its status and counter to the next iteration. */
  lemma RunTasksAdvance(env: Env, i: nat, s: nat, t: nat, j: nat, k: nat, ps: PlanStatus, left: int, tr: seq<Call>)
    requires ValidStep(env.pl.spec, i, s) && t < |TasksOf(env, i, s)|
    requires ValidEntry(ps, j, k)
    requires !Stops(env, i, s, t)
    ensures RunTasks(env, i, s, t, j, k, ps, left, tr)
         == RunTasks(env, i, s, t + 1, j, k, StatusAfter(env, i, s, t, j, k, ps), LeftAfter(env, i, s, t, left), tr + [Call(i, s, t)])
  {
  }

  /** The engine's task loop is the reference description. */
  lemma {:induction false} RunTasksMatchesReference(env: Env, i: nat, s: nat, t: nat, j: nat, k: nat, ps: PlanStatus, left: int, tr: seq<Call>)
    requires ValidStep(env.pl.spec, i, s) && t <= |TasksOf(env, i, s)|
    requires ValidEntry(ps, j, k)
    ensures RunTasks(env, i, s, t, j, k, ps, left, tr) == TasksReference(env, i, s, t, j, k, ps, left, tr)
    decreases |TasksOf(env, i, s)| - t
  {
    if t == |TasksOf(env, i, s)| || Stops(env, i, s, t) {
      ReferenceAtStop(env, i, s, t, j, k, ps, left, tr);
    } else {
      var ps1 := StatusAfter(env, i, s, t, j, k, ps);
      var left1 := LeftAfter(env, i, s, t, left);
      RunTasksAdvance(env, i, s, t, j, k, ps, left, tr);
      RunTasksMatchesReference(env, i, s, t + 1, j, k, ps1, left1, tr + [Call(i, s, t)]);
      if FirstStop(env, i, s, t) == |TasksOf(env, i, s)| {
        ReferenceAdvanceWalked(env, i, s, t, j, k, ps, left, tr);
      } else {
        ReferenceAdvanceAborted(env, i, s, t, j, k, ps, left, tr);
      }
    }
  }
}
