/**
 * The converse of the gating lemmas: the walk runs every task it can reach.
 * When the plan's phase names, and the step names of each phase, are
 * distinct, a pass that returns no error runs a task exactly when the
 * incoming status tree lets the walk reach it and, under a Serial strategy,
 * every earlier step or phase ends Completed. Under a Parallel strategy
 * nothing gates: the walk passes an incomplete step or phase and goes on.
 */
module WorkflowProgress {
  import opened Wrappers
  import opened KudoApi
  import opened Workflow
  import opened WorkflowTasks
  import opened WorkflowFacts
  import opened WorkflowProperties
  import opened WorkflowGating
  import opened WorkflowCompletion

  lemma InPrefix(a: seq<Call>, b: seq<Call>, c: Call)
    requires |a| <= |b| && b[..|a|] == a && c in a
    ensures c in b
  {
    var x :| 0 <= x < |a| && a[x] == c;
    assert b[x] == b[..|a|][x];
  }

  // ---- the step loop of one phase ----

  /** The step entry that step s of phase i resolves to inside phase entry j of st. */
  ghost function Slot(env: Env, st: PlanStatus, i: nat, j: nat, s: nat): (r: Option<nat>)
    requires ValidStep(env.pl.spec, i, s) && j < |st.phases|
    ensures r.Some? ==> r.value < |st.phases[j].steps|
  {
    IndexOfName(StepNames(st.phases[j].steps), env.pl.spec.phases[i].steps[s].name)
  }

  ghost predicate SlotIs(env: Env, st: PlanStatus, i: nat, j: nat, s: nat, v: ExecutionStatus)
    requires ValidStep(env.pl.spec, i, s) && j < |st.phases|
  {
    Slot(env, st, i, j, s).Some? && st.phases[j].steps[Slot(env, st, i, j, s).value].status == v
  }

  /**
   * The step loop of phase i (entry j), at step s0 over ps, still has the
   * step of c ahead: its entry is eligible and no step from s0 up to it is
   * missing or FatalError.
   */
  ghost predicate StepsAhead(env: Env, i: nat, j: nat, s0: nat, ps: PlanStatus, c: Call) {
    && IsCall(env, c) && c.phase == i && s0 <= c.step && j < |ps.phases|
    && DistinctStepNames(env.pl.spec.phases[i])
    && !IsTerminal(ps.phases[j].status)
    && Slot(env, ps, i, j, c.step).Some?
    && IsInProgress(ps.phases[j].steps[Slot(env, ps, i, j, c.step).value].status)
    && forall s :: s0 <= s < c.step ==> Slot(env, ps, i, j, s).Some? && !SlotIs(env, ps, i, j, s, FatalError)
  }

  /** Under a Serial phase i, every step from s0 up to c's step is Completed in st. */
  ghost predicate StepsGated(env: Env, i: nat, j: nat, s0: nat, st: PlanStatus, c: Call) {
    && IsCall(env, c) && c.phase == i && j < |st.phases|
    && (env.pl.spec.phases[i].strategy == Serial ==> forall s :: s0 <= s < c.step ==> SlotIs(env, st, i, j, s, Completed))
  }

  /** A visit of step s0 that changed only its own entry leaves the step of c ahead. */
  lemma StepsAheadNext(env: Env, i: nat, j: nat, s0: nat, k: nat, ps: PlanStatus, ps': PlanStatus, c: Call)
    requires StepsAhead(env, i, j, s0, ps, c) && s0 < c.step && Slot(env, ps, i, j, s0) == Some(k)
    requires j < |ps'.phases| && StepNames(ps'.phases[j].steps) == StepNames(ps.phases[j].steps)
    requires forall k' :: 0 <= k' < |ps.phases[j].steps| && k' != k ==> ps'.phases[j].steps[k'] == ps.phases[j].steps[k']
    requires !IsTerminal(ps'.phases[j].status)
    ensures StepsAhead(env, i, j, s0 + 1, ps', c)
  {
    var names := StepNames(ps.phases[j].steps);
    assert |ps'.phases[j].steps| == |ps.phases[j].steps| by {
      assert |StepNames(ps'.phases[j].steps)| == |names|;
    }
    forall s | s0 < s <= c.step
      ensures Slot(env, ps', i, j, s) == Slot(env, ps, i, j, s)
      ensures Slot(env, ps, i, j, s).Some? ==> Slot(env, ps, i, j, s).value != k
    {
      if Slot(env, ps, i, j, s).Some? {
        assert names[Slot(env, ps, i, j, s).value] == env.pl.spec.phases[i].steps[s].name;
        assert names[k] == env.pl.spec.phases[i].steps[s0].name;
      }
    }
  }

  /** The step of c itself: its tasks all run, and the rest of the walk only appends. */
  lemma StepRunsTarget(env: Env, i: nat, j: nat, s: nat, k: nat, ps: PlanStatus, left: int, tr: seq<Call>, c: Call)
    requires StepsAhead(env, i, j, s, ps, c) == true && s == c.step && Slot(env, ps, i, j, s) == Some(k)
    ensures var w := RunSteps(env, i, j, s, ps, left, tr);
      w.Walked? ==> c in w.trace
  {
    var ps1 := WithStepStatus(ps, j, k, InProgress);
    var w := RunTasks(env, i, s, 0, j, k, ps1, |TasksOf(env, i, s)|, tr);
    RunStepsVisit(env, i, j, s, k, ps, left, tr);
    StepRunsAllTasks(env, i, s, j, k, ps1, tr);
    TasksOutOk(env, i, s, j, k, ps1, tr);
    if w.Walked? {
      assert w.trace[|tr| + c.task] == c;
      AfterTasksExtends(env, i, j, s, k, w, left);
      InPrefix(w.trace, AfterTasks(env, i, j, s, k, w, left).Trace(), c);
    }
  }

  /** After the task loop of step s, the step loop only appends to the trace. */
  lemma AfterTasksExtends(env: Env, i: nat, j: nat, s: nat, k: nat, w: Walk, left: int)
    requires ValidStep(env.pl.spec, i, s) && w.Walked? && ValidEntry(w.status, j, k)
    requires !IsTerminal(w.status.phases[j].status)
    ensures var r := AfterTasks(env, i, j, s, k, w, left);
      |w.trace| <= |r.Trace()| && r.Trace()[..|w.trace|] == w.trace
  {
    var ps' := w.status;
    if w.left > 0 {
      if env.pl.spec.phases[i].strategy != Serial {
        StepsKeep(env, i, j, s + 1, ps', left, w.trace);
      } else {
        assert w.trace[..|w.trace|] == w.trace;
      }
    } else {
      StepsKeep(env, i, j, s + 1, WithStepStatus(ps', j, k, Completed), left - 1, w.trace);
    }
  }

  lemma {:induction false} StepsRunTo(env: Env, i: nat, j: nat, s0: nat, ps: PlanStatus, left: int, tr: seq<Call>, c: Call)
    requires StepsAhead(env, i, j, s0, ps, c) == true
    ensures var w := RunSteps(env, i, j, s0, ps, left, tr);
      w.Walked? && StepsGated(env, i, j, s0, w.status, c) ==> c in w.trace
    decreases |env.pl.spec.phases[i].steps| - s0, 2
  {
    var k := Slot(env, ps, i, j, s0).value;
    if s0 == c.step {
      StepRunsTarget(env, i, j, s0, k, ps, left, tr, c);
    } else if IsFinished(ps.phases[j].steps[k].status) {
      assert RunSteps(env, i, j, s0, ps, left, tr) == RunSteps(env, i, j, s0 + 1, ps, left - 1, tr);
      StepsRunTo(env, i, j, s0 + 1, ps, left - 1, tr, c);
    } else {
      assert !SlotIs(env, ps, i, j, s0, FatalError);
      StepVisitRunTo(env, i, j, s0, k, ps, left, tr, c);
    }
  }

  lemma {:induction false} StepVisitRunTo(env: Env, i: nat, j: nat, s0: nat, k: nat, ps: PlanStatus, left: int, tr: seq<Call>, c: Call)
    requires StepsAhead(env, i, j, s0, ps, c) == true && s0 < c.step && Slot(env, ps, i, j, s0) == Some(k)
    requires IsInProgress(ps.phases[j].steps[k].status)
    ensures var w := RunSteps(env, i, j, s0, ps, left, tr);
      w.Walked? && StepsGated(env, i, j, s0, w.status, c) ==> c in w.trace
    decreases |env.pl.spec.phases[i].steps| - s0, 1
  {
    var ps1 := WithStepStatus(ps, j, k, InProgress);
    var w := RunTasks(env, i, s0, 0, j, k, ps1, |TasksOf(env, i, s0)|, tr);
    RunStepsVisit(env, i, j, s0, k, ps, left, tr);
    AfterTasksRunTo(env, i, j, s0, k, ps, tr, w, left, c);
  }

  lemma {:induction false} AfterTasksRunTo(env: Env, i: nat, j: nat, s0: nat, k: nat, ps: PlanStatus, tr: seq<Call>, w: Walk, left: int, c: Call)
    requires StepsAhead(env, i, j, s0, ps, c) == true && s0 < c.step && Slot(env, ps, i, j, s0) == Some(k)
    requires w == RunTasks(env, i, s0, 0, j, k, WithStepStatus(ps, j, k, InProgress), |TasksOf(env, i, s0)|, tr)
    requires w.Walked? ==> ValidEntry(w.status, j, k)
    ensures var r := AfterTasks(env, i, j, s0, k, w, left);
      r.Walked? && StepsGated(env, i, j, s0, r.status, c) ==> c in r.trace
    decreases |env.pl.spec.phases[i].steps| - s0, 0
  {
    var ps1 := WithStepStatus(ps, j, k, InProgress);
    TasksStepFrame(env, i, s0, j, k, ps1, tr);
    TasksOutOk(env, i, s0, j, k, ps1, tr);
    match w
    case Aborted(_) =>
    case Walked(ps', tasksLeft, tr') =>
      if tasksLeft > 0 {
        if env.pl.spec.phases[i].strategy == Serial {
          assert Slot(env, ps', i, j, s0) == Some(k);
          assert !SlotIs(env, ps', i, j, s0, Completed);
        } else {
          StepsAheadNext(env, i, j, s0, k, ps, ps', c);
          StepsRunTo(env, i, j, s0 + 1, ps', left, tr', c);
        }
      } else {
        var ps2 := WithStepStatus(ps', j, k, Completed);
        StepsAheadNext(env, i, j, s0, k, ps, ps2, c);
        StepsRunTo(env, i, j, s0 + 1, ps2, left - 1, tr', c);
      }
  }

  // ---- the phase loop ----

  /**
   * The phase loop at phase i0 over ps still has the phase of c ahead: its
   * entry and its step's entry are eligible, no phase from i0 up to it is
   * missing or FatalError, and no earlier step of its phase is.
   */
  ghost predicate PhasesAhead(env: Env, i0: nat, ps: PlanStatus, c: Call) {
    && IsCall(env, c) && i0 <= c.phase
    && DistinctPhaseNames(env.pl.spec) && DistinctStepNames(env.pl.spec.phases[c.phase])
    && PhaseEntry(env, ps, c.phase).Some?
    && IsInProgress(ps.phases[PhaseEntry(env, ps, c.phase).value].status)
    && StepEntry(env, ps, c.phase, c.step).Some?
    && IsInProgress(ps.phases[PhaseEntry(env, ps, c.phase).value].steps[StepEntry(env, ps, c.phase, c.step).value].status)
    && (forall s :: 0 <= s < c.step ==> StepNotFatal(env, ps, c.phase, s))
    && (forall i :: i0 <= i < c.phase ==> PhaseNotFatal(env, ps, i))
  }

  /** Under a Serial plan every phase from i0 up to c's phase is Completed in st, and Serial gating holds inside c's phase. */
  ghost predicate PhasesGated(env: Env, i0: nat, st: PlanStatus, c: Call) {
    && IsCall(env, c)
    && (env.pl.spec.strategy == Serial ==> forall i :: i0 <= i < c.phase ==> PhaseStatusIs(env, st, i, Completed))
    && StepsBeforeDone(env, st, c.phase, c.step)
  }

  /** A visit of phase i0 that changed only its own entry leaves the phase of c ahead. */
  lemma PhasesAheadNext(env: Env, i0: nat, j: nat, ps: PlanStatus, ps': PlanStatus, c: Call)
    requires PhasesAhead(env, i0, ps, c) && i0 < c.phase && PhaseEntry(env, ps, i0) == Some(j)
    requires PhaseNames(ps'.phases) == PhaseNames(ps.phases)
    requires forall j' :: 0 <= j' < |ps.phases| && j' != j ==> ps'.phases[j'] == ps.phases[j']
    ensures PhasesAhead(env, i0 + 1, ps', c)
  {
    var names := PhaseNames(ps.phases);
    assert |ps'.phases| == |ps.phases| by {
      assert |PhaseNames(ps'.phases)| == |names|;
    }
    forall i | i0 < i <= c.phase
      ensures PhaseEntry(env, ps', i) == PhaseEntry(env, ps, i)
      ensures PhaseEntry(env, ps, i).Some? ==> PhaseEntry(env, ps, i).value != j
    {
      if PhaseEntry(env, ps, i).Some? {
        assert names[PhaseEntry(env, ps, i).value] == env.pl.spec.phases[i].name;
        assert names[j] == env.pl.spec.phases[i0].name;
      }
    }
    var jc := PhaseEntry(env, ps, c.phase).value;
    assert ps'.phases[jc] == ps.phases[jc];
    forall s | 0 <= s < c.step
      ensures StepNotFatal(env, ps', c.phase, s)
    {
      assert StepNotFatal(env, ps, c.phase, s);
    }
    forall i | i0 + 1 <= i < c.phase
      ensures PhaseNotFatal(env, ps', i)
    {
      assert PhaseNotFatal(env, ps, i);
    }
  }

  /** The phase loop only appends to the trace. */
  lemma {:induction false} PhasesExtend(env: Env, i: nat, ps: PlanStatus, left: int, tr: seq<Call>)
    requires i <= |env.pl.spec.phases|
    ensures var out := RunPhases(env, i, ps, left, tr);
      |tr| <= |out.trace| && out.trace[..|tr|] == tr
    decreases |env.pl.spec.phases| - i, 2
  {
    assert tr[..|tr|] == tr;
    var phases := env.pl.spec.phases;
    if i < |phases| {
      match IndexOfName(PhaseNames(ps.phases), phases[i].name)
      case None =>
      case Some(j) =>
        var current := ps.phases[j].status;
        if IsFinished(current) {
          PhasesExtend(env, i + 1, ps, left - 1, tr);
        } else if IsInProgress(current) {
          PhaseVisitExtend(env, i, j, ps, left, tr);
        }
    }
  }

  lemma {:induction false} PhaseVisitExtend(env: Env, i: nat, j: nat, ps: PlanStatus, left: int, tr: seq<Call>)
    requires i < |env.pl.spec.phases| && j < |ps.phases|
    requires IndexOfName(PhaseNames(ps.phases), env.pl.spec.phases[i].name) == Some(j)
    requires IsInProgress(ps.phases[j].status)
    ensures var out := RunPhases(env, i, ps, left, tr);
      |tr| <= |out.trace| && out.trace[..|tr|] == tr
    decreases |env.pl.spec.phases| - i, 1
  {
    var ps1 := WithPhaseStatus(ps, j, InProgress);
    var w := RunSteps(env, i, j, 0, ps1, |env.pl.spec.phases[i].steps|, tr);
    RunPhasesVisit(env, i, j, ps, left, tr);
    StepsKeep(env, i, j, 0, ps1, |env.pl.spec.phases[i].steps|, tr);
    AfterStepsExtend(env, i, j, w, left);
    TracePrefixTrans(tr, w.Trace(), AfterSteps(env, i, j, w, left).trace);
  }

  lemma TracePrefixTrans(a: seq<Call>, b: seq<Call>, c: seq<Call>)
    requires |a| <= |b| && b[..|a|] == a && |b| <= |c| && c[..|b|] == b
    ensures |a| <= |c| && c[..|a|] == a
  {
    assert c[..|a|] == c[..|b|][..|a|];
  }

  lemma {:induction false} AfterStepsExtend(env: Env, i: nat, j: nat, w: Walk, left: int)
    requires i < |env.pl.spec.phases| && (w.Walked? ==> j < |w.status.phases|)
    ensures var out := AfterSteps(env, i, j, w, left);
      |w.Trace()| <= |out.trace| && out.trace[..|w.Trace()|] == w.Trace()
    decreases |env.pl.spec.phases| - i, 0
  {
    assert w.Trace()[..|w.Trace()|] == w.Trace();
    match w
    case Aborted(_) =>
    case Walked(ps', stepsLeft, tr') =>
      if stepsLeft > 0 {
        if env.pl.spec.strategy != Serial {
          PhasesExtend(env, i + 1, ps', left, tr');
        }
      } else {
        PhasesExtend(env, i + 1, WithPhaseStatus(ps', j, Completed), left - 1, tr');
      }
  }

  /** After the step loop of phase i, the rest of the pass keeps the phase's step entries and appends to the trace. */
  lemma AfterStepsKeepsPhase(env: Env, i: nat, j: nat, w: Walk, left: int)
    requires i < |env.pl.spec.phases| && DistinctPhaseNames(env.pl.spec)
    requires w.Walked? && j < |w.status.phases| && w.status.phases[j].name == env.pl.spec.phases[i].name
    ensures var out := AfterSteps(env, i, j, w, left);
      && j < |out.status.phases| && out.status.phases[j].steps == w.status.phases[j].steps
      && |w.trace| <= |out.trace| && out.trace[..|w.trace|] == w.trace
  {
    AfterStepsExtend(env, i, j, w, left);
    var ps' := w.status;
    assert NotLaterPhase(env, ps'.phases[j].name, i + 1);
    if w.left > 0 {
      if env.pl.spec.strategy != Serial {
        PhasesFrame(env, i + 1, ps', left, w.trace);
      }
    } else {
      PhasesFrame(env, i + 1, WithPhaseStatus(ps', j, Completed), left - 1, w.trace);
    }
  }

  /** The phase of c itself: the step loop reaches c's step, and the rest of the pass keeps it. */
  lemma PhaseRunsTarget(env: Env, i: nat, j: nat, ps: PlanStatus, left: int, tr: seq<Call>, c: Call)
    requires PhasesAhead(env, i, ps, c) == true && i == c.phase && PhaseEntry(env, ps, i) == Some(j)
    ensures var out := RunPhases(env, i, ps, left, tr);
      out.err.None? && PhasesGated(env, i, out.status, c) ==> c in out.trace
  {
    var ps1 := WithPhaseStatus(ps, j, InProgress);
    var n := |env.pl.spec.phases[i].steps|;
    var w := RunSteps(env, i, j, 0, ps1, n, tr);
    RunPhasesVisit(env, i, j, ps, left, tr);
    forall s | 0 <= s < c.step
      ensures Slot(env, ps1, i, j, s).Some? && !SlotIs(env, ps1, i, j, s, FatalError)
    {
      assert StepNotFatal(env, ps, i, s);
    }
    StepsRunTo(env, i, j, 0, ps1, n, tr, c);
    if w.Walked? {
      TargetKept(env, i, j, ps, w, left, c);
    }
  }

  /** After the step loop of c's phase the rest of the pass keeps the phase's entries, so Serial gating there is read off the final tree. */
  lemma TargetKept(env: Env, i: nat, j: nat, ps: PlanStatus, w: Walk, left: int, c: Call)
    requires IsCall(env, c) && i == c.phase && DistinctPhaseNames(env.pl.spec)
    requires PhaseEntry(env, ps, i) == Some(j)
    requires w.Walked? && SameShape(ps, w.status) && j < |w.status.phases|
    ensures var out := AfterSteps(env, i, j, w, left);
      out.err.None? && PhasesGated(env, i, out.status, c) ==>
        && StepsGated(env, i, j, 0, w.status, c)
        && (c in w.trace ==> c in out.trace)
  {
    var out := AfterSteps(env, i, j, w, left);
    if out.err.None? && PhasesGated(env, i, out.status, c) {
      assert w.status.phases[j].name == env.pl.spec.phases[i].name;
      AfterStepsKeepsPhase(env, i, j, w, left);
      PhaseEntryOfSameShape(env, ps, out.status, i);
      forall s | 0 <= s < c.step
        ensures SlotIs(env, w.status, i, j, s, Completed) || env.pl.spec.phases[i].strategy != Serial
      {
        if env.pl.spec.phases[i].strategy == Serial {
          assert StepStatusIs(env, out.status, i, s, Completed);
        }
      }
      if c in w.trace {
        InPrefix(w.trace, out.trace, c);
      }
    }
  }

  lemma {:induction false} PhasesRunTo(env: Env, i0: nat, ps: PlanStatus, left: int, tr: seq<Call>, c: Call)
    requires PhasesAhead(env, i0, ps, c) == true
    ensures var out := RunPhases(env, i0, ps, left, tr);
      out.err.None? && PhasesGated(env, i0, out.status, c) ==> c in out.trace
    decreases |env.pl.spec.phases| - i0, 3
  {
    assert i0 < c.phase ==> PhaseNotFatal(env, ps, i0);
    var j := PhaseEntry(env, ps, i0).value;
    if i0 == c.phase {
      PhaseRunsTarget(env, i0, j, ps, left, tr, c);
    } else if IsFinished(ps.phases[j].status) {
      PhaseSkipRunTo(env, i0, j, ps, left, tr, c);
    } else {
      PhaseVisitRunTo(env, i0, j, ps, left, tr, c);
    }
  }

  lemma {:induction false} PhaseSkipRunTo(env: Env, i0: nat, j: nat, ps: PlanStatus, left: int, tr: seq<Call>, c: Call)
    requires PhasesAhead(env, i0, ps, c) == true && i0 < c.phase && PhaseEntry(env, ps, i0) == Some(j)
    requires IsFinished(ps.phases[j].status)
    ensures var out := RunPhases(env, i0, ps, left, tr);
      out.err.None? && PhasesGated(env, i0, out.status, c) ==> c in out.trace
    decreases |env.pl.spec.phases| - i0, 2
  {
    assert RunPhases(env, i0, ps, left, tr) == RunPhases(env, i0 + 1, ps, left - 1, tr);
    PhasesRunTo(env, i0 + 1, ps, left - 1, tr, c);
  }

  lemma {:induction false} PhaseVisitRunTo(env: Env, i0: nat, j: nat, ps: PlanStatus, left: int, tr: seq<Call>, c: Call)
    requires PhasesAhead(env, i0, ps, c) == true && i0 < c.phase && PhaseEntry(env, ps, i0) == Some(j)
    requires IsInProgress(ps.phases[j].status)
    ensures var out := RunPhases(env, i0, ps, left, tr);
      out.err.None? && PhasesGated(env, i0, out.status, c) ==> c in out.trace
    decreases |env.pl.spec.phases| - i0, 2
  {
    var ps1 := WithPhaseStatus(ps, j, InProgress);
    var n := |env.pl.spec.phases[i0].steps|;
    var w := RunSteps(env, i0, j, 0, ps1, n, tr);
    RunPhasesVisit(env, i0, j, ps, left, tr);
    StepsOutOk(env, i0, j, 0, ps1, n, tr);
    AfterStepsRunTo(env, i0, j, ps, w, left, c);
  }

  lemma {:induction false} AfterStepsRunTo(env: Env, i0: nat, j: nat, ps: PlanStatus, w: Walk, left: int, c: Call)
    requires PhasesAhead(env, i0, ps, c) == true && i0 < c.phase && PhaseEntry(env, ps, i0) == Some(j)
    requires w.Aborted? ==> w.outcome.err.Some?
    requires w.Walked? ==>
      && PhaseNames(w.status.phases) == PhaseNames(ps.phases) && j < |w.status.phases|
      && (forall j' :: 0 <= j' < |ps.phases| && j' != j ==> w.status.phases[j'] == ps.phases[j'])
      && w.status.phases[j].status == InProgress
    ensures var out := AfterSteps(env, i0, j, w, left);
      out.err.None? && PhasesGated(env, i0, out.status, c) ==> c in out.trace
    decreases |env.pl.spec.phases| - i0, 1
  {
    match w
    case Aborted(_) =>
    case Walked(ps', stepsLeft, tr') =>
      if stepsLeft > 0 {
        if env.pl.spec.strategy == Serial {
          PhaseSerialStop(env, i0, j, ps', stepsLeft, tr', left, c);
        } else {
          PhasesAheadNext(env, i0, j, ps, ps', c);
          PhaseParallelOn(env, i0, j, ps', stepsLeft, tr', left, c);
        }
      } else {
        var ps2 := WithPhaseStatus(ps', j, Completed);
        PhasesAheadNext(env, i0, j, ps, ps2, c);
        PhaseDoneOn(env, i0, j, ps', tr', left, c);
      }
  }

  /** Under a Serial plan the pass stops at a phase with steps left, which is then not Completed: no later phase is gated through. */
  lemma PhaseSerialStop(env: Env, i0: nat, j: nat, ps': PlanStatus, stepsLeft: int, tr': seq<Call>, left: int, c: Call)
    requires IsCall(env, c) && i0 < c.phase && j < |ps'.phases| && PhaseEntry(env, ps', i0) == Some(j)
    requires ps'.phases[j].status == InProgress && stepsLeft > 0 && env.pl.spec.strategy == Serial
    ensures var out := AfterSteps(env, i0, j, Walked(ps', stepsLeft, tr'), left);
      !PhasesGated(env, i0, out.status, c)
  {
    var out := Finish(env, ps', left, tr');
    assert PhaseEntry(env, out.status, i0) == Some(j);
    assert !PhaseStatusIs(env, out.status, i0, Completed);
  }

  lemma {:induction false} PhaseParallelOn(env: Env, i0: nat, j: nat, ps': PlanStatus, stepsLeft: int, tr': seq<Call>, left: int, c: Call)
    requires i0 < c.phase && j < |ps'.phases| && PhasesAhead(env, i0 + 1, ps', c) == true
    requires stepsLeft > 0 && env.pl.spec.strategy != Serial
    ensures var out := AfterSteps(env, i0, j, Walked(ps', stepsLeft, tr'), left);
      out.err.None? && PhasesGated(env, i0, out.status, c) ==> c in out.trace
    decreases |env.pl.spec.phases| - i0, 0
  {
    var out := RunPhases(env, i0 + 1, ps', left, tr');
    assert AfterSteps(env, i0, j, Walked(ps', stepsLeft, tr'), left) == out;
    PhasesRunTo(env, i0 + 1, ps', left, tr', c);
    if out.err.None? && PhasesGated(env, i0, out.status, c) {
      assert PhasesGated(env, i0 + 1, out.status, c);
    }
  }

  lemma {:induction false} PhaseDoneOn(env: Env, i0: nat, j: nat, ps': PlanStatus, tr': seq<Call>, left: int, c: Call)
    requires i0 < c.phase && j < |ps'.phases| && PhasesAhead(env, i0 + 1, WithPhaseStatus(ps', j, Completed), c) == true
    ensures var out := AfterSteps(env, i0, j, Walked(ps', 0, tr'), left);
      out.err.None? && PhasesGated(env, i0, out.status, c) ==> c in out.trace
    decreases |env.pl.spec.phases| - i0, 0
  {
    var out := RunPhases(env, i0 + 1, WithPhaseStatus(ps', j, Completed), left - 1, tr');
    assert AfterSteps(env, i0, j, Walked(ps', 0, tr'), left) == out;
    PhasesRunTo(env, i0 + 1, WithPhaseStatus(ps', j, Completed), left - 1, tr', c);
    if out.err.None? && PhasesGated(env, i0, out.status, c) {
      assert PhasesGated(env, i0 + 1, out.status, c);
    }
  }

  /**
   * Gating is exact. When phase names are distinct in the plan and step names
   * within each phase, a pass over a non-terminal plan that returns no error
   * runs a task exactly when its phase and step are reachable in the incoming
   * status tree (eligible entries, no earlier phase or step of its phase
   * FatalError) and, under a Serial strategy, every earlier phase or earlier
   * step of its phase ends Completed. Under Parallel strategies the second
   * condition is void: every reachable task runs, whatever the steps and
   * phases before it left undone.
   */
  lemma PassRunsReachable(env: Env, c: Call)
    requires !IsTerminal(env.pl.status.status) && DistinctNames(env.pl.spec)
    ensures var out := Pass(env);
      out.err.None? ==> (c in out.trace <==> ReachableIn(env, env.pl.status, c) && SerialDone(env, out.status, c))
  {
    var out := Pass(env);
    PassReachable(env);
    PassSerial(env);
    if c in out.trace {
      var x :| 0 <= x < |out.trace| && out.trace[x] == c;
    }
    if ReachableIn(env, env.pl.status, c) {
      ReachableRuns(env, c);
    }
  }

  /** The converse direction: a reachable task whose Serial predecessors end Completed runs. */
  lemma ReachableRuns(env: Env, c: Call)
    requires !IsTerminal(env.pl.status.status) && DistinctNames(env.pl.spec)
    requires ReachableIn(env, env.pl.status, c)
    ensures var out := Pass(env);
      out.err.None? && SerialDone(env, out.status, c) ==> c in out.trace
  {
    var init := env.pl.status;
    var ps := init.(status := InProgress);
    assert ps.phases == init.phases;
    forall s | 0 <= s < c.step
      ensures StepNotFatal(env, ps, c.phase, s)
    {
      assert StepNotFatal(env, init, c.phase, s);
    }
    forall i | 0 <= i < c.phase
      ensures PhaseNotFatal(env, ps, i)
    {
      assert PhaseNotFatal(env, init, i);
    }
    PhasesRunTo(env, 0, ps, |env.pl.spec.phases|, [], c);
  }
}
