/**
 * The parts of the KUDO API types that the plan engine and the instance
 * controller read: execution statuses, the plan/phase/step status tree,
 * the plan specification and the operator's task catalogue.
 *
 * The engine works on the v1alpha1 types and the controller on the v1beta1
 * ones; the fields used here are the same in both, so one set of types
 * serves both.
 */
module KudoApi {
  import opened Wrappers

  /** ExecutionStatus values that the engine writes and reads. */
  datatype ExecutionStatus = Pending | InProgress | Completed | Error | FatalError

  /**
   * IsTerminal is defined outside the modelled files; this model assumes the
   * two statuses that the engine treats as final for an element.
   */
  predicate IsTerminal(s: ExecutionStatus) {
    s == Completed || s == FatalError
  }

  datatype Strategy = Serial | Parallel

  /** A point in time, opaque to the engine: it is only stored, never inspected. */
  type Time = int

  // ---- plan specification (part of an OperatorVersion) ----

  datatype Step = Step(name: string, tasks: seq<string>)
  datatype Phase = Phase(name: string, strategy: Strategy, steps: seq<Step>)
  datatype Plan = Plan(strategy: Strategy, phases: seq<Phase>)

  /** One artifact declared by a pipe task; only the key takes part in naming. */
  datatype PipeSpec = PipeSpec(file: string, kind: string, key: string)

  /**
   * A task of the operator's catalogue. `pipes` is the pipe list of the task's
   * PipeTaskSpec; it is only read when `kind` is the pipe kind.
   */
  datatype Task = Task(name: string, kind: string, pipes: seq<PipeSpec>)

  /** An operator-version parameter with its optional default value. */
  datatype Parameter = Parameter(name: string, default: Option<string>)

  // ---- execution status tree ----

  datatype StepStatus = StepStatus(name: string, status: ExecutionStatus)
  datatype PhaseStatus = PhaseStatus(name: string, status: ExecutionStatus, steps: seq<StepStatus>)
  datatype PlanStatus = PlanStatus(name: string, status: ExecutionStatus, lastFinishedRun: Time, phases: seq<PhaseStatus>)

  // ---- metadata handed to tasks ----

  /** engine.Metadata: identity of the operator and of the owning instance. */
  datatype EngineMeta = EngineMeta(operatorName: string, operatorVersion: string, instanceName: string, instanceNamespace: string)

  /** renderer.Metadata: the engine metadata scoped to one task of one step of one phase of one plan. */
  datatype TaskMeta = TaskMeta(engine: EngineMeta, planName: string, phaseName: string, stepName: string, taskName: string)

  // ---- name projections, used for lookups by name ----
  // One per record type: the status entries and catalogue tasks share no supertype.

  function PhaseNames(phases: seq<PhaseStatus>): (names: seq<string>)
    ensures |names| == |phases|
    ensures forall j :: 0 <= j < |phases| ==> names[j] == phases[j].name
  {
    seq(|phases|, j requires 0 <= j < |phases| => phases[j].name)
  }

  function StepNames(steps: seq<StepStatus>): (names: seq<string>)
    ensures |names| == |steps|
    ensures forall k :: 0 <= k < |steps| ==> names[k] == steps[k].name
  {
    seq(|steps|, k requires 0 <= k < |steps| => steps[k].name)
  }

  function TaskNames(tasks: seq<Task>): (names: seq<string>)
    ensures |names| == |tasks|
    ensures forall k :: 0 <= k < |tasks| ==> names[k] == tasks[k].name
  {
    seq(|tasks|, k requires 0 <= k < |tasks| => tasks[k].name)
  }
}
