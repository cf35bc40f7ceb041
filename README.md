# KUDO plan engine and plan preparation, in Dafny

This project models two parts of KUDO, the Kubernetes operator toolkit:

- **The plan execution engine** (`pkg/engine/workflow/engine.go`). One call of `Execute` makes one pass over an active plan. It walks the plan's phases, their steps and their tasks in specification order.
  - Along the way it updates a copy of the plan's status tree (plan → phase → step).
  - It keeps counters of the phases, steps and tasks not yet done.
  - Serial and Parallel strategies decide whether the walk moves past an incomplete step or phase.
  - It stops at once on a fatal condition: a missing phase or step status, an unknown task name, a task that cannot be built, or a task that fails fatally.
- **The plan-preparation helpers of the instance controller** (`pkg/controller/instance/instance_controller.go`):
  - the template parameter map, with instance overrides over operator-version defaults;
  - the pipe artifact map, which rejects pipe keys declared twice;
  - the parameter diff between two parameter maps;
  - the assembly of the active plan that is handed to the engine.

Modules:

- `Wrappers` holds `Option` and `Result`.
- `KudoApi` holds the API types both parts read: execution statuses, the status tree, the plan specification, the task catalogue, parameters and metadata.
- `Workflow` is the engine. `Execute`, `ExecuteSteps` and `ExecuteTasks` are methods with the three loops of the Go function; `ExecuteSteps` and `ExecuteTasks` are the inner two loops. The ghost functions `RunPhases`, `RunSteps`, `RunTasks` and `Pass` describe one pass, and each method is proved equal to its function.
  - `Execute` also returns a ghost trace of the task runs it made, as spec positions (phase, step, task).
  - The status tree is a value. The Go code reaches status entries through the references that `getPhaseStatus` and `getStepStatus` return. Here that becomes the index of the first entry with the name, and an update at that index.
- `WorkflowTasks` gives a direct, non-recursive description of one step's task loop (`TasksReference`) and proves the loop equal to it.
- The properties of a pass are proved in eight modules:
  - `WorkflowFacts`: entries are kept and the counters behave;
  - `WorkflowProperties`: step completion and plan status;
  - `WorkflowTrace`: order of the task runs;
  - `WorkflowErrors`: what each fatal error records;
  - `WorkflowGating`: skipping and Serial gating;
  - `WorkflowCompletion`: plan and phase completion;
  - `WorkflowProgress`: the converse of gating, that every reachable task runs;
  - `WorkflowRepeat`: a second pass over the returned status changes nothing.
- `InstanceController` holds the controller helpers. `ParamsMap`, `PipesMap` (with its per-task loop `AddTaskPipes`) and `ParameterDiff` are methods with loops, each proved against a characterising predicate (`IsParamsMap`, `NamesPipes` over `PlanPipes`, `IsDiff`). `PreparePlanExecution` assembles their results.

The two calls into task code are parameters of the engine:

- `builds: Task -> bool` says whether `task.Build` accepts a catalogue task;
- `run: TaskMeta -> RunResult` gives what `Task.Run` reports for a task context: done, not done, a transient error, or an error that wraps the fatal-execution marker.

The current time is a parameter, and so are the two controller helpers whose bodies live in other packages: `kudo.StringValue` and `task.PipeArtifactName`.

## Model

| member | source | states |
|---|---|---|
| Workflow.IsFinished | pkg/engine/workflow/engine.go:236-238 | only Completed counts as finished, and a finished element is terminal |
| Workflow.IsInProgress | pkg/engine/workflow/engine.go:240-242 | an element is eligible to run exactly when its status is not terminal (Pending, InProgress or Error) |
| Workflow.IndexOfName | pkg/engine/workflow/engine.go:216-234 | the lookup result is the first index whose name matches; it is absent exactly when no entry has the name |
| Workflow.GetPhaseStatus | pkg/engine/workflow/engine.go:226-234 | the loop finds the first phase status entry with the given name, or none |
| Workflow.GetStepStatus | pkg/engine/workflow/engine.go:216-224 | the loop finds the first step status entry with the given name, or none |
| Workflow.TaskNamed | pkg/engine/workflow/engine.go:35-42 | a found task is in the catalogue and has the name; nothing is found exactly when no task has the name |
| Workflow.TaskNamedFirst | pkg/engine/workflow/engine.go:35-42 | the task found is the first catalogue task with the name: every task before it has another name |
| Workflow.TaskByName | pkg/engine/workflow/engine.go:35-42 | the loop returns the first catalogue task with the name, or none |
| Workflow.ExecuteTasks | pkg/engine/workflow/engine.go:117-176 | the task loop of a step gives exactly the walk `RunTasks` specifies: each outcome kind, each fatal stop and the tasks-left counter |
| Workflow.ExecuteSteps | pkg/engine/workflow/engine.go:93-190 | the step loop of a phase gives exactly the walk `RunSteps` specifies: missing step status, skip, stop, Serial break and the steps-left counter |
| Workflow.Execute | pkg/engine/workflow/engine.go:62-214 | the pass returns the status, error and task-run trace that `Pass` specifies; a terminal plan is returned unchanged with no error and no task run; the result keeps every name, order and length of the input tree |
| WorkflowTasks.RunTasksMatchesReference | pkg/engine/workflow/engine.go:119-176 | the task loop runs every task in order up to the first one that cannot be resolved or built or fails fatally. A stop marks step, phase and plan FatalError. Otherwise the step becomes Error if some task was transient, and the counter drops by the number of done tasks |
| WorkflowFacts.CountDoneAll | pkg/engine/workflow/engine.go:173-174 | the done count never exceeds the number of tasks, and equals it exactly when every task reported done |
| WorkflowFacts.TasksKeep | pkg/engine/workflow/engine.go:119-176 | a step's task loop changes no Completed or FatalError entry and no other phase's entry, and only appends runs of that phase to the trace; if it is not aborted, the step entry stays non-terminal |
| WorkflowProperties.StepRunsAllTasks | pkg/engine/workflow/engine.go:119-189 | a step's task loop is not aborted exactly when no task stops it. It then runs every task of the step in order, reports no task left exactly when every task reported done, and leaves the step Error exactly when some task was transient |
| WorkflowProperties.PassStatus | pkg/engine/workflow/engine.go:62-71 | after a pass over a non-terminal plan, an error is returned exactly when the plan is FatalError; the plan is InProgress, Completed or FatalError; LastFinishedRun is the current time when Completed and unchanged otherwise |
| WorkflowTrace.PassTrace | pkg/engine/workflow/engine.go:119-176 | the task runs of a pass are in strictly increasing spec order, and every run but a final fatal one was of a task that resolved, built and did not fail fatally. After a fatal task error the trace ends with that task; after a structural error every run lies before the failing position |
| WorkflowErrors.PassError | pkg/engine/workflow/engine.go:74-170 | each fatal error of a pass records its cause: a missing phase status has no entry; a missing step status has no entry and its phase is FatalError; an unknown task name does not resolve; an unbuildable task is rejected by Build; a fatal run reported fatal. In the last three the step and phase are FatalError |
| WorkflowGating.PassReachable | pkg/engine/workflow/engine.go:83-115 | every task that runs belongs to a phase and a step whose entries were eligible (Pending, InProgress or Error) in the incoming status, with no earlier phase or earlier step of its phase FatalError: Completed elements are skipped and fatal ones stop the walk |
| WorkflowGating.PassSerial | pkg/engine/workflow/engine.go:178-203 | under a Serial plan strategy every phase before a running task's phase is Completed afterwards, and under a Serial phase strategy every step before its step is Completed afterwards |
| WorkflowCompletion.PhaseStepsComplete | pkg/engine/workflow/engine.go:178-190 | when step names are distinct, the step loop of a phase reports no step left exactly when every step of the phase ends Completed |
| WorkflowProgress.PassRunsReachable | pkg/engine/workflow/engine.go:83-203 | when names are distinct, a pass over a non-terminal plan that returns no error runs a task exactly when its phase and step are reachable in the incoming status (eligible entries, no earlier phase or earlier step of its phase FatalError) and, under a Serial strategy, every earlier phase or earlier step of its phase ends Completed. Under Parallel strategies every reachable task runs |
| WorkflowRepeat.PassIdempotent | pkg/engine/workflow/engine.go:62-214 | when names are distinct, a second pass over the status tree a pass returned returns that tree again, with no error |
| WorkflowCompletion.PassCompletes | pkg/engine/workflow/engine.go:192-213 | when phase names are distinct, a pass without error leaves the plan Completed exactly when every phase of the spec ends Completed |
| InstanceController.ParamsMap | pkg/controller/instance/instance_controller.go:275-290 | the parameter map holds exactly the instance keys and the declared parameter names. Instance values win; any other name maps to the default of its first declaration |
| InstanceController.MergeNew | pkg/controller/instance/instance_controller.go:283-287 | a declared name not yet in the map is its first declaration, and adding its default keeps the merge invariant |
| InstanceController.ParamsMapUnique | pkg/controller/instance/instance_controller.go:275-290 | the characterisation of the parameter map determines it: whatever order the overrides are copied in, the map is the same |
| InstanceController.TaskPipesMembers | pkg/controller/instance/instance_controller.go:294-316 | a task name declares keys only when it resolves to a task of the pipe kind; unresolved names and other kinds declare nothing |
| InstanceController.PlanPipesExactly | pkg/controller/instance/instance_controller.go:305-324 | the declarations walked are exactly the pipe keys of pipe-kind tasks referenced by some step of some phase, each with its plan, phase, step and task |
| InstanceController.AddTaskPipes | pkg/controller/instance/instance_controller.go:317-322 | adding one task's pipes either records every key with its artifact name, or fails with the task's first key that is already recorded: the declarations before it are distinct and one of them has the key |
| InstanceController.FirstRepeatUnique | pkg/controller/instance/instance_controller.go:317-320 | at most one key is the first repeat of a declaration sequence, so the key the walk reports is fixed |
| InstanceController.PipesMap | pkg/controller/instance/instance_controller.go:293-329 | the call succeeds exactly when no key is declared twice anywhere in the plan. On success every declared key maps to its artifact name and no other key is present; on failure the returned key is the first repeat in walk order (phases, steps, tasks, pipes): the declarations before that position are distinct and one of them already has the key |
| InstanceController.ParameterDiff | pkg/controller/instance/instance_controller.go:331-349 | a key is in the diff exactly when it was removed, added or changed; removed keys keep the old value and added or changed keys take the new one |
| InstanceController.DiffEmptyIffEqual | pkg/controller/instance/instance_controller.go:331-349 | the diff is empty exactly when the two maps are equal, so the diff of a map with itself is empty |
| InstanceController.PreparePlanExecution | pkg/controller/instance/instance_controller.go:251-272 | every failure is a fatal InvalidPlan error. A missing plan gives PlanNotFound. Otherwise the call succeeds exactly when the plan's pipe keys are distinct, and a failure names the first key the walk finds repeated. On success the active plan carries the status name, status, spec, tasks, templates, the parameter map and the pipe map |

## Left out

- `Reconcile` and `SetupWithManager` (instance_controller.go:57-249) are left out: they are Kubernetes client I/O, event recording and controller wiring.
- The bodies of `task.Build` and `Task.Run` are left out. They become the oracle parameters `builds` and `run`. The client and renderer enhancer that `Execute` passes only to `Run` are not modelled. A run's outcome is a function of the task context's metadata only.
- `IsTerminal` is defined outside the modelled files. The model assumes it holds for Completed and FatalError.
- `ExecutionStatus` has only the five values the engine reads and writes.
- `kudo.StringValue` and `task.PipeArtifactName` are defined outside the modelled files, so they are function parameters.
- The pipe task kind `task.PipeTaskKind` is defined outside the modelled files. It is the constant `PipeTaskKind`, and only its comparison matters.
- Error values are tagged variants: `ExecError` in the engine and `ExecutionError` in the controller. Their message text and `%w` wrapping are not modelled, and `errors.Is(err, ErrFatalExecution)` is the `RunFatal` outcome.
- `log.Printf` calls and the clock are left out; the current time is a parameter.
- The engine's `ActivePlan` has no `Pipes` field in engine.go, but the controller sets one. The model's `ActivePlan` carries `pipes`, which the engine never reads.
- The engine reads v1alpha1 types and the controller reads v1beta1 types. The model uses one set of types for the fields both read.
- Go iterates over maps in no fixed order. `ParamsMap` and `ParameterDiff` pick an arbitrary remaining key, so their contracts hold for every order.
- References into the status tree are not modelled. The copy `Execute` works on is a value, updated by index, so the caller's status cannot be changed.
- WorkflowCompletion.PhaseStepsComplete: holds only when the phase's step names are distinct. With a repeated name, two spec steps share one status entry and the counter counts it twice.
- WorkflowCompletion.PassCompletes: holds only when the plan's phase names are distinct, for the same reason.
- WorkflowProgress.PassRunsReachable: holds only when the plan's phase names, and the step names within each phase, are distinct. With a repeated name two spec positions share one status entry, and the later one is skipped once the earlier one completes it.
- WorkflowRepeat.PassIdempotent: holds only when names are distinct, as above. Take two steps of one Parallel phase that share a name, where the first step's tasks are not done and the second's are. The first pass completes the shared entry but counts the first step as left. A second pass skips both steps and completes the phase.
