/**
 * The plan-preparation helpers of the instance controller
 * (pkg/controller/instance/instance_controller.go): the parameter map, the
 * pipe map, the parameter diff, and the assembly of the active plan that the
 * engine is given.
 *
 * Go maps are iterated in no fixed order; the loops over maps below pick an
 * arbitrary remaining key, so every contract holds whatever order is taken.
 *
 * kudo.StringValue and task.PipeArtifactName are defined outside the modelled
 * files and are passed in as functions.
 */
module InstanceController {
  import opened Wrappers
  import opened KudoApi
  import opened Workflow

  /** The kind tag of pipe tasks (task.PipeTaskKind). */
  const PipeTaskKind: string := "Pipe"

  /** The parts of an Instance the helpers read: its parameter overrides. */
  datatype Instance = Instance(parameters: map<string, string>)

  /** The parts of an OperatorVersion the helpers read. */
  datatype OperatorVersion = OperatorVersion(
    parameters: seq<Parameter>,
    plans: map<string, Plan>,
    tasks: seq<Task>,
    templates: map<string, string>)

  /** Why the active plan could not be assembled. */
  datatype PrepareFailure = PlanNotFound(plan: string) | DuplicatedPipeKey(key: string)

  /** engine.ExecutionError: the cause, whether it wraps the fatal-execution marker, and the event name. */
  datatype ExecutionError = ExecutionError(fatal: bool, eventName: string, cause: PrepareFailure)

  // ---- paramsMap ----

  function ParameterNames(decl: seq<Parameter>): (names: seq<string>)
    ensures |names| == |decl|
    ensures forall x :: 0 <= x < |decl| ==> names[x] == decl[x].name
  {
    seq(|decl|, x requires 0 <= x < |decl| => decl[x].name)
  }

  /**
   * The template parameter map: every instance override with its value, and
   * every declared parameter the instance does not set with the default of its
   * first declaration.
   */
  ghost predicate IsParamsMap(overrides: map<string, string>, decl: seq<Parameter>, stringValue: Option<string> -> string,
                              m: map<string, string>)
  {
    var names := ParameterNames(decl);
    && (forall k :: k in m <==> k in overrides || k in names)
    && (forall k :: k in overrides ==> m[k] == overrides[k])
    && (forall k :: k in m && k !in overrides ==>
          IndexOfName(names, k).Some? && m[k] == stringValue(decl[IndexOfName(names, k).value].default))
  }

  /** The characterisation pins the map down: two maps that satisfy it are equal. */
  lemma ParamsMapUnique(overrides: map<string, string>, decl: seq<Parameter>, stringValue: Option<string> -> string,
                        m1: map<string, string>, m2: map<string, string>)
    requires IsParamsMap(overrides, decl, stringValue, m1) && IsParamsMap(overrides, decl, stringValue, m2)
    ensures m1 == m2
  {
    forall k | k in m1
      ensures m1[k] == m2[k]
    {
    }
  }

  /** The parameter map after the defaults of the first x declarations have been merged in. */
  ghost predicate MergedUpTo(overrides: map<string, string>, decl: seq<Parameter>, stringValue: Option<string> -> string,
                             m: map<string, string>, x: nat)
    requires x <= |decl|
  {
    var names := ParameterNames(decl);
    && (forall k :: k in m <==> k in overrides || k in names[..x])
    && (forall k :: k in overrides ==> m[k] == overrides[k])
    && (forall k :: k in m && k !in overrides ==>
          IndexOfName(names, k).Some? && m[k] == stringValue(decl[IndexOfName(names, k).value].default))
  }

  lemma PrefixMembers(names: seq<string>, x: nat, k: string)
    requires x < |names|
    ensures k in names[..x + 1] <==> k in names[..x] || k == names[x]
  {
    assert names[..x + 1] == names[..x] + [names[x]];
  }

  /** A declaration whose name is already in the map changes nothing. */
  lemma MergeKnown(overrides: map<string, string>, decl: seq<Parameter>, stringValue: Option<string> -> string,
                   m: map<string, string>, x: nat)
    requires x < |decl| && MergedUpTo(overrides, decl, stringValue, m, x) && decl[x].name in m
    ensures MergedUpTo(overrides, decl, stringValue, m, x + 1) == true
  {
    var names := ParameterNames(decl);
    forall k
      ensures k in m <==> k in overrides || k in names[..x + 1]
    {
      PrefixMembers(names, x, k);
    }
  }

  /** A declaration whose name is not yet in the map is its first one, and adds its default. */
  lemma MergeNew(overrides: map<string, string>, decl: seq<Parameter>, stringValue: Option<string> -> string,
                 m: map<string, string>, x: nat)
    requires x < |decl| && MergedUpTo(overrides, decl, stringValue, m, x) && decl[x].name !in m
    ensures MergedUpTo(overrides, decl, stringValue, m[decl[x].name := stringValue(decl[x].default)], x + 1)
  {
    var names := ParameterNames(decl);
    var name := decl[x].name;
    assert names[..x + 1] == names[..x] + [name];
    forall y | 0 <= y < x
      ensures names[y] != name
    {
      assert names[y] in names[..x];
    }
    FirstNameHere(names, name, x);
  }

  lemma MergedAll(overrides: map<string, string>, decl: seq<Parameter>, stringValue: Option<string> -> string, m: map<string, string>)
    requires MergedUpTo(overrides, decl, stringValue, m, |decl|)
    ensures IsParamsMap(overrides, decl, stringValue, m)
  {
    assert ParameterNames(decl)[..|decl|] == ParameterNames(decl);
  }

  /** paramsMap: instance overrides layered over the operator version's defaults. */
  method ParamsMap(instance: Instance, ov: OperatorVersion, stringValue: Option<string> -> string)
    returns (params: map<string, string>)
    ensures IsParamsMap(instance.parameters, ov.parameters, stringValue, params)
  {
    var overrides := instance.parameters;
    params := map[];
    var rest := overrides.Keys;
    while rest != {}
      invariant rest <= overrides.Keys
      invariant params.Keys == overrides.Keys - rest
      invariant forall k :: k in params ==> params[k] == overrides[k]
      decreases |rest|
    {
      var k :| k in rest;
      params := params[k := overrides[k]];
      rest := rest - {k};
    }

    var decl := ov.parameters;
    assert ParameterNames(decl)[..0] == [];
    var x := 0;
    while x < |decl|
      invariant 0 <= x <= |decl|
      invariant MergedUpTo(overrides, decl, stringValue, params, x)
    {
      var name := decl[x].name;
      if name !in params {
        MergeNew(overrides, decl, stringValue, params, x);
        params := params[name := stringValue(decl[x].default)];
      } else {
        MergeKnown(overrides, decl, stringValue, params, x);
      }
      x := x + 1;
    }
    MergedAll(overrides, decl, stringValue, params);
  }

  // ---- pipesMap ----

  /** One artifact key declared by a pipe task referenced at a position of the plan, with that position's task metadata. */
  datatype PipeDecl = PipeDecl(meta: TaskMeta, key: string)

  /** The declarations of one pipe task, in the order of its pipe list. */
  function KeyDecls(meta: TaskMeta, pipes: seq<PipeSpec>): (ds: seq<PipeDecl>)
    ensures |ds| == |pipes|
    ensures forall x :: 0 <= x < |pipes| ==> ds[x] == PipeDecl(meta, pipes[x].key)
  {
    seq(|pipes|, x requires 0 <= x < |pipes| => PipeDecl(meta, pipes[x].key))
  }

  /** The declarations made by task name tn of step st of phase ph: none unless it resolves to a pipe task. */
  function TaskPipes(planName: string, em: EngineMeta, tasks: seq<Task>, ph: Phase, st: Step, tn: string): seq<PipeDecl> {
    match TaskNamed(tasks, tn)
    case None => []
    case Some(t) =>
      if t.kind == PipeTaskKind then KeyDecls(TaskMeta(em, planName, ph.name, st.name, tn), t.pipes) else []
  }

  /** The lists f(x) of the elements x of xs, one after the other. */
  function Flatten<T>(xs: seq<T>, f: T -> seq<PipeDecl>): seq<PipeDecl> {
    if |xs| == 0 then [] else Flatten(xs[..|xs| - 1], f) + f(xs[|xs| - 1])
  }

  function TaskPipesOf(planName: string, em: EngineMeta, tasks: seq<Task>, ph: Phase, st: Step): string -> seq<PipeDecl> {
    tn => TaskPipes(planName, em, tasks, ph, st, tn)
  }

  /** The declarations made by the task names of step st of phase ph, in order. */
  function StepPipes(planName: string, em: EngineMeta, tasks: seq<Task>, ph: Phase, st: Step): seq<PipeDecl> {
    Flatten(st.tasks, TaskPipesOf(planName, em, tasks, ph, st))
  }

  function StepPipesOf(planName: string, em: EngineMeta, tasks: seq<Task>, ph: Phase): Step -> seq<PipeDecl> {
    st => StepPipes(planName, em, tasks, ph, st)
  }

  /** The declarations made by the steps of phase ph, in order. */
  function PhasePipes(planName: string, em: EngineMeta, tasks: seq<Task>, ph: Phase): seq<PipeDecl> {
    Flatten(ph.steps, StepPipesOf(planName, em, tasks, ph))
  }

  function PhasePipesOf(planName: string, em: EngineMeta, tasks: seq<Task>): Phase -> seq<PipeDecl> {
    ph => PhasePipes(planName, em, tasks, ph)
  }

  /** Every pipe declaration of the plan, in specification order. */
  function PlanPipes(planName: string, em: EngineMeta, tasks: seq<Task>, phases: seq<Phase>): seq<PipeDecl> {
    Flatten(phases, PhasePipesOf(planName, em, tasks))
  }

  ghost predicate DistinctKeys(ds: seq<PipeDecl>) {
    forall x, y :: 0 <= x < y < |ds| ==> ds[x].key != ds[y].key
  }

  function KeysOf(ds: seq<PipeDecl>): (keys: seq<string>)
    ensures |keys| == |ds|
    ensures forall x :: 0 <= x < |ds| ==> keys[x] == ds[x].key
  {
    seq(|ds|, x requires 0 <= x < |ds| => ds[x].key)
  }

  /**
   * key is the first repeat of ds in walk order: it is declared at a position y
   * whose key already appears before y, while the declarations before y are
   * all distinct.
   */
  ghost predicate FirstRepeat(ds: seq<PipeDecl>, key: string) {
    exists y :: 0 <= y < |ds| && ds[y].key == key && DistinctKeys(ds[..y]) && key in KeysOf(ds[..y])
  }

  /** Before the end of a distinct prefix, no declaration repeats an earlier key. */
  lemma NoRepeatBefore(ds: seq<PipeDecl>, y: nat, z: nat)
    requires y < z <= |ds| && DistinctKeys(ds[..z])
    ensures ds[y].key !in KeysOf(ds[..y])
  {
    forall x | 0 <= x < y
      ensures KeysOf(ds[..y])[x] != ds[y].key
    {
      assert ds[..z][x] == ds[x] && ds[..z][y] == ds[y];
    }
  }

  /** At most one key is the first repeat, so FirstRepeat fixes the key reported. */
  lemma FirstRepeatUnique(ds: seq<PipeDecl>, k1: string, k2: string)
    requires FirstRepeat(ds, k1) && FirstRepeat(ds, k2)
    ensures k1 == k2
  {
    var y1 :| 0 <= y1 < |ds| && ds[y1].key == k1 && DistinctKeys(ds[..y1]) && k1 in KeysOf(ds[..y1]);
    var y2 :| 0 <= y2 < |ds| && ds[y2].key == k2 && DistinctKeys(ds[..y2]) && k2 in KeysOf(ds[..y2]);
    if y1 < y2 {
      NoRepeatBefore(ds, y1, y2);
    } else if y2 < y1 {
      NoRepeatBefore(ds, y2, y1);
    }
  }

  /** The first repeat of a prefix is the first repeat of the whole sequence. */
  lemma FirstRepeatPrefix(L: seq<PipeDecl>, ds: seq<PipeDecl>, key: string)
    requires L <= ds && FirstRepeat(L, key)
    ensures FirstRepeat(ds, key)
  {
    var y :| 0 <= y < |L| && L[y].key == key && DistinctKeys(L[..y]) && key in KeysOf(L[..y]);
    assert ds[..y] == L[..y];
    assert ds[y] == L[y];
  }

  /** m maps exactly the keys of ds, each to the artifact name of its declaration. */
  ghost predicate NamesPipes(m: map<string, string>, ds: seq<PipeDecl>, artifactName: (TaskMeta, string) -> string) {
    && (forall k :: k in m <==> k in KeysOf(ds))
    && forall x :: 0 <= x < |ds| ==> m[ds[x].key] == artifactName(ds[x].meta, ds[x].key)
  }

  /** pipes maps the declarations seen so far, whose keys are all different. */
  ghost predicate Tracks(pipes: map<string, string>, seen: seq<PipeDecl>, artifactName: (TaskMeta, string) -> string) {
    DistinctKeys(seen) && NamesPipes(pipes, seen, artifactName)
  }

  /** A resolved pipe task named at position (ph, st, tn) of the plan declares d's key, and d carries that position. */
  ghost predicate Declares(planName: string, em: EngineMeta, tasks: seq<Task>, phases: seq<Phase>, d: PipeDecl) {
    exists ph, st, tn, p ::
      && ph in phases && st in ph.steps && tn in st.tasks
      && TaskNamed(tasks, tn).Some? && TaskNamed(tasks, tn).value.kind == PipeTaskKind
      && p in TaskNamed(tasks, tn).value.pipes
      && d == PipeDecl(TaskMeta(em, planName, ph.name, st.name, tn), p.key)
  }

  // ---- facts about Flatten ----

  lemma {:induction false} FlattenMembers<T>(xs: seq<T>, f: T -> seq<PipeDecl>, d: PipeDecl)
    ensures d in Flatten(xs, f) <==> exists x :: x in xs && d in f(x)
    decreases |xs|
  {
    if |xs| > 0 {
      var init := xs[..|xs| - 1];
      var last := xs[|xs| - 1];
      FlattenMembers(init, f, d);
      assert xs == init + [last];
      if exists x :: x in xs && d in f(x) {
        var x :| x in xs && d in f(x);
        if x != last {
          assert x in init;
        }
      }
    }
  }

  lemma FlattenSnoc<T>(xs: seq<T>, f: T -> seq<PipeDecl>, i: nat)
    requires i < |xs|
    ensures Flatten(xs[..i + 1], f) == Flatten(xs[..i], f) + f(xs[i])
  {
    assert xs[..i + 1][..i] == xs[..i];
  }

  lemma PrefixTrans(u: seq<PipeDecl>, v: seq<PipeDecl>, w: seq<PipeDecl>)
    requires u <= v && v <= w
    ensures u <= w
  {
    assert w[..|u|] == w[..|v|][..|u|];
  }

  lemma PrefixAppend(p: seq<PipeDecl>, u: seq<PipeDecl>, v: seq<PipeDecl>)
    requires u <= v
    ensures p + u <= p + v
  {
    assert (p + v)[..|p + u|] == p + u;
  }

  lemma {:induction false} FlattenGrow<T>(xs: seq<T>, f: T -> seq<PipeDecl>, i: nat)
    requires i <= |xs|
    ensures Flatten(xs[..i], f) <= Flatten(xs, f)
    decreases |xs| - i
  {
    if i < |xs| {
      FlattenGrow(xs, f, i + 1);
      FlattenSnoc(xs, f, i);
      PrefixTrans(Flatten(xs[..i], f), Flatten(xs[..i + 1], f), Flatten(xs, f));
    } else {
      assert xs[..i] == xs;
    }
  }

  // ---- which keys the plan declares ----

  lemma TaskPipesMembers(planName: string, em: EngineMeta, tasks: seq<Task>, ph: Phase, st: Step, tn: string, d: PipeDecl)
    ensures d in TaskPipes(planName, em, tasks, ph, st, tn) <==>
      && TaskNamed(tasks, tn).Some? && TaskNamed(tasks, tn).value.kind == PipeTaskKind
      && exists p :: p in TaskNamed(tasks, tn).value.pipes && d == PipeDecl(TaskMeta(em, planName, ph.name, st.name, tn), p.key)
  {
    var t := TaskNamed(tasks, tn);
    if t.Some? && t.value.kind == PipeTaskKind {
      var ds := KeyDecls(TaskMeta(em, planName, ph.name, st.name, tn), t.value.pipes);
      if d in ds {
        var x :| 0 <= x < |ds| && ds[x] == d;
        assert t.value.pipes[x] in t.value.pipes;
      }
    }
  }

  /**
   * The declarations pipesMap walks are exactly the keys of the pipe-kind
   * tasks that the plan's steps name: a name that does not resolve, or that
   * resolves to a task of another kind, declares nothing.
   */
  lemma PlanPipesExactly(planName: string, em: EngineMeta, tasks: seq<Task>, phases: seq<Phase>, d: PipeDecl)
    ensures d in PlanPipes(planName, em, tasks, phases) <==> Declares(planName, em, tasks, phases, d)
  {
    var phaseF := PhasePipesOf(planName, em, tasks);
    FlattenMembers(phases, phaseF, d);
    if d in PlanPipes(planName, em, tasks, phases) {
      var ph :| ph in phases && d in phaseF(ph);
      var stepF := StepPipesOf(planName, em, tasks, ph);
      FlattenMembers(ph.steps, stepF, d);
      var st :| st in ph.steps && d in stepF(st);
      var taskF := TaskPipesOf(planName, em, tasks, ph, st);
      FlattenMembers(st.tasks, taskF, d);
      var tn :| tn in st.tasks && d in taskF(tn);
      TaskPipesMembers(planName, em, tasks, ph, st, tn, d);
    }
    if Declares(planName, em, tasks, phases, d) {
      var ph, st, tn, p :|
        && ph in phases && st in ph.steps && tn in st.tasks
        && TaskNamed(tasks, tn).Some? && TaskNamed(tasks, tn).value.kind == PipeTaskKind
        && p in TaskNamed(tasks, tn).value.pipes
        && d == PipeDecl(TaskMeta(em, planName, ph.name, st.name, tn), p.key);
      TaskPipesMembers(planName, em, tasks, ph, st, tn, d);
      FlattenMembers(st.tasks, TaskPipesOf(planName, em, tasks, ph, st), d);
      FlattenMembers(ph.steps, StepPipesOf(planName, em, tasks, ph), d);
    }
  }

  // ---- prefix facts used by the loops of PipesMap ----

  /** Nested prefixes: a prefix of one task's list, after the lists before it, is a prefix of the plan's list. */
  lemma PrefixChain(P: seq<PipeDecl>, Q: seq<PipeDecl>, S: seq<PipeDecl>, T: seq<PipeDecl>, d: nat,
                    stepAll: seq<PipeDecl>, phaseAll: seq<PipeDecl>, planAll: seq<PipeDecl>)
    requires d <= |T| && S + T <= stepAll && Q + stepAll <= phaseAll && P + phaseAll <= planAll
    ensures P + Q + S + T[..d] <= planAll
  {
    PrefixAppend(S, T[..d], T);
    PrefixTrans(S + T[..d], S + T, stepAll);
    PrefixAppend(Q, S + T[..d], stepAll);
    PrefixTrans(Q + (S + T[..d]), Q + stepAll, phaseAll);
    PrefixAppend(P, Q + (S + T[..d]), phaseAll);
    PrefixTrans(P + (Q + (S + T[..d])), P + phaseAll, planAll);
    assert P + Q + S + T[..d] == P + (Q + (S + T[..d]));
  }

  /** The declarations up to the d-th of task c of step b of phase a come first in the plan's list. */
  lemma PipesPrefix(planName: string, em: EngineMeta, tasks: seq<Task>, phases: seq<Phase>, a: nat, b: nat, c: nat, d: nat)
    requires a < |phases| && b < |phases[a].steps| && c < |phases[a].steps[b].tasks|
    requires d <= |TaskPipes(planName, em, tasks, phases[a], phases[a].steps[b], phases[a].steps[b].tasks[c])|
    ensures var ph := phases[a];
      var st := ph.steps[b];
      Flatten(phases[..a], PhasePipesOf(planName, em, tasks)) + Flatten(ph.steps[..b], StepPipesOf(planName, em, tasks, ph))
        + Flatten(st.tasks[..c], TaskPipesOf(planName, em, tasks, ph, st)) + TaskPipes(planName, em, tasks, ph, st, st.tasks[c])[..d]
      <= PlanPipes(planName, em, tasks, phases)
  {
    var ph := phases[a];
    var st := ph.steps[b];
    var phaseF := PhasePipesOf(planName, em, tasks);
    var stepF := StepPipesOf(planName, em, tasks, ph);
    var taskF := TaskPipesOf(planName, em, tasks, ph, st);
    FlattenSnoc(st.tasks, taskF, c);
    FlattenGrow(st.tasks, taskF, c + 1);
    FlattenSnoc(ph.steps, stepF, b);
    FlattenGrow(ph.steps, stepF, b + 1);
    FlattenSnoc(phases, phaseF, a);
    FlattenGrow(phases, phaseF, a + 1);
    PrefixChain(Flatten(phases[..a], phaseF), Flatten(ph.steps[..b], stepF), Flatten(st.tasks[..c], taskF), taskF(st.tasks[c]), d,
                Flatten(st.tasks, taskF), Flatten(ph.steps, stepF), Flatten(phases, phaseF));
  }

  /** A key repeated among the declarations up to the end of task c of step b of phase a is repeated in the plan. */
  lemma RepeatedInPlan(planName: string, em: EngineMeta, tasks: seq<Task>, phases: seq<Phase>, a: nat, b: nat, c: nat,
                       L: seq<PipeDecl>, x: nat, y: nat)
    requires a < |phases| && b < |phases[a].steps| && c < |phases[a].steps[b].tasks|
    requires L == Flatten(phases[..a], PhasePipesOf(planName, em, tasks))
      + Flatten(phases[a].steps[..b], StepPipesOf(planName, em, tasks, phases[a]))
      + Flatten(phases[a].steps[b].tasks[..c], TaskPipesOf(planName, em, tasks, phases[a], phases[a].steps[b]))
      + TaskPipes(planName, em, tasks, phases[a], phases[a].steps[b], phases[a].steps[b].tasks[c])
    requires x < y < |L| && L[x].key == L[y].key
    ensures var ds := PlanPipes(planName, em, tasks, phases);
      x < y < |ds| && ds[x].key == L[x].key && ds[y].key == L[x].key
  {
    var T := TaskPipes(planName, em, tasks, phases[a], phases[a].steps[b], phases[a].steps[b].tasks[c]);
    PipesPrefix(planName, em, tasks, phases, a, b, c, |T|);
    assert T[..|T|] == T;
  }

  lemma SeenTask(P: seq<PipeDecl>, Q: seq<PipeDecl>, S: seq<PipeDecl>, T: seq<PipeDecl>)
    ensures P + Q + S + T == P + Q + (S + T)
  {
  }

  lemma SeenNone(P: seq<PipeDecl>, Q: seq<PipeDecl>, S: seq<PipeDecl>, T: seq<PipeDecl>)
    requires T == []
    ensures P + Q + S == P + Q + (S + T)
  {
    assert S + T == S;
  }

  lemma SeenStep(P: seq<PipeDecl>, Q: seq<PipeDecl>, S: seq<PipeDecl>)
    ensures P + Q + S == P + (Q + S)
  {
  }

  /** Adding a declaration whose key is new keeps the keys distinct and the map in step. */
  lemma NamesPipesAdd(m: map<string, string>, ds: seq<PipeDecl>, artifactName: (TaskMeta, string) -> string, dcl: PipeDecl)
    requires Tracks(m, ds, artifactName) && dcl.key !in m
    ensures Tracks(m[dcl.key := artifactName(dcl.meta, dcl.key)], ds + [dcl], artifactName)
  {
    assert KeysOf(ds + [dcl]) == KeysOf(ds) + [dcl.key];
  }

  /** A declaration whose key is already mapped repeats a key of ds. */
  lemma NamesPipesHas(m: map<string, string>, ds: seq<PipeDecl>, artifactName: (TaskMeta, string) -> string, key: string)
    requires NamesPipes(m, ds, artifactName) && key in m
    ensures exists x :: 0 <= x < |ds| && ds[x].key == key
  {
    var x :| 0 <= x < |KeysOf(ds)| && KeysOf(ds)[x] == key;
  }

  /** Recording the next declaration of a task, whose key is new, keeps the map in step. */
  lemma TrackNext(m: map<string, string>, seen: seq<PipeDecl>, T: seq<PipeDecl>, d: nat, artifactName: (TaskMeta, string) -> string)
    requires d < |T| && Tracks(m, seen + T[..d], artifactName) && T[d].key !in m
    ensures Tracks(m[T[d].key := artifactName(T[d].meta, T[d].key)], seen + T[..d + 1], artifactName) == true
  {
    NamesPipesAdd(m, seen + T[..d], artifactName, T[d]);
    assert T[..d + 1] == T[..d] + [T[d]];
    assert seen + T[..d] + [T[d]] == seen + T[..d + 1];
  }

  /** The next declaration of a task whose key is already recorded repeats a key. */
  lemma TrackRepeat(m: map<string, string>, seen: seq<PipeDecl>, T: seq<PipeDecl>, d: nat, artifactName: (TaskMeta, string) -> string)
    requires d < |T| && Tracks(m, seen + T[..d], artifactName) && T[d].key in m
    ensures exists x, y :: 0 <= x < y < |seen + T| && (seen + T)[x].key == T[d].key && (seen + T)[y].key == T[d].key
  {
    var cur := seen + T[..d];
    NamesPipesHas(m, cur, artifactName, T[d].key);
    var x :| 0 <= x < |cur| && cur[x].key == T[d].key;
    assert (seen + T)[x] == cur[x];
    assert (seen + T)[|cur|] == T[d];
  }

  /** The next declaration of a task whose key is already recorded is the first repeat of the declarations. */
  lemma TrackFirstRepeat(m: map<string, string>, seen: seq<PipeDecl>, T: seq<PipeDecl>, d: nat, artifactName: (TaskMeta, string) -> string)
    requires d < |T| && Tracks(m, seen + T[..d], artifactName) && T[d].key in m
    ensures FirstRepeat(seen + T, T[d].key)
  {
    var cur := seen + T[..d];
    assert (seen + T)[..|cur|] == cur;
    assert (seen + T)[|cur|] == T[d];
  }

  /** The first repeat among the declarations up to the end of task c of step b of phase a is the first repeat of the plan. */
  lemma FirstRepeatInPlan(planName: string, em: EngineMeta, tasks: seq<Task>, phases: seq<Phase>, a: nat, b: nat, c: nat,
                          L: seq<PipeDecl>, key: string)
    requires a < |phases| && b < |phases[a].steps| && c < |phases[a].steps[b].tasks|
    requires L == Flatten(phases[..a], PhasePipesOf(planName, em, tasks))
      + Flatten(phases[a].steps[..b], StepPipesOf(planName, em, tasks, phases[a]))
      + Flatten(phases[a].steps[b].tasks[..c], TaskPipesOf(planName, em, tasks, phases[a], phases[a].steps[b]))
      + TaskPipes(planName, em, tasks, phases[a], phases[a].steps[b], phases[a].steps[b].tasks[c])
    requires FirstRepeat(L, key)
    ensures FirstRepeat(PlanPipes(planName, em, tasks, phases), key)
  {
    var T := TaskPipes(planName, em, tasks, phases[a], phases[a].steps[b], phases[a].steps[b].tasks[c]);
    PipesPrefix(planName, em, tasks, phases, a, b, c, |T|);
    assert T[..|T|] == T;
    FirstRepeatPrefix(L, PlanPipes(planName, em, tasks, phases), key);
  }

  /**
   * The loop of pipesMap over one pipe task's pipe list: record each key's
   * artifact name, or stop at the first key already recorded.
   */
  method AddTaskPipes(pipes: map<string, string>, ghost seen: seq<PipeDecl>, meta: TaskMeta, specs: seq<PipeSpec>,
                      artifactName: (TaskMeta, string) -> string)
    returns (r: Result<map<string, string>, string>)
    requires Tracks(pipes, seen, artifactName)
    ensures var all := seen + KeyDecls(meta, specs);
      && (r.Ok? ==> Tracks(r.value, all, artifactName) == true)
      && (r.Err? ==> exists x, y :: 0 <= x < y < |all| && all[x].key == r.error && all[y].key == r.error)
      && (r.Err? ==> FirstRepeat(all, r.error))
  {
    ghost var T := KeyDecls(meta, specs);
    assert seen + T[..0] == seen;
    var m := pipes;
    var d := 0;
    while d < |specs|
      invariant 0 <= d <= |specs|
      invariant Tracks(m, seen + T[..d], artifactName) == true
    {
      var key := specs[d].key;
      if key in m {
        TrackRepeat(m, seen, T, d, artifactName);
        TrackFirstRepeat(m, seen, T, d, artifactName);
        return Err(key);
      }
      TrackNext(m, seen, T, d, artifactName);
      m := m[key := artifactName(meta, key)];
      d := d + 1;
    }
    assert T[..d] == T;
    return Ok(m);
  }

  /**
   * pipesMap: the artifact name of every key declared by a pipe task of the
   * plan, or the first key found repeated in walk order (FirstRepeat).
   */
  method PipesMap(planName: string, plan: Plan, tasks: seq<Task>, em: EngineMeta, artifactName: (TaskMeta, string) -> string)
    returns (r: Result<map<string, string>, string>)
    ensures var ds := PlanPipes(planName, em, tasks, plan.phases);
      && (r.Ok? <==> DistinctKeys(ds))
      && (r.Ok? ==> NamesPipes(r.value, ds, artifactName))
      && (r.Err? ==> exists x, y :: 0 <= x < y < |ds| && ds[x].key == r.error && ds[y].key == r.error)
      && (r.Err? ==> FirstRepeat(ds, r.error))
  {
    var phases := plan.phases;
    ghost var ds := PlanPipes(planName, em, tasks, phases);
    ghost var phaseF := PhasePipesOf(planName, em, tasks);
    var pipes: map<string, string> := map[];
    ghost var seen: seq<PipeDecl> := [];
    var a := 0;
    while a < |phases|
      invariant 0 <= a <= |phases|
      invariant seen == Flatten(phases[..a], phaseF)
      invariant Tracks(pipes, seen, artifactName)
    {
      var ph := phases[a];
      ghost var P := seen;
      ghost var stepF := StepPipesOf(planName, em, tasks, ph);
      var b := 0;
      while b < |ph.steps|
        invariant 0 <= b <= |ph.steps|
        invariant seen == P + Flatten(ph.steps[..b], stepF)
        invariant Tracks(pipes, seen, artifactName)
      {
        var st := ph.steps[b];
        ghost var Q := Flatten(ph.steps[..b], stepF);
        ghost var taskF := TaskPipesOf(planName, em, tasks, ph, st);
        var c := 0;
        while c < |st.tasks|
          invariant 0 <= c <= |st.tasks|
          invariant seen == P + Q + Flatten(st.tasks[..c], taskF)
          invariant Tracks(pipes, seen, artifactName)
        {
          var tn := st.tasks[c];
          ghost var S := Flatten(st.tasks[..c], taskF);
          ghost var T := TaskPipes(planName, em, tasks, ph, st, tn);
          var t := TaskByName(tasks, tn);
          if t.Some? && t.value.kind == PipeTaskKind {
            var meta := TaskMeta(em, planName, ph.name, st.name, tn);
            assert T == KeyDecls(meta, t.value.pipes);
            var added := AddTaskPipes(pipes, seen, meta, t.value.pipes, artifactName);
            if added.Err? {
              ghost var x, y :| 0 <= x < y < |seen + T| && (seen + T)[x].key == added.error && (seen + T)[y].key == added.error;
              RepeatedInPlan(planName, em, tasks, phases, a, b, c, seen + T, x, y);
              FirstRepeatInPlan(planName, em, tasks, phases, a, b, c, seen + T, added.error);
              return Err(added.error);
            }
            SeenTask(P, Q, S, T);
            pipes := added.value;
            seen := seen + T;
          } else {
            SeenNone(P, Q, S, T);
          }
          assert seen == P + Q + (S + taskF(tn));
          FlattenSnoc(st.tasks, taskF, c);
          c := c + 1;
        }
        assert st.tasks[..c] == st.tasks;
        SeenStep(P, Q, stepF(st));
        FlattenSnoc(ph.steps, stepF, b);
        b := b + 1;
      }
      assert ph.steps[..b] == ph.steps;
      FlattenSnoc(phases, phaseF, a);
      a := a + 1;
    }
    assert phases[..a] == phases;
    return Ok(pipes);
  }

  // ---- parameterDiff ----

  /**
   * d is the parameter diff from `before` to `after`: the removed keys with
   * their old value, and the added or changed keys with their new value.
   */
  ghost predicate IsDiff(before: map<string, string>, after: map<string, string>, d: map<string, string>) {
    && (forall k :: k in d <==> (k in before && k !in after) || (k in after && (k !in before || before[k] != after[k])))
    && (forall k :: k in d && k !in after ==> d[k] == before[k])
    && (forall k :: k in d && k in after ==> d[k] == after[k])
  }

  /** parameterDiff: the keys removed, added or changed between two parameter maps. */
  method ParameterDiff(before: map<string, string>, after: map<string, string>) returns (diff: map<string, string>)
    ensures IsDiff(before, after, diff)
  {
    diff := map[];
    var rest := before.Keys;
    while rest != {}
      invariant rest <= before.Keys
      invariant forall k :: k in diff <==> k in before && k !in rest && k !in after
      invariant forall k :: k in diff ==> diff[k] == before[k]
      decreases |rest|
    {
      var key :| key in rest;
      if key !in after {
        diff := diff[key := before[key]];
      }
      rest := rest - {key};
    }

    rest := after.Keys;
    while rest != {}
      invariant rest <= after.Keys
      invariant forall k :: k in diff <==>
        (k in before && k !in after) || (k in after && k !in rest && (k !in before || before[k] != after[k]))
      invariant forall k :: k in diff && k !in after ==> diff[k] == before[k]
      invariant forall k :: k in diff && k in after ==> diff[k] == after[k]
      decreases |rest|
    {
      var key :| key in rest;
      if key !in before || before[key] != after[key] {
        diff := diff[key := after[key]];
      }
      rest := rest - {key};
    }
  }

  /** The diff is empty exactly when nothing changed; in particular parameterDiff(m, m) is empty. */
  lemma DiffEmptyIffEqual(before: map<string, string>, after: map<string, string>, d: map<string, string>)
    requires IsDiff(before, after, d)
    ensures d == map[] <==> before == after
  {
    if d == map[] {
      forall k | k in before
        ensures k in after && before[k] == after[k]
      {
        assert k !in d;
      }
      forall k | k in after
        ensures k in before
      {
        assert k !in d;
      }
      assert before.Keys == after.Keys;
    } else {
      var k :| k in d;
    }
  }

  // ---- preparePlanExecution ----

  /**
   * preparePlanExecution: the active plan for the plan named by the status, or
   * a fatal InvalidPlan error when that plan does not exist or its pipe keys
   * clash.
   */
  method PreparePlanExecution(instance: Instance, ov: OperatorVersion, planStatus: PlanStatus, em: EngineMeta,
                              stringValue: Option<string> -> string, artifactName: (TaskMeta, string) -> string)
    returns (r: Result<ActivePlan, ExecutionError>)
    ensures r.Err? ==> r.error.fatal && r.error.eventName == "InvalidPlan"
    ensures planStatus.name !in ov.plans ==> r == Err(ExecutionError(true, "InvalidPlan", PlanNotFound(planStatus.name)))
    ensures planStatus.name in ov.plans ==>
      var ds := PlanPipes(planStatus.name, em, ov.tasks, ov.plans[planStatus.name].phases);
      && (r.Ok? <==> DistinctKeys(ds))
      && (r.Err? ==> r.error.cause.DuplicatedPipeKey?)
      && (r.Err? ==> exists x, y :: 0 <= x < y < |ds| && ds[x].key == r.error.cause.key && ds[y].key == r.error.cause.key)
      && (r.Err? ==> FirstRepeat(ds, r.error.cause.key))
      && (r.Ok? ==>
            && r.value.name == planStatus.name && r.value.status == planStatus
            && r.value.spec == ov.plans[planStatus.name]
            && r.value.tasks == ov.tasks && r.value.templates == ov.templates
            && IsParamsMap(instance.parameters, ov.parameters, stringValue, r.value.params)
            && NamesPipes(r.value.pipes, ds, artifactName))
  {
    if planStatus.name !in ov.plans {
      return Err(ExecutionError(true, "InvalidPlan", PlanNotFound(planStatus.name)));
    }
    var planSpec := ov.plans[planStatus.name];
    var params := ParamsMap(instance, ov, stringValue);
    var pipes := PipesMap(planStatus.name, planSpec, ov.tasks, em, artifactName);
    if pipes.Err? {
      return Err(ExecutionError(true, "InvalidPlan", DuplicatedPipeKey(pipes.error)));
    }
    return Ok(ActivePlan(planStatus.name, planStatus, planSpec, ov.tasks, ov.templates, params, pipes.value));
  }
}
