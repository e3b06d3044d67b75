/** Research plans, their validation, and append-only supplements (backend/src/atlasflow/agents/contracts.py). */
module ResearchPlans {
  import opened Common
  import opened PlanGraph

  const MIN_TASKS := 2
  const MAX_TASKS := 7
  const MAX_BATCH := 2
  const MAX_SUPPLEMENTS := 1

  datatype ResearchTask = ResearchTask(
    taskId: TaskId, planVersion: nat, dependencies: seq<TaskId>, repairsTaskIds: seq<TaskId>, objective: string)

  datatype ResearchPlan = ResearchPlan(planVersion: nat, tasks: seq<ResearchTask>)

  datatype PlanError =
    | TaskCount
    | DuplicateIds
    | WrongVersion(taskId: TaskId)
    | UnknownDependencies(taskId: TaskId)
    | UnknownRepairs(taskId: TaskId)
    | CyclicDependencies

  function Ids(tasks: seq<ResearchTask>): (r: seq<TaskId>)
    ensures |r| == |tasks| && forall i :: 0 <= i < |r| ==> r[i] == tasks[i].taskId
  {
    seq(|tasks|, i requires 0 <= i < |tasks| => tasks[i].taskId)
  }

  /** `{task.task_id: set(task.dependencies) for task in tasks}`: a later entry replaces an earlier one. */
  function Graph(tasks: seq<ResearchTask>): (g: Dependencies)
    ensures g.Keys == Elements(Ids(tasks))
  {
    if tasks == [] then map[] else
      var n := |tasks| - 1;
      assert Ids(tasks) == Ids(tasks[..n]) + [tasks[n].taskId];
      Graph(tasks[..n])[tasks[n].taskId := Elements(tasks[n].dependencies)]
  }

  predicate FieldsFit(plan: ResearchPlan, task: ResearchTask) {
    && task.planVersion == plan.planVersion
    && Elements(task.dependencies) <= Elements(Ids(plan.tasks))
    && Elements(task.repairsTaskIds) <= Elements(Ids(plan.tasks))
  }

  /** What the code promises of every plan it accepts. */
  ghost predicate Accepted(plan: ResearchPlan) {
    && MIN_TASKS <= |plan.tasks| <= MAX_TASKS
    && AllDistinct(Ids(plan.tasks))
    && (forall i :: 0 <= i < |plan.tasks| ==> FieldsFit(plan, plan.tasks[i]))
    && Acyclic(Graph(plan.tasks))
  }

  lemma {:induction false} GraphLookup(tasks: seq<ResearchTask>, i: nat)
    requires AllDistinct(Ids(tasks)) && i < |tasks|
    ensures tasks[i].taskId in Graph(tasks) && Graph(tasks)[tasks[i].taskId] == Elements(tasks[i].dependencies)
  {
    var n := |tasks| - 1;
    assert Ids(tasks) == Ids(tasks[..n]) + [tasks[n].taskId];
    if i < n {
      assert Ids(tasks)[i] != Ids(tasks)[n];
      assert AllDistinct(Ids(tasks[..n])) by {
        forall a, b | 0 <= a < b < n ensures Ids(tasks[..n])[a] != Ids(tasks[..n])[b] {
          assert Ids(tasks)[a] != Ids(tasks)[b];
        }
      }
      GraphLookup(tasks[..n], i);
    }
  }

  lemma FittingPlanIsClosed(plan: ResearchPlan)
    requires AllDistinct(Ids(plan.tasks)) && forall i :: 0 <= i < |plan.tasks| ==> FieldsFit(plan, plan.tasks[i])
    ensures Closed(Graph(plan.tasks))
  {
    var g := Graph(plan.tasks);
    forall t | t in g ensures g[t] <= g.Keys {
      var i :| 0 <= i < |plan.tasks| && Ids(plan.tasks)[i] == t;
      GraphLookup(plan.tasks, i);
      assert FieldsFit(plan, plan.tasks[i]);
    }
  }

  /** The first task that does not fit the plan, and the first thing wrong with it. */
  ghost predicate MisfitIs(plan: ResearchPlan, i: int, error: PlanError) {
    && 0 <= i < |plan.tasks| && (forall j :: 0 <= j < i ==> FieldsFit(plan, plan.tasks[j]))
    && var task, known := plan.tasks[i], Ids(plan.tasks);
    match error
    case WrongVersion(id) => id == task.taskId && task.planVersion != plan.planVersion
    case UnknownDependencies(id) =>
      && id == task.taskId && task.planVersion == plan.planVersion
      && exists d :: d in task.dependencies && d !in known
    case UnknownRepairs(id) =>
      && id == task.taskId && task.planVersion == plan.planVersion
      && (forall d :: d in task.dependencies ==> d in known)
      && exists d :: d in task.repairsTaskIds && d !in known
    case _ => false
  }

  ghost predicate HasCycle(g: Dependencies) {
    exists p :: IsCycle(g, p)
  }

  /** What each error says about the plan, everything checked before it being in order. */
  ghost predicate PlanFault(plan: ResearchPlan, error: PlanError) {
    match error
    case TaskCount => |plan.tasks| < 2 || 7 < |plan.tasks|
    case DuplicateIds => 2 <= |plan.tasks| <= 7 && !AllDistinct(Ids(plan.tasks))
    case CyclicDependencies =>
      && 2 <= |plan.tasks| <= 7 && AllDistinct(Ids(plan.tasks))
      && (forall i :: 0 <= i < |plan.tasks| ==> FieldsFit(plan, plan.tasks[i])) && HasCycle(Graph(plan.tasks))
    case _ =>
      && 2 <= |plan.tasks| <= 7 && AllDistinct(Ids(plan.tasks))
      && exists i :: MisfitIs(plan, i, error)
  }

  /** Building a plan: None exactly for the accepted plans, otherwise the error raised. */
  method ValidateTaskDag(plan: ResearchPlan) returns (error: Option<PlanError>)
    ensures error == None <==> Accepted(plan)
    ensures error.Some? ==> PlanFault(plan, error.value)
  {
    if !(MIN_TASKS <= |plan.tasks| <= MAX_TASKS) {
      return Some(TaskCount);
    }
    var taskIds := Ids(plan.tasks);
    DistinctIffSameSize(taskIds);
    if |taskIds| != |Elements(taskIds)| {
      return Some(DuplicateIds);
    }
    var knownIds := Elements(taskIds);
    for i := 0 to |plan.tasks|
      invariant forall j :: 0 <= j < i ==> FieldsFit(plan, plan.tasks[j])
    {
      var task := plan.tasks[i];
      if task.planVersion != plan.planVersion {
        assert MisfitIs(plan, i, WrongVersion(task.taskId));
        return Some(WrongVersion(task.taskId));
      }
      if Elements(task.dependencies) - knownIds != {} {
        ghost var d :| d in Elements(task.dependencies) - knownIds;
        assert MisfitIs(plan, i, UnknownDependencies(task.taskId));
        return Some(UnknownDependencies(task.taskId));
      }
      EmptyDifference(Elements(task.dependencies), knownIds);
      if Elements(task.repairsTaskIds) - knownIds != {} {
        ghost var d :| d in Elements(task.repairsTaskIds) - knownIds;
        assert MisfitIs(plan, i, UnknownRepairs(task.taskId));
        return Some(UnknownRepairs(task.taskId));
      }
      EmptyDifference(Elements(task.repairsTaskIds), knownIds);
    }
    FittingPlanIsClosed(plan);
    error := VisitAll(plan);
  }

  lemma EmptyDifference<T>(a: set<T>, b: set<T>)
    requires a - b == {}
    ensures a <= b
  {
    forall x | x in a ensures x in b {
      assert x !in a - b;
    }
  }

  lemma AllVisitedIsAcyclic(validator: DagValidator, taskIds: seq<TaskId>)
    requires validator.FinishedInOrder() && validator.dependencies.Keys == Elements(taskIds)
    requires forall j :: 0 <= j < |taskIds| ==> taskIds[j] in validator.visited
    ensures Acyclic(validator.dependencies)
  {
    forall t | t in validator.dependencies ensures t in validator.visited {
      var j :| 0 <= j < |taskIds| && taskIds[j] == t;
    }
    RankedIsAcyclic(validator.dependencies, validator.rank);
  }

  method VisitAll(plan: ResearchPlan) returns (error: Option<PlanError>)
    requires Closed(Graph(plan.tasks))
    ensures error == if Acyclic(Graph(plan.tasks)) then None else Some(CyclicDependencies)
    ensures error.Some? ==> HasCycle(Graph(plan.tasks))
  {
    var taskIds := Ids(plan.tasks);
    var validator := new DagValidator(Graph(plan.tasks));
    for i := 0 to |taskIds|
      invariant validator.FinishedInOrder() && validator.visiting == {}
      invariant forall j :: 0 <= j < i ==> taskIds[j] in validator.visited
    {
      var ok;
      ghost var cycle;
      ok, cycle := validator.Visit(taskIds[i], []);
      if !ok {
        assert IsCycle(Graph(plan.tasks), cycle);
        return Some(CyclicDependencies);
      }
    }
    AllVisitedIsAcyclic(validator, taskIds);
    return None;
  }

  ghost predicate CanStart(plan: ResearchPlan, done: set<TaskId>, i: int) {
    && 0 <= i < |plan.tasks| && plan.tasks[i].taskId !in done
    && forall d :: d in plan.tasks[i].dependencies ==> d in done
  }

  /** Every accepted plan, at every stage of its execution, has a task that can start next. */
  lemma AcceptedPlanNeverStalls(plan: ResearchPlan, done: set<TaskId>)
    requires Accepted(plan) && done < Elements(Ids(plan.tasks))
    ensures exists i :: CanStart(plan, done, i)
  {
    FittingPlanIsClosed(plan);
    var g := Graph(plan.tasks);
    NeverStalls(g, done);
    var t :| Ready(g, done, t);
    var i :| 0 <= i < |plan.tasks| && Ids(plan.tasks)[i] == t;
    GraphLookup(plan.tasks, i);
    assert CanStart(plan, done, i);
  }

  // ----- Supplements -----

  datatype SupplementBatch = SupplementBatch(round: nat, planVersion: nat, tasks: seq<ResearchTask>)

  datatype PlanLineage = PlanLineage(planVersion: nat, basePlan: ResearchPlan, supplements: seq<SupplementBatch>)

  datatype LineageError =
    | BatchSize
    | BatchDuplicateIds
    | BatchVersion
    | TooManySupplements
    | BaseVersion
    | RoundOrder
    | IdsNotNew
    | ActivePlan(error: PlanError)

  function SupplementalTasks(supplements: seq<SupplementBatch>): seq<ResearchTask> {
    if supplements == [] then [] else
      SupplementalTasks(supplements[..|supplements| - 1]) + supplements[|supplements| - 1].tasks
  }

  function ActivePlanOf(lineage: PlanLineage): ResearchPlan {
    ResearchPlan(lineage.planVersion, lineage.basePlan.tasks + SupplementalTasks(lineage.supplements))
  }

  ghost predicate AcceptedBatch(batch: SupplementBatch) {
    && 1 <= |batch.tasks| <= MAX_BATCH
    && AllDistinct(Ids(batch.tasks))
    && forall t :: t in batch.tasks ==> t.planVersion == batch.planVersion
  }

  ghost predicate AcceptedLineage(lineage: PlanLineage) {
    && Accepted(lineage.basePlan) && lineage.basePlan.planVersion == lineage.planVersion
    && |lineage.supplements| <= MAX_SUPPLEMENTS
    && (forall i :: 0 <= i < |lineage.supplements| ==>
         && AcceptedBatch(lineage.supplements[i])
         && lineage.supplements[i].round == i + 1
         && lineage.supplements[i].planVersion == lineage.planVersion)
    && AllDistinct(Ids(lineage.basePlan.tasks + SupplementalTasks(lineage.supplements)))
    && Accepted(ActivePlanOf(lineage))
  }

  /** The part of a graph between the given tasks. */
  function Within(g: Dependencies, part: set<TaskId>): Dependencies {
    map t | t in g.Keys * part :: g[t] * part
  }

  /** Adding tasks to a closed acyclic graph can only create cycles that avoid every old task. */
  lemma CycleAvoidsBase(base: Dependencies, g: Dependencies, p: seq<TaskId>)
    requires Closed(base) && Acyclic(base) && IsCycle(g, p)
    requires base.Keys <= g.Keys && forall t :: t in base ==> g[t] == base[t]
    ensures forall i :: 0 <= i < |p| ==> p[i] !in base
  {
    if i :| 0 <= i < |p| && p[i] in base {
      StaysInBase(base, g, p, i, |p| - 1);
      assert p[0] in base;
      forall k | 0 <= k < |p| ensures p[k] in base {
        StaysInBase(base, g, p, 0, k);
      }
      forall a, b | 0 <= a < b < |p| && b == a + 1 ensures DependsOn(base, p[a], p[b]) {
        assert DependsOn(g, p[a], p[b]);
      }
      assert IsCycle(base, p);
      assert false;
    }
  }

  lemma {:induction false} StaysInBase(base: Dependencies, g: Dependencies, p: seq<TaskId>, i: nat, k: nat)
    requires Closed(base) && IsWalk(g, p) && i <= k < |p| && p[i] in base
    requires base.Keys <= g.Keys && forall t :: t in base ==> g[t] == base[t]
    ensures p[k] in base
    decreases k
  {
    if i < k {
      StaysInBase(base, g, p, i, k - 1);
      assert DependsOn(g, p[k - 1], p[k]);
    }
  }

  /** Whether the combined graph is acyclic depends on the added tasks alone. */
  lemma CombinedAcyclicIffBatchAcyclic(base: Dependencies, g: Dependencies)
    requires Closed(base) && Acyclic(base)
    requires base.Keys <= g.Keys && forall t :: t in base ==> g[t] == base[t]
    ensures Acyclic(g) <==> Acyclic(Within(g, g.Keys - base.Keys))
  {
    var part := g.Keys - base.Keys;
    var w := Within(g, part);
    if !Acyclic(g) {
      var p :| IsCycle(g, p);
      CycleAvoidsBase(base, g, p);
      forall a, b | 0 <= a < b < |p| && b == a + 1 ensures DependsOn(w, p[a], p[b]) {
        assert DependsOn(g, p[a], p[b]);
        if b == |p| - 1 {
          assert DependsOn(g, p[0], p[1]);
        } else {
          assert DependsOn(g, p[b], p[b + 1]);
        }
      }
      assert IsCycle(w, p);
    }
    if !Acyclic(w) {
      var p :| IsCycle(w, p);
      forall a, b | 0 <= a < b < |p| && b == a + 1 ensures DependsOn(g, p[a], p[b]) {
        assert DependsOn(w, p[a], p[b]);
      }
      assert IsCycle(g, p);
    }
  }

  lemma GraphAppend(base: seq<ResearchTask>, more: seq<ResearchTask>)
    requires AllDistinct(Ids(base + more))
    ensures forall t :: t in Graph(base) ==> t in Graph(base + more) && Graph(base + more)[t] == Graph(base)[t]
    ensures Graph(base + more).Keys == Graph(base).Keys + Elements(Ids(more))
    ensures Graph(base).Keys !! Elements(Ids(more))
    ensures AllDistinct(Ids(base)) && AllDistinct(Ids(more))
  {
    var both := base + more;
    assert Ids(both) == Ids(base) + Ids(more);
    forall i, j | 0 <= i < j < |base| ensures Ids(base)[i] != Ids(base)[j] {
      assert Ids(both)[i] != Ids(both)[j];
    }
    forall i, j | 0 <= i < j < |more| ensures Ids(more)[i] != Ids(more)[j] {
      assert Ids(both)[|base| + i] != Ids(both)[|base| + j];
    }
    forall i, j | 0 <= i < |base| && 0 <= j < |more| ensures Ids(base)[i] != Ids(more)[j] {
      assert Ids(both)[i] != Ids(both)[|base| + j];
    }
    forall t | t in Graph(base) ensures t in Graph(both) && Graph(both)[t] == Graph(base)[t] {
      var i :| 0 <= i < |base| && Ids(base)[i] == t;
      GraphLookup(base, i);
      GraphLookup(both, i);
    }
  }

  /** The conditions on the new tasks, given what is already planned, under which a supplement fits. */
  ghost predicate SupplementFits(plan: ResearchPlan, tasks: seq<ResearchTask>) {
    var all := plan.tasks + tasks;
    && |all| <= MAX_TASKS
    && AllDistinct(Ids(all))
    && (forall t :: t in tasks ==> FieldsFit(ResearchPlan(plan.planVersion, all), t))
    && Acyclic(Within(Graph(all), Elements(Ids(tasks))))
  }

  /** Extending an accepted plan is accepted exactly when the new tasks fit: the base never has to be rechecked. */
  lemma ExtensionAcceptedIffFits(plan: ResearchPlan, tasks: seq<ResearchTask>)
    requires Accepted(plan)
    ensures Accepted(ResearchPlan(plan.planVersion, plan.tasks + tasks)) <==> SupplementFits(plan, tasks)
  {
    var all := ResearchPlan(plan.planVersion, plan.tasks + tasks);
    if AllDistinct(Ids(all.tasks)) {
      GraphAppend(plan.tasks, tasks);
      FittingPlanIsClosed(plan);
      CombinedAcyclicIffBatchAcyclic(Graph(plan.tasks), Graph(all.tasks));
      assert Graph(all.tasks).Keys - Graph(plan.tasks).Keys == Elements(Ids(tasks));
      FieldsOfExtension(plan, tasks);
    }
  }

  lemma FieldsOfExtension(plan: ResearchPlan, tasks: seq<ResearchTask>)
    requires forall i :: 0 <= i < |plan.tasks| ==> FieldsFit(plan, plan.tasks[i])
    ensures var all := ResearchPlan(plan.planVersion, plan.tasks + tasks);
      (forall i :: 0 <= i < |all.tasks| ==> FieldsFit(all, all.tasks[i])) <==>
      (forall t :: t in tasks ==> FieldsFit(all, t))
  {
    var all := ResearchPlan(plan.planVersion, plan.tasks + tasks);
    assert Ids(all.tasks) == Ids(plan.tasks) + Ids(tasks);
    forall i | 0 <= i < |plan.tasks| ensures FieldsFit(all, all.tasks[i]) {
      assert all.tasks[i] == plan.tasks[i] && FieldsFit(plan, plan.tasks[i]);
    }
    forall t | t in tasks ensures exists i :: |plan.tasks| <= i < |all.tasks| && all.tasks[i] == t {
      var j :| 0 <= j < |tasks| && tasks[j] == t;
      assert all.tasks[|plan.tasks| + j] == t;
    }
    forall i | |plan.tasks| <= i < |all.tasks| ensures all.tasks[i] in tasks {
      assert all.tasks[i] == tasks[i - |plan.tasks|];
    }
  }

  method WithSupplementalTasks(plan: ResearchPlan, tasks: seq<ResearchTask>)
      returns (r: Result<ResearchPlan, LineageError>)
    requires Accepted(plan)
    ensures r.Ok? <==> 1 <= |tasks| <= MAX_BATCH && SupplementFits(plan, tasks)
    ensures r.Ok? ==> Accepted(r.value) && r.value == ResearchPlan(plan.planVersion, plan.tasks + tasks)
    ensures r == Err(BatchSize) <==> |tasks| == 0 || 2 < |tasks|
    ensures r.Err? && r.error != BatchSize ==>
      r.error.ActivePlan? && PlanFault(ResearchPlan(plan.planVersion, plan.tasks + tasks), r.error.error)
  {
    if !(1 <= |tasks| <= MAX_BATCH) {
      return Err(BatchSize);
    }
    ExtensionAcceptedIffFits(plan, tasks);
    var extended := ResearchPlan(plan.planVersion, plan.tasks + tasks);
    var error := ValidateTaskDag(extended);
    r := if error.Some? then Err(ActivePlan(error.value)) else Ok(extended);
  }

  /** What each error says about the batch, everything checked before it being in order. */
  ghost predicate BatchFault(batch: SupplementBatch, error: LineageError) {
    match error
    case BatchSize => |batch.tasks| == 0 || 2 < |batch.tasks|
    case BatchDuplicateIds => 1 <= |batch.tasks| <= 2 && !AllDistinct(Ids(batch.tasks))
    case BatchVersion =>
      && 1 <= |batch.tasks| <= 2 && AllDistinct(Ids(batch.tasks))
      && exists i :: 0 <= i < |batch.tasks| && batch.tasks[i].planVersion != batch.planVersion
    case _ => false
  }

  /** Building a batch. */
  method ValidateBatch(batch: SupplementBatch) returns (error: Option<LineageError>)
    ensures error == None <==> AcceptedBatch(batch)
    ensures error.Some? ==> BatchFault(batch, error.value)
  {
    if !(1 <= |batch.tasks| <= MAX_BATCH) {
      return Some(BatchSize);
    }
    DistinctIffSameSize(Ids(batch.tasks));
    if |Ids(batch.tasks)| != |Elements(Ids(batch.tasks))| {
      return Some(BatchDuplicateIds);
    }
    for i := 0 to |batch.tasks|
      invariant forall t :: t in batch.tasks[..i] ==> t.planVersion == batch.planVersion
    {
      if batch.tasks[i].planVersion != batch.planVersion {
        return Some(BatchVersion);
      }
      assert batch.tasks[..i + 1] == batch.tasks[..i] + [batch.tasks[i]];
    }
    assert batch.tasks[..|batch.tasks|] == batch.tasks;
    return None;
  }

  /** Rounds 1, 2, ... and the lineage's own version throughout. */
  ghost predicate BatchesFit(lineage: PlanLineage, n: nat)
    requires n <= |lineage.supplements|
  {
    forall i :: 0 <= i < n ==>
      lineage.supplements[i].round == i + 1 && lineage.supplements[i].planVersion == lineage.planVersion
  }

  /** At most one supplement, of the first round, and one version throughout. */
  ghost predicate HeadersFit(lineage: PlanLineage) {
    && |lineage.supplements| <= 1 && lineage.basePlan.planVersion == lineage.planVersion
    && forall s :: s in lineage.supplements ==> s.round == 1 && s.planVersion == lineage.planVersion
  }

  /** What each error says about the lineage, everything checked before it being in order. */
  ghost predicate LineageFault(lineage: PlanLineage, error: LineageError) {
    var supplements := lineage.supplements;
    match error
    case TooManySupplements => |supplements| > 1
    case BaseVersion => |supplements| <= 1 && lineage.basePlan.planVersion != lineage.planVersion
    case RoundOrder =>
      |supplements| == 1 && lineage.basePlan.planVersion == lineage.planVersion && supplements[0].round != 1
    case BatchVersion =>
      && |supplements| == 1 && lineage.basePlan.planVersion == lineage.planVersion && supplements[0].round == 1
      && supplements[0].planVersion != lineage.planVersion
    case IdsNotNew =>
      HeadersFit(lineage) && !AllDistinct(Ids(lineage.basePlan.tasks + SupplementalTasks(supplements)))
    case ActivePlan(planError) =>
      && HeadersFit(lineage) && AllDistinct(Ids(lineage.basePlan.tasks + SupplementalTasks(supplements)))
      && PlanFault(ActivePlanOf(lineage), planError)
    case _ => false
  }

  /** Building a lineage from a plan and batches that were themselves accepted. */
  method ValidateLineage(lineage: PlanLineage) returns (error: Option<LineageError>)
    requires Accepted(lineage.basePlan)
    requires forall i :: 0 <= i < |lineage.supplements| ==> AcceptedBatch(lineage.supplements[i])
    ensures error == None <==> AcceptedLineage(lineage)
    ensures error.Some? ==> LineageFault(lineage, error.value)
  {
    if |lineage.supplements| > MAX_SUPPLEMENTS {
      return Some(TooManySupplements);
    }
    if lineage.basePlan.planVersion != lineage.planVersion {
      return Some(BaseVersion);
    }
    for i := 0 to |lineage.supplements|
      invariant BatchesFit(lineage, i)
    {
      if lineage.supplements[i].round != i + 1 {
        return Some(RoundOrder);
      }
      if lineage.supplements[i].planVersion != lineage.planVersion {
        return Some(BatchVersion);
      }
    }
    var allIds := Ids(lineage.basePlan.tasks + SupplementalTasks(lineage.supplements));
    DistinctIffSameSize(allIds);
    if |allIds| != |Elements(allIds)| {
      return Some(IdsNotNew);
    }
    var planError := ValidateTaskDag(ActivePlanOf(lineage));
    error := if planError.Some? then Some(ActivePlan(planError.value)) else None;
  }

  function WithBatch(lineage: PlanLineage, tasks: seq<ResearchTask>): PlanLineage {
    lineage.(supplements :=
      lineage.supplements + [SupplementBatch(|lineage.supplements| + 1, lineage.planVersion, tasks)])
  }

  lemma ActivePlanGrows(lineage: PlanLineage, tasks: seq<ResearchTask>)
    ensures ActivePlanOf(WithBatch(lineage, tasks)).tasks == ActivePlanOf(lineage).tasks + tasks
  {
    assert WithBatch(lineage, tasks).supplements[..|lineage.supplements|] == lineage.supplements;
  }

  /** A batch of its own kind, seen from the combined plan. */
  lemma FittingBatchIsAccepted(lineage: PlanLineage, tasks: seq<ResearchTask>)
    requires AcceptedLineage(lineage) && 1 <= |tasks| <= MAX_BATCH
    requires SupplementFits(ActivePlanOf(lineage), tasks)
    ensures AcceptedBatch(SupplementBatch(|lineage.supplements| + 1, lineage.planVersion, tasks))
  {
    var active := ActivePlanOf(lineage);
    GraphAppend(active.tasks, tasks);
    forall t | t in tasks ensures t.planVersion == lineage.planVersion {
      assert FieldsFit(ResearchPlan(active.planVersion, active.tasks + tasks), t);
    }
  }

  /** The longer lineage is accepted exactly when it is the first supplement and fits the plan it extends. */
  lemma LongerLineageAcceptedIffFits(lineage: PlanLineage, tasks: seq<ResearchTask>)
    requires AcceptedLineage(lineage)
    requires AcceptedBatch(SupplementBatch(|lineage.supplements| + 1, lineage.planVersion, tasks))
    ensures AcceptedLineage(WithBatch(lineage, tasks)) <==>
      lineage.supplements == [] && SupplementFits(ActivePlanOf(lineage), tasks)
  {
    ActivePlanGrows(lineage, tasks);
    ExtensionAcceptedIffFits(ActivePlanOf(lineage), tasks);
    var longer := WithBatch(lineage, tasks);
    assert longer.supplements[|lineage.supplements|].round == |longer.supplements|;
    assert ActivePlanOf(longer).tasks == longer.basePlan.tasks + SupplementalTasks(longer.supplements);
  }

  /** `with_supplement` builds the batch, then the longer lineage, each with its own validation. */
  method WithSupplement(lineage: PlanLineage, tasks: seq<ResearchTask>)
      returns (r: Result<PlanLineage, LineageError>)
    requires AcceptedLineage(lineage)
    ensures r.Ok? <==>
      && lineage.supplements == [] && 1 <= |tasks| <= MAX_BATCH
      && SupplementFits(ActivePlanOf(lineage), tasks)
    ensures r.Ok? ==>
      && AcceptedLineage(r.value) && r.value.basePlan == lineage.basePlan
      && ActivePlanOf(r.value).tasks == ActivePlanOf(lineage).tasks + tasks
    ensures r.Err? ==>
      || BatchFault(SupplementBatch(|lineage.supplements| + 1, lineage.planVersion, tasks), r.error)
      || LineageFault(WithBatch(lineage, tasks), r.error)
  {
    var batch := SupplementBatch(|lineage.supplements| + 1, lineage.planVersion, tasks);
    var batchError := ValidateBatch(batch);
    if 1 <= |tasks| <= MAX_BATCH && SupplementFits(ActivePlanOf(lineage), tasks) {
      FittingBatchIsAccepted(lineage, tasks);
    }
    if batchError.Some? {
      return Err(batchError.value);
    }
    var longer := WithBatch(lineage, tasks);
    var error := ValidateLineage(longer);
    LongerLineageAcceptedIffFits(lineage, tasks);
    ActivePlanGrows(lineage, tasks);
    r := if error.Some? then Err(error.value) else Ok(longer);
  }
}
