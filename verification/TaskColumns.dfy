/** Column layout of the task graph: the memoised `level` closure (frontend/components/task-graph.tsx). */
module TaskColumns {
  import opened Common
  import opened PlanGraph
  import opened ResearchPlans

  /** `plan.tasks.find(...)?.dependencies`, empty when there is no such task: the first entry wins. */
  function DepsOf(tasks: seq<ResearchTask>, id: TaskId): seq<TaskId> {
    if tasks == [] then []
    else if tasks[0].taskId == id then tasks[0].dependencies
    else DepsOf(tasks[1..], id)
  }

  /** Every id the layout can meet, whether or not a task has it. */
  function Mentioned(tasks: seq<ResearchTask>): (r: set<TaskId>)
    ensures forall t :: t in tasks ==> t.taskId in r && Elements(t.dependencies) <= r
  {
    if tasks == [] then {} else {tasks[0].taskId} + Elements(tasks[0].dependencies) + Mentioned(tasks[1..])
  }

  lemma {:induction false} DepsAreMentioned(tasks: seq<ResearchTask>, id: TaskId)
    ensures Elements(DepsOf(tasks, id)) <= Mentioned(tasks)
  {
    if tasks != [] && tasks[0].taskId != id {
      DepsAreMentioned(tasks[1..], id);
    }
  }

  /** The dependency graph as the layout sees it; ids without a task have no dependencies. */
  ghost function GraphOf(tasks: seq<ResearchTask>): Dependencies {
    map id | id in Mentioned(tasks) :: Elements(DepsOf(tasks, id))
  }

  lemma EdgeOf(tasks: seq<ResearchTask>, id: TaskId, i: nat)
    requires id in Mentioned(tasks) && i < |DepsOf(tasks, id)|
    ensures DependsOn(GraphOf(tasks), id, DepsOf(tasks, id)[i]) && DepsOf(tasks, id)[i] in Mentioned(tasks)
  {
    assert DepsOf(tasks, id)[i] in Elements(DepsOf(tasks, id));
    DepsAreMentioned(tasks, id);
  }

  /** p follows dependencies downward from t. */
  ghost predicate ChainFrom(g: Dependencies, t: TaskId, p: seq<TaskId>) {
    p != [] && p[0] == t && IsWalk(g, p)
  }

  /** The longest dependency chain that starts at t has exactly n edges. */
  ghost predicate LongestChain(g: Dependencies, t: TaskId, n: nat) {
    && (exists p :: ChainFrom(g, t, p) && |p| == n + 1)
    && (forall p :: ChainFrom(g, t, p) ==> |p| <= n + 1)
  }

  lemma LongestChainUnique(g: Dependencies, t: TaskId, m: nat, n: nat)
    requires LongestChain(g, t, m) && LongestChain(g, t, n)
    ensures m == n
  {
    var p :| ChainFrom(g, t, p) && |p| == m + 1;
    var q :| ChainFrom(g, t, q) && |q| == n + 1;
    assert |p| <= n + 1 && |q| <= m + 1;
  }

  lemma LeafChain(g: Dependencies, t: TaskId)
    requires t in g && g[t] == {}
    ensures LongestChain(g, t, 0)
  {
    assert ChainFrom(g, t, [t]);
    forall p | ChainFrom(g, t, p) ensures |p| <= 1 {
      assert |p| > 1 ==> DependsOn(g, p[0], p[1]);
    }
  }

  lemma ExtendChain(g: Dependencies, t: TaskId, d: TaskId, q: seq<TaskId>)
    requires DependsOn(g, t, d) && ChainFrom(g, d, q)
    ensures ChainFrom(g, t, [t] + q)
  {
    var longer := [t] + q;
    forall i, j | 0 <= i < j < |longer| && j == i + 1 ensures DependsOn(g, longer[i], longer[j]) {
      if i > 0 { assert DependsOn(g, q[i - 1], q[j - 1]); }
    }
  }

  /** `Math.max(...results)`. */
  function MaxOf(results: seq<nat>): (m: nat)
    requires |results| > 0
    ensures m in results && forall i :: 0 <= i < |results| ==> results[i] <= m
  {
    if |results| == 1 then results[0] else Max(results[0], MaxOf(results[1..]))
  }

  ghost predicate ExactResults(g: Dependencies, deps: seq<TaskId>, results: seq<nat>) {
    |results| <= |deps| && forall i :: 0 <= i < |results| ==> LongestChain(g, deps[i], results[i])
  }

  lemma ExactResultsSnoc(g: Dependencies, deps: seq<TaskId>, results: seq<nat>, below: nat)
    requires ExactResults(g, deps, results) && |results| < |deps| && LongestChain(g, deps[|results|], below)
    ensures ExactResults(g, deps, results + [below])
  {
    var more := results + [below];
    forall i | 0 <= i < |more| ensures LongestChain(g, deps[i], more[i]) {
      if i < |results| {
        assert LongestChain(g, deps[i], results[i]);
      }
    }
  }

  /** One more than the longest chain of the deepest dependency. */
  lemma StepChain(g: Dependencies, t: TaskId, deps: seq<TaskId>, results: seq<nat>)
    requires t in g && g[t] == Elements(deps) && |deps| == |results| > 0
    requires ExactResults(g, deps, results)
    ensures LongestChain(g, t, MaxOf(results) + 1)
  {
    var k :| 0 <= k < |results| && results[k] == MaxOf(results);
    var q :| ChainFrom(g, deps[k], q) && |q| == results[k] + 1;
    ExtendChain(g, t, deps[k], q);
    forall p | ChainFrom(g, t, p) ensures |p| <= MaxOf(results) + 2 {
      ChainBound(g, t, deps, results, p);
    }
  }

  lemma ChainBound(g: Dependencies, t: TaskId, deps: seq<TaskId>, results: seq<nat>, p: seq<TaskId>)
    requires t in g && g[t] == Elements(deps) && |deps| == |results| > 0
    requires ExactResults(g, deps, results) && ChainFrom(g, t, p)
    ensures |p| <= MaxOf(results) + 2
  {
    if |p| > 1 {
      assert DependsOn(g, p[0], p[1]);
      var i :| 0 <= i < |deps| && deps[i] == p[1];
      TailChain(g, p);
      assert LongestChain(g, deps[i], results[i]);
    }
  }

  lemma TailChain(g: Dependencies, p: seq<TaskId>)
    requires IsWalk(g, p) && |p| > 1
    ensures ChainFrom(g, p[1], p[1..])
  {
    var tail := p[1..];
    forall i, j | 0 <= i < j < |tail| && j == i + 1 ensures DependsOn(g, tail[i], tail[j]) {
      assert DependsOn(g, p[i + 1], p[j + 1]);
    }
  }

  /** The state the recursive closure shares: `levels` for the whole layout, `seen` for one outermost call. */
  class Layout {
    const tasks: seq<ResearchTask>
    ghost const graph: Dependencies
    ghost const acyclic: bool
    var levels: map<TaskId, nat>
    var seen: set<TaskId>

    constructor (tasks: seq<ResearchTask>)
      ensures this.tasks == tasks && Fixed() && (acyclic <==> Acyclic(GraphOf(tasks)))
      ensures levels == map[] && seen == {}
    {
      this.tasks := tasks;
      graph, acyclic := GraphOf(tasks), Acyclic(GraphOf(tasks));
      levels, seen := map[], {};
    }

    ghost predicate Fixed() {
      graph == GraphOf(tasks) && (acyclic ==> Acyclic(graph))
    }

    /** What holds of the shared state on an acyclic graph: every memoised level is exact, its dependencies are
        memoised too, and only open calls are seen without being memoised. */
    ghost predicate Exact(open: seq<TaskId>)
      reads this
    {
      && (forall t :: t in levels ==> LongestChain(graph, t, levels[t]) && t in graph && graph[t] <= levels.Keys)
      && IsWalk(graph, open)
      && (forall t :: t in seen ==> t in levels || t in open)
    }

    /** Terminates on every graph, cyclic or with missing ids; on acyclic ones it returns the longest chain. */
    method Level(taskId: TaskId, ghost open: seq<TaskId>) returns (value: nat)
      requires Fixed() && taskId in Mentioned(tasks)
      requires acyclic ==> Exact(open) && (open != [] ==> DependsOn(graph, open[|open| - 1], taskId))
      modifies this
      ensures old(levels.Keys) <= levels.Keys && old(seen) <= seen
      ensures taskId in old(seen) || taskId in levels
      ensures acyclic ==> Exact(open) && taskId in levels && LongestChain(graph, taskId, value)
      decreases Mentioned(tasks) - seen, 1
    {
      if taskId in levels {
        return levels[taskId];
      }
      if taskId in seen {
        if acyclic {
          SeenTwiceIsCycle(graph, open, taskId);
        }
        return 0;
      }
      seen := seen + {taskId};
      var deps := DepsOf(tasks, taskId);
      if |deps| == 0 {
        value := 0;
        LeafChain(graph, taskId);
      } else {
        if acyclic {
          OpenOneMore(graph, open, taskId);
        }
        var deepest := DeepestBelow(taskId, deps, open);
        value := deepest + 1;
      }
      levels := levels[taskId := value];
    }

    /** `Math.max(...task.dependencies.map((dep) => level(dep, seen)))`. */
    method DeepestBelow(taskId: TaskId, deps: seq<TaskId>, ghost open: seq<TaskId>) returns (value: nat)
      requires Fixed() && taskId in Mentioned(tasks) && taskId in seen && deps == DepsOf(tasks, taskId) && |deps| > 0
      requires acyclic ==> Exact(open + [taskId])
      modifies this
      ensures old(levels.Keys) <= levels.Keys && old(seen) <= seen
      ensures acyclic ==> Exact(open + [taskId])
      ensures acyclic ==> LongestChain(graph, taskId, value + 1) && graph[taskId] <= levels.Keys
      decreases Mentioned(tasks) - seen, 2
    {
      ghost var inner, done := open + [taskId], {};
      var results: seq<nat> := [];
      for i := 0 to |deps|
        invariant |results| == i
        invariant old(levels.Keys) <= levels.Keys && old(seen) <= seen
        invariant acyclic ==> Exact(inner)
        invariant acyclic ==> ExactResults(graph, deps, results)
        invariant forall j :: 0 <= j < i ==> deps[j] in done
        invariant acyclic ==> done <= levels.Keys
      {
        EdgeOf(tasks, taskId, i);
        var below := Level(deps[i], inner);
        if acyclic {
          ExactResultsSnoc(graph, deps, results, below);
        }
        results, done := results + [below], done + {deps[i]};
      }
      value := MaxOf(results);
      if acyclic {
        StepChain(graph, taskId, deps, results);
      }
    }
  }

  lemma OpenOneMore(g: Dependencies, open: seq<TaskId>, t: TaskId)
    requires IsWalk(g, open) && (open != [] ==> DependsOn(g, open[|open| - 1], t))
    ensures IsWalk(g, open + [t])
  {
    var longer := open + [t];
    forall i, j | 0 <= i < j < |longer| && j == i + 1 ensures DependsOn(g, longer[i], longer[j]) {
      if j < |open| { assert DependsOn(g, open[i], open[j]); }
    }
  }

  /** A task met while its own call is still open closes a cycle. */
  lemma SeenTwiceIsCycle(g: Dependencies, open: seq<TaskId>, t: TaskId)
    requires IsWalk(g, open) && t in open && DependsOn(g, open[|open| - 1], t)
    ensures !Acyclic(g)
  {
    var i :| 0 <= i < |open| && open[i] == t;
    RepeatIsCycle(g, open + [t], i, |open|);
  }

  // ----- The whole layout -----

  /** Every drawn edge goes from a lower column to a higher one. */
  ghost predicate EdgesGoRight(tasks: seq<ResearchTask>, levels: map<TaskId, nat>) {
    Ranks(GraphOf(tasks), levels)
  }

  lemma {:induction false} OnlyTasksHaveDeps(tasks: seq<ResearchTask>, id: TaskId)
    requires DepsOf(tasks, id) != []
    ensures exists t :: t in tasks && t.taskId == id
  {
    if tasks[0].taskId != id {
      OnlyTasksHaveDeps(tasks[1..], id);
      var t :| t in tasks[1..] && t.taskId == id;
      assert t in tasks;
    } else {
      assert tasks[0] in tasks;
    }
  }

  lemma ExactLevelsRank(tasks: seq<ResearchTask>, levels: map<TaskId, nat>)
    requires forall t :: t in tasks ==> t.taskId in levels
    requires forall t :: t in levels ==>
      LongestChain(GraphOf(tasks), t, levels[t]) && t in GraphOf(tasks) && GraphOf(tasks)[t] <= levels.Keys
    ensures EdgesGoRight(tasks, levels)
  {
    var g := GraphOf(tasks);
    forall t, d | DependsOn(g, t, d) ensures t in levels && d in levels && levels[d] < levels[t] {
      OnlyTasksHaveDeps(tasks, t);
      var q :| ChainFrom(g, d, q) && |q| == levels[d] + 1;
      ExtendChain(g, t, d, q);
    }
  }

  /** `plan.tasks.forEach((task) => level(task.task_id))`: every outermost call starts with an empty `seen` set. */
  method ComputeLevels(tasks: seq<ResearchTask>) returns (levels: map<TaskId, nat>)
    ensures forall t :: t in tasks ==> t.taskId in levels
    ensures Acyclic(GraphOf(tasks)) ==>
      forall t :: t in tasks ==> LongestChain(GraphOf(tasks), t.taskId, levels[t.taskId])
    ensures EdgesGoRight(tasks, levels) <==> Acyclic(GraphOf(tasks))
  {
    ghost var g := GraphOf(tasks);
    var layout := new Layout(tasks);
    for i := 0 to |tasks|
      invariant forall j :: 0 <= j < i ==> tasks[j].taskId in layout.levels
      invariant layout.acyclic ==> layout.Exact([])
    {
      layout.seen := {};
      var value := layout.Level(tasks[i].taskId, []);
    }
    levels := layout.levels;
    if Acyclic(g) {
      ExactLevelsRank(tasks, levels);
    } else if EdgesGoRight(tasks, levels) {
      RankedIsAcyclic(g, levels);
    }
  }

  lemma {:induction false} FirstEntry(tasks: seq<ResearchTask>, i: nat)
    requires AllDistinct(Ids(tasks)) && i < |tasks|
    ensures DepsOf(tasks, tasks[i].taskId) == tasks[i].dependencies
  {
    if i > 0 {
      assert Ids(tasks)[0] != Ids(tasks)[i];
      forall a, b | 0 <= a < b < |tasks| - 1 ensures Ids(tasks[1..])[a] != Ids(tasks[1..])[b] {
        assert Ids(tasks)[a + 1] != Ids(tasks)[b + 1];
      }
      FirstEntry(tasks[1..], i - 1);
    }
  }

  lemma {:induction false} MentionedOnlyIds(tasks: seq<ResearchTask>, known: set<TaskId>)
    requires forall t :: t in tasks ==> t.taskId in known && Elements(t.dependencies) <= known
    ensures Mentioned(tasks) <= known
  {
    if tasks != [] {
      assert tasks[0] in tasks;
      MentionedOnlyIds(tasks[1..], known);
    }
  }

  lemma AcceptedIds(plan: ResearchPlan)
    requires Accepted(plan)
    ensures Mentioned(plan.tasks) == Elements(Ids(plan.tasks))
  {
    var ids := Elements(Ids(plan.tasks));
    forall t | t in plan.tasks ensures t.taskId in ids && Elements(t.dependencies) <= ids {
      var i :| 0 <= i < |plan.tasks| && plan.tasks[i] == t;
      assert Ids(plan.tasks)[i] == t.taskId && FieldsFit(plan, plan.tasks[i]);
    }
    MentionedOnlyIds(plan.tasks, ids);
    forall id | id in ids ensures id in Mentioned(plan.tasks) {
      SameDependencies(plan, id);
    }
  }

  lemma SameGraph(plan: ResearchPlan)
    requires Accepted(plan)
    ensures GraphOf(plan.tasks) == Graph(plan.tasks)
  {
    var ours, theirs := GraphOf(plan.tasks), Graph(plan.tasks);
    AcceptedIds(plan);
    forall id | id in ours ensures ours[id] == theirs[id] {
      SameDependencies(plan, id);
    }
    EqualMaps(ours, theirs);
  }

  lemma EqualMaps(a: Dependencies, b: Dependencies)
    requires a.Keys == b.Keys && forall id :: id in a ==> a[id] == b[id]
    ensures a == b
  {
  }

  /** On an accepted plan the layout sees the validator's own graph, so its columns are longest chains. */
  lemma AcceptedPlanGraph(plan: ResearchPlan)
    requires Accepted(plan)
    ensures GraphOf(plan.tasks) == Graph(plan.tasks)
    ensures Acyclic(GraphOf(plan.tasks))
  {
    SameGraph(plan);
  }

  lemma SameDependencies(plan: ResearchPlan, id: TaskId)
    requires AllDistinct(Ids(plan.tasks)) && id in Ids(plan.tasks)
    ensures id in Mentioned(plan.tasks) && Elements(DepsOf(plan.tasks, id)) == Graph(plan.tasks)[id]
  {
    var i :| 0 <= i < |plan.tasks| && Ids(plan.tasks)[i] == id;
    assert plan.tasks[i] in plan.tasks;
    FirstEntry(plan.tasks, i);
    GraphLookup(plan.tasks, i);
  }
}
