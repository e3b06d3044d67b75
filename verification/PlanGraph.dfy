/** Dependency graphs of research plans and the depth-first validator (backend/src/atlasflow/agents/contracts.py). */
module PlanGraph {
  import opened Common

  type TaskId = string

  /** For each task the set of tasks it depends on. */
  type Dependencies = map<TaskId, set<TaskId>>

  // ----- Reference notions -----

  predicate DependsOn(g: Dependencies, t: TaskId, d: TaskId) {
    t in g && d in g[t]
  }

  /** Each entry of p depends on the next one. */
  ghost predicate IsWalk(g: Dependencies, p: seq<TaskId>) {
    forall i, j :: 0 <= i < j < |p| && j == i + 1 ==> DependsOn(g, p[i], p[j])
  }

  ghost predicate IsCycle(g: Dependencies, p: seq<TaskId>) {
    |p| >= 2 && p[0] == p[|p| - 1] && IsWalk(g, p)
  }

  ghost predicate Acyclic(g: Dependencies) {
    forall p :: !IsCycle(g, p)
  }

  /** Every dependency names a task of the graph. */
  ghost predicate Closed(g: Dependencies) {
    forall t :: t in g ==> g[t] <= g.Keys
  }

  /** rank places every dependency strictly below the task that needs it. */
  ghost predicate Ranks(g: Dependencies, rank: map<TaskId, nat>) {
    forall t, d :: DependsOn(g, t, d) ==> t in rank && d in rank && rank[d] < rank[t]
  }

  lemma {:induction false} RankDropsAlongWalk(g: Dependencies, rank: map<TaskId, nat>, p: seq<TaskId>)
    requires Ranks(g, rank) && IsWalk(g, p) && |p| >= 2
    ensures p[0] in rank && p[|p| - 1] in rank && rank[p[|p| - 1]] < rank[p[0]]
  {
    assert DependsOn(g, p[0], p[1]);
    if |p| > 2 {
      RankDropsAlongWalk(g, rank, p[1..]);
    }
  }

  lemma RankedIsAcyclic(g: Dependencies, rank: map<TaskId, nat>)
    requires Ranks(g, rank)
    ensures Acyclic(g)
  {
    forall p | |p| >= 2 && IsWalk(g, p) ensures p[0] != p[|p| - 1] {
      RankDropsAlongWalk(g, rank, p);
    }
  }

  /** A walk that visits some node twice contains a cycle. */
  lemma RepeatIsCycle(g: Dependencies, p: seq<TaskId>, i: nat, j: nat)
    requires IsWalk(g, p) && i < j < |p| && p[i] == p[j]
    ensures IsCycle(g, p[i..j + 1])
  {
    var c := p[i..j + 1];
    assert c[0] == p[i] && c[|c| - 1] == p[j];
  }

  ghost predicate BlockedBy(g: Dependencies, stuck: set<TaskId>, t: TaskId) {
    exists d :: d in stuck && DependsOn(g, t, d)
  }

  /** If every node of a nonempty set has a dependency inside the set, walks inside it can be as long as wanted. */
  lemma {:induction false} EndlessWalk(g: Dependencies, stuck: set<TaskId>, start: TaskId, n: nat)
      returns (p: seq<TaskId>)
    requires start in stuck && stuck <= g.Keys
    requires forall t :: t in stuck ==> BlockedBy(g, stuck, t)
    ensures |p| == n + 1 && p[0] == start && IsWalk(g, p) && forall i :: 0 <= i < |p| ==> p[i] in stuck
    decreases n
  {
    if n == 0 {
      p := [start];
    } else {
      var d :| d in stuck && DependsOn(g, start, d);
      var tail := EndlessWalk(g, stuck, d, n - 1);
      p := [start] + tail;
    }
  }

  /** A task whose dependencies are all done. */
  ghost predicate Ready(g: Dependencies, done: set<TaskId>, t: TaskId) {
    t in g && t !in done && g[t] <= done
  }

  /** Waves never stall: while some task of an acyclic plan is unfinished, some unfinished task can start. */
  lemma NeverStalls(g: Dependencies, done: set<TaskId>)
    requires Closed(g) && Acyclic(g) && !(g.Keys <= done)
    ensures exists t :: Ready(g, done, t)
  {
    var stuck := g.Keys - done;
    if forall t :: !Ready(g, done, t) {
      forall t | t in stuck ensures BlockedBy(g, stuck, t) {
        assert !Ready(g, done, t);
        var d :| d in g[t] && d !in done;
        assert DependsOn(g, t, d);
      }
      var start :| start in g.Keys && start !in done;
      var p := EndlessWalk(g, stuck, start, |stuck|);
      Pigeonhole(p, stuck);
      var i, j :| 0 <= i < j < |p| && p[i] == p[j];
      RepeatIsCycle(g, p, i, j);
      assert false;
    }
  }

  /** One wave runs everything that is ready. */
  ghost function Wave(g: Dependencies, done: set<TaskId>): (r: set<TaskId>)
    ensures forall t :: t in r <==> t in done || Ready(g, done, t)
  {
    done + set t | t in g && Ready(g, done, t)
  }

  /** The tasks finished after n waves. */
  ghost function AfterWaves(g: Dependencies, n: nat): set<TaskId> {
    if n == 0 then {} else Wave(g, AfterWaves(g, n - 1))
  }

  lemma WaveAdvances(g: Dependencies, done: set<TaskId>)
    requires Closed(g) && Acyclic(g) && done <= g.Keys
    ensures done <= Wave(g, done) <= g.Keys
    ensures done == g.Keys || |done| < |Wave(g, done)|
  {
    if done != g.Keys {
      NeverStalls(g, done);
      var t :| Ready(g, done, t);
      SubsetSize(done + {t}, Wave(g, done));
    }
  }

  lemma {:induction false} WavesAdvance(g: Dependencies, n: nat)
    requires Closed(g) && Acyclic(g)
    ensures AfterWaves(g, n) <= g.Keys
    ensures AfterWaves(g, n) == g.Keys || |AfterWaves(g, n)| >= n
  {
    if n > 0 {
      WavesAdvance(g, n - 1);
      WaveAdvances(g, AfterWaves(g, n - 1));
    }
  }

  /** As many waves as there are tasks finish the whole plan. */
  lemma WavesFinish(g: Dependencies)
    requires Closed(g) && Acyclic(g)
    ensures AfterWaves(g, |g.Keys|) == g.Keys
  {
    WavesAdvance(g, |g.Keys|);
    SubsetSize(AfterWaves(g, |g.Keys|), g.Keys);
  }

  lemma {:induction false} WavesGrow(g: Dependencies, a: nat, b: nat)
    requires a <= b
    ensures AfterWaves(g, a) <= AfterWaves(g, b)
    decreases b
  {
    if a < b {
      WavesGrow(g, a, b - 1);
    }
  }

  /** A dependency finishes in an earlier wave than the task that needs it. */
  lemma {:induction false} DependencyFinishesFirst(g: Dependencies, n: nat, t: TaskId, d: TaskId)
    requires t in AfterWaves(g, n) && DependsOn(g, t, d)
    ensures exists k :: 0 <= k < n && d in AfterWaves(g, k) && t !in AfterWaves(g, k)
  {
    if t in AfterWaves(g, n - 1) {
      DependencyFinishesFirst(g, n - 1, t, d);
    } else {
      assert Ready(g, AfterWaves(g, n - 1), t);
    }
  }

  /** The number of waves during which t is still unfinished. */
  ghost function WavesUnfinished(g: Dependencies, t: TaskId, n: nat): nat {
    if n == 0 then 0 else WavesUnfinished(g, t, n - 1) + (if t in AfterWaves(g, n - 1) then 0 else 1)
  }

  /** Once finished, always finished: the count is the first wave after which t is done. */
  lemma {:induction false} CountIsFirstWave(g: Dependencies, t: TaskId, k: nat, n: nat)
    requires k <= n
    ensures t in AfterWaves(g, k) ==> WavesUnfinished(g, t, n) <= k
    ensures t !in AfterWaves(g, k) ==> WavesUnfinished(g, t, n) >= Min(k + 1, n)
  {
    if n > 0 {
      if k == n {
        CountAtMost(g, t, n);
        if t !in AfterWaves(g, k) {
          WavesGrow(g, n - 1, n);
          CountIsFirstWave(g, t, n - 1, n - 1);
        }
      } else {
        CountIsFirstWave(g, t, k, n - 1);
        WavesGrow(g, k, n - 1);
      }
    }
  }

  lemma CountAtMost(g: Dependencies, t: TaskId, n: nat)
    ensures WavesUnfinished(g, t, n) <= n
  {
  }

  /** A closed graph is acyclic exactly when its tasks can be ranked. */
  lemma AcyclicIffRanked(g: Dependencies)
    requires Closed(g)
    ensures Acyclic(g) <==> exists rank :: Ranks(g, rank)
  {
    if Acyclic(g) {
      var n := |g.Keys|;
      WavesFinish(g);
      var rank: map<TaskId, nat> := map t | t in g.Keys :: WavesUnfinished(g, t, n);
      forall t, d | DependsOn(g, t, d) ensures t in rank && d in rank && rank[d] < rank[t] {
        DependencyFinishesFirst(g, n, t, d);
        var k :| 0 <= k < n && d in AfterWaves(g, k) && t !in AfterWaves(g, k);
        CountIsFirstWave(g, d, k, n);
        CountIsFirstWave(g, t, k, n);
      }
      assert Ranks(g, rank);
    } else if rank :| Ranks(g, rank) {
      RankedIsAcyclic(g, rank);
    }
  }

  // ----- The validator's depth-first visit -----

  /** The closure state of `validate_task_dag`: two sets that `visit` updates in place. */
  class DagValidator {
    const dependencies: Dependencies
    var visiting: set<TaskId>
    var visited: set<TaskId>
    /** The order in which tasks were finished. */
    ghost var rank: map<TaskId, nat>

    constructor (dependencies: Dependencies)
      ensures this.dependencies == dependencies
      ensures visiting == {} && visited == {} && FinishedInOrder()
    {
      this.dependencies := dependencies;
      visiting, visited, rank := {}, {}, map[];
    }

    ghost predicate FinishedInOrder()
      reads this
    {
      && visited == rank.Keys && visited <= dependencies.Keys && visiting !! visited
      && (forall t :: t in visited ==> rank[t] < |visited|)
      && (forall t, d :: t in visited && d in dependencies[t] ==> d in visited && rank[d] < rank[t])
    }

    /** path is the chain of open calls: a walk through exactly the tasks being visited. */
    ghost predicate OpenCalls(path: seq<TaskId>)
      reads this
    {
      IsWalk(dependencies, path) && (forall t :: t in path <==> t in visiting) && visiting <= dependencies.Keys
    }

    /** Returns false where the code raises; then cycle is an actual cycle. */
    method Visit(taskId: TaskId, ghost path: seq<TaskId>) returns (ok: bool, ghost cycle: seq<TaskId>)
      requires Closed(dependencies) && taskId in dependencies
      requires FinishedInOrder() && OpenCalls(path)
      requires path != [] ==> DependsOn(dependencies, path[|path| - 1], taskId)
      modifies this
      ensures ok ==> FinishedInOrder() && visiting == old(visiting)
      ensures ok ==> old(visited) <= visited && taskId in visited
      ensures !ok ==> IsCycle(dependencies, cycle)
      decreases dependencies.Keys - visiting, 0
    {
      if taskId in visiting {
        cycle := ReturnTo(taskId, path);
        return false, cycle;
      }
      if taskId in visited {
        return true, [];
      }
      visiting := visiting + {taskId};
      ok, cycle := VisitDependencies(taskId, path + [taskId]);
      if ok {
        Finish(taskId);
      }
    }

    /** A task met again while its own call is open closes a cycle. */
    ghost method ReturnTo(taskId: TaskId, path: seq<TaskId>) returns (cycle: seq<TaskId>)
      requires OpenCalls(path) && taskId in visiting
      requires path != [] ==> DependsOn(dependencies, path[|path| - 1], taskId)
      ensures IsCycle(dependencies, cycle)
    {
      var walk := path + [taskId];
      var i :| 0 <= i < |path| && path[i] == taskId;
      RepeatIsCycle(dependencies, walk, i, |path|);
      cycle := walk[i..|path| + 1];
    }

    method VisitDependencies(taskId: TaskId, ghost path: seq<TaskId>) returns (ok: bool, ghost cycle: seq<TaskId>)
      requires Closed(dependencies) && FinishedInOrder() && OpenCalls(path)
      requires path != [] && path[|path| - 1] == taskId && taskId in visiting
      modifies this
      ensures ok ==> FinishedInOrder() && visiting == old(visiting)
      ensures ok ==> old(visited) <= visited && dependencies[taskId] <= visited
      ensures !ok ==> IsCycle(dependencies, cycle)
      decreases dependencies.Keys - visiting, 1
    {
      ok, cycle := true, [];
      var todo := dependencies[taskId];
      while todo != {}
        invariant FinishedInOrder() && OpenCalls(path) && visiting == old(visiting)
        invariant old(visited) <= visited
        invariant todo <= dependencies[taskId] && dependencies[taskId] - todo <= visited
        decreases todo
      {
        var dependencyId :| dependencyId in todo;
        ok, cycle := Visit(dependencyId, path);
        if !ok {
          return false, cycle;
        }
        todo := todo - {dependencyId};
      }
      ok := true;
    }

    method Finish(taskId: TaskId)
      requires FinishedInOrder() && taskId in visiting && taskId in dependencies
      requires dependencies[taskId] <= visited
      modifies this
      ensures FinishedInOrder()
      ensures visiting == old(visiting) - {taskId} && visited == old(visited) + {taskId}
    {
      visiting := visiting - {taskId};
      rank := rank[taskId := |visited|];
      visited := visited + {taskId};
    }
  }
}
