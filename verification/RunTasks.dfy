/** The table of background tasks (backend/src/atlasflow/service.py `_track` and its done callback). */
module RunTasks {
  import opened Common

  type RunId = string

  /** Identity of an asyncio task. */
  type TaskId = nat

  class TaskTable {
    /** `_tasks`: at most one entry per run. */
    var tasks: map<RunId, TaskId>
    /** Every task ever created, with its run. */
    ghost var runOf: map<TaskId, RunId>
    var unfinished: set<TaskId>
    /** Finished tasks whose done callback has not run yet. */
    var uncalled: set<TaskId>
    var nextTask: TaskId

    constructor ()
      ensures Valid() && tasks == map[] && unfinished == {} && uncalled == {}
    {
      tasks, runOf, unfinished, uncalled, nextTask := map[], map[], {}, {}, 0;
    }

    /** A run's unfinished task is the one its table entry names; stale entries name finished tasks to be called
        back. */
    ghost predicate Valid()
      reads this
    {
      && (forall t :: t in runOf ==> t < nextTask)
      && unfinished <= runOf.Keys && uncalled <= runOf.Keys && unfinished !! uncalled
      && (forall t :: t in unfinished ==> runOf[t] in tasks && tasks[runOf[t]] == t)
      && (forall run :: run in tasks ==>
           tasks[run] in runOf && runOf[tasks[run]] == run && tasks[run] in unfinished + uncalled)
    }

    /** Refused while the run's task is unfinished; otherwise a new task takes the entry, even over a stale one. */
    method Track(run: RunId) returns (r: Option<TaskId>)
      requires Valid()
      modifies this
      ensures Valid() && uncalled == old(uncalled)
      ensures r.None? <==> exists t :: t in old(unfinished) && old(runOf)[t] == run
      ensures r.None? ==> tasks == old(tasks) && unfinished == old(unfinished) && runOf == old(runOf)
      ensures r.Some? ==>
        && r.value !in old(runOf) && runOf == old(runOf)[r.value := run]
        && tasks == old(tasks)[run := r.value] && unfinished == old(unfinished) + {r.value}
    {
      if run in tasks && tasks[run] in unfinished {
        return None;
      }
      var task := nextTask;
      nextTask := nextTask + 1;
      tasks := tasks[run := task];
      runOf := runOf[task := run];
      unfinished := unfinished + {task};
      return Some(task);
    }

    /** The task returns, fails or is cancelled; its callback is still to come. */
    method Finish(task: TaskId)
      requires Valid() && task in unfinished
      modifies this
      ensures Valid() && tasks == old(tasks) && runOf == old(runOf)
      ensures unfinished == old(unfinished) - {task} && uncalled == old(uncalled) + {task}
    {
      unfinished := unfinished - {task};
      uncalled := uncalled + {task};
    }

    /** `forget`, whenever the event loop gets to it: it never removes the entry of a newer task. */
    method Forget(completed: TaskId, run: RunId)
      requires Valid() && completed in uncalled && runOf[completed] == run
      modifies this
      ensures Valid() && runOf == old(runOf)
      ensures unfinished == old(unfinished) && uncalled == old(uncalled) - {completed}
      ensures tasks == if run in old(tasks) && old(tasks)[run] == completed then old(tasks) - {run} else old(tasks)
    {
      if run in tasks && tasks[run] == completed {
        tasks := tasks - {run};
      }
      uncalled := uncalled - {completed};
    }
  }
}
