/**
  The older DAG class of the default package (src/DAG.java). It has the same
  fields and operations as the packaged class, with a public
  peekNextRunnableTask() and without verifyValidGraph(); each synchronized
  method is modelled as one atomic step.
*/
module LegacyDag {
  import opened Wrappers
  import opened TaskGraph

  class Dag<T(==), E> {
    /** `_tasks`: inserted tasks not yet claimed by an executor. */
    var tasks: set<T>
    /** `_dependencies`: for each task, the tasks it still waits on, in
        insertion order and with repeats. */
    var deps: map<T, seq<T>>
    /** `_errors`: absent until the first failure is recorded. */
    var errors: Option<map<T, E>>

    constructor ()
      ensures tasks == {} && deps == map[] && errors == None
    {
      tasks := {};
      deps := map[];
      errors := None;
    }

    /** status(): all tasks claimed, else errors recorded, else the remaining
        tasks can never become ready. The source's third test, a size above
        zero, is asserted where it is reached: it always holds there, so the
        trailing throw cannot happen. */
    function Status(): (s: TaskGraph.Status)
      reads this
      ensures s == CompletedAllTasks <==> tasks == {}
      ensures s == Errors <==> tasks != {} && errors.Some?
      ensures s == InvalidDependencies <==> tasks != {} && errors.None?
    {
      if |tasks| == 0 then CompletedAllTasks
      else if errors != None then Errors
      else assert |tasks| > 0; InvalidDependencies
    }

    /** getErrors(): the failed-task to error map, absent when nothing failed;
        while tasks remain it is present exactly when status() is ERRORS. */
    function GetErrors(): (r: Option<map<T, E>>)
      reads this
      ensures r.None? ==> Status() != Errors
      ensures r.Some? ==> Status() == Errors || Status() == CompletedAllTasks
    {
      errors
    }

    /** peekNextRunnableTask(), public in this copy: some pending task that is ready, or none when
        no pending task is ready. */
    method PeekNextRunnableTask() returns (r: Option<T>)
      ensures r.Some? ==> r.value in tasks && Ready(deps, r.value)
      ensures r.None? <==> !SomeReady(tasks, deps)
    {
      r := ScanReady(tasks, deps);
    }

    /** hasNextRunnableTask(): whether some pending task is ready. */
    method HasNextRunnableTask() returns (b: bool)
      ensures b <==> SomeReady(tasks, deps)
    {
      var r := PeekNextRunnableTask();
      b := r != None;
    }

    /** hasTasks(): whether any task is still pending. */
    function HasTasks(): (b: bool)
      reads this
      ensures b <==> tasks != {}
    {
      |tasks| > 0
    }

    /** insert(task): add a task; inserting it again changes nothing. */
    method Insert(task: T)
      modifies this`tasks
      ensures tasks == old(tasks) + {task}
    {
      tasks := tasks + {task};
    }

    /** insert(task, dependency): add a task and append one edge to its list,
        even if that edge is already there. The dependency itself is not
        added to the pending set. */
    method InsertWithDependency(task: T, dependency: T)
      modifies this`tasks, this`deps
      ensures tasks == old(tasks) + {task}
      ensures deps == old(deps)[task := DepsOf(old(deps), task) + [dependency]]
    {
      tasks := tasks + {task};
      deps := deps[task := DepsOf(deps, task) + [dependency]];
    }

    /** insert(task, dependencies): add a task and append every element of
        the set to its list, in the set's unspecified iteration order; an empty
        set adds no entry. */
    method InsertWithDependencies(task: T, dependencies: set<T>)
      modifies this`tasks, this`deps
      ensures tasks == old(tasks) + {task}
      ensures exists added :: Enumerates(added, dependencies) && deps == Appended(old(deps), task, added)
    {
      tasks := tasks + {task};
      var rest := dependencies;
      ghost var added: seq<T> := [];
      while rest != {}
        invariant tasks == old(tasks) + {task}
        invariant rest <= dependencies
        invariant |added| + |rest| == |dependencies|
        invariant forall x :: x in added ==> x in dependencies && x !in rest
        invariant forall x :: x in dependencies ==> x in added || x in rest
        invariant deps == Appended(old(deps), task, added)
        decreases rest
      {
        var d :| d in rest;
        ghost var before := DepsOf(old(deps), task);
        assert DepsOf(deps, task) == before + added;
        deps := deps[task := DepsOf(deps, task) + [d]];
        assert before + added + [d] == before + (added + [d]);
        assert deps == old(deps)[task := before + (added + [d])];
        added := added + [d];
        rest := rest - {d};
      }
      assert Enumerates(added, dependencies);
    }

    /** nextRunnableTask(): claim a ready task, removing it from the pending
        set so it is never handed out again; with no ready task, return none
        and change nothing. */
    method NextRunnableTask() returns (r: Option<T>)
      modifies this`tasks
      ensures r.Some? ==> r.value in old(tasks) && Ready(deps, r.value) && tasks == old(tasks) - {r.value}
      ensures r.None? <==> !SomeReady(old(tasks), deps)
      ensures r.None? ==> tasks == old(tasks)
    {
      r := PeekNextRunnableTask();
      if r.Some? {
        tasks := tasks - {r.value};
      }
    }

    /** notifyDone(task) as written: `values().remove(task)` deletes one edge
        into `task`, from the first list the map's order reaches that holds
        one; the pending set and the error map are not touched. */
    method NotifyDone(task: T)
      modifies this`deps
      ensures DoneStep(old(deps), task, deps)
    {
      if k :| k in deps && task in deps[k] {
        deps := deps[k := RemoveFirst(deps[k], task)];
      }
    }

    /** notifyError(task, error) as documented: record the failure, creating
        the map on the first one (the source dereferences the map it never
        created, exactly as the packaged copy does). The pending set and the dependency lists are
        not touched, so the dependents of a failed task stay blocked. */
    method NotifyError(task: T, error: E)
      modifies this`errors
      ensures errors == Some(RecordError(old(errors), task, error))
      ensures errors.value[task] == error
    {
      errors := Some(RecordError(errors, task, error));
    }

    /** numTasks(): the number of pending tasks. */
    function NumTasks(): (n: nat)
      reads this
      ensures n == |tasks|
      ensures n == 0 <==> !HasTasks()
    {
      |tasks|
    }

  }
}
