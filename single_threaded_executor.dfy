/**
  SingleThreadedDAGExecutor: drains a task graph on the caller's thread, one
  ready task at a time. A task body is an outcome oracle `run`: for each task
  it says whether the body returns normally or throws, and with what error.
*/
module SingleThreadedExecutor {
  import opened Wrappers
  import opened TaskGraph
  import opened Execution
  import opened PackagedDag

  /** java.util.concurrent.TimeUnit, the unit of awaitTermination's timeout. */
  datatype TimeUnit = Nanoseconds | Microseconds | Milliseconds | Seconds | Minutes | Hours | Days

  /** The fields of `dag` as one value. */
  function SnapshotOf<T(==), E>(dag: Dag<T, E>): State<T, E>
    reads dag
  {
    State(dag.tasks, dag.deps, dag.errors)
  }

  class SingleThreadedDagExecutor {

    constructor ()
    {
    }

    /** awaitTermination(timeout, units): there is never background work, so
        it reports termination at once, whatever the timeout. */
    method AwaitTermination(timeout: int, units: TimeUnit) returns (terminated: bool)
      ensures terminated
    {
      terminated := true;
    }

    /** isShutdown(): always true. */
    method IsShutdown() returns (shut: bool)
      ensures shut
    {
      shut := true;
    }

    /** isTerminated(): always true. */
    method IsTerminated() returns (terminated: bool)
      ensures terminated
    {
      terminated := true;
    }

    /** shutdown(): does nothing (it has no modifies clause). */
    method Shutdown()
    {
    }

    /** shutdownNow(): returns null instead of a list of unfinished tasks. */
    method ShutdownNow<T>() returns (unfinished: Option<seq<T>>)
      ensures unfinished == None
    {
      unfinished := None;
    }

    /** submit(taskGraph): while a task is ready, claim it, run it, and report
        notifyDone on a normal return or notifyError on a throw. `ran` is the
        dispatch order and `trace` the graph's state before each claim and at
        the end: every iteration is one Step, the loop stops only when no
        pending task is ready, and each task is dispatched at most once. With
        notifyError corrected, a failure does not stop it early; the loop as
        written, which ends at the first failure, is SubmitAsWritten. */
    method Submit<T(==), E>(taskGraph: Dag<T, E>, run: T -> TaskOutcome<E>) returns (ran: seq<T>, ghost trace: seq<State<T, E>>)
      modifies taskGraph
      ensures Run(StrikeFirstEdge, trace, ran, run)
      ensures trace[0] == old(SnapshotOf(taskGraph)) && Last(trace) == SnapshotOf(taskGraph)
      ensures !SomeReady(taskGraph.tasks, taskGraph.deps)
      ensures Distinct(ran)
      ensures forall t :: t in ran <==> t in old(taskGraph.tasks) && t !in taskGraph.tasks
    {
      ran := [];
      trace := [SnapshotOf(taskGraph)];
      var more := taskGraph.HasNextRunnableTask();
      while more
        invariant Run(StrikeFirstEdge, trace, ran, run)
        invariant trace[0] == old(SnapshotOf(taskGraph)) && Last(trace) == SnapshotOf(taskGraph)
        invariant more <==> SomeReady(taskGraph.tasks, taskGraph.deps)
        decreases |taskGraph.tasks|
      {
        ghost var before := SnapshotOf(taskGraph);
        var claimed := taskGraph.NextRunnableTask();
        var t := claimed.value;
        var hadError := false;
        match run(t) {
          case Threw(err) =>
            hadError := true;
            taskGraph.NotifyError(t, err);
          case Returned =>
        }
        if !hadError {
          taskGraph.NotifyDone(t);
        }
        assert Step(StrikeFirstEdge, before, t, run(t), SnapshotOf(taskGraph));
        RunExtend(StrikeFirstEdge, trace, ran, run, t, SnapshotOf(taskGraph));
        ran := ran + [t];
        trace := trace + [SnapshotOf(taskGraph)];
        more := taskGraph.HasNextRunnableTask();
      }
      RunClaimsEachOnce(StrikeFirstEdge, trace, ran, run);
    }

    /** submit(taskGraph) with notifyError as written. The error map is
        never created, so the first failure makes notifyError throw a
        NullPointerException from inside the catch block, and that ends
        submit. `escaped` names the task whose report threw; `ran` and
        `trace` are the iterations that finished before it. When the map
        starts absent, as it always does in the source, every task in `ran`
        returned normally and no error is ever recorded. */
    method SubmitAsWritten<T(==), E>(taskGraph: Dag<T, E>, run: T -> TaskOutcome<E>) returns (ran: seq<T>, escaped: Option<T>, ghost trace: seq<State<T, E>>)
      modifies taskGraph
      ensures Run(StrikeFirstEdge, trace, ran, run)
      ensures trace[0] == old(SnapshotOf(taskGraph))
      ensures escaped.None? ==> Last(trace) == SnapshotOf(taskGraph) && !SomeReady(taskGraph.tasks, taskGraph.deps)
      ensures escaped.Some? ==>
                && escaped.value in Last(trace).tasks && Ready(Last(trace).deps, escaped.value)
                && run(escaped.value).Threw? && Last(trace).errors.None?
                && SnapshotOf(taskGraph) == Last(trace).(tasks := Last(trace).tasks - {escaped.value})
      ensures old(taskGraph.errors).None? ==> taskGraph.errors.None? && forall i :: 0 <= i < |ran| ==> run(ran[i]).Returned?
    {
      ran, escaped := [], None;
      trace := [SnapshotOf(taskGraph)];
      var more := taskGraph.HasNextRunnableTask();
      while more
        invariant Run(StrikeFirstEdge, trace, ran, run)
        invariant trace[0] == old(SnapshotOf(taskGraph)) && Last(trace) == SnapshotOf(taskGraph)
        invariant more <==> SomeReady(taskGraph.tasks, taskGraph.deps)
        invariant old(taskGraph.errors).None? ==> taskGraph.errors.None? && forall i :: 0 <= i < |ran| ==> run(ran[i]).Returned?
        decreases |taskGraph.tasks|
      {
        ghost var before := SnapshotOf(taskGraph);
        var claimed := taskGraph.NextRunnableTask();
        var t := claimed.value;
        var hadError := false;
        match run(t) {
          case Threw(err) =>
            hadError := true;
            var nullPointer := taskGraph.NotifyErrorAsWritten(t, err);
            if nullPointer {
              escaped := Some(t);
              return;
            }
          case Returned =>
        }
        if !hadError {
          taskGraph.NotifyDone(t);
        }
        assert Step(StrikeFirstEdge, before, t, run(t), SnapshotOf(taskGraph));
        RunExtend(StrikeFirstEdge, trace, ran, run, t, SnapshotOf(taskGraph));
        ran := ran + [t];
        trace := trace + [SnapshotOf(taskGraph)];
        more := taskGraph.HasNextRunnableTask();
      }
    }

    /** The drain loop with the corrected completion, which strikes the
        finished task from every dependency list; everything else is as in
        Submit. */
    method SubmitStrikingEveryEdge<T(==), E>(taskGraph: Dag<T, E>, run: T -> TaskOutcome<E>) returns (ran: seq<T>, ghost trace: seq<State<T, E>>)
      modifies taskGraph
      ensures Run(StrikeEveryEdge, trace, ran, run)
      ensures trace[0] == old(SnapshotOf(taskGraph)) && Last(trace) == SnapshotOf(taskGraph)
      ensures !SomeReady(taskGraph.tasks, taskGraph.deps)
      ensures Distinct(ran)
      ensures forall t :: t in ran <==> t in old(taskGraph.tasks) && t !in taskGraph.tasks
    {
      ran := [];
      trace := [SnapshotOf(taskGraph)];
      var more := taskGraph.HasNextRunnableTask();
      while more
        invariant Run(StrikeEveryEdge, trace, ran, run)
        invariant trace[0] == old(SnapshotOf(taskGraph)) && Last(trace) == SnapshotOf(taskGraph)
        invariant more <==> SomeReady(taskGraph.tasks, taskGraph.deps)
        decreases |taskGraph.tasks|
      {
        ghost var before := SnapshotOf(taskGraph);
        var claimed := taskGraph.NextRunnableTask();
        var t := claimed.value;
        var hadError := false;
        match run(t) {
          case Threw(err) =>
            hadError := true;
            taskGraph.NotifyError(t, err);
          case Returned =>
        }
        if !hadError {
          taskGraph.NotifyDoneAll(t);
        }
        assert Step(StrikeEveryEdge, before, t, run(t), SnapshotOf(taskGraph));
        RunExtend(StrikeEveryEdge, trace, ran, run, t, SnapshotOf(taskGraph));
        ran := ran + [t];
        trace := trace + [SnapshotOf(taskGraph)];
        more := taskGraph.HasNextRunnableTask();
      }
      RunClaimsEachOnce(StrikeEveryEdge, trace, ran, run);
    }
  }
}
