/**
  The repository's own test scenarios, carried out on the model: each method
  builds the graph the test builds, performs the test's calls, and returns
  what the test observes; its postcondition is what the test asserts.
  Tasks are numbered (task i is "ti") and errors are strings.
*/
module Scenarios {
  import opened Wrappers
  import opened TaskGraph
  import opened Execution
  import PackagedDag
  import LegacyDag
  import opened SingleThreadedExecutor

  /** t0 -> t1 -> t2 -> t3: each task waits on the next one. */
  function ChainDeps(): map<int, seq<int>>
  {
    map[2 := [3], 1 := [2], 0 := [1]]
  }

  /** The chain the tests build: insert(t3), insert(t2, t3), insert(t1, t2),
      insert(t0, t1); on a new DAG hasTasks() is false before and true after
      the first insertion. */
  method BuildChain() returns (dag: PackagedDag.Dag<int, string>, hadTasks: bool, hasTasksAfterInsert: bool)
    ensures fresh(dag)
    ensures dag.tasks == {0, 1, 2, 3} && dag.deps == ChainDeps() && dag.errors == None
    ensures !hadTasks && hasTasksAfterInsert
  {
    dag := new PackagedDag.Dag<int, string>();
    hadTasks := dag.HasTasks();
    dag.Insert(3);
    hasTasksAfterInsert := dag.HasTasks();
    dag.InsertWithDependency(2, 3);
    assert dag.deps[2] == [3];
    assert dag.deps == map[2 := [3]];
    dag.InsertWithDependency(1, 2);
    assert dag.deps[1] == [2];
    assert dag.deps == map[2 := [3], 1 := [2]];
    dag.InsertWithDependency(0, 1);
    assert dag.deps[0] == [1];
  }

  /** One round of the pretend scheduling: hasNextRunnableTask(), then
      nextRunnableTask(), which must hand out `t` when `t` is the only ready
      task, then notifyDone(t). When `holder` is the one task whose list is
      exactly [t], that list is emptied; with no holder nothing changes. */
  method ClaimAndFinish<T(==), E>(dag: PackagedDag.Dag<T, E>, t: T, holder: Option<T>) returns (ready: bool, next: Option<T>)
    modifies dag
    requires t in dag.tasks && Ready(dag.deps, t)
    requires forall u :: u in dag.tasks && u != t ==> !Ready(dag.deps, u)
    requires holder.Some? ==> holder.value in dag.deps && dag.deps[holder.value] == [t]
    requires forall j :: j in dag.deps && Some(j) != holder ==> t !in dag.deps[j]
    ensures ready && next == Some(t)
    ensures dag.tasks == old(dag.tasks) - {t} && dag.errors == old(dag.errors)
    ensures holder.Some? ==> dag.deps == old(dag.deps)[holder.value := []]
    ensures holder.None? ==> dag.deps == old(dag.deps)
  {
    assert SomeReady(dag.tasks, dag.deps);
    ready := dag.HasNextRunnableTask();
    next := dag.NextRunnableTask();
    assert next.Some? && next.value == t;
    ghost var before := dag.deps;
    dag.NotifyDone(t);
    if holder.Some? {
      assert t in before[holder.value];
      DoneStepSoleHolder(before, t, holder.value, dag.deps);
      assert RemoveFirst([t], t) == [];
    } else {
      assert !IsTarget(before, t);
    }
  }

  /** Pretend scheduling on the packaged DAG: t3 first, then t2, t1 and t0,
      with notifyDone after each claim. */
  method ClaimChainInOrder() returns (hadTasks: bool, hasTasksAfterInsert: bool, errorsBefore: Option<map<int, string>>,
                                      readyBeforeEach: seq<bool>, claimed: seq<Option<int>>,
                                      readyAtEnd: bool, errorsAfter: Option<map<int, string>>, status: Status)
    ensures !hadTasks && hasTasksAfterInsert && errorsBefore == None
    ensures readyBeforeEach == [true, true, true, true]
    ensures claimed == [Some(3), Some(2), Some(1), Some(0)]
    ensures !readyAtEnd && errorsAfter == None && status == CompletedAllTasks
  {
    var dag;
    dag, hadTasks, hasTasksAfterInsert := BuildChain();
    errorsBefore := dag.GetErrors();

    var r3, n3 := ClaimAndFinish(dag, 3, Some(2));
    var r2, n2 := ClaimAndFinish(dag, 2, Some(1));
    var r1, n1 := ClaimAndFinish(dag, 1, Some(0));
    var r0, n0 := ClaimAndFinish(dag, 0, None);
    assert dag.tasks == {};

    readyBeforeEach, claimed := [r3, r2, r1, r0], [n3, n2, n1, n0];
    readyAtEnd := dag.HasNextRunnableTask();
    errorsAfter := dag.GetErrors();
    status := dag.Status();
  }

  // ---------------------------------------------------------------------------
  // The same pretend scheduling on the older DAG

  method BuildLegacyChain() returns (dag: LegacyDag.Dag<int, string>, hadTasks: bool, hasTasksAfterInsert: bool)
    ensures fresh(dag)
    ensures dag.tasks == {0, 1, 2, 3} && dag.deps == ChainDeps() && dag.errors == None
    ensures !hadTasks && hasTasksAfterInsert
  {
    dag := new LegacyDag.Dag<int, string>();
    hadTasks := dag.HasTasks();
    dag.Insert(3);
    hasTasksAfterInsert := dag.HasTasks();
    dag.InsertWithDependency(2, 3);
    assert dag.deps[2] == [3];
    assert dag.deps == map[2 := [3]];
    dag.InsertWithDependency(1, 2);
    assert dag.deps[1] == [2];
    assert dag.deps == map[2 := [3], 1 := [2]];
    dag.InsertWithDependency(0, 1);
    assert dag.deps[0] == [1];
  }

  method LegacyClaimAndFinish<T(==), E>(dag: LegacyDag.Dag<T, E>, t: T, holder: Option<T>) returns (ready: bool, next: Option<T>)
    modifies dag
    requires t in dag.tasks && Ready(dag.deps, t)
    requires forall u :: u in dag.tasks && u != t ==> !Ready(dag.deps, u)
    requires holder.Some? ==> holder.value in dag.deps && dag.deps[holder.value] == [t]
    requires forall j :: j in dag.deps && Some(j) != holder ==> t !in dag.deps[j]
    ensures ready && next == Some(t)
    ensures dag.tasks == old(dag.tasks) - {t} && dag.errors == old(dag.errors)
    ensures holder.Some? ==> dag.deps == old(dag.deps)[holder.value := []]
    ensures holder.None? ==> dag.deps == old(dag.deps)
  {
    assert SomeReady(dag.tasks, dag.deps);
    ready := dag.HasNextRunnableTask();
    next := dag.NextRunnableTask();
    assert next.Some? && next.value == t;
    ghost var before := dag.deps;
    dag.NotifyDone(t);
    if holder.Some? {
      assert t in before[holder.value];
      DoneStepSoleHolder(before, t, holder.value, dag.deps);
      assert RemoveFirst([t], t) == [];
    } else {
      assert !IsTarget(before, t);
    }
  }

  method LegacyClaimChainInOrder() returns (hadTasks: bool, hasTasksAfterInsert: bool, errorsBefore: Option<map<int, string>>,
                                            readyBeforeEach: seq<bool>, claimed: seq<Option<int>>,
                                            readyAtEnd: bool, errorsAfter: Option<map<int, string>>, status: Status)
    ensures !hadTasks && hasTasksAfterInsert && errorsBefore == None
    ensures readyBeforeEach == [true, true, true, true]
    ensures claimed == [Some(3), Some(2), Some(1), Some(0)]
    ensures !readyAtEnd && errorsAfter == None && status == CompletedAllTasks
  {
    var dag;
    dag, hadTasks, hasTasksAfterInsert := BuildLegacyChain();
    errorsBefore := dag.GetErrors();

    var r3, n3 := LegacyClaimAndFinish(dag, 3, Some(2));
    var r2, n2 := LegacyClaimAndFinish(dag, 2, Some(1));
    var r1, n1 := LegacyClaimAndFinish(dag, 1, Some(0));
    var r0, n0 := LegacyClaimAndFinish(dag, 0, None);
    assert dag.tasks == {};

    readyBeforeEach, claimed := [r3, r2, r1, r0], [n3, n2, n1, n0];
    readyAtEnd := dag.HasNextRunnableTask();
    errorsAfter := dag.GetErrors();
    status := dag.Status();
  }

  // ---------------------------------------------------------------------------
  // The single-threaded executor on the chain

  /** A rank that falls along every edge of the chain. */
  function ChainRank(x: int): nat
  {
    if 0 <= x <= 3 then 3 - x else 0
  }

  /** The chain's lists, key by key: task k waits on k + 1 alone. */
  lemma ChainDepsShape()
    ensures forall k :: k in ChainDeps() <==> 0 <= k <= 2
    ensures forall k :: k in ChainDeps() ==> ChainDeps()[k] == [k + 1]
  {
  }

  /** A graph of that shape meets the conditions under which submit()
      completes. */
  lemma ChainIsSchedulable<E>(s: State<int, E>)
    requires s.tasks == {0, 1, 2, 3}
    requires forall k :: k in s.deps <==> 0 <= k <= 2
    requires forall k :: k in s.deps ==> s.deps[k] == [k + 1]
    ensures Schedulable(StrikeFirstEdge, s, ChainRank)
  {
    forall k | k in s.deps
      ensures Distinct(s.deps[k])
    {
      assert multiset(s.deps[k])[k + 1] == 1;
    }
    forall k, x | k in s.deps && x in s.deps[k]
      ensures x == k + 1
    {
    }
    assert Closed(s.tasks, s.deps);
    assert Ranked(s.deps, ChainRank);
  }

  /** Any run of submit() that drains the chain, with every task body
      returning normally, dispatches each of the four tasks once and leaves
      nothing pending. */
  lemma ChainRunCompletes<E>(trace: seq<State<int, E>>, ran: seq<int>, run: int -> TaskOutcome<E>)
    requires Run(StrikeFirstEdge, trace, ran, run)
    requires trace[0].tasks == {0, 1, 2, 3} && trace[0].deps == ChainDeps()
    requires !SomeReady(Last(trace).tasks, Last(trace).deps)
    requires forall i :: 0 <= i < |ran| ==> run(ran[i]).Returned?
    ensures Last(trace).tasks == {} && Last(trace).errors == trace[0].errors
    ensures |ran| == 4 && Distinct(ran) && 0 in ran && 1 in ran && 2 in ran && 3 in ran
  {
    ChainDepsShape();
    ChainIsSchedulable(trace[0]);
    CompletesAcyclicGraph(StrikeFirstEdge, trace, ran, run, ChainRank);
    RunClaimsEachOnce(StrikeFirstEdge, trace, ran, run);
    assert |{0, 1, 2, 3}| == 4;
  }

  /** ... and it dispatches them in the order t3, t2, t1, t0: each task runs
      after the one it waits on, and each runs once. */
  lemma ChainRunsInOrder<E>(trace: seq<State<int, E>>, ran: seq<int>, run: int -> TaskOutcome<E>)
    requires Run(StrikeFirstEdge, trace, ran, run)
    requires 2 in trace[0].deps && 3 in trace[0].deps[2]
    requires 1 in trace[0].deps && 2 in trace[0].deps[1]
    requires 0 in trace[0].deps && 1 in trace[0].deps[0]
    requires |ran| == 4 && 0 in ran && 1 in ran && 2 in ran && 3 in ran
    ensures ran == [3, 2, 1, 0]
  {
    var j0 :| 0 <= j0 < 4 && ran[j0] == 0;
    var j1 :| 0 <= j1 < 4 && ran[j1] == 1;
    var j2 :| 0 <= j2 < 4 && ran[j2] == 2;
    var j3 :| 0 <= j3 < 4 && ran[j3] == 3;
    DependencyRunsEarlier(StrikeFirstEdge, trace, ran, run, 2, 3, j2, j3);
    DependencyRunsEarlier(StrikeFirstEdge, trace, ran, run, 1, 2, j1, j2);
    DependencyRunsEarlier(StrikeFirstEdge, trace, ran, run, 0, 1, j0, j1);
    assert j3 == 0 && j2 == 1 && j1 == 2 && j0 == 3;
    assert ran == [ran[0], ran[1], ran[2], ran[3]];
  }

  /** The executor test on the single-threaded executor: submit the chain,
      shut down, await termination; the bodies ran as t3, t2, t1, t0, no task
      is left, no error was recorded and the status is COMPLETED_ALL_TASKS. */
  method ExecutorRunsChain() returns (order: seq<int>, terminated: bool, readyAtEnd: bool, errors: Option<map<int, string>>, status: Status)
    ensures order == [3, 2, 1, 0] && terminated
    ensures !readyAtEnd && errors == None && status == CompletedAllTasks
  {
    var dag, _, _ := BuildChain();
    var executor := new SingleThreadedDagExecutor();
    var run: int -> TaskOutcome<string> := t => Returned;
    ghost var trace;
    order, trace := executor.Submit(dag, run);
    executor.Shutdown();
    terminated := executor.AwaitTermination(1, Seconds);
    ChainRunCompletes(trace, order, run);
    ChainRunsInOrder(trace, order, run);
    readyAtEnd := dag.HasNextRunnableTask();
    errors := dag.GetErrors();
    status := dag.Status();
  }

  // ---------------------------------------------------------------------------
  // A cycle of ten tasks

  /** Task i waits on task (i + 1) % 10, for i from 0 to 9. */
  ghost predicate IsRing(tasks: set<int>, deps: map<int, seq<int>>)
  {
    && (forall t :: t in tasks <==> 0 <= t < 10)
    && (forall t :: t in deps <==> 0 <= t < 10)
    && (forall t :: t in deps ==> deps[t] == [(t + 1) % 10])
  }

  /** The loop of the cycle test: insert(tasks[i], tasks[(i + 1) % numTasks])
      for every i. */
  method BuildRing() returns (dag: PackagedDag.Dag<int, string>)
    ensures fresh(dag) && IsRing(dag.tasks, dag.deps) && dag.errors == None
  {
    dag := new PackagedDag.Dag<int, string>();
    var numTasks := 10;
    for i := 0 to numTasks
      invariant forall t :: t in dag.tasks <==> 0 <= t < i
      invariant forall t :: t in dag.deps <==> 0 <= t < i
      invariant forall t :: t in dag.deps ==> dag.deps[t] == [(t + 1) % numTasks]
      invariant dag.errors == None
    {
      dag.InsertWithDependency(i, (i + 1) % numTasks);
    }
  }

  /** In the ring every task waits on another, so no task is ready. */
  lemma RingHasNoReadyTask(tasks: set<int>, deps: map<int, seq<int>>)
    requires IsRing(tasks, deps)
    ensures !SomeReady(tasks, deps)
  {
    forall t | t in tasks
      ensures !Ready(deps, t)
    {
      assert |deps[t]| == 1;
    }
  }

  /** The cycle test on the single-threaded executor: nothing runs, nothing is
      ready at the end, no error is recorded, and the status reports
      INVALID_DEPENDENCIES. */
  method ExecutorStallsOnRing() returns (order: seq<int>, readyAtEnd: bool, errors: Option<map<int, string>>, status: Status)
    ensures order == [] && !readyAtEnd && errors == None && status == InvalidDependencies
  {
    var dag := BuildRing();
    RingHasNoReadyTask(dag.tasks, dag.deps);
    assert 0 in dag.tasks;
    var executor := new SingleThreadedDagExecutor();
    var run: int -> TaskOutcome<string> := t => Returned;
    ghost var trace;
    order, trace := executor.Submit(dag, run);
    StalledRunDispatchesNothing(StrikeFirstEdge, trace, order, run);
    readyAtEnd := dag.HasNextRunnableTask();
    errors := dag.GetErrors();
    status := dag.Status();
  }

  /** The cycle on the older DAG (its executor is not part of this model):
      the ring leaves no task ready, and with nothing claimed the status is
      INVALID_DEPENDENCIES. */
  method LegacyRingHasNoReadyTask() returns (readyAtStart: bool, errors: Option<map<int, string>>, status: Status)
    ensures !readyAtStart && errors == None && status == InvalidDependencies
  {
    var dag := new LegacyDag.Dag<int, string>();
    var numTasks := 10;
    for i := 0 to numTasks
      invariant forall t :: t in dag.tasks <==> 0 <= t < i
      invariant forall t :: t in dag.deps <==> 0 <= t < i
      invariant forall t :: t in dag.deps ==> dag.deps[t] == [(t + 1) % numTasks]
      invariant dag.errors == None
    {
      dag.InsertWithDependency(i, (i + 1) % numTasks);
    }
    RingHasNoReadyTask(dag.tasks, dag.deps);
    assert 0 in dag.tasks;
    readyAtStart := dag.HasNextRunnableTask();
    errors := dag.GetErrors();
    status := dag.Status();
  }

  // ---------------------------------------------------------------------------
  // Two tasks waiting on one

  /** insert(t0), insert(t1, t0), insert(t2, t0): t1 and t2 both wait on t0. */
  method BuildFanOut() returns (dag: PackagedDag.Dag<int, string>)
    ensures fresh(dag)
    ensures dag.tasks == {0, 1, 2} && dag.deps == map[1 := [0], 2 := [0]] && dag.errors == None
  {
    dag := new PackagedDag.Dag<int, string>();
    dag.Insert(0);
    dag.InsertWithDependency(1, 0);
    assert dag.deps[1] == [0];
    assert dag.deps == map[1 := [0]];
    dag.InsertWithDependency(2, 0);
    assert dag.deps[2] == [0];
  }

  /** With notifyDone as written, submit() on the fan-out runs t0 first and
      then strands t1 or t2: the graph ends with a pending task, no error, and
      the status INVALID_DEPENDENCIES although the graph has no cycle. */
  method FanOutStalls() returns (order: seq<int>, errors: Option<map<int, string>>, status: Status)
    ensures |order| > 0 && order[0] == 0
    ensures errors == None && status == InvalidDependencies
  {
    var dag := BuildFanOut();
    var executor := new SingleThreadedDagExecutor();
    var run: int -> TaskOutcome<string> := t => Returned;
    ghost var trace;
    order, trace := executor.Submit(dag, run);
    FanOutStrandsADependent(trace, order, run, 1, 2, 0);
    RunRecordsFailures(StrikeFirstEdge, trace, order, run);
    errors := dag.GetErrors();
    status := dag.Status();
  }

  function FanOutRank(x: int): nat
  {
    if x == 0 then 0 else 1
  }

  lemma FanOutIsSchedulable<E>(s: State<int, E>)
    requires s.deps == map[1 := [0], 2 := [0]] && 0 in s.tasks
    ensures Schedulable(StrikeEveryEdge, s, FanOutRank)
  {
  }

  /** With the corrected completion, every drained run of the fan-out whose
      bodies return normally dispatches all three tasks, t0 first. */
  lemma FanOutRunCompletes<E>(trace: seq<State<int, E>>, ran: seq<int>, run: int -> TaskOutcome<E>)
    requires Run(StrikeEveryEdge, trace, ran, run)
    requires trace[0].tasks == {0, 1, 2} && trace[0].deps == map[1 := [0], 2 := [0]]
    requires !SomeReady(Last(trace).tasks, Last(trace).deps)
    requires forall i :: 0 <= i < |ran| ==> run(ran[i]).Returned?
    ensures |ran| == 3 && ran[0] == 0
    ensures Last(trace).tasks == {} && Last(trace).errors == trace[0].errors
  {
    FanOutIsSchedulable(trace[0]);
    CompletesAcyclicGraph(StrikeEveryEdge, trace, ran, run, FanOutRank);
    RunClaimsEachOnce(StrikeEveryEdge, trace, ran, run);
    assert |{0, 1, 2}| == 3;
    assert Step(StrikeEveryEdge, trace[0], ran[0], run(ran[0]), trace[1]);
  }

  /** With every edge into a finished task struck, submit() on the fan-out
      runs all three tasks, t0 first, and completes. */
  method FanOutCompletesWhenStrikingEveryEdge() returns (order: seq<int>, errors: Option<map<int, string>>, status: Status)
    ensures |order| == 3 && order[0] == 0
    ensures errors == None && status == CompletedAllTasks
  {
    var dag := BuildFanOut();
    var executor := new SingleThreadedDagExecutor();
    var run: int -> TaskOutcome<string> := t => Returned;
    ghost var trace;
    order, trace := executor.SubmitStrikingEveryEdge(dag, run);
    FanOutRunCompletes(trace, order, run);
    errors := dag.GetErrors();
    status := dag.Status();
  }

  // ---------------------------------------------------------------------------
  // Failures

  /** notifyError as written on a DAG that has recorded no error yet: the
      error map is still null, so the call fails and the failure is lost; the
      graph then reports INVALID_DEPENDENCIES instead of ERRORS. */
  method NotifyErrorBeforeAnyError() returns (nullPointer: bool, errors: Option<map<int, string>>, status: Status)
    ensures nullPointer && errors == None && status == InvalidDependencies
  {
    var dag := new PackagedDag.Dag<int, string>();
    dag.Insert(0);
    dag.InsertWithDependency(1, 0);
    assert Ready(dag.deps, 0) && !Ready(dag.deps, 1);
    var claimed := dag.NextRunnableTask();
    assert claimed == Some(0);
    nullPointer := dag.NotifyErrorAsWritten(0, "failed");
    errors := dag.GetErrors();
    status := dag.Status();
  }

  /** t0 throws, t1 waits on t0 and t2 is independent: every drained run
      dispatches t0 and t2, never t1, and leaves t1 pending. */
  lemma FailureRunDispatches<E>(trace: seq<State<int, E>>, ran: seq<int>, run: int -> TaskOutcome<E>)
    requires Run(StrikeFirstEdge, trace, ran, run)
    requires trace[0].tasks == {0, 1, 2} && trace[0].deps == map[1 := [0]]
    requires !SomeReady(Last(trace).tasks, Last(trace).deps)
    requires run(0).Threw?
    ensures 0 in ran && 2 in ran && 1 !in ran && |ran| == 2
    ensures Last(trace).tasks == {1}
  {
    IndependentTaskRuns(StrikeFirstEdge, trace, ran, run, 0);
    IndependentTaskRuns(StrikeFirstEdge, trace, ran, run, 2);
    UnsucceededDependencyBlocks(StrikeFirstEdge, trace, ran, run, 1, 0);
    RunClaimsEachOnce(StrikeFirstEdge, trace, ran, run);
    assert Last(trace).tasks == {1};
  }

  /** A dispatched task that threw is in the final error map with its error. */
  lemma FailureIsRecorded<T, E>(trace: seq<State<T, E>>, ran: seq<T>, run: T -> TaskOutcome<E>, t: T)
    requires Run(StrikeFirstEdge, trace, ran, run)
    requires t in ran && run(t).Threw?
    ensures Last(trace).errors.Some? && t in Last(trace).errors.value
    ensures Last(trace).errors.value[t] == run(t).error
  {
    RunRecordsFailures(StrikeFirstEdge, trace, ran, run);
    var i :| 0 <= i < |ran| && ran[i] == t;
  }

  /** submit() with the error map created on the first failure: t0 throws,
      t1 waits on t0 and never runs, t2 is independent and still runs; the
      failure is recorded and the status is ERRORS. */
  method FailureStarvesOnlyDependents() returns (order: seq<int>, errors: Option<map<int, string>>, status: Status)
    ensures |order| == 2 && 0 in order && 2 in order && 1 !in order
    ensures errors.Some? && 0 in errors.value && errors.value[0] == "failed"
    ensures status == Errors
  {
    var dag := new PackagedDag.Dag<int, string>();
    dag.Insert(0);
    dag.InsertWithDependency(1, 0);
    assert dag.deps[1] == [0];
    dag.Insert(2);
    assert dag.deps == map[1 := [0]];
    var executor := new SingleThreadedDagExecutor();
    var run: int -> TaskOutcome<string> := t => if t == 0 then Threw("failed") else Returned;
    ghost var trace;
    order, trace := executor.Submit(dag, run);
    FailureRunDispatches(trace, order, run);
    FailureIsRecorded(trace, order, run, 0);
    errors := dag.GetErrors();
    status := dag.Status();
  }

  /** t0 throws, t1 waits on t0, t2 is independent. Before the first
      failure every dispatched task returned, so neither t0 nor t1 is among
      them; t0 is still pending and ready, t1 still pending. */
  lemma RunBeforeFirstFailure<E>(trace: seq<State<int, E>>, ran: seq<int>, run: int -> TaskOutcome<E>)
    requires Run(StrikeFirstEdge, trace, ran, run)
    requires trace[0].tasks == {0, 1, 2} && trace[0].deps == map[1 := [0]]
    requires forall i :: 0 <= i < |ran| ==> run(ran[i]).Returned?
    requires run(0).Threw?
    ensures 0 !in ran && 1 !in ran
    ensures 0 in Last(trace).tasks && Ready(Last(trace).deps, 0) && 1 in Last(trace).tasks
    ensures Last(trace).tasks <= {0, 1, 2}
  {
    UnsucceededDependencyBlocks(StrikeFirstEdge, trace, ran, run, 1, 0);
    RunClaimsEachOnce(StrikeFirstEdge, trace, ran, run);
    RunKeepsKeys(StrikeFirstEdge, trace, ran, run, |ran|);
  }

  /** submit() as written on the same graph: t0's failure makes notifyError
      dereference the absent error map, and the NullPointerException ends
      submit. t1 never runs, nothing is recorded, and the status reads
      INVALID_DEPENDENCIES instead of ERRORS. */
  method FailureEndsSubmitAsWritten() returns (order: seq<int>, escaped: Option<int>, errors: Option<map<int, string>>, status: Status)
    ensures escaped == Some(0) && 0 !in order && 1 !in order
    ensures errors == None && status == InvalidDependencies
  {
    var dag := new PackagedDag.Dag<int, string>();
    dag.Insert(0);
    dag.InsertWithDependency(1, 0);
    assert dag.deps[1] == [0];
    dag.Insert(2);
    assert dag.deps == map[1 := [0]];
    var executor := new SingleThreadedDagExecutor();
    var run: int -> TaskOutcome<string> := t => if t == 0 then Threw("failed") else Returned;
    ghost var trace;
    order, escaped, trace := executor.SubmitAsWritten(dag, run);
    RunBeforeFirstFailure(trace, order, run);
    assert 0 in Last(trace).tasks && Ready(Last(trace).deps, 0);
    errors := dag.GetErrors();
    status := dag.Status();
  }

  /** t0 throws and t1 waits on it; t3 waits on t2, and both return. Every
      drained run dispatches t2 and t3 in spite of the failure, and never t1. */
  lemma FailureSparesIndependentChain<E>(trace: seq<State<int, E>>, ran: seq<int>, run: int -> TaskOutcome<E>)
    requires Run(StrikeFirstEdge, trace, ran, run)
    requires trace[0].tasks == {0, 1, 2, 3} && trace[0].deps == map[1 := [0], 3 := [2]]
    requires !SomeReady(Last(trace).tasks, Last(trace).deps)
    requires run(0).Threw? && run(2).Returned? && run(3).Returned?
    ensures 2 in ran && 3 in ran && 1 !in ran
  {
    var deps := trace[0].deps;
    assert deps[1] == [0] && deps[3] == [2];
    assert multiset([0])[0] == 1 && multiset([2])[2] == 1;
    assert SingleIncoming(deps);
    var rank := (x: int) => if x == 3 then 1 else 0;
    UpstreamSucceedsThenRuns(StrikeFirstEdge, trace, ran, run, {2, 3}, rank, 2);
    UpstreamSucceedsThenRuns(StrikeFirstEdge, trace, ran, run, {2, 3}, rank, 3);
    UnsucceededDependencyBlocks(StrikeFirstEdge, trace, ran, run, 1, 0);
  }
}
