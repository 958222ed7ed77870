# DAGExecutor in Dafny

A model of the task graph `DAG` and the single-threaded executor from the
DAGExecutor library. A `DAG` holds three things:

- the set of pending tasks;
- for each task, the list of tasks it still waits on (a Guava multimap);
- an error map.

An executor drains the graph. While some pending task is ready (it waits on
nothing), the executor claims it, runs it, and reports the outcome to the
graph: `notifyDone` on a normal return, `notifyError` on a throw. When the
loop stops, `status()` reports one of three results:

- every task ran;
- some failed;
- the remaining tasks can never become ready.

Files:

- `task_graph.dfy` (module `TaskGraph`): the vocabulary on values.
  - what "ready" means;
  - the readiness scan `ScanReady`;
  - the edit that `notifyDone` makes as written (`DoneStep`), and the one its comment describes (`StrikeAll`);
  - the error-map update (`RecordError`);
  - the lemmas about these.
- `dag.dfy` (module `PackagedDag`): class `Dag` for `com.isaacdooley.dagexecutor.DAG`. Its fields are updated in place by methods with field-level `modifies` frames.
- `legacy_dag.dfy` (module `LegacyDag`): the older `DAG` of the default package, without `verifyValidGraph`.
- `execution.dfy` (module `Execution`): the drain loop as a relation.
  - `Step` is one iteration and `Run` is a whole run: a trace of graph states plus the dispatch order.
  - There are two completion rules: notifyDone as written (`StrikeFirstEdge`) and the corrected one (`StrikeEveryEdge`).
  - Its lemmas are what every run guarantees: each task is dispatched once, dependencies succeed first, and failures starve their dependents.
  - With notifyError corrected, failures are recorded and independent tasks still run.
  - Acyclic graphs complete under the corrected completion. Under notifyDone as written, completion is proved only for graphs in which no task has two incoming edges (counting a dependency listed twice as two). The fan-out shows an acyclic graph that does not complete (finding 2).
- `single_threaded_executor.dfy` (module `SingleThreadedExecutor`): class `SingleThreadedDagExecutor`. It has the lifecycle methods and `Submit`, a `while` loop proved to produce a `Run` and to stop only when no pending task is ready. `SubmitAsWritten` is the same loop ending at the first failure, as the source's does.
- `scenarios.dfy` (module `Scenarios`): the repository's unit tests carried out on the model, plus the scenarios behind the two findings.

Tasks are a type parameter `T` with equality; errors are a type parameter
`E`. A task body is an outcome oracle `run: T -> TaskOutcome<E>`: it either
`Returned` or `Threw(error)`. A task with no dependency entry counts the same
as one with an empty list. The error map is `Option<map<T, E>>`, where `None`
plays the part of the `null` the field starts as.

## Model

| member | source | states |
|---|---|---|
| PackagedDag.Dag.constructor | src/com/isaacdooley/dagexecutor/DAG.java:33-36 | a new graph has no pending task, no dependency list and no error map |
| PackagedDag.Dag.Status | src/com/isaacdooley/dagexecutor/DAG.java:54-62 | COMPLETED_ALL_TASKS iff nothing is pending (even with errors); otherwise ERRORS iff an error map exists, else INVALID_DEPENDENCIES; total: the third test is proved to hold where it is reached, so the trailing throw cannot happen |
| PackagedDag.Dag.GetErrors | src/com/isaacdooley/dagexecutor/DAG.java:65-67 | no error map means the status is not ERRORS; an error map means ERRORS, or COMPLETED_ALL_TASKS when nothing is pending |
| PackagedDag.Dag.PeekNextRunnableTask | src/com/isaacdooley/dagexecutor/DAG.java:70-81 | returns only a pending task with no or an empty dependency list, and returns none iff no such task exists; changes nothing |
| PackagedDag.Dag.HasNextRunnableTask | src/com/isaacdooley/dagexecutor/DAG.java:87-89 | true exactly when some pending task is ready |
| PackagedDag.Dag.HasTasks | src/com/isaacdooley/dagexecutor/DAG.java:96-98 | true exactly when some task is pending |
| PackagedDag.Dag.Insert | src/com/isaacdooley/dagexecutor/DAG.java:101-103 | adds the task to the pending set (a second insertion changes nothing); its frame leaves the dependency lists and errors untouched |
| PackagedDag.Dag.InsertWithDependency | src/com/isaacdooley/dagexecutor/DAG.java:106-110 | adds the task and appends the dependency to the end of its list, keeping duplicates; the dependency is not made pending |
| PackagedDag.Dag.InsertWithDependencies | src/com/isaacdooley/dagexecutor/DAG.java:113-116 | adds the task and appends each element of the set exactly once, in some order; an empty set creates no entry |
| PackagedDag.Dag.NextRunnableTask | src/com/isaacdooley/dagexecutor/DAG.java:118-122 | a returned task was pending and ready and is removed from the pending set; none is returned iff no pending task is ready, and then nothing changes; dependency lists are never touched |
| PackagedDag.Dag.NotifyDone | src/com/isaacdooley/dagexecutor/DAG.java:124-127 | as written: removes the first occurrence of the task from one list that holds it, or does nothing when no list does; the pending set and the errors are untouched |
| PackagedDag.Dag.NotifyDoneAll | src/com/isaacdooley/dagexecutor/DAG.java:125 | corrected: the task is struck from every dependency list |
| PackagedDag.Dag.NotifyErrorAsWritten | src/com/isaacdooley/dagexecutor/DAG.java:129-131 | the put fails with a null dereference iff no error map exists, and then nothing is recorded; otherwise the entry is put |
| PackagedDag.Dag.NotifyError | src/com/isaacdooley/dagexecutor/DAG.java:129-131 | corrected: the failure is recorded with its error, creating the map on the first failure; pending tasks and dependency lists are untouched |
| PackagedDag.Dag.NumTasks | src/com/isaacdooley/dagexecutor/DAG.java:133-135 | the number of pending tasks, zero exactly when hasTasks() is false |
| PackagedDag.Dag.VerifyValidGraph | src/com/isaacdooley/dagexecutor/DAG.java:141-147 | succeeds iff every dependency target is a pending task; a failure names a target that is not pending; changes nothing |
| LegacyDag.Dag.constructor | src/DAG.java:17-19 | a new graph has no pending task, no dependency list and no error map |
| LegacyDag.Dag.Status | src/DAG.java:30-38 | as in the packaged copy: three cases, the third test proved to hold, so the throw cannot happen |
| LegacyDag.Dag.GetErrors | src/DAG.java:41-43 | the error map agrees with status() as in the packaged copy |
| LegacyDag.Dag.PeekNextRunnableTask | src/DAG.java:45-56 | (public here) a ready pending task, or none iff there is none |
| LegacyDag.Dag.HasNextRunnableTask | src/DAG.java:58-60 | true exactly when some pending task is ready |
| LegacyDag.Dag.HasTasks | src/DAG.java:67-69 | true exactly when some task is pending |
| LegacyDag.Dag.Insert | src/DAG.java:71-73 | adds the task to the pending set |
| LegacyDag.Dag.InsertWithDependency | src/DAG.java:75-78 | adds the task and appends one edge, keeping duplicates |
| LegacyDag.Dag.InsertWithDependencies | src/DAG.java:80-83 | adds the task and appends each element of the set once |
| LegacyDag.Dag.NextRunnableTask | src/DAG.java:85-89 | removes exactly the returned ready task, or returns none and changes nothing |
| LegacyDag.Dag.NotifyDone | src/DAG.java:91-94 | as written: at most one edge into the task is removed; the pending set is untouched |
| LegacyDag.Dag.NotifyError | src/DAG.java:96-98 | corrected: records the failure; pending tasks and dependency lists are untouched |
| LegacyDag.Dag.NumTasks | src/DAG.java:101-103 | the number of pending tasks |
| TaskGraph.ScanReady | src/com/isaacdooley/dagexecutor/DAG.java:71-80 | the scan loop returns a pending task that is ready, and none iff no pending task is ready |
| TaskGraph.FirstIndex | src/com/isaacdooley/dagexecutor/DAG.java:126 | the position of the first occurrence: it holds the element and no earlier position does |
| TaskGraph.RemoveFirst | src/com/isaacdooley/dagexecutor/DAG.java:126 | deleting the first occurrence: one copy fewer of the element, all else kept, the list unchanged when the element is absent |
| TaskGraph.RemoveAll | src/com/isaacdooley/dagexecutor/DAG.java:125 | strikes every occurrence of the element and keeps every other element with its multiplicity |
| TaskGraph.StrikeAll | src/com/isaacdooley/dagexecutor/DAG.java:125 | the same keys; no list holds the finished task any more; every other edge is kept |
| TaskGraph.RecordError | src/com/isaacdooley/dagexecutor/DAG.java:64 | the new map sends the task to its error, keeps every earlier entry, and has exactly the old keys plus the task |
| TaskGraph.DoneStepSoleHolder | src/com/isaacdooley/dagexecutor/DAG.java:126 | when one list alone holds the task, that list loses its first occurrence and nothing else changes |
| TaskGraph.DoneStepRemovesAtMostOneEdge | src/com/isaacdooley/dagexecutor/DAG.java:124-127 | no key appears or disappears; no-op when the task is no dependency; at most one list changes, and a changed list held the task and lost exactly one copy of it |
| TaskGraph.DoneStepShrinks | src/com/isaacdooley/dagexecutor/DAG.java:126 | every list only loses elements |
| TaskGraph.DoneStepKeepsOtherEdges | src/com/isaacdooley/dagexecutor/DAG.java:126 | an edge to any other task survives |
| TaskGraph.DoneStepClearsSingleIncoming | src/com/isaacdooley/dagexecutor/DAG.java:124-127 | when each task has at most one incoming edge, the one-edge removal leaves no edge into the task, and the graph keeps that shape |
| TaskGraph.OneEdgeRemovalKeepsADependentBlocked | src/com/isaacdooley/dagexecutor/DAG.java:126 | counterexample: when a and b both wait on d alone, notifyDone(d) as written readies exactly one of them |
| TaskGraph.StrikeAllReleasesEveryDependent | src/com/isaacdooley/dagexecutor/DAG.java:125 | in the same graph, the corrected completion readies both |
| TaskGraph.AcyclicHasReady | src/com/isaacdooley/dagexecutor/DAG.java:43-47 | when every dependency is pending and a rank falls along every edge (no cycle), some pending task is ready unless none is pending |
| Execution.RunStartsReady | src/com/isaacdooley/dagexecutor/SingleThreadedDAGExecutor.java:41-42 | a run that dispatches anything started with a ready pending task |
| Execution.StalledRunDispatchesNothing | src/com/isaacdooley/dagexecutor/SingleThreadedDAGExecutor.java:41 | when no task is ready at the start, the loop runs nothing and the graph is unchanged |
| Execution.RunKeepsKeys | src/com/isaacdooley/dagexecutor/SingleThreadedDAGExecutor.java:46-54 | no iteration adds or removes a dependency-map entry |
| Execution.RunClaimsEachOnce | src/com/isaacdooley/dagexecutor/SingleThreadedDAGExecutor.java:41-42 | each task is dispatched at most once and only if it was pending; the final pending set is the initial one minus the dispatched tasks, so it shrinks by one per iteration |
| Execution.RunRecordsFailures | src/com/isaacdooley/dagexecutor/SingleThreadedDAGExecutor.java:45-50 | with notifyError corrected: every failure is in the final error map with its error, every earlier entry stays, and every key at the end was there at the start or belongs to a task that failed; the map exists at the end iff it existed at the start or some task failed |
| Execution.EdgePersists | src/com/isaacdooley/dagexecutor/SingleThreadedDAGExecutor.java:52-54 | an edge t -> f survives until f has returned normally |
| Execution.DependenciesSucceedFirst | src/com/isaacdooley/dagexecutor/SingleThreadedDAGExecutor.java:41-54 | a task is dispatched only after each of its dependencies was dispatched and returned normally |
| Execution.DependencyRunsEarlier | src/com/isaacdooley/dagexecutor/SingleThreadedDAGExecutor.java:41-54 | in the dispatch order a dependency comes before the task waiting on it |
| Execution.UnsucceededDependencyBlocks | src/com/isaacdooley/dagexecutor/SingleThreadedDAGExecutor.java:45-54 | a task waiting on a task that fails or never runs is never dispatched and is still blocked at the end |
| Execution.FailureStarvesDownstream | src/com/isaacdooley/dagexecutor/SingleThreadedDAGExecutor.java:45-54 | a failure starves the whole chain of tasks downstream of it |
| Execution.IndependentTaskRuns | src/com/isaacdooley/dagexecutor/SingleThreadedDAGExecutor.java:41-55 | with notifyError corrected, a failure does not end the loop: a pending task that waits on nothing at the start is always dispatched |
| Execution.RunOnlyDeletes | src/com/isaacdooley/dagexecutor/SingleThreadedDAGExecutor.java:46-54 | no iteration adds an edge: an edge present at one step was present at every earlier step |
| Execution.RunKeepsSingleIncoming | src/com/isaacdooley/dagexecutor/SingleThreadedDAGExecutor.java:41-55 | under the one-edge removal, at most one incoming edge per task stays true for the whole run, failures included |
| Execution.SucceededTaskIsNoTarget | src/com/isaacdooley/dagexecutor/SingleThreadedDAGExecutor.java:52-54 | once a dispatched task has returned normally, no task waits on it at the end of the run (under the one-edge removal, given at most one incoming edge per task) |
| Execution.UpstreamSucceedsThenRuns | src/com/isaacdooley/dagexecutor/SingleThreadedDAGExecutor.java:41-55 | with notifyError corrected, a set of pending tasks closed under dependencies, acyclic, whose every dependency returns normally, is dispatched in full by every drained run, whatever fails outside it (under the one-edge removal, given one incoming edge per task) |
| Execution.SchedulablePreserved | src/com/isaacdooley/dagexecutor/SingleThreadedDAGExecutor.java:41-55 | while every task returns normally, the graph stays closed, ranked (and single-incoming under the one-edge removal), and no error appears |
| Execution.CompletesAcyclicGraph | src/com/isaacdooley/dagexecutor/SingleThreadedDAGExecutor.java:41-55 | on a closed acyclic graph whose tasks all return normally, every run that stops has dispatched every task exactly once and left nothing pending; with the as-written completion this needs at most one incoming edge per task |
| Execution.FanOutStrandsADependent | src/com/isaacdooley/dagexecutor/DAG.java:124-127 | counterexample: with a and b waiting on d, the as-written loop runs d first and then strands a or b, so the graph never empties |
| SingleThreadedExecutor.SingleThreadedDagExecutor.AwaitTermination | src/com/isaacdooley/dagexecutor/SingleThreadedDAGExecutor.java:14-17 | reports termination, whatever the timeout |
| SingleThreadedExecutor.SingleThreadedDagExecutor.IsShutdown | src/com/isaacdooley/dagexecutor/SingleThreadedDAGExecutor.java:19-22 | always true |
| SingleThreadedExecutor.SingleThreadedDagExecutor.IsTerminated | src/com/isaacdooley/dagexecutor/SingleThreadedDAGExecutor.java:24-27 | always true |
| SingleThreadedExecutor.SingleThreadedDagExecutor.Shutdown | src/com/isaacdooley/dagexecutor/SingleThreadedDAGExecutor.java:29-32 | does nothing: it modifies no state (no ensures, see Left out) |
| SingleThreadedExecutor.SingleThreadedDagExecutor.ShutdownNow | src/com/isaacdooley/dagexecutor/SingleThreadedDAGExecutor.java:34-37 | returns null (none) instead of a list |
| SingleThreadedExecutor.SingleThreadedDagExecutor.Submit | src/com/isaacdooley/dagexecutor/SingleThreadedDAGExecutor.java:39-56 | with notifyError corrected (see Left out): every iteration claims a ready task, runs it and reports notifyDone on a return or notifyError on a throw (a `Run` from the initial to the final graph); it stops only when no pending task is ready; each task runs once, and the tasks run are exactly those that left the pending set |
| SingleThreadedExecutor.SingleThreadedDagExecutor.SubmitAsWritten | src/com/isaacdooley/dagexecutor/SingleThreadedDAGExecutor.java:39-56 | the loop with both DAG methods as written: the iterations before the first failure form a `Run`; either no pending task is ready at the end, or the claimed task threw, the error map was absent and the graph is left with that task claimed and nothing recorded; with the map absent at the start, every task run before returned normally and no error is ever recorded |
| SingleThreadedExecutor.SingleThreadedDagExecutor.SubmitStrikingEveryEdge | src/com/isaacdooley/dagexecutor/SingleThreadedDAGExecutor.java:39-56 | the same loop with the corrected completion |
| Scenarios.ClaimChainInOrder | src/com/isaacdooley/dagexecutortests/DAGTest.java:40-78 | a new DAG has no tasks; claiming and finishing the chain hands out t3, t2, t1, t0, each after hasNextRunnableTask() is true; afterwards nothing is ready, getErrors() is null and the status is COMPLETED_ALL_TASKS |
| Scenarios.LegacyClaimChainInOrder | src/DAGTest.java:22-61 | the same on the older DAG |
| Scenarios.ChainRunCompletes | src/com/isaacdooley/dagexecutortests/DAGTest.java:160-163 | any drained run of the chain with every body returning dispatches all four tasks once and leaves nothing pending and no error |
| Scenarios.ChainRunsInOrder | src/com/isaacdooley/dagexecutortests/DAGTest.java:165-166 | such a run dispatches t3, t2, t1, t0 in that order |
| Scenarios.ExecutorRunsChain | src/com/isaacdooley/dagexecutortests/DAGTest.java:142-169 | submit, shutdown and awaitTermination on the chain: bodies run as t3, t2, t1, t0; nothing ready, no errors, COMPLETED_ALL_TASKS |
| Scenarios.RingHasNoReadyTask | src/com/isaacdooley/dagexecutortests/DAGTest.java:185-187 | in the ten-task ring no task is ready |
| Scenarios.ExecutorStallsOnRing | src/com/isaacdooley/dagexecutortests/DAGTest.java:173-199 | submit on the ring runs nothing; nothing is ready, no errors, INVALID_DEPENDENCIES |
| Scenarios.LegacyRingHasNoReadyTask | src/DAGTest.java:120-145 | on the older DAG the ring leaves no ready task, no errors and INVALID_DEPENDENCIES |
| Scenarios.FanOutStalls | src/com/isaacdooley/dagexecutor/DAG.java:124-127 | submit as written on t1 and t2 both waiting on t0: t0 runs first, no error is recorded, and the status is INVALID_DEPENDENCIES although there is no cycle |
| Scenarios.FanOutCompletesWhenStrikingEveryEdge | src/com/isaacdooley/dagexecutor/DAG.java:125 | with the corrected completion the same graph runs all three tasks, t0 first, and ends COMPLETED_ALL_TASKS |
| Scenarios.NotifyErrorBeforeAnyError | src/com/isaacdooley/dagexecutor/DAG.java:129-131 | notifyError as written on a graph with no recorded error dereferences null; the failure is lost and the status reads INVALID_DEPENDENCIES |
| Scenarios.RunBeforeFirstFailure | src/com/isaacdooley/dagexecutor/SingleThreadedDAGExecutor.java:45-54 | t0 throws, t1 waits on t0, t2 is independent: before the first failure neither t0 nor t1 has run, t0 is pending and ready, t1 pending |
| Scenarios.FailureEndsSubmitAsWritten | src/com/isaacdooley/dagexecutor/SingleThreadedDAGExecutor.java:47-49 | submit as written on that graph ends at t0's failure with the null dereference: t1 never runs, no error is recorded, and the status reads INVALID_DEPENDENCIES |
| Scenarios.FailureSparesIndependentChain | src/com/isaacdooley/dagexecutor/SingleThreadedDAGExecutor.java:45-54 | with the corrected notifyError, t0 fails and starves t1, while the chain t3 waiting on t2 beside it still runs in full |
| Scenarios.FailureStarvesOnlyDependents | src/com/isaacdooley/dagexecutor/SingleThreadedDAGExecutor.java:45-54 | t0 throws, t1 waits on t0, t2 is independent: exactly t0 and t2 run, t0's error is recorded, and the status is ERRORS |

## Left out

- MultiThreadedDAGExecutor (both copies): its purpose is concurrency (thread pools, blocking queues, latches, interruption). The expected order in its timing test depends on `Thread.sleep`.
- The DAGExecutor interfaces (both copies): signatures only.
- `synchronized`: each DAG method is one atomic step of a sequential model.
- Guava `ArrayListMultimap` internals. The multimap is a `map<T, seq<T>>` that keeps emptied lists, because Guava's removal of empty keys makes no difference to readiness. Which list `values().remove` reaches first is the map's iteration order, so `NotifyDone` may pick any list that holds the task.
- The `HashSet` iteration order of the readiness scan: the model returns some ready task, with no tie-break.
- Task bodies, `Thread`, the JUnit harness and its result lists: a body is the outcome oracle `run`, and the test's result list is the dispatch order `ran` that `Submit` returns.
- The Java `Throwable` hierarchy: a failure is the value `Threw(error)`, and `DependencyDoesNotExistException` is the result `DependencyDoesNotExist(dependency)`.
- SingleThreadedExecutor.SingleThreadedDagExecutor.Submit, SubmitStrikingEveryEdge and `Execution.Step` use the corrected notifyError, which records the failure and lets the loop go on. In the source the first failure ends submit: notifyError throws NullPointerException from inside the catch block (finding 1), nothing is recorded, and ready tasks may be left unrun. That loop is `SubmitAsWritten`. The properties proved about `Run` for failing tasks (`RunRecordsFailures`, `IndependentTaskRuns`, `UpstreamSucceedsThenRuns`, `FailureStarvesOnlyDependents`) hold for the corrected failure path only.
- SingleThreadedExecutor.SingleThreadedDagExecutor.Shutdown: it does nothing, so it carries no contract beyond its empty frame.
- SingleThreadedExecutor.SingleThreadedDagExecutor.AwaitTermination: the timeout and its unit are accepted and ignored, as in the source.
- src/SingleThreadedDAGExecutor.java is not part of this model. The legacy ring test therefore checks the ring's state directly, without submitting it.
- LegacyDag.Dag.NotifyError: the older copy has the same null dereference as finding 1 (src/DAG.java:19, 96-98). It is given the corrected behaviour directly; the as-written half is exhibited on the packaged class only.
- LegacyDag.Dag.NotifyDone is the one-edge removal as written (src/DAG.java:93). Finding 2 applies to it unchanged, and no corrected strike-all variant is repeated for it.
- An edge to a task that was never inserted (possible because `verifyValidGraph` is optional) blocks its task forever, as in the source. The completion lemmas assume a closed graph, in which every dependency is pending.

## Findings

| source | as written | input that shows it | evidently intended | confidence | as-written member | corrected member |
|---|---|---|---|---|---|---|
| src/com/isaacdooley/dagexecutor/DAG.java:36, 129-131 | `_errors` starts as null and is never assigned, so `notifyError` throws NullPointerException on every call. The throw escapes the catch block in `submit`, and the failure is never recorded. | new DAG; insert(t0); insert(t1, t0); claim t0; notifyError(t0, e): the error map is still absent and status() reads INVALID_DEPENDENCIES | record the failed task with its error, creating the map on the first failure, so status() reports ERRORS (the comments at DAG.java:41-42 and 64) | high, not executed | PackagedDag.Dag.NotifyErrorAsWritten, Scenarios.NotifyErrorBeforeAnyError, SingleThreadedExecutor.SingleThreadedDagExecutor.SubmitAsWritten, Scenarios.FailureEndsSubmitAsWritten | PackagedDag.Dag.NotifyError, TaskGraph.RecordError, Execution.Step, SingleThreadedExecutor.SingleThreadedDagExecutor.Submit, Execution.RunRecordsFailures, Scenarios.FailureStarvesOnlyDependents |
| src/com/isaacdooley/dagexecutor/DAG.java:124-127 | `values().remove(task)` deletes a single occurrence of the finished task from all the lists together, not one per dependent | insert(t0); insert(t1, t0); insert(t2, t0); submit: t0 runs, one of t1 and t2 stays blocked forever, and the status is INVALID_DEPENDENCIES without a cycle | strike the finished task from every dependency list, as the comment at DAG.java:125 says, so every acyclic graph completes | high, not executed | PackagedDag.Dag.NotifyDone, TaskGraph.OneEdgeRemovalKeepsADependentBlocked, Execution.FanOutStrandsADependent, Scenarios.FanOutStalls | PackagedDag.Dag.NotifyDoneAll, TaskGraph.StrikeAllReleasesEveryDependent, SingleThreadedExecutor.SingleThreadedDagExecutor.SubmitStrikingEveryEdge, Execution.CompletesAcyclicGraph, Scenarios.FanOutCompletesWhenStrikingEveryEdge |

The model's `Submit`, and the `Step` relation behind it, report failures
through the corrected notifyError, so a failure is recorded and the loop
goes on. `SubmitAsWritten` is the loop exactly as written, ending
at the first failure. `Submit` keeps the as-written one-edge removal, because the
repository's tests depend on that loop. On graphs where every task has at
most one incoming edge, the chain tests among them, that removal is as good
as striking every edge: `TaskGraph.DoneStepClearsSingleIncoming` and
`Execution.CompletesAcyclicGraph` prove this.
