/**
  The drain loop of SingleThreadedDAGExecutor.submit() as a relation between
  successive states of the task graph. One step claims a ready pending task,
  runs it, and reports the outcome: notifyDone on a normal return, notifyError
  on a throw, with notifyError corrected (the loop as written, which ends at
  the first failure, is SingleThreadedDagExecutor.SubmitAsWritten). A run is a sequence of such steps; the lemmas below are what the
  executor promises about every run.
*/
module Execution {
  import opened Wrappers
  import opened TaskGraph

  /** What invoking a task body produced: a normal return or a thrown error. */
  datatype TaskOutcome<E> = Returned | Threw(error: E)

  /** The three fields of a DAG at one moment. */
  datatype State<T, E> = State(tasks: set<T>, deps: map<T, seq<T>>, errors: Option<map<T, E>>)

  /** Which completion the loop reports: notifyDone as written, which strikes
      one edge, or the corrected one, which strikes every edge into the task. */
  datatype Completion = StrikeFirstEdge | StrikeEveryEdge

  ghost predicate Completes<T>(c: Completion, deps: map<T, seq<T>>, d: T, deps': map<T, seq<T>>)
  {
    match c
    case StrikeFirstEdge => DoneStep(deps, d, deps')
    case StrikeEveryEdge => deps' == StrikeAll(deps, d)
  }

  /** One iteration of the loop: `t` was pending and ready, it leaves the
      pending set when claimed, and its outcome `o` is reported. With
      notifyError corrected (the loop as written is
      SingleThreadedDagExecutor.SubmitAsWritten), a failure records the error
      and leaves every dependency list alone. */
  ghost predicate Step<T, E>(c: Completion, s: State<T, E>, t: T, o: TaskOutcome<E>, s': State<T, E>)
  {
    && t in s.tasks && Ready(s.deps, t)
    && s'.tasks == s.tasks - {t}
    && match o
       case Returned => s'.errors == s.errors && Completes(c, s.deps, t, s'.deps)
       case Threw(err) => s'.deps == s.deps && s'.errors == Some(RecordError(s.errors, t, err))
  }

  /** `trace` lists the states a run passes through and `ran` the tasks it
      dispatched, in order; `run` tells what each task body does. */
  ghost predicate Run<T, E>(c: Completion, trace: seq<State<T, E>>, ran: seq<T>, run: T -> TaskOutcome<E>)
  {
    && |trace| == |ran| + 1
    && forall i :: 0 <= i < |ran| ==> Step(c, trace[i], ran[i], run(ran[i]), trace[i + 1])
  }

  function Last<X>(s: seq<X>): X
    requires |s| > 0
  {
    s[|s| - 1]
  }

  /** Every prefix of a run is a run. */
  lemma RunPrefix<T, E>(c: Completion, trace: seq<State<T, E>>, ran: seq<T>, run: T -> TaskOutcome<E>, n: nat)
    requires Run(c, trace, ran, run) && n <= |ran|
    ensures Run(c, trace[..n + 1], ran[..n], run)
  {
    forall i | 0 <= i < n
      ensures Step(c, trace[..n + 1][i], ran[..n][i], run(ran[..n][i]), trace[..n + 1][i + 1])
    {
      assert trace[..n + 1][i] == trace[i] && trace[..n + 1][i + 1] == trace[i + 1];
    }
  }

  /** A run followed by one more step is a run. */
  lemma RunExtend<T, E>(c: Completion, trace: seq<State<T, E>>, ran: seq<T>, run: T -> TaskOutcome<E>, t: T, s': State<T, E>)
    requires Run(c, trace, ran, run) && Step(c, Last(trace), t, run(t), s')
    ensures Run(c, trace + [s'], ran + [t], run)
    ensures (trace + [s'])[0] == trace[0] && Last(trace + [s']) == s'
  {
    var trace', ran' := trace + [s'], ran + [t];
    forall i | 0 <= i < |ran'|
      ensures Step(c, trace'[i], ran'[i], run(ran'[i]), trace'[i + 1])
    {
      if i < |ran| {
        assert trace'[i] == trace[i] && trace'[i + 1] == trace[i + 1] && ran'[i] == ran[i];
      }
    }
  }

  /** Every suffix of a run is a run. */
  lemma RunSuffix<T, E>(c: Completion, trace: seq<State<T, E>>, ran: seq<T>, run: T -> TaskOutcome<E>, n: nat)
    requires Run(c, trace, ran, run) && n <= |ran|
    ensures Run(c, trace[n..], ran[n..], run)
    ensures trace[n..][0] == trace[n] && Last(trace[n..]) == Last(trace)
  {
    forall i | 0 <= i < |ran| - n
      ensures Step(c, trace[n..][i], ran[n..][i], run(ran[n..][i]), trace[n..][i + 1])
    {
      assert trace[n..][i] == trace[n + i] && trace[n..][i + 1] == trace[n + i + 1];
      assert ran[n..][i] == ran[n + i];
    }
  }

  /** A run that dispatches anything started with a ready pending task. */
  lemma RunStartsReady<T, E>(c: Completion, trace: seq<State<T, E>>, ran: seq<T>, run: T -> TaskOutcome<E>)
    requires Run(c, trace, ran, run)
    ensures |ran| > 0 ==> SomeReady(trace[0].tasks, trace[0].deps)
  {
    if |ran| > 0 {
      assert Step(c, trace[0], ran[0], run(ran[0]), trace[1]);
    }
  }

  /** A run that starts with no ready pending task dispatches nothing and
      leaves the graph as it was. */
  lemma StalledRunDispatchesNothing<T, E>(c: Completion, trace: seq<State<T, E>>, ran: seq<T>, run: T -> TaskOutcome<E>)
    requires Run(c, trace, ran, run)
    requires !SomeReady(trace[0].tasks, trace[0].deps)
    ensures ran == [] && Last(trace) == trace[0]
  {
    RunStartsReady(c, trace, ran, run);
  }

  /** No step adds or drops a dependency-map entry. */
  lemma {:induction false} RunKeepsKeys<T, E>(c: Completion, trace: seq<State<T, E>>, ran: seq<T>, run: T -> TaskOutcome<E>, n: nat)
    requires Run(c, trace, ran, run) && n < |trace|
    ensures trace[n].deps.Keys == trace[0].deps.Keys
  {
    if n > 0 {
      RunKeepsKeys(c, trace, ran, run, n - 1);
      var s, x, s' := trace[n - 1], ran[n - 1], trace[n];
      assert Step(c, s, x, run(x), s');
      if run(x).Returned? && c == StrikeFirstEdge {
        DoneStepShrinks(s.deps, x, s'.deps);
      }
    }
  }

  // ---------------------------------------------------------------------------
  // Dispatch

  /** Each task is dispatched at most once, only if it was pending at the
      start, and exactly the dispatched tasks have left the pending set; since
      every iteration removes one task, a run is never longer than the number
      of tasks it started with. */
  lemma {:induction false} RunClaimsEachOnce<T, E>(c: Completion, trace: seq<State<T, E>>, ran: seq<T>, run: T -> TaskOutcome<E>)
    requires Run(c, trace, ran, run)
    ensures Distinct(ran)
    ensures forall t :: t in ran ==> t in trace[0].tasks
    ensures forall t :: t in Last(trace).tasks <==> t in trace[0].tasks && t !in ran
    ensures |Last(trace).tasks| == |trace[0].tasks| - |ran|
    decreases |ran|
  {
    if |ran| > 0 {
      var n := |ran| - 1;
      RunPrefix(c, trace, ran, run, n);
      RunClaimsEachOnce(c, trace[..n + 1], ran[..n], run);
      assert Last(trace[..n + 1]) == trace[n];
      assert ran == ran[..n] + [ran[n]];
      var t := ran[n];
      assert Step(c, trace[n], t, run(t), trace[n + 1]);
      assert t !in ran[..n];
      AppendFreshKeepsDistinct(ran[..n], t);
    }
  }

  // ---------------------------------------------------------------------------
  // Failures

  /** Every failure is recorded with the error it raised, and nothing else
      enters the map: its keys at the end are the keys it started with and
      the tasks that failed. The map exists at the end exactly when it
      existed at the start or some task failed, so ERRORS can only be
      reported after a failure. */
  lemma {:induction false} RunRecordsFailures<T, E>(c: Completion, trace: seq<State<T, E>>, ran: seq<T>, run: T -> TaskOutcome<E>)
    requires Run(c, trace, ran, run)
    ensures forall i :: 0 <= i < |ran| && run(ran[i]).Threw? ==>
              && Last(trace).errors.Some?
              && ran[i] in Last(trace).errors.value
              && Last(trace).errors.value[ran[i]] == run(ran[i]).error
    ensures Last(trace).errors.Some? ==> forall u :: u in Last(trace).errors.value ==>
              (trace[0].errors.Some? && u in trace[0].errors.value) || exists i :: 0 <= i < |ran| && ran[i] == u && run(u).Threw?
    ensures trace[0].errors.Some? ==> forall u :: u in trace[0].errors.value ==>
              Last(trace).errors.Some? && u in Last(trace).errors.value
    ensures Last(trace).errors.Some? <==> trace[0].errors.Some? || exists i :: 0 <= i < |ran| && run(ran[i]).Threw?
    decreases |ran|
  {
    if |ran| > 0 {
      var n := |ran| - 1;
      RunPrefix(c, trace, ran, run, n);
      RunRecordsFailures(c, trace[..n + 1], ran[..n], run);
      RunClaimsEachOnce(c, trace[..n + 1], ran[..n], run);
      var s, t, s' := trace[n], ran[n], trace[n + 1];
      assert Last(trace[..n + 1]) == s && Last(trace) == s';
      assert Step(c, s, t, run(t), s');
      assert t !in ran[..n];
      assert forall i :: 0 <= i < n ==> ran[..n][i] == ran[i];
      match run(t)
      case Returned =>
        assert s'.errors == s.errors;
      case Threw(err) =>
        assert s'.errors == Some(RecordError(s.errors, t, err));
    }
  }

  // ---------------------------------------------------------------------------
  // Dependencies

  /** Only the completion of `d` removes edges into `d`, for either
      completion rule. */
  lemma CompletesKeepsOtherEdges<T>(c: Completion, deps: map<T, seq<T>>, d: T, deps': map<T, seq<T>>, t: T, f: T)
    requires Completes(c, deps, d, deps')
    requires t in deps && f in deps[t] && f != d
    ensures t in deps' && f in deps'[t]
  {
    match c
    case StrikeFirstEdge =>
      DoneStepKeepsOtherEdges(deps, d, deps', t, f);
    case StrikeEveryEdge =>
      assert multiset(deps'[t])[f] == multiset(deps[t])[f];
      assert f in multiset(deps'[t]);
  }

  /** An edge t -> f survives every step until `f` has returned normally. */
  lemma {:induction false} EdgePersists<T, E>(c: Completion, trace: seq<State<T, E>>, ran: seq<T>, run: T -> TaskOutcome<E>, t: T, f: T, n: nat)
    requires Run(c, trace, ran, run) && n < |trace|
    requires t in trace[0].deps && f in trace[0].deps[t]
    ensures (forall i :: 0 <= i < n && ran[i] == f ==> run(f).Threw?) ==>
              t in trace[n].deps && f in trace[n].deps[t]
  {
    if n > 0 && forall i :: 0 <= i < n && ran[i] == f ==> run(f).Threw? {
      EdgePersists(c, trace, ran, run, t, f, n - 1);
      var s, x, s' := trace[n - 1], ran[n - 1], trace[n];
      assert Step(c, s, x, run(x), s');
      if run(x).Returned? {
        CompletesKeepsOtherEdges(c, s.deps, x, s'.deps, t, f);
      }
    }
  }

  /** A task is dispatched only after each of its dependencies has been
      dispatched and returned normally. */
  lemma DependenciesSucceedFirst<T, E>(c: Completion, trace: seq<State<T, E>>, ran: seq<T>, run: T -> TaskOutcome<E>, t: T, f: T, j: nat)
    requires Run(c, trace, ran, run)
    requires t in trace[0].deps && f in trace[0].deps[t]
    requires j < |ran| && ran[j] == t
    ensures exists i :: 0 <= i < j && ran[i] == f && run(f).Returned?
  {
    EdgePersists(c, trace, ran, run, t, f, j);
    assert Step(c, trace[j], t, run(t), trace[j + 1]);
  }

  /** In the dispatch order, a dependency comes before the task waiting on
      it. */
  lemma DependencyRunsEarlier<T, E>(c: Completion, trace: seq<State<T, E>>, ran: seq<T>, run: T -> TaskOutcome<E>, t: T, f: T, jt: nat, jf: nat)
    requires Run(c, trace, ran, run)
    requires t in trace[0].deps && f in trace[0].deps[t]
    requires jt < |ran| && ran[jt] == t && jf < |ran| && ran[jf] == f
    ensures jf < jt
  {
    DependenciesSucceedFirst(c, trace, ran, run, t, f, jt);
    var i :| 0 <= i < jt && ran[i] == f;
    RunClaimsEachOnce(c, trace, ran, run);
    DistinctPositions(ran);
  }

  /** A task waiting on a task that never returns normally (it fails, or it is
      never dispatched) is itself never dispatched, and is still blocked when
      the run ends. */
  lemma UnsucceededDependencyBlocks<T, E>(c: Completion, trace: seq<State<T, E>>, ran: seq<T>, run: T -> TaskOutcome<E>, t: T, f: T)
    requires Run(c, trace, ran, run)
    requires t in trace[0].deps && f in trace[0].deps[t]
    requires forall i :: 0 <= i < |ran| && ran[i] == f ==> run(f).Threw?
    ensures t !in ran
    ensures !Ready(Last(trace).deps, t)
  {
    EdgePersists(c, trace, ran, run, t, f, |ran|);
    forall j | 0 <= j < |ran|
      ensures ran[j] != t
    {
      EdgePersists(c, trace, ran, run, t, f, j);
      assert Step(c, trace[j], ran[j], run(ran[j]), trace[j + 1]);
    }
  }

  /** The failure of `chain[0]` starves its whole downstream chain: when
      chain[j] waits on chain[j-1] for every j, no task after chain[0] ever
      runs. */
  lemma {:induction false} FailureStarvesDownstream<T, E>(c: Completion, trace: seq<State<T, E>>, ran: seq<T>, run: T -> TaskOutcome<E>, chain: seq<T>)
    requires Run(c, trace, ran, run)
    requires |chain| > 0
    requires forall i :: 0 <= i < |ran| && ran[i] == chain[0] ==> run(chain[0]).Threw?
    requires forall j :: 0 < j < |chain| ==> chain[j] in trace[0].deps && chain[j - 1] in trace[0].deps[chain[j]]
    ensures forall j :: 0 < j < |chain| ==> chain[j] !in ran
    decreases |chain|
  {
    if |chain| > 1 {
      var n := |chain| - 1;
      FailureStarvesDownstream(c, trace, ran, run, chain[..n]);
      assert forall j :: 0 < j < n ==> chain[..n][j] == chain[j];
      UnsucceededDependencyBlocks(c, trace, ran, run, chain[n], chain[n - 1]);
    }
  }

  /** A pending task that waits on nothing at the start is dispatched by
      every run that drains the graph, whatever fails around it. */
  lemma IndependentTaskRuns<T, E>(c: Completion, trace: seq<State<T, E>>, ran: seq<T>, run: T -> TaskOutcome<E>, t: T)
    requires Run(c, trace, ran, run)
    requires !SomeReady(Last(trace).tasks, Last(trace).deps)
    requires t in trace[0].tasks && Ready(trace[0].deps, t)
    ensures t in ran
  {
    if t in Last(trace).deps && |Last(trace).deps[t]| > 0 {
      RunOnlyDeletes(c, trace, ran, run, 0, |ran|, t, Last(trace).deps[t][0]);
    }
    assert Ready(Last(trace).deps, t);
    RunClaimsEachOnce(c, trace, ran, run);
  }

  /** A set of pending tasks that is closed under the dependency edges, has
      no cycle (`rank` falls along its edges) and whose every dependency
      returns normally is dispatched in full by every run that drains the
      graph, whatever fails outside it. Under the single-edge removal this
      needs at most one incoming edge per task. */
  lemma {:induction false} UpstreamSucceedsThenRuns<T, E>(c: Completion, trace: seq<State<T, E>>, ran: seq<T>, run: T -> TaskOutcome<E>, up: set<T>, rank: T -> nat, x: T)
    requires Run(c, trace, ran, run)
    requires !SomeReady(Last(trace).tasks, Last(trace).deps)
    requires up <= trace[0].tasks
    requires forall k, f :: k in up && k in trace[0].deps && f in trace[0].deps[k] ==> f in up && rank(f) < rank(k) && run(f).Returned?
    requires c == StrikeFirstEdge ==> SingleIncoming(trace[0].deps)
    requires x in up
    ensures x in ran
    decreases rank(x)
  {
    var last := Last(trace);
    var left := DepsOf(last.deps, x);
    assert |left| > 0 ==> left[0] in left;
    // every dependency x started with has run and returned, taking its
    // edge with it, and no step adds an edge
    forall f
      ensures f !in left
    {
      RunOnlyDeletes(c, trace, ran, run, 0, |ran|, x, f);
      if x in trace[0].deps && f in trace[0].deps[x] {
        UpstreamSucceedsThenRuns(c, trace, ran, run, up, rank, f);
        var i :| 0 <= i < |ran| && ran[i] == f;
        SucceededTaskIsNoTarget(c, trace, ran, run, i, x);
      }
    }
    assert Ready(last.deps, x);
    RunClaimsEachOnce(c, trace, ran, run);
  }

  // ---------------------------------------------------------------------------
  // Completion of acyclic graphs

  /** The start of a run that must finish: every dependency is a pending
      task, `rank` shows there is no cycle, and, for the single-edge removal,
      no task has two incoming edges. */
  ghost predicate Schedulable<T, E>(c: Completion, s: State<T, E>, rank: T -> nat)
  {
    && Closed(s.tasks, s.deps)
    && Ranked(s.deps, rank)
    && (c == StrikeFirstEdge ==> SingleIncoming(s.deps))
  }

  /** Both completion rules only delete edges, and when it applies, they
      delete every edge into the finished task. */
  lemma CompletesShrinks<T>(c: Completion, deps: map<T, seq<T>>, d: T, deps': map<T, seq<T>>)
    requires Completes(c, deps, d, deps')
    requires c == StrikeFirstEdge ==> SingleIncoming(deps)
    ensures deps'.Keys == deps.Keys
    ensures forall k, x :: k in deps' && x in deps'[k] ==> x in deps[k]
    ensures !IsTarget(deps', d)
    ensures c == StrikeFirstEdge ==> SingleIncoming(deps')
  {
    CompletesOnlyDeletes(c, deps, d, deps');
    if c == StrikeFirstEdge {
      DoneStepClearsSingleIncoming(deps, d, deps');
    }
  }

  /** Either completion rule keeps every key and only deletes edges, whatever
      the shape of the graph. */
  lemma CompletesOnlyDeletes<T>(c: Completion, deps: map<T, seq<T>>, d: T, deps': map<T, seq<T>>)
    requires Completes(c, deps, d, deps')
    ensures deps'.Keys == deps.Keys
    ensures forall k, x :: k in deps' && x in deps'[k] ==> x in deps[k]
  {
    match c
    case StrikeFirstEdge =>
      DoneStepShrinks(deps, d, deps');
    case StrikeEveryEdge =>
      forall k, x | k in deps' && x in deps'[k]
        ensures x in deps[k]
      {
        assert x in multiset(deps'[k]);
      }
  }

  /** No step of a run adds an edge: an edge present at step `n` was already
      there at every earlier step `m`. */
  lemma {:induction false} RunOnlyDeletes<T, E>(c: Completion, trace: seq<State<T, E>>, ran: seq<T>, run: T -> TaskOutcome<E>, m: nat, n: nat, k: T, x: T)
    requires Run(c, trace, ran, run) && m <= n < |trace|
    ensures k in trace[n].deps && x in trace[n].deps[k] ==> k in trace[m].deps && x in trace[m].deps[k]
    decreases n
  {
    if m < n {
      RunOnlyDeletes(c, trace, ran, run, m, n - 1, k, x);
      var s, t, s' := trace[n - 1], ran[n - 1], trace[n];
      assert Step(c, s, t, run(t), s');
      if run(t).Returned? {
        CompletesOnlyDeletes(c, s.deps, t, s'.deps);
      }
    }
  }

  /** Under the single-edge removal, a graph with at most one incoming edge
      per task keeps that shape for the whole run, failures included. */
  lemma {:induction false} RunKeepsSingleIncoming<T, E>(c: Completion, trace: seq<State<T, E>>, ran: seq<T>, run: T -> TaskOutcome<E>, n: nat)
    requires Run(c, trace, ran, run) && n < |trace|
    requires c == StrikeFirstEdge ==> SingleIncoming(trace[0].deps)
    ensures c == StrikeFirstEdge ==> SingleIncoming(trace[n].deps)
  {
    if n > 0 && c == StrikeFirstEdge {
      RunKeepsSingleIncoming(c, trace, ran, run, n - 1);
      var s, t, s' := trace[n - 1], ran[n - 1], trace[n];
      assert Step(c, s, t, run(t), s');
      if run(t).Returned? {
        CompletesShrinks(c, s.deps, t, s'.deps);
      }
    }
  }

  /** Once a dispatched task has returned normally, no task waits on it any
      more when the run ends. */
  lemma SucceededTaskIsNoTarget<T, E>(c: Completion, trace: seq<State<T, E>>, ran: seq<T>, run: T -> TaskOutcome<E>, i: nat, k: T)
    requires Run(c, trace, ran, run)
    requires c == StrikeFirstEdge ==> SingleIncoming(trace[0].deps)
    requires i < |ran| && run(ran[i]).Returned?
    ensures !(k in Last(trace).deps && ran[i] in Last(trace).deps[k])
  {
    RunKeepsSingleIncoming(c, trace, ran, run, i);
    assert Step(c, trace[i], ran[i], run(ran[i]), trace[i + 1]);
    CompletesShrinks(c, trace[i].deps, ran[i], trace[i + 1].deps);
    RunOnlyDeletes(c, trace, ran, run, i + 1, |ran|, k, ran[i]);
  }

  /** One normally returning step keeps a graph schedulable and leaves the
      error map alone. */
  lemma StepKeepsSchedulable<T, E>(c: Completion, s: State<T, E>, t: T, o: TaskOutcome<E>, s': State<T, E>, rank: T -> nat)
    requires Step(c, s, t, o, s') && o.Returned?
    requires Schedulable(c, s, rank)
    ensures Schedulable(c, s', rank)
    ensures s'.errors == s.errors
  {
    assert Completes(c, s.deps, t, s'.deps);
    CompletesShrinks(c, s.deps, t, s'.deps);
    DeletingEdgesKeepsClosedRanked(s.tasks, s.deps, t, s'.deps, rank);
  }

  /** Deleting edges, among them every edge into `t`, keeps a closed ranked
      graph closed and ranked once `t` leaves the pending set. */
  lemma DeletingEdgesKeepsClosedRanked<T>(tasks: set<T>, deps: map<T, seq<T>>, t: T, deps': map<T, seq<T>>, rank: T -> nat)
    requires Closed(tasks, deps) && Ranked(deps, rank)
    requires deps'.Keys == deps.Keys
    requires forall k, x :: k in deps' && x in deps'[k] ==> x in deps[k]
    requires !IsTarget(deps', t)
    ensures Closed(tasks - {t}, deps') && Ranked(deps', rank)
  {
    forall k, x | k in deps' && x in deps'[k]
      ensures x in tasks - {t} && rank(x) < rank(k)
    {
      assert x in deps[k] && x != t;
    }
  }

  /** When every dispatched task returns normally, a schedulable graph stays
      schedulable and the error map is never touched. */
  lemma {:induction false} SchedulablePreserved<T, E>(c: Completion, trace: seq<State<T, E>>, ran: seq<T>, run: T -> TaskOutcome<E>, rank: T -> nat, n: nat)
    requires Run(c, trace, ran, run) && n < |trace|
    requires Schedulable(c, trace[0], rank)
    requires forall i :: 0 <= i < |ran| ==> run(ran[i]).Returned?
    ensures Schedulable(c, trace[n], rank)
    ensures trace[n].errors == trace[0].errors
  {
    if n > 0 {
      SchedulablePreserved(c, trace, ran, run, rank, n - 1);
      var t := ran[n - 1];
      assert Step(c, trace[n - 1], t, run(t), trace[n]);
      StepKeepsSchedulable(c, trace[n - 1], t, run(t), trace[n], rank);
    }
  }

  /** A run that stops only when no task is ready, on a schedulable graph
      whose tasks all return normally, dispatches every task exactly once and
      ends with nothing pending (COMPLETED_ALL_TASKS) and no new errors. */
  lemma CompletesAcyclicGraph<T, E>(c: Completion, trace: seq<State<T, E>>, ran: seq<T>, run: T -> TaskOutcome<E>, rank: T -> nat)
    requires Run(c, trace, ran, run)
    requires !SomeReady(Last(trace).tasks, Last(trace).deps)
    requires Schedulable(c, trace[0], rank)
    requires forall i :: 0 <= i < |ran| ==> run(ran[i]).Returned?
    ensures Last(trace).tasks == {}
    ensures Last(trace).errors == trace[0].errors
    ensures Distinct(ran) && forall t :: t in ran <==> t in trace[0].tasks
  {
    SchedulablePreserved(c, trace, ran, run, rank, |ran|);
    AcyclicHasReady(Last(trace).tasks, Last(trace).deps, rank);
    RunClaimsEachOnce(c, trace, ran, run);
  }

  // ---------------------------------------------------------------------------
  // Fan-out under the single-edge removal

  /** Two tasks `a` and `b` that both wait on `d` alone: with notifyDone as
      written the run dispatches `d` first and then strands one of `a` and
      `b` behind an edge nothing will remove, so the graph never empties. */
  lemma FanOutStrandsADependent<T, E>(trace: seq<State<T, E>>, ran: seq<T>, run: T -> TaskOutcome<E>, a: T, b: T, d: T)
    requires Run(StrikeFirstEdge, trace, ran, run)
    requires !SomeReady(Last(trace).tasks, Last(trace).deps)
    requires a != b && a != d && b != d
    requires trace[0].tasks == {d, a, b} && trace[0].deps == map[a := [d], b := [d]]
    requires run(d).Returned?
    ensures |ran| > 0 && ran[0] == d
    ensures a in Last(trace).tasks || b in Last(trace).tasks
  {
    FanOutRunsSourceFirst(trace, ran, run, a, b, d);
    var deps0, deps1 := trace[0].deps, trace[1].deps;
    OneEdgeRemovalKeepsADependentBlocked(a, b, d, deps1);
    DoneStepShrinks(deps0, d, deps1);
    var x := if Ready(deps1, a) then b else a;
    assert x in deps1 && |deps1[x]| > 0;
    assert deps1[x][0] in deps0[x];
    StrandedStaysPending(trace, ran, run, x, d);
  }

  /** In the fan-out only `d` is ready, so the run, which cannot stop while
      `d` is ready, dispatches `d` first. */
  lemma FanOutRunsSourceFirst<T, E>(trace: seq<State<T, E>>, ran: seq<T>, run: T -> TaskOutcome<E>, a: T, b: T, d: T)
    requires Run(StrikeFirstEdge, trace, ran, run)
    requires !SomeReady(Last(trace).tasks, Last(trace).deps)
    requires a != b && a != d && b != d
    requires trace[0].tasks == {d, a, b} && trace[0].deps == map[a := [d], b := [d]]
    requires run(d).Returned?
    ensures |ran| > 0 && ran[0] == d
    ensures trace[1].tasks == {a, b} && DoneStep(trace[0].deps, d, trace[1].deps)
  {
    assert d in trace[0].tasks && Ready(trace[0].deps, d);
    assert |ran| > 0;
    assert Step(StrikeFirstEdge, trace[0], ran[0], run(ran[0]), trace[1]);
  }

  /** A task still waiting on `d` after the first step, where `d` ran, is
      never dispatched: `d` does not run again. */
  lemma StrandedStaysPending<T, E>(trace: seq<State<T, E>>, ran: seq<T>, run: T -> TaskOutcome<E>, x: T, d: T)
    requires Run(StrikeFirstEdge, trace, ran, run)
    requires |ran| > 0 && ran[0] == d && d !in trace[1].tasks
    requires x in trace[1].tasks && x in trace[1].deps && d in trace[1].deps[x]
    ensures x in Last(trace).tasks
  {
    RunSuffix(StrikeFirstEdge, trace, ran, run, 1);
    RunClaimsEachOnce(StrikeFirstEdge, trace[1..], ran[1..], run);
    assert d !in ran[1..];
    UnsucceededDependencyBlocks(StrikeFirstEdge, trace[1..], ran[1..], run, x, d);
  }
}
