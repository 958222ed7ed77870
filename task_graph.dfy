/**
  The value-level vocabulary of the task graph, shared by both copies of the
  DAG class: readiness of a task, the dependency lists that completion edits,
  the error map that failures fill in, and the readiness scan itself.

  A dependency map sends a task to the list of tasks it still waits on; a task
  without an entry waits on nothing, exactly like a task mapped to [].
*/
module TaskGraph {
  import opened Wrappers

  /** Three-way result of DAG.status(). */
  datatype Status = CompletedAllTasks | Errors | InvalidDependencies

  /** Result of verifyValidGraph(): success, or the
      DependencyDoesNotExistException naming the dependency that is no task. */
  datatype Validation<T> = ValidGraph | DependencyDoesNotExist(dependency: T)

  /** The dependency list of `t`, empty when `t` has no entry. */
  function DepsOf<T>(deps: map<T, seq<T>>, t: T): seq<T>
  {
    if t in deps then deps[t] else []
  }

  /** A task is ready when it has no dependency entry or an empty one. */
  predicate Ready<T>(deps: map<T, seq<T>>, t: T)
  {
    t in deps ==> |deps[t]| == 0
  }

  /** Some pending task is ready to run. */
  ghost predicate SomeReady<T>(tasks: set<T>, deps: map<T, seq<T>>)
  {
    exists t :: t in tasks && Ready(deps, t)
  }

  /** `d` is the target of at least one dependency edge. */
  ghost predicate IsTarget<T>(deps: map<T, seq<T>>, d: T)
  {
    exists k :: k in deps && d in deps[k]
  }

  /** Every dependency target is itself a pending task. */
  ghost predicate Closed<T>(tasks: set<T>, deps: map<T, seq<T>>)
  {
    forall k, d :: k in deps && d in deps[k] ==> d in tasks
  }

  /** No element occurs twice. */
  ghost predicate Distinct<T>(s: seq<T>)
  {
    forall x :: x in s ==> multiset(s)[x] == 1
  }

  /** Appending an element that is not there yet keeps a sequence without
      repetitions. */
  lemma AppendFreshKeepsDistinct<T>(s: seq<T>, x: T)
    requires Distinct(s) && x !in s
    ensures Distinct(s + [x])
  {
    forall y | y in s + [x]
      ensures multiset(s + [x])[y] == 1
    {
      assert multiset(s + [x]) == multiset(s) + multiset{x};
    }
  }

  /** In a sequence without repetitions, different positions hold different
      elements. */
  lemma DistinctPositions<T>(s: seq<T>)
    requires Distinct(s)
    ensures forall i, j :: 0 <= i < j < |s| ==> s[i] != s[j]
  {
    forall i, j | 0 <= i < j < |s|
      ensures s[i] != s[j]
    {
      assert s == s[..j] + s[j..];
      assert s[..j][i] == s[i] && s[j..][0] == s[j];
      assert multiset(s) == multiset(s[..j]) + multiset(s[j..]);
      assert s[i] in multiset(s[..j]) && s[j] in multiset(s[j..]);
      assert s[j] in s;
    }
  }

  /** `s` lists the elements of `xs`, each exactly once. */
  ghost predicate Enumerates<T>(s: seq<T>, xs: set<T>)
  {
    && |s| == |xs|
    && (forall x :: x in s ==> x in xs)
    && (forall x :: x in xs ==> x in s)
  }

  /** The map after appending `added` to the list of `k` (no entry is created
      when nothing is appended). */
  function Appended<T>(deps: map<T, seq<T>>, k: T, added: seq<T>): map<T, seq<T>>
  {
    if added == [] then deps else deps[k := DepsOf(deps, k) + added]
  }

  /** Position of the first occurrence of `x` in `s`. */
  function FirstIndex<T(==)>(s: seq<T>, x: T): (i: nat)
    requires x in s
    ensures i < |s| && s[i] == x && x !in s[..i]
  {
    if s[0] == x then 0 else 1 + FirstIndex(s[1..], x)
  }

  /** `s` with its first occurrence of `x` removed, as List.remove(Object) does;
      `s` itself when `x` does not occur. */
  function RemoveFirst<T(==)>(s: seq<T>, x: T): (r: seq<T>)
    ensures x !in s ==> r == s
    ensures x in s ==> |r| == |s| - 1 && multiset(r) == multiset(s) - multiset{x}
    ensures x in s ==> exists i :: 0 <= i < |s| && s[i] == x && x !in s[..i] && r == s[..i] + s[i + 1..]
  {
    if x in s then
      var i := FirstIndex(s, x);
      assert s == s[..i] + [s[i]] + s[i + 1..];
      s[..i] + s[i + 1..]
    else
      s
  }

  /** The effect of DAG.notifyDone(d) as written: `values().remove(d)` walks
      the entries in the map's own (unspecified) order and deletes the first
      occurrence of `d` it meets, so exactly one edge into `d` disappears, from
      the list of some task that has one, and nothing changes when `d` is no
      task's dependency. */
  ghost predicate DoneStep<T>(deps: map<T, seq<T>>, d: T, deps': map<T, seq<T>>)
  {
    if IsTarget(deps, d) then
      exists k :: k in deps && d in deps[k] && deps' == deps[k := RemoveFirst(deps[k], d)]
    else
      deps' == deps
  }

  /** `s` without any occurrence of `x`. */
  function RemoveAll<T(==)>(s: seq<T>, x: T): (r: seq<T>)
    ensures x !in r
    ensures multiset(r) <= multiset(s)
    ensures forall y :: y in s && y != x ==> multiset(r)[y] == multiset(s)[y]
  {
    if s == [] then []
    else
      assert s == [s[0]] + s[1..];
      (if s[0] == x then [] else [s[0]]) + RemoveAll(s[1..], x)
  }

  /** The intended effect of notifyDone(d): strike `d` from every dependency
      list, leaving every other edge in place. */
  function StrikeAll<T(==)>(deps: map<T, seq<T>>, d: T): (r: map<T, seq<T>>)
    ensures r.Keys == deps.Keys
    ensures !IsTarget(r, d)
    ensures forall k :: k in deps ==> multiset(r[k]) <= multiset(deps[k])
    ensures forall k, y :: k in deps && y in deps[k] && y != d ==> multiset(r[k])[y] == multiset(deps[k])[y]
  {
    map k | k in deps :: RemoveAll(deps[k], d)
  }

  /** The error map after recording that `t` failed with `err`, creating the
      map when there is none yet. */
  function RecordError<T(==), E>(errors: Option<map<T, E>>, t: T, err: E): (m: map<T, E>)
    ensures t in m && m[t] == err
    ensures errors.None? ==> m.Keys == {t}
    ensures errors.Some? ==> m.Keys == errors.value.Keys + {t}
    ensures errors.Some? ==> forall u :: u in errors.value && u != t ==> m[u] == errors.value[u]
  {
    match errors
    case None => map[t := err]
    case Some(m0) => m0[t := err]
  }

  /** The readiness scan of peekNextRunnableTask(): walk the pending set in
      some order and return the first task whose dependency list is absent or
      empty. Which ready task comes back is not specified. */
  method ScanReady<T(==)>(tasks: set<T>, deps: map<T, seq<T>>) returns (r: Option<T>)
    ensures r.Some? ==> r.value in tasks && Ready(deps, r.value)
    ensures r.None? <==> !SomeReady(tasks, deps)
  {
    var rest := tasks;
    while rest != {}
      invariant rest <= tasks
      invariant forall t :: t in tasks && t !in rest ==> !Ready(deps, t)
      decreases rest
    {
      var t :| t in rest;
      if t in deps {
        var v := deps[t];
        if |v| == 0 {
          return Some(t);
        }
      } else {
        return Some(t);
      }
      rest := rest - {t};
    }
    return None;
  }

  // ---------------------------------------------------------------------------
  // Properties of one completion step

  /** When exactly one list holds `d`, notifyDone as written removes the first
      occurrence of `d` from that list and changes nothing else. */
  lemma DoneStepSoleHolder<T>(deps: map<T, seq<T>>, d: T, k: T, deps': map<T, seq<T>>)
    requires k in deps && d in deps[k]
    requires forall j :: j in deps && j != k ==> d !in deps[j]
    requires DoneStep(deps, d, deps')
    ensures deps' == deps[k := RemoveFirst(deps[k], d)]
  {
  }

  /** One completion step as written removes at most one edge, and that edge
      points at the finished task; keys never disappear. */
  lemma DoneStepRemovesAtMostOneEdge<T>(deps: map<T, seq<T>>, d: T, deps': map<T, seq<T>>)
    requires DoneStep(deps, d, deps')
    ensures deps'.Keys == deps.Keys
    ensures !IsTarget(deps, d) ==> deps' == deps
    ensures forall k :: k in deps && deps'[k] != deps[k] ==>
              d in deps[k] && multiset(deps'[k]) == multiset(deps[k]) - multiset{d}
    ensures forall k1, k2 :: k1 in deps && k2 in deps && deps'[k1] != deps[k1] && deps'[k2] != deps[k2] ==> k1 == k2
  {
    if IsTarget(deps, d) {
      var k :| k in deps && d in deps[k] && deps' == deps[k := RemoveFirst(deps[k], d)];
      assert forall j :: j in deps && j != k ==> deps'[j] == deps[j];
    }
  }

  /** Completion as written never creates an edge: every edge afterwards was
      there before, and no list grows. */
  lemma DoneStepShrinks<T>(deps: map<T, seq<T>>, d: T, deps': map<T, seq<T>>)
    requires DoneStep(deps, d, deps')
    ensures deps'.Keys == deps.Keys
    ensures forall k :: k in deps ==> multiset(deps'[k]) <= multiset(deps[k])
    ensures forall k, x :: k in deps' && x in deps'[k] ==> x in deps[k]
  {
    DoneStepRemovesAtMostOneEdge(deps, d, deps');
    if IsTarget(deps, d) {
      var k :| k in deps && d in deps[k] && deps' == deps[k := RemoveFirst(deps[k], d)];
      forall j | j in deps
        ensures multiset(deps'[j]) <= multiset(deps[j])
      {
        if j != k {
          assert deps'[j] == deps[j];
        }
      }
      forall j, x | j in deps' && x in deps'[j]
        ensures x in deps[j]
      {
        assert x in multiset(deps'[j]);
      }
    }
  }

  /** Completion of `d` as written leaves every edge into another task alone. */
  lemma DoneStepKeepsOtherEdges<T>(deps: map<T, seq<T>>, d: T, deps': map<T, seq<T>>, t: T, f: T)
    requires DoneStep(deps, d, deps')
    requires t in deps && f in deps[t] && f != d
    ensures t in deps' && f in deps'[t]
  {
    DoneStepRemovesAtMostOneEdge(deps, d, deps');
    if deps'[t] != deps[t] {
      assert f in multiset(deps[t]);
      assert multiset(deps'[t])[f] == multiset(deps[t])[f];
      assert f in multiset(deps'[t]);
    }
  }

  /** Every dependency list has no repeats and every task is the target of
      edges from at most one task: each task has at most one incoming edge. */
  ghost predicate SingleIncoming<T>(deps: map<T, seq<T>>)
  {
    && (forall k :: k in deps ==> Distinct(deps[k]))
    && (forall k1, k2, x :: k1 in deps && k2 in deps && x in deps[k1] && x in deps[k2] ==> k1 == k2)
  }

  /** When each task has at most one incoming edge, the single-edge removal
      of notifyDone does strike the finished task everywhere, and the graph
      keeps that shape. */
  lemma DoneStepClearsSingleIncoming<T>(deps: map<T, seq<T>>, d: T, deps': map<T, seq<T>>)
    requires DoneStep(deps, d, deps') && SingleIncoming(deps)
    ensures !IsTarget(deps', d)
    ensures SingleIncoming(deps')
  {
    DoneStepShrinks(deps, d, deps');
    DoneStepClearsSoleEdge(deps, d, deps');
    forall k | k in deps'
      ensures Distinct(deps'[k])
    {
      forall x ensures multiset(deps'[k])[x] <= 1 {
        assert multiset(deps'[k])[x] <= multiset(deps[k])[x];
      }
    }
  }

  /** With one incoming edge per task, removing one edge into `d` removes the
      only one. */
  lemma DoneStepClearsSoleEdge<T>(deps: map<T, seq<T>>, d: T, deps': map<T, seq<T>>)
    requires DoneStep(deps, d, deps') && SingleIncoming(deps)
    ensures !IsTarget(deps', d)
  {
    if IsTarget(deps, d) {
      var k :| k in deps && d in deps[k] && deps' == deps[k := RemoveFirst(deps[k], d)];
      assert multiset(deps[k])[d] == 1;
      assert multiset(deps'[k])[d] == 0;
      forall j | j in deps'
        ensures d !in deps'[j]
      {
        if j != k {
          assert deps'[j] == deps[j];
        }
      }
    }
  }

  /** The input that shows the single-edge removal is not what the comment on
      notifyDone describes: with two tasks waiting on `d`, finishing `d`
      releases only one of them, whichever edge the map's order reaches first. */
  lemma OneEdgeRemovalKeepsADependentBlocked<T>(a: T, b: T, d: T, deps': map<T, seq<T>>)
    requires a != b
    requires DoneStep(map[a := [d], b := [d]], d, deps')
    ensures Ready(deps', a) != Ready(deps', b)
  {
    var deps := map[a := [d], b := [d]];
    assert d in deps[a];
    var k :| k in deps && d in deps[k] && deps' == deps[k := RemoveFirst(deps[k], d)];
    assert RemoveFirst([d], d) == [];
  }

  /** With the intended removal from every list, finishing `d` releases every
      task that waited only on `d`. */
  lemma StrikeAllReleasesEveryDependent<T>(a: T, b: T, d: T)
    ensures Ready(StrikeAll(map[a := [d], b := [d]], d), a)
    ensures Ready(StrikeAll(map[a := [d], b := [d]], d), b)
  {
    var r := StrikeAll(map[a := [d], b := [d]], d);
    forall k | k in r
      ensures |r[k]| == 0
    {
      assert multiset(r[k]) <= multiset{d};
      assert d !in multiset(r[k]);
      assert multiset(r[k]) == multiset{};
    }
  }

  // ---------------------------------------------------------------------------
  // Acyclic graphs always have a ready task

  /** `rank` strictly decreases along every dependency edge: the edges form no
      cycle. */
  ghost predicate Ranked<T>(deps: map<T, seq<T>>, rank: T -> nat)
  {
    forall k, x :: k in deps && x in deps[k] ==> rank(x) < rank(k)
  }

  /** A non-empty finite set has an element of least rank. */
  lemma {:induction false} LeastRanked<T>(s: set<T>, rank: T -> nat) returns (m: T)
    requires s != {}
    ensures m in s && forall y :: y in s ==> rank(m) <= rank(y)
    decreases |s|
  {
    var x :| x in s;
    if s == {x} {
      m := x;
    } else {
      var m' := LeastRanked(s - {x}, rank);
      m := if rank(x) < rank(m') then x else m';
    }
  }

  /** A non-empty acyclic graph whose dependencies are all pending tasks has a
      ready task: a stalled scan with tasks left means a cycle or a dependency
      on a task that is not pending. */
  lemma AcyclicHasReady<T>(tasks: set<T>, deps: map<T, seq<T>>, rank: T -> nat)
    requires Closed(tasks, deps) && Ranked(deps, rank)
    ensures tasks == {} || SomeReady(tasks, deps)
  {
    if tasks != {} {
      var m := LeastRanked(tasks, rank);
      var waits := DepsOf(deps, m);
      assert |waits| > 0 ==> waits[0] in waits;
      // every dependency of m would be a pending task of smaller rank
      assert forall x :: m in deps && x in deps[m] ==> x in tasks && rank(x) < rank(m) <= rank(x);
    }
  }
}
