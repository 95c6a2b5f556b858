/** The priority-weighted Kahn's algorithm: build the graph, seed the ready
    pool with the tasks of in-degree 0, then repeatedly emit the front of the
    pool, release its dependents and re-sort the pool by effective deadline.
    A run that empties the pool before every task is emitted fails. */
module Kahn {
  import opened Wrappers
  import opened Tasks
  import opened TaskOrder
  import opened DependencyGraph
  import opened KahnSteps
  import opened KeySort
  import opened Cycles

  /** The one way the ordering pass fails. */
  datatype SortError = CyclicDependency

  /** Appending a task adds its id. */
  lemma IdsSnoc(s: seq<Task>, t: Task)
    ensures Ids(s + [t]) == Ids(s) + {t.id}
  {
    assert forall x :: x in s + [t] <==> x in s || x == t;
  }

  /** The lookup table from id to task; a later task overwrites an earlier
      one with the same id, as a dictionary built in input order does. */
  function TaskMap(tasks: seq<Task>): (m: map<int, Task>)
    ensures m.Keys == Ids(tasks)
    ensures forall id :: id in m ==> m[id] in tasks && m[id].id == id
  {
    if tasks == [] then map[]
    else
      var front, last := tasks[..|tasks| - 1], tasks[|tasks| - 1];
      assert tasks == front + [last];
      IdsSnoc(front, last);
      TaskMap(front)[last.id := last]
  }

  /** With unique ids the table finds every input task under its own id. */
  lemma TaskMapFinds(tasks: seq<Task>, t: Task)
    requires UniqueIds(tasks) && t in tasks
    ensures t.id in TaskMap(tasks) && TaskMap(tasks)[t.id] == t
  {
    assert t.id in Ids(tasks);
    UniqueIdsSameTask(tasks);
  }

  /** For every input id, how many of that task's dependencies on input
      tasks are still waiting once `done` has been emitted. */
  ghost function PendingMap(tasks: seq<Task>, done: seq<Task>): (m: map<int, int>)
    ensures m.Keys == Ids(tasks)
  {
    map y | y in Ids(tasks) :: Pending(TaskMap(tasks)[y].dependencies, Ids(tasks), Ids(done))
  }

  /** The emitted list so far: input tasks, none twice, each the greedy
      choice at the step it was emitted. */
  ghost predicate Emitted(tasks: seq<Task>, alpha: real, done: seq<Task>)
  {
    multiset(done) <= multiset(tasks) &&
    forall k {:trigger GreedyStep(tasks, alpha, done[..k], done[k])} :: 0 <= k < |done| ==> GreedyStep(tasks, alpha, done[..k], done[k])
  }

  /** The in-degree table: for every input task, the number of its
      dependency entries that name input tasks not emitted yet. */
  ghost predicate Degrees(tasks: seq<Task>, inDegree: map<int, int>, done: seq<Task>)
  {
    inDegree.Keys == Ids(tasks) &&
    forall t :: t in tasks ==> inDegree[t.id] == Pending(t.dependencies, Ids(tasks), Ids(done))
  }

  /** The ready pool: exactly the ready tasks, each once, in the order in
      which they will be taken. */
  ghost predicate PoolOrdered(tasks: seq<Task>, alpha: real, done: seq<Task>, pool: seq<Task>)
  {
    UniqueIds(pool) &&
    (forall x :: x in pool ==> Ready(tasks, done, x)) &&
    (forall x :: x in tasks && Ready(tasks, done, x) ==> x in pool) &&
    (forall i, j :: 0 <= i < j < |pool| ==> RankBefore(tasks, alpha, done, pool[i], pool[j]))
  }

  /** A sub-multiset is no larger. */
  lemma SubMultisetSize(a: multiset<Task>, b: multiset<Task>)
    requires a <= b
    ensures |a| <= |b|
  {
    assert b == a + (b - a);
  }

  /** An input task that has not been emitted shares its id with no emitted task. */
  lemma NotEmittedId(tasks: seq<Task>, done: seq<Task>, c: Task)
    requires UniqueIds(tasks) && multiset(done) <= multiset(tasks)
    requires c in tasks && c !in done
    ensures c.id !in Ids(done)
  {
    UniqueIdsSameTask(tasks);
    forall m | m in done ensures m.id != c.id {
      assert m in multiset(tasks);
    }
  }

  /** The front of the pool is the greedy choice. */
  lemma FrontIsGreedy(tasks: seq<Task>, alpha: real, done: seq<Task>, pool: seq<Task>)
    requires PoolOrdered(tasks, alpha, done, pool) && pool != []
    ensures GreedyStep(tasks, alpha, done, pool[0])
  {
    assert pool[0] in pool;
    forall t | t in tasks && Ready(tasks, done, t) && t != pool[0]
      ensures RankBefore(tasks, alpha, done, pool[0], t)
    {
      var j :| 0 <= j < |pool| && pool[j] == t;
    }
  }

  /** Emitting the greedy choice extends the emitted list. */
  lemma EmittedSnoc(tasks: seq<Task>, alpha: real, done: seq<Task>, c: Task)
    requires UniqueIds(tasks) && Emitted(tasks, alpha, done) && GreedyStep(tasks, alpha, done, c)
    ensures Emitted(tasks, alpha, done + [c])
  {
    var done' := done + [c];
    UniqueIdsCount(tasks);
    assert multiset(done') == multiset(done) + multiset{c};
    assert multiset(done)[c] == 0;
    forall k | 0 <= k < |done'| ensures GreedyStep(tasks, alpha, done'[..k], done'[k]) {
      if k < |done| {
        assert done'[..k] == done[..k] && done'[k] == done[k];
      } else {
        assert done'[..k] == done;
      }
    }
  }

  /** Before the release loop, each in-degree is the count still pending
      after `c` is emitted plus the entries of the adjacency list of `c`
      that name it. */
  lemma ReleaseReady(tasks: seq<Task>, done: seq<Task>, c: Task, inDegree: map<int, int>)
    requires UniqueIds(tasks) && Degrees(tasks, inDegree, done)
    requires c in tasks && c.id !in Ids(done)
    ensures inDegree.Keys == PendingMap(tasks, done + [c]).Keys
    ensures forall y :: y in inDegree ==>
      inDegree[y] == PendingMap(tasks, done + [c])[y] + multiset(Dependents(tasks, c.id))[y]
  {
    var ids, pending := Ids(tasks), PendingMap(tasks, done + [c]);
    IdsSnoc(done, c);
    assert c.id in ids by { assert c in tasks; }
    forall y | y in inDegree
      ensures inDegree[y] == pending[y] + multiset(Dependents(tasks, c.id))[y]
    {
      var x := TaskMap(tasks)[y];
      TaskMapFinds(tasks, x);
      PendingRelease(x.dependencies, ids, Ids(done), c.id);
      DependentsCount(tasks, c.id, x);
    }
  }

  /** Every entry of the adjacency list of `c` is a key of the table and of
      the pending counts. */
  lemma DependentsKeys(tasks: seq<Task>, done: seq<Task>, c: Task)
    ensures forall i :: 0 <= i < |Dependents(tasks, c.id)| ==>
      Dependents(tasks, c.id)[i] in TaskMap(tasks) && Dependents(tasks, c.id)[i] in PendingMap(tasks, done + [c])
  {
    DependentsAreInputIds(tasks, c.id);
  }

  /** Every released task is an input task that depends on `c` and has
      nothing pending any more. */
  lemma ReleasedOnlyReady(tasks: seq<Task>, done: seq<Task>, c: Task, released: seq<Task>)
    requires UniqueIds(tasks)
    requires forall i :: 0 <= i < |Dependents(tasks, c.id)| ==>
      Dependents(tasks, c.id)[i] in TaskMap(tasks) && Dependents(tasks, c.id)[i] in PendingMap(tasks, done + [c])
    requires released == Released(TaskMap(tasks), PendingMap(tasks, done + [c]), Dependents(tasks, c.id), |Dependents(tasks, c.id)|)
    ensures forall x :: x in released ==>
      x in tasks && c.id in x.dependencies && Pending(x.dependencies, Ids(tasks), Ids(done + [c])) == 0
  {
    var taskMap, pending, deps := TaskMap(tasks), PendingMap(tasks, done + [c]), Dependents(tasks, c.id);
    var n := |deps|;
    assert deps[..n] == deps;
    ReleasedSound(taskMap, pending, deps, n);
    forall x | x in released
      ensures x in tasks && c.id in x.dependencies && Pending(x.dependencies, Ids(tasks), Ids(done + [c])) == 0
    {
      assert x.id in taskMap && taskMap[x.id] == x;
      DependentsCount(tasks, c.id, x);
      assert multiset(deps)[x.id] > 0;
    }
  }

  /** Every input task that depends on `c` and has nothing pending any more
      is released. */
  lemma ReleasedAllReady(tasks: seq<Task>, done: seq<Task>, c: Task, released: seq<Task>)
    requires UniqueIds(tasks)
    requires forall i :: 0 <= i < |Dependents(tasks, c.id)| ==>
      Dependents(tasks, c.id)[i] in TaskMap(tasks) && Dependents(tasks, c.id)[i] in PendingMap(tasks, done + [c])
    requires released == Released(TaskMap(tasks), PendingMap(tasks, done + [c]), Dependents(tasks, c.id), |Dependents(tasks, c.id)|)
    ensures forall x :: x in tasks && c.id in x.dependencies && Pending(x.dependencies, Ids(tasks), Ids(done + [c])) == 0 ==>
      x in released
  {
    var taskMap, pending, deps := TaskMap(tasks), PendingMap(tasks, done + [c]), Dependents(tasks, c.id);
    var n := |deps|;
    assert deps[..n] == deps;
    ReleasedComplete(taskMap, pending, deps, n);
    forall x | x in tasks && c.id in x.dependencies && Pending(x.dependencies, Ids(tasks), Ids(done + [c])) == 0
      ensures x in released
    {
      DependentsCount(tasks, c.id, x);
      TaskMapFinds(tasks, x);
      assert multiset(x.dependencies)[c.id] > 0;
      assert x.id in multiset(deps);
      assert pending[x.id] == 0;
    }
  }

  /** Released tasks come in input order. */
  lemma ReleasedOrder(tasks: seq<Task>, done: seq<Task>, c: Task, released: seq<Task>)
    requires UniqueIds(tasks)
    requires forall i :: 0 <= i < |Dependents(tasks, c.id)| ==>
      Dependents(tasks, c.id)[i] in TaskMap(tasks) && Dependents(tasks, c.id)[i] in PendingMap(tasks, done + [c])
    requires released == Released(TaskMap(tasks), PendingMap(tasks, done + [c]), Dependents(tasks, c.id), |Dependents(tasks, c.id)|)
    ensures InInputOrder(tasks, released)
  {
    var taskMap, pending, deps := TaskMap(tasks), PendingMap(tasks, done + [c]), Dependents(tasks, c.id);
    var n := |deps|;
    DependentsAreInputIds(tasks, c.id);
    forall i | 0 <= i < n ensures IndexOfId(tasks, deps[i]) < |tasks| {
      assert deps[i] in deps;
      IndexOfIdFound(tasks, deps[i]);
    }
    DependentsInInputOrder(tasks, c.id);
    ReleasedInOrder(tasks, taskMap, pending, deps, n);
  }

  /** A task that does not depend on the emitted task entered the pool at
      the same step as before. */
  lemma ReadySinceUnchanged(done: seq<Task>, c: Task, x: Task)
    requires c.id !in x.dependencies
    ensures ReadySince(done + [c], x) == ReadySince(done, x)
  {
    assert (done + [c])[..|done|] == done;
  }

  /** A ready task does not depend on an input task that is not emitted. */
  lemma ReadyIndependent(tasks: seq<Task>, done: seq<Task>, x: Task, d: int)
    requires Ready(tasks, done, x) && d in Ids(tasks) && d !in Ids(done)
    ensures d !in x.dependencies
  {
  }

  /** The tasks left in the pool after its front `c` is taken are ready
      after `c` is emitted, and none of them depends on `c`. */
  lemma RestStaysReady(tasks: seq<Task>, alpha: real, done: seq<Task>, pool: seq<Task>)
    requires UniqueIds(tasks) && Emitted(tasks, alpha, done) && PoolOrdered(tasks, alpha, done, pool) && pool != []
    ensures forall x :: x in pool[1..] ==> pool[0].id !in x.dependencies && Ready(tasks, done + [pool[0]], x)
  {
    var c := pool[0];
    assert c in pool;
    NotEmittedId(tasks, done, c);
    IdsSnoc(done, c);
    assert c.id in Ids(tasks) by { assert c in tasks; }
    forall x | x in pool[1..] ensures c.id !in x.dependencies && Ready(tasks, done + [c], x) {
      var k :| 1 <= k < |pool| && pool[k] == x;
      assert pool[k] in pool;
      assert pool[k].id != pool[0].id;
      ReadyIndependent(tasks, done, x, c.id);
    }
  }

  /** A task that depends on the emitted `c` and has nothing pending is
      ready after `c`. */
  lemma ReleasedIsReady(tasks: seq<Task>, alpha: real, done: seq<Task>, c: Task, x: Task)
    requires UniqueIds(tasks) && Emitted(tasks, alpha, done) && Ready(tasks, done, c)
    requires x in tasks && c.id in x.dependencies && Pending(x.dependencies, Ids(tasks), Ids(done + [c])) == 0
    ensures Ready(tasks, done + [c], x)
  {
    NotEmittedId(tasks, done, c);
    assert c.id in Ids(tasks) by { assert c in tasks; }
    PendingZero(x.dependencies, Ids(tasks), Ids(done + [c]));
    ReadyIndependent(tasks, done, c, c.id);
    EmittedIndependent(tasks, alpha, done, c.id);
  }

  /** No emitted task depends on an input task that is not emitted. */
  lemma EmittedIndependent(tasks: seq<Task>, alpha: real, done: seq<Task>, d: int)
    requires Emitted(tasks, alpha, done) && d in Ids(tasks) && d !in Ids(done)
    ensures forall x :: x in done ==> d !in x.dependencies
  {
    forall x | x in done ensures d !in x.dependencies {
      var k :| 0 <= k < |done| && done[k] == x;
      assert GreedyStep(tasks, alpha, done[..k], done[k]);
      assert Ids(done[..k]) <= Ids(done) by {
        forall m | m in done[..k] ensures m in done { }
      }
      ReadyIndependent(tasks, done[..k], x, d);
    }
  }

  /** A task ready after `c` is emitted either was ready before and so sits
      behind `c` in the pool, or depends on `c`. */
  lemma ReadyAfterFront(tasks: seq<Task>, alpha: real, done: seq<Task>, pool: seq<Task>, x: Task)
    requires UniqueIds(tasks) && Emitted(tasks, alpha, done) && PoolOrdered(tasks, alpha, done, pool) && pool != []
    requires Ready(tasks, done + [pool[0]], x)
    ensures x in pool[1..] || (pool[0].id in x.dependencies &&
      Pending(x.dependencies, Ids(tasks), Ids(done + [pool[0]])) == 0)
  {
    var c := pool[0];
    IdsSnoc(done, c);
    PendingZero(x.dependencies, Ids(tasks), Ids(done + [c]));
    if c.id !in x.dependencies {
      assert Ready(tasks, done, x);
      var k :| 0 <= k < |pool| && pool[k] == x;
      assert k != 0;
      assert x == pool[1..][k - 1];
    }
  }

  /** The tasks left in the pool and the released ones are ready after `c`,
      and nothing else is. */
  lemma NextPoolMembers(tasks: seq<Task>, alpha: real, done: seq<Task>, pool: seq<Task>, released: seq<Task>)
    requires UniqueIds(tasks) && Emitted(tasks, alpha, done) && PoolOrdered(tasks, alpha, done, pool) && pool != []
    requires forall x :: x in released <==>
      x in tasks && pool[0].id in x.dependencies && Pending(x.dependencies, Ids(tasks), Ids(done + [pool[0]])) == 0
    ensures forall x :: x in pool[1..] + released ==> Ready(tasks, done + [pool[0]], x)
    ensures forall x :: Ready(tasks, done + [pool[0]], x) ==> x in pool[1..] + released
    ensures forall x :: x in pool[1..] ==> pool[0].id !in x.dependencies
  {
    var c := pool[0];
    assert c in pool;
    RestStaysReady(tasks, alpha, done, pool);
    forall x | x in released ensures Ready(tasks, done + [c], x) {
      ReleasedIsReady(tasks, alpha, done, c, x);
    }
    forall x | Ready(tasks, done + [c], x) ensures x in pool[1..] + released {
      ReadyAfterFront(tasks, alpha, done, pool, x);
    }
  }

  /** Tasks in input order carry different ids. */
  lemma InInputOrderUnique(tasks: seq<Task>, r: seq<Task>)
    requires InInputOrder(tasks, r)
    ensures UniqueIds(r)
  {
    forall i, j | 0 <= i < j < |r| ensures r[i].id != r[j].id {
      assert IndexOfId(tasks, r[i].id) < IndexOfId(tasks, r[j].id);
    }
  }

  /** Sorting the ready tasks, listed once each and with ties in the pool's
      tie order, by effective deadline gives the pool. */
  lemma SortedPool(tasks: seq<Task>, alpha: real, done: seq<Task>, s: seq<Task>)
    requires UniqueIds(s)
    requires forall x :: x in s ==> Ready(tasks, done, x)
    requires forall x :: x in tasks && Ready(tasks, done, x) ==> x in s
    requires forall i, j :: 0 <= i < j < |s| && EffectiveDeadline(s[i], alpha) == EffectiveDeadline(s[j], alpha) ==>
      TieBefore(tasks, done, s[i], s[j])
    ensures PoolOrdered(tasks, alpha, done, SortByKey(s, ByEffectiveDeadline(alpha)))
  {
    var p := SortByKey(s, ByEffectiveDeadline(alpha));
    SortByKeyRanks(s, alpha, tasks, done);
    ReadyPermutation(tasks, done, s, p);
  }

  /** A rearrangement of the ready tasks, each listed once, lists each
      ready task once. */
  lemma ReadyPermutation(tasks: seq<Task>, done: seq<Task>, s: seq<Task>, p: seq<Task>)
    requires multiset(s) == multiset(p) && UniqueIds(s)
    requires forall x :: x in s ==> Ready(tasks, done, x)
    requires forall x :: x in tasks && Ready(tasks, done, x) ==> x in s
    ensures UniqueIds(p)
    ensures forall x :: x in p ==> Ready(tasks, done, x)
    ensures forall x :: x in tasks && Ready(tasks, done, x) ==> x in p
  {
    SubMultisetKeepsUniqueIds(s, p);
    SameMembers(s, p);
  }

  /** Rearranging a sequence keeps its members. */
  lemma SameMembers(s: seq<Task>, p: seq<Task>)
    requires multiset(s) == multiset(p)
    ensures forall x :: x in p <==> x in s
  {
    forall x ensures x in p <==> x in s {
      assert x in multiset(p) <==> x in multiset(s);
    }
  }

  /** The rest of the pool followed by the released tasks holds no id twice. */
  lemma NextPoolUnique(tasks: seq<Task>, alpha: real, done: seq<Task>, pool: seq<Task>, released: seq<Task>)
    requires UniqueIds(tasks) && PoolOrdered(tasks, alpha, done, pool) && pool != []
    requires forall x :: x in released ==> x in tasks && pool[0].id in x.dependencies
    requires forall x :: x in pool[1..] ==> pool[0].id !in x.dependencies
    requires InInputOrder(tasks, released)
    ensures UniqueIds(pool[1..] + released)
  {
    var rest := pool[1..];
    var s := rest + released;
    InInputOrderUnique(tasks, released);
    UniqueIdsSameTask(tasks);
    forall i, j | 0 <= i < |rest| && 0 <= j < |released| ensures rest[i].id != released[j].id {
      assert rest[i] == pool[i + 1] && pool[i + 1] in pool;
      assert rest[i] in rest && released[j] in released;
    }
    forall i, j | 0 <= i < j < |s| ensures s[i].id != s[j].id {
      if j < |rest| {
        assert s[i] == pool[i + 1] && s[j] == pool[j + 1];
      } else if i >= |rest| {
        assert s[i] == released[i - |rest|] && s[j] == released[j - |rest|];
      } else {
        assert s[i] == rest[i] && s[j] == released[j - |rest|];
      }
    }
  }

  /** Ties in the rest of the pool followed by the released tasks are in
      the pool's tie order after `pool[0]` is emitted. */
  lemma NextPoolTies(tasks: seq<Task>, alpha: real, done: seq<Task>, pool: seq<Task>, released: seq<Task>)
    requires PoolOrdered(tasks, alpha, done, pool) && pool != []
    requires forall x :: x in released ==> pool[0].id in x.dependencies
    requires forall x :: x in pool[1..] ==> pool[0].id !in x.dependencies
    requires InInputOrder(tasks, released)
    ensures var s := pool[1..] + released;
      forall i, j :: 0 <= i < j < |s| && EffectiveDeadline(s[i], alpha) == EffectiveDeadline(s[j], alpha) ==>
        TieBefore(tasks, done + [pool[0]], s[i], s[j])
  {
    var c, rest := pool[0], pool[1..];
    var s := rest + released;
    forall i, j | 0 <= i < j < |s| && EffectiveDeadline(s[i], alpha) == EffectiveDeadline(s[j], alpha)
      ensures TieBefore(tasks, done + [c], s[i], s[j])
    {
      if j < |rest| {
        assert s[i] == pool[i + 1] && s[j] == pool[j + 1];
        assert RankBefore(tasks, alpha, done, pool[i + 1], pool[j + 1]);
        assert s[i] in rest && s[j] in rest;
        ReadySinceUnchanged(done, c, s[i]);
        ReadySinceUnchanged(done, c, s[j]);
      } else if i < |rest| {
        assert s[i] in rest && s[j] == released[j - |rest|] && s[j] in released;
        ReadySinceUnchanged(done, c, s[i]);
      } else {
        assert s[i] == released[i - |rest|] && s[j] == released[j - |rest|];
      }
    }
  }

  /** Emitting the front of the pool, appending the released tasks and
      re-sorting gives the pool for the next step. */
  lemma NextPool(tasks: seq<Task>, alpha: real, done: seq<Task>, pool: seq<Task>, released: seq<Task>)
    requires UniqueIds(tasks) && Emitted(tasks, alpha, done) && PoolOrdered(tasks, alpha, done, pool) && pool != []
    requires forall x :: x in released <==>
      x in tasks && pool[0].id in x.dependencies && Pending(x.dependencies, Ids(tasks), Ids(done + [pool[0]])) == 0
    requires InInputOrder(tasks, released)
    ensures PoolOrdered(tasks, alpha, done + [pool[0]], SortByKey(pool[1..] + released, ByEffectiveDeadline(alpha)))
  {
    NextPoolMembers(tasks, alpha, done, pool, released);
    NextPoolUnique(tasks, alpha, done, pool, released);
    NextPoolTies(tasks, alpha, done, pool, released);
    SortedPool(tasks, alpha, done + [pool[0]], pool[1..] + released);
  }

  /** The state before the first step: nothing emitted, and the pool holds
      the tasks of in-degree 0 sorted by effective deadline. */
  lemma InitialPool(tasks: seq<Task>, alpha: real, inDegree: map<int, int>)
    requires UniqueIds(tasks) && Degrees(tasks, inDegree, [])
    ensures forall t :: t in tasks ==> t.id in inDegree
    ensures PoolOrdered(tasks, alpha, [], SortByKey(ZeroInDegree(tasks, inDegree), ByEffectiveDeadline(alpha)))
  {
    var ids := Ids(tasks);
    forall t | t in tasks ensures t.id in inDegree {
      assert t.id in ids;
    }
    var z := ZeroInDegree(tasks, inDegree);
    assert Ids([]) == {};
    forall x | x in tasks ensures x in z <==> Ready(tasks, [], x) {
      PendingZero(x.dependencies, ids, {});
    }
    ZeroInDegreeInInputOrder(tasks, inDegree);
    InInputOrderUnique(tasks, z);
    SortedPool(tasks, alpha, [], z);
  }

  /** Once the pool is empty, either every task was emitted and the output
      is the priority order, or some task is left and the dependencies
      contain a cycle. */
  lemma Finished(tasks: seq<Task>, alpha: real, done: seq<Task>)
    requires UniqueIds(tasks) && Emitted(tasks, alpha, done)
    requires forall x :: !Ready(tasks, done, x)
    ensures |done| == |tasks| ==> PriorityOrder(tasks, alpha, done) && !HasDependencyCycle(tasks)
    ensures |done| != |tasks| ==> HasDependencyCycle(tasks)
  {
    UniqueIdsCount(tasks);
    if |done| == |tasks| {
      var extra := multiset(tasks) - multiset(done);
      assert multiset(tasks) == multiset(done) + extra;
      assert |extra| == 0;
      assert multiset(done) == multiset(tasks);
      PriorityOrderIsTopological(tasks, alpha, done);
      UniqueIdsSameTask(tasks);
      CycleBlocksTopologicalOrder(tasks, done);
    } else {
      var extra := multiset(tasks) - multiset(done);
      assert multiset(tasks) == multiset(done) + extra;
      assert |extra| > 0;
      var t :| t in extra;
      assert t in tasks && t !in done;
      forall u | u in tasks && u !in done ensures Blocked(tasks, done, u) {
        assert !Ready(tasks, done, u);
      }
      StuckMeansCycle(tasks, done, t);
    }
  }

  /** The ordering pass. Ids must be unique; dependency ids that name no
      input task are ignored. It returns the priority order of the input
      when the dependencies among input tasks are acyclic, and fails with
      no partial result exactly when they contain a cycle. */
  method TopologicalSortWithPriority(tasks: seq<Task>, alpha: real) returns (r: Result<seq<Task>, SortError>)
    requires UniqueIds(tasks)
    ensures r.Ok? ==> PriorityOrder(tasks, alpha, r.value)
    ensures r.Err? <==> HasDependencyCycle(tasks)
  {
    var taskMap := TaskMap(tasks);
    var inDegree, graph := BuildGraph(tasks, taskMap);
    var key := ByEffectiveDeadline(alpha);
    assert Ids([]) == {};
    InitialPool(tasks, alpha, inDegree);
    var zeroInDegree := SortByKey(ZeroInDegree(tasks, inDegree), key);
    var sortedList := [];
    while zeroInDegree != []
      invariant Emitted(tasks, alpha, sortedList)
      invariant Degrees(tasks, inDegree, sortedList)
      invariant PoolOrdered(tasks, alpha, sortedList, zeroInDegree)
      decreases |tasks| - |sortedList|
    {
      var current := zeroInDegree[0];
      ghost var done, pool := sortedList, zeroInDegree;
      FrontIsGreedy(tasks, alpha, done, pool);
      EmittedSnoc(tasks, alpha, done, current);
      assert current in pool;
      NotEmittedId(tasks, done, current);
      assert current.id in graph by { assert current in tasks; }
      zeroInDegree := zeroInDegree[1..];
      sortedList := sortedList + [current];
      SubMultisetSize(multiset(sortedList), multiset(tasks));

      ghost var pending := PendingMap(tasks, sortedList);
      DependentsKeys(tasks, done, current);
      ReleaseReady(tasks, done, current, inDegree);
      var released;
      inDegree, released := ReleaseDependents(pending, taskMap, inDegree, graph[current.id]);
      DependentsKeys(tasks, done, current);
      ReleasedOnlyReady(tasks, done, current, released);
      ReleasedAllReady(tasks, done, current, released);
      ReleasedOrder(tasks, done, current, released);
      NextPool(tasks, alpha, done, pool, released);
      forall t | t in tasks ensures inDegree[t.id] == Pending(t.dependencies, Ids(tasks), Ids(sortedList)) {
        TaskMapFinds(tasks, t);
      }
      zeroInDegree := SortByKey(zeroInDegree + released, key);
    }
    Finished(tasks, alpha, sortedList);
    if |sortedList| != |tasks| {
      return Err(CyclicDependency);
    }
    return Ok(sortedList);
  }
}
