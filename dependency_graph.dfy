/** The graph the ordering pass builds before it starts: for every task the
    number of its dependencies that name input tasks (its in-degree), and for
    every input id the ids of the tasks that depend on it. */
module DependencyGraph {
  import opened Tasks
  import opened TaskOrder

  /** How many entries of `deps` name an input task (an id of `ids`) that has
      not been emitted yet (is not in `done`); repeated entries count again. */
  ghost function Pending(deps: seq<int>, ids: set<int>, done: set<int>): nat
  {
    if deps == [] then 0
    else
      var last := deps[|deps| - 1];
      Pending(deps[..|deps| - 1], ids, done) + (if last in ids && last !in done then 1 else 0)
  }

  /** Nothing is pending exactly when every dependency that names an input
      task has been emitted. */
  lemma {:induction false} PendingZero(deps: seq<int>, ids: set<int>, done: set<int>)
    ensures Pending(deps, ids, done) == 0 <==> forall d :: d in deps && d in ids ==> d in done
  {
    if deps != [] {
      var front, last := deps[..|deps| - 1], deps[|deps| - 1];
      assert deps == front + [last];
      PendingZero(front, ids, done);
    }
  }

  /** Emitting the task with id `c` lowers the count by the number of times
      `deps` names `c`. */
  lemma {:induction false} PendingRelease(deps: seq<int>, ids: set<int>, done: set<int>, c: int)
    requires c in ids && c !in done
    ensures Pending(deps, ids, done + {c}) + multiset(deps)[c] == Pending(deps, ids, done)
  {
    if deps != [] {
      var front := deps[..|deps| - 1];
      assert deps == front + [deps[|deps| - 1]];
      PendingRelease(front, ids, done, c);
    }
  }

  /** `n` copies of `x`. */
  ghost function Repeat(x: int, n: nat): (r: seq<int>)
    ensures |r| == n && forall i :: 0 <= i < n ==> r[i] == x
  {
    seq(n, _ => x)
  }

  /** The adjacency list of `c`: the id of every task of `ts` that depends on
      `c`, once per time it names `c`, in input order. */
  ghost function Dependents(ts: seq<Task>, c: int): seq<int>
  {
    if ts == [] then []
    else
      var t := ts[|ts| - 1];
      Dependents(ts[..|ts| - 1], c) + Repeat(t.id, multiset(t.dependencies)[c])
  }

  /** Every entry of an adjacency list names a task of `ts`. */
  lemma {:induction false} DependentsAreInputIds(ts: seq<Task>, c: int)
    ensures forall y :: y in Dependents(ts, c) ==> y in Ids(ts)
  {
    if ts != [] {
      var front := ts[..|ts| - 1];
      DependentsAreInputIds(front, c);
      assert ts == front + [ts[|ts| - 1]];
      assert Ids(front) <= Ids(ts);
    }
  }

  /** The adjacency list of `c` names `x` exactly as often as `x` names `c`. */
  lemma {:induction false} DependentsCount(ts: seq<Task>, c: int, x: Task)
    requires UniqueIds(ts) && x in ts
    ensures multiset(Dependents(ts, c))[x.id] == multiset(x.dependencies)[c]
  {
    var n := |ts| - 1;
    var front, t := ts[..n], ts[n];
    assert ts == front + [t];
    assert UniqueIds(front) by {
      forall i, j | 0 <= i < |front| && 0 <= j < |front| && front[i].id == front[j].id ensures i == j {
        assert ts[i].id == ts[j].id;
      }
    }
    RepeatCount(t.id, multiset(t.dependencies)[c], x.id);
    if x == t {
      DependentsAreInputIds(front, c);
      assert x.id !in Ids(front);
      assert multiset(Dependents(front, c))[x.id] == 0;
    } else {
      DependentsCount(front, c, x);
      assert t.id != x.id by {
        var p :| 0 <= p < |front| && front[p] == x;
        assert ts[p].id == x.id;
      }
    }
  }

  /** How often `Repeat(x, n)` names `y`. */
  lemma {:induction false} RepeatCount(x: int, n: nat, y: int)
    ensures multiset(Repeat(x, n))[y] == if x == y then n else 0
  {
    if n > 0 {
      assert Repeat(x, n) == Repeat(x, n - 1) + [x];
      RepeatCount(x, n - 1, y);
    }
  }

  /** Adjacency lists list the dependents in input order. */
  lemma {:induction false} DependentsInInputOrder(ts: seq<Task>, c: int)
    requires UniqueIds(ts)
    ensures forall a, b :: 0 <= a < b < |Dependents(ts, c)| ==>
      IndexOfId(ts, Dependents(ts, c)[a]) <= IndexOfId(ts, Dependents(ts, c)[b])
  {
    if ts != [] {
      var n := |ts| - 1;
      var front, t := ts[..n], ts[n];
      assert ts == front + [t];
      assert UniqueIds(front) by {
        forall i, j | 0 <= i < |front| && 0 <= j < |front| && front[i].id == front[j].id ensures i == j {
          assert ts[i].id == ts[j].id;
        }
      }
      DependentsInInputOrder(front, c);
      DependentsAreInputIds(front, c);
      var g, g' := Dependents(ts, c), Dependents(front, c);
      var rep := Repeat(t.id, multiset(t.dependencies)[c]);
      assert g == g' + rep;
      assert IndexOfId(ts, t.id) == n by {
        assert t.id !in Ids(front);
        IndexOfIdAppendNew(front, t);
      }
      forall y | y in g' ensures IndexOfId(ts, y) == IndexOfId(front, y) < n {
        IndexOfIdAppend(front, t, y);
      }
      forall a, b | 0 <= a < b < |g| ensures IndexOfId(ts, g[a]) <= IndexOfId(ts, g[b]) {
        if b < |g'| {
          assert g[a] == g'[a] && g[b] == g'[b];
          assert g'[a] in g' && g'[b] in g';
        } else if a < |g'| {
          assert g[a] == g'[a] && g'[a] in g';
          assert g[b] == t.id;
        } else {
          assert g[a] == t.id && g[b] == t.id;
        }
      }
    }
  }

  /** One more dependency entry adds one to the pending count when it
      names an input task. */
  lemma PendingStep(deps: seq<int>, k: nat, ids: set<int>)
    requires k < |deps|
    ensures Pending(deps[..k + 1], ids, {}) == Pending(deps[..k], ids, {}) + (if deps[k] in ids then 1 else 0)
  {
    assert deps[..k + 1][..k] == deps[..k];
  }

  /** Appending `id` to the adjacency list of entry `deps[k]`, when there is
      one, moves the lists from `deps[..k]` to `deps[..k + 1]`. */
  lemma AppendStep(id: int, deps: seq<int>, k: nat, graph0: map<int, seq<int>>,
                   prev: map<int, seq<int>>, graph: map<int, seq<int>>)
    requires k < |deps|
    requires graph.Keys == prev.Keys == graph0.Keys
    requires forall c :: c in prev ==> prev[c] == graph0[c] + Repeat(id, multiset(deps[..k])[c])
    requires forall c :: c in graph && c != deps[k] ==> graph[c] == prev[c]
    requires deps[k] in graph ==> graph[deps[k]] == prev[deps[k]] + [id]
    ensures forall c :: c in graph ==> graph[c] == graph0[c] + Repeat(id, multiset(deps[..k + 1])[c])
  {
    assert deps[..k + 1] == deps[..k] + [deps[k]];
    forall c | c in graph
      ensures graph[c] == graph0[c] + Repeat(id, multiset(deps[..k + 1])[c])
    {
      var n := multiset(deps[..k])[c];
      if c == deps[k] {
        assert multiset(deps[..k + 1])[c] == n + 1;
        assert Repeat(id, n + 1) == Repeat(id, n) + [id];
      } else {
        assert multiset(deps[..k + 1])[c] == n;
      }
    }
  }

  /** The inner building loop for one task `t`: every dependency id that
      names an input task adds one to the in-degree of `t` and appends the id
      of `t` to that task's adjacency list. Other dependency ids are skipped. */
  method AddDependencies(t: Task, taskMap: map<int, Task>, inDegree0: map<int, int>, graph0: map<int, seq<int>>)
    returns (inDegree: map<int, int>, graph: map<int, seq<int>>)
    requires t.id in inDegree0 && graph0.Keys == taskMap.Keys
    ensures inDegree.Keys == inDegree0.Keys
    ensures inDegree[t.id] == inDegree0[t.id] + Pending(t.dependencies, taskMap.Keys, {})
    ensures forall x :: x in inDegree && x != t.id ==> inDegree[x] == inDegree0[x]
    ensures graph.Keys == graph0.Keys
    ensures forall c :: c in graph ==> graph[c] == graph0[c] + Repeat(t.id, multiset(t.dependencies)[c])
  {
    inDegree, graph := inDegree0, graph0;
    for k := 0 to |t.dependencies|
      invariant inDegree.Keys == inDegree0.Keys
      invariant inDegree[t.id] == inDegree0[t.id] + Pending(t.dependencies[..k], taskMap.Keys, {})
      invariant forall x :: x in inDegree && x != t.id ==> inDegree[x] == inDegree0[x]
      invariant graph.Keys == graph0.Keys
      invariant forall c :: c in graph ==> graph[c] == graph0[c] + Repeat(t.id, multiset(t.dependencies[..k])[c])
    {
      var depId := t.dependencies[k];
      ghost var prev := graph;
      PendingStep(t.dependencies, k, taskMap.Keys);
      if depId in taskMap {
        graph := graph[depId := graph[depId] + [t.id]];
        inDegree := inDegree[t.id := inDegree[t.id] + 1];
      }
      AppendStep(t.id, t.dependencies, k, graph0, prev, graph);
    }
    assert t.dependencies[..|t.dependencies|] == t.dependencies;
  }

  /** The in-degree `x` has after the tasks of `ts` are counted: the pending
      count of every task of `ts` whose id is `x`. */
  ghost function DegreeOf(ts: seq<Task>, x: int, ids: set<int>): nat
  {
    if ts == [] then 0
    else
      var t := ts[|ts| - 1];
      DegreeOf(ts[..|ts| - 1], x, ids) + (if t.id == x then Pending(t.dependencies, ids, {}) else 0)
  }

  /** With unique ids, the in-degree of a task is its own pending count. */
  lemma {:induction false} DegreeOfMember(ts: seq<Task>, t: Task, ids: set<int>)
    requires UniqueIds(ts) && t in ts
    ensures DegreeOf(ts, t.id, ids) == Pending(t.dependencies, ids, {})
  {
    var n := |ts| - 1;
    var front, last := ts[..n], ts[n];
    assert ts == front + [last];
    if last == t {
      DegreeOfAbsent(front, t.id, ids);
      assert t.id !in Ids(front);
    } else {
      assert UniqueIds(front) by {
        forall i, j | 0 <= i < |front| && 0 <= j < |front| && front[i].id == front[j].id ensures i == j {
          assert ts[i].id == ts[j].id;
        }
      }
      var p :| 0 <= p < |ts| && ts[p] == t;
      assert p != n;
      assert t in front by { assert front[p] == t; }
      DegreeOfMember(front, t, ids);
      assert last.id != t.id by { assert ts[p].id != ts[n].id; }
    }
  }

  /** No task of `ts` has id `x`: nothing is counted for it. */
  lemma {:induction false} DegreeOfAbsent(ts: seq<Task>, x: int, ids: set<int>)
    requires x !in Ids(ts)
    ensures DegreeOf(ts, x, ids) == 0
  {
    if ts != [] {
      var front := ts[..|ts| - 1];
      assert ts == front + [ts[|ts| - 1]];
      assert Ids(front) <= Ids(ts);
      assert ts[|ts| - 1] in ts;
      DegreeOfAbsent(front, x, ids);
    }
  }

  /** Every in-degree of `inDegree` counts the tasks of `ts`. */
  ghost predicate DegreesCounted(ts: seq<Task>, ids: set<int>, inDegree: map<int, int>)
  {
    forall x :: x in inDegree ==> inDegree[x] == DegreeOf(ts, x, ids)
  }

  /** Every adjacency list of `graph` lists the tasks of `ts`. */
  ghost predicate DependentsListed(ts: seq<Task>, graph: map<int, seq<int>>)
  {
    forall c :: c in graph ==> graph[c] == Dependents(ts, c)
  }

  /** Counting task `ts[i]` moves the in-degrees from `ts[..i]` to `ts[..i + 1]`. */
  lemma DegreeStep(ts: seq<Task>, i: nat, ids: set<int>, before: map<int, int>, after: map<int, int>)
    requires i < |ts|
    requires after.Keys == before.Keys && ts[i].id in before
    requires DegreesCounted(ts[..i], ids, before)
    requires after[ts[i].id] == before[ts[i].id] + Pending(ts[i].dependencies, ids, {})
    requires forall x :: x in after && x != ts[i].id ==> after[x] == before[x]
    ensures DegreesCounted(ts[..i + 1], ids, after)
  {
    assert ts[..i + 1][..i] == ts[..i];
  }

  /** Listing task `ts[i]` moves the adjacency lists from `ts[..i]` to `ts[..i + 1]`. */
  lemma DependentsStep(ts: seq<Task>, i: nat, before: map<int, seq<int>>, after: map<int, seq<int>>)
    requires i < |ts|
    requires after.Keys == before.Keys
    requires DependentsListed(ts[..i], before)
    requires forall c :: c in after ==> after[c] == before[c] + Repeat(ts[i].id, multiset(ts[i].dependencies)[c])
    ensures DependentsListed(ts[..i + 1], after)
  {
    assert ts[..i + 1][..i] == ts[..i];
  }

  /** Before any task is counted every in-degree is 0 and every list empty. */
  lemma NothingCounted(ts: seq<Task>, ids: set<int>)
    ensures DegreesCounted(ts[..0], ids, map x | x in ids :: 0)
    ensures DependentsListed(ts[..0], map x | x in ids :: [])
  {
    assert ts[..0] == [];
  }

  /** Once every task is counted, the in-degree of each task is its own
      pending count. */
  lemma DegreesFinal(tasks: seq<Task>, ids: set<int>, inDegree: map<int, int>)
    requires UniqueIds(tasks) && Ids(tasks) <= inDegree.Keys
    requires DegreesCounted(tasks, ids, inDegree)
    ensures forall t :: t in tasks ==> inDegree[t.id] == Pending(t.dependencies, ids, {})
  {
    forall t | t in tasks ensures inDegree[t.id] == Pending(t.dependencies, ids, {}) {
      assert t.id in Ids(tasks);
      DegreeOfMember(tasks, t, ids);
    }
  }

  /** The building loop over all tasks, starting from in-degree 0 and an
      empty adjacency list for every input id. */
  method BuildGraph(tasks: seq<Task>, taskMap: map<int, Task>) returns (inDegree: map<int, int>, graph: map<int, seq<int>>)
    requires UniqueIds(tasks) && taskMap.Keys == Ids(tasks)
    ensures inDegree.Keys == Ids(tasks) && graph.Keys == Ids(tasks)
    ensures forall t :: t in tasks ==> inDegree[t.id] == Pending(t.dependencies, Ids(tasks), {})
    ensures forall c :: c in graph ==> graph[c] == Dependents(tasks, c)
  {
    var ids := taskMap.Keys;
    inDegree := map x | x in ids :: 0;
    graph := map x | x in ids :: [];
    NothingCounted(tasks, ids);
    for i := 0 to |tasks|
      invariant inDegree.Keys == ids && graph.Keys == ids
      invariant DegreesCounted(tasks[..i], ids, inDegree)
      invariant DependentsListed(tasks[..i], graph)
    {
      var t := tasks[i];
      assert t.id in ids by { assert t in tasks; }
      ghost var before, graphBefore := inDegree, graph;
      inDegree, graph := AddDependencies(t, taskMap, inDegree, graph);
      DegreeStep(tasks, i, ids, before, inDegree);
      DependentsStep(tasks, i, graphBefore, graph);
    }
    assert tasks[..|tasks|] == tasks;
    DegreesFinal(tasks, ids, inDegree);
    assert DependentsListed(tasks, graph);
  }
}
