/** Dependency cycles: when no input task is ready but some are left, the
    dependencies contain a cycle; and an input whose dependencies contain a
    cycle has no topological order. */
module Cycles {
  import opened Tasks
  import opened TaskOrder

  /** No id occurs twice in `w`. */
  ghost predicate Distinct(w: seq<int>)
  {
    forall i, j :: 0 <= i < j < |w| ==> w[i] != w[j]
  }

  /** A walk without repeats has as many different ids as steps. */
  lemma {:induction false} DistinctSize(w: seq<int>)
    requires Distinct(w)
    ensures |(set x | x in w)| == |w|
  {
    if w != [] {
      var front := w[..|w| - 1];
      DistinctSize(front);
      assert (set x | x in w) == (set x | x in front) + {w[|w| - 1]};
    }
  }

  /** `x` depends on some id of `stuck`. */
  ghost predicate LeadsInto(tasks: seq<Task>, stuck: set<int>, x: int)
  {
    exists y :: y in stuck && DependsOn(tasks, x, y)
  }

  /** Each id of `w` but the last depends on the next one. */
  ghost predicate IsWalk(tasks: seq<Task>, w: seq<int>)
  {
    forall k :: 0 <= k < |w| - 1 ==> DependsOn(tasks, w[k], w[k + 1])
  }

  /** The position after `k` on a closed walk of length `n`. */
  lemma NextPosition(k: int, n: int)
    requires 0 <= k < n
    ensures (k + 1) % n == if k < n - 1 then k + 1 else 0
  {
  }

  /** A walk along dependencies whose last id depends on its first closes
      into a cycle. */
  lemma ClosedWalk(tasks: seq<Task>, c: seq<int>)
    requires |c| > 0 && IsWalk(tasks, c)
    requires DependsOn(tasks, c[|c| - 1], c[0])
    ensures IsDependencyCycle(tasks, c)
  {
    forall k | 0 <= k < |c| ensures CycleStep(tasks, c, k) {
      NextPosition(k, |c|);
    }
  }

  /** The part of a walk from position `p` on is a walk. */
  lemma WalkSuffix(tasks: seq<Task>, w: seq<int>, p: int)
    requires IsWalk(tasks, w) && 0 <= p <= |w|
    ensures IsWalk(tasks, w[p..])
  {
    var c := w[p..];
    forall k | 0 <= k < |c| - 1 ensures DependsOn(tasks, c[k], c[k + 1]) {
      assert c[k] == w[p + k] && c[k + 1] == w[p + k + 1];
    }
  }

  /** A walk extended by an id its last id depends on is a walk. */
  lemma WalkSnoc(tasks: seq<Task>, w: seq<int>, y: int)
    requires IsWalk(tasks, w) && |w| > 0 && DependsOn(tasks, w[|w| - 1], y)
    ensures IsWalk(tasks, w + [y])
  {
    var w' := w + [y];
    forall k | 0 <= k < |w'| - 1 ensures DependsOn(tasks, w'[k], w'[k + 1]) {
      assert w'[k] == w[k];
      if k < |w| - 1 {
        assert w'[k + 1] == w[k + 1];
      }
    }
  }

  /** Every id of `w` is in `stuck`. */
  ghost predicate Within(w: seq<int>, stuck: set<int>)
  {
    forall k :: 0 <= k < |w| ==> w[k] in stuck
  }

  /** A walk without repeats through `stuck`, extended by a new id of
      `stuck`, stays without repeats, stays in `stuck` and still has no more
      ids than `stuck`. */
  lemma WithinSnoc(stuck: set<int>, w: seq<int>, y: int)
    requires Distinct(w) && Within(w, stuck) && y in stuck && y !in w
    ensures Distinct(w + [y]) && Within(w + [y], stuck) && |w + [y]| <= |stuck|
  {
    DistinctSnoc(w, y);
    WalkSize(stuck, w + [y]);
  }

  /** A walk without repeats through `stuck` is no longer than `stuck` has ids. */
  lemma WalkSize(stuck: set<int>, w: seq<int>)
    requires Distinct(w) && Within(w, stuck)
    ensures |w| <= |stuck|
  {
    var seen := set x | x in w;
    DistinctSize(w);
    assert seen <= stuck;
    assert stuck == seen + (stuck - seen);
  }

  /** A walk whose last id depends on the id at position `p` closes into a
      cycle from `p` on. */
  lemma CloseAt(tasks: seq<Task>, w: seq<int>, p: int)
    requires IsWalk(tasks, w) && 0 <= p < |w| && DependsOn(tasks, w[|w| - 1], w[p])
    ensures HasDependencyCycle(tasks)
  {
    var c := w[p..];
    WalkSuffix(tasks, w, p);
    assert c[|c| - 1] == w[|w| - 1] && c[0] == w[p];
    ClosedWalk(tasks, c);
  }

  /** Extends the walk `w` through the ids of `stuck`, each of which depends
      on another id of `stuck`, until it closes on itself. */
  lemma {:induction false} CycleFromWalk(tasks: seq<Task>, stuck: set<int>, w: seq<int>)
    requires forall x :: x in stuck ==> LeadsInto(tasks, stuck, x)
    requires |w| > 0 && Distinct(w) && IsWalk(tasks, w) && Within(w, stuck)
    ensures HasDependencyCycle(tasks)
    decreases |stuck| - |w|
  {
    var last := w[|w| - 1];
    assert LeadsInto(tasks, stuck, last);
    var y :| y in stuck && DependsOn(tasks, last, y);
    if y in w {
      var p :| 0 <= p < |w| && w[p] == y;
      CloseAt(tasks, w, p);
    } else {
      WithinSnoc(stuck, w, y);
      WalkSnoc(tasks, w, y);
      CycleFromWalk(tasks, stuck, w + [y]);
    }
  }

  /** `u` waits for an input task that has not been emitted. */
  ghost predicate Blocked(tasks: seq<Task>, done: seq<Task>, u: Task)
  {
    exists d :: d in u.dependencies && d in Ids(tasks) && d !in Ids(done)
  }

  /** A walk without repeats extended by a new id has no repeats. */
  lemma DistinctSnoc(w: seq<int>, y: int)
    requires Distinct(w) && y !in w
    ensures Distinct(w + [y])
  {
  }

  /** A blocked task leads into any set holding the ids of all tasks not
      yet emitted. */
  lemma BlockedLeadsInto(tasks: seq<Task>, done: seq<Task>, stuck: set<int>, u: Task)
    requires u in tasks && Blocked(tasks, done, u)
    requires forall v :: v in tasks && v !in done ==> v.id in stuck
    ensures LeadsInto(tasks, stuck, u.id)
  {
    var d :| d in u.dependencies && d in Ids(tasks) && d !in Ids(done);
    var v :| v in tasks && v.id == d;
    assert v !in done;
    assert DependsOn(tasks, u.id, d);
  }

  /** If tasks remain unemitted but every one of them waits for an input
      task that has not been emitted, the dependencies contain a cycle. */
  lemma StuckMeansCycle(tasks: seq<Task>, done: seq<Task>, t: Task)
    requires t in tasks && t !in done
    requires forall u :: u in tasks && u !in done ==> Blocked(tasks, done, u)
    ensures HasDependencyCycle(tasks)
  {
    var stuck := set u | u in tasks && u !in done :: u.id;
    forall x | x in stuck ensures LeadsInto(tasks, stuck, x) {
      var u :| u in tasks && u !in done && u.id == x;
      BlockedLeadsInto(tasks, done, stuck, u);
    }
    CycleFromWalk(tasks, stuck, [t.id]);
  }

  /** In a topological order, an input task a task depends on sits earlier. */
  lemma TopologicalStep(tasks: seq<Task>, o: seq<Task>, x: int, y: int)
    requires forall u, v :: u in tasks && v in tasks && u.id == v.id ==> u == v
    requires IsTopologicalOrder(tasks, o)
    requires DependsOn(tasks, x, y) && y in Ids(tasks)
    ensures IndexOfId(o, y) < IndexOfId(o, x) < |o|
  {
    var t :| t in tasks && t.id == x && y in t.dependencies;
    var v :| v in tasks && v.id == y;
    assert t in multiset(o) && v in multiset(o);
    assert t.id in Ids(o) && v.id in Ids(o);
    IndexOfIdFound(o, x);
    IndexOfIdFound(o, y);
    var i, j := IndexOfId(o, x), IndexOfId(o, y);
    assert o[i] in multiset(tasks) && o[j] in multiset(tasks);
    assert o[i] == t;
  }

  /** Every id on a cycle names an input task. */
  lemma CycleIdsAreInput(tasks: seq<Task>, c: seq<int>, k: int)
    requires IsDependencyCycle(tasks, c) && 0 <= k < |c|
    ensures c[k] in Ids(tasks)
  {
    assert CycleStep(tasks, c, k);
    var t :| t in tasks && t.id == c[k] && c[(k + 1) % |c|] in t.dependencies;
  }

  /** Each id of a cycle but the last depends on the next one. */
  lemma CycleSuccessor(tasks: seq<Task>, c: seq<int>, k: int)
    requires IsDependencyCycle(tasks, c) && 0 <= k < |c| - 1
    ensures DependsOn(tasks, c[k], c[k + 1])
  {
    assert CycleStep(tasks, c, k);
    assert (k + 1) % |c| == k + 1;
  }

  /** Positions along a cycle in a topological order strictly decrease, so
      the `k`-th id sits at least `k` places before the first. */
  lemma {:induction false} CyclePositions(tasks: seq<Task>, o: seq<Task>, c: seq<int>, k: nat)
    requires forall u, v :: u in tasks && v in tasks && u.id == v.id ==> u == v
    requires IsTopologicalOrder(tasks, o) && IsDependencyCycle(tasks, c)
    requires k < |c|
    ensures IndexOfId(o, c[k]) + k <= IndexOfId(o, c[0])
  {
    if k > 0 {
      CyclePositions(tasks, o, c, k - 1);
      CycleSuccessor(tasks, c, k - 1);
      CycleIdsAreInput(tasks, c, k);
      TopologicalStep(tasks, o, c[k - 1], c[k]);
    }
  }

  /** An input whose dependencies contain a cycle has no topological order. */
  lemma CycleBlocksTopologicalOrder(tasks: seq<Task>, o: seq<Task>)
    requires forall u, v :: u in tasks && v in tasks && u.id == v.id ==> u == v
    requires IsTopologicalOrder(tasks, o)
    ensures !HasDependencyCycle(tasks)
  {
    if c :| IsDependencyCycle(tasks, c) {
      var n := |c| - 1;
      CyclePositions(tasks, o, c, n);
      assert CycleStep(tasks, c, n);
      assert (n + 1) % |c| == 0;
      CycleIdsAreInput(tasks, c, 0);
      TopologicalStep(tasks, o, c[n], c[0]);
      assert false;
    }
  }
}
