/** What the ordering pass promises: the effective deadline that ranks ready
    tasks, what "ready" means, and the order Kahn's algorithm with a re-sorted
    ready pool produces. */
module TaskOrder {
  import opened Tasks

  /** The ranking key of the ready pool: the deadline pulled forward by
      `alpha` time units per priority point. */
  function EffectiveDeadline(t: Task, alpha: real): (e: real)
    ensures alpha == 0.0 ==> e == t.deadline as real
    ensures alpha >= 0.0 && t.priority >= 0 ==> e <= t.deadline as real
  {
    t.deadline as real - alpha * t.priority as real
  }

  /** The effective deadline as a sort key, for a fixed `alpha`. */
  function ByEffectiveDeadline(alpha: real): Task -> real
  {
    (t: Task) => EffectiveDeadline(t, alpha)
  }

  /** The ids of the tasks in `s`. */
  function Ids(s: seq<Task>): set<int>
  {
    set t | t in s :: t.id
  }

  /** No two tasks of `s` share an id (so no task occurs twice either). */
  ghost predicate UniqueIds(s: seq<Task>)
  {
    forall i, j :: 0 <= i < |s| && 0 <= j < |s| && s[i].id == s[j].id ==> i == j
  }

  /** Two tasks of a sequence without repeated ids that share an id are the same task. */
  lemma UniqueIdsSameTask(s: seq<Task>)
    requires UniqueIds(s)
    ensures forall u, v :: u in s && v in s && u.id == v.id ==> u == v
  {
    forall u, v | u in s && v in s && u.id == v.id ensures u == v {
      var i :| 0 <= i < |s| && s[i] == u;
      var j :| 0 <= j < |s| && s[j] == v;
    }
  }

  /** The position of the first task of `s` with id `id`, or `|s|` if there is none. */
  function IndexOfId(s: seq<Task>, id: int): (k: nat)
    ensures k <= |s|
    ensures k < |s| ==> s[k].id == id
  {
    if s == [] then 0
    else if s[0].id == id then 0
    else 1 + IndexOfId(s[1..], id)
  }

  /** The search finds an id exactly when some task of `s` carries it. */
  lemma {:induction false} IndexOfIdFound(s: seq<Task>, id: int)
    ensures IndexOfId(s, id) < |s| <==> id in Ids(s)
  {
    if s != [] && s[0].id != id {
      assert Ids(s) == {s[0].id} + Ids(s[1..]);
      IndexOfIdFound(s[1..], id);
    }
  }

  /** `t` is in the input, not emitted yet, and every dependency of `t` that
      names a task of the input has been emitted. Dependency ids that name no
      task of the input impose nothing. */
  ghost predicate Ready(tasks: seq<Task>, done: seq<Task>, t: Task)
  {
    t in tasks && t !in done &&
    forall d :: d in t.dependencies && d in Ids(tasks) ==> d in Ids(done)
  }

  /** The step at which a ready task entered the pool: one past the position
      of its last dependency among the emitted tasks, or 0 if it had none. */
  function ReadySince(done: seq<Task>, t: Task): (k: nat)
    ensures k <= |done|
    ensures k == 0 || done[k - 1].id in t.dependencies
    ensures forall j :: k <= j < |done| ==> done[j].id !in t.dependencies
  {
    if done == [] then 0
    else if done[|done| - 1].id in t.dependencies then |done|
    else ReadySince(done[..|done| - 1], t)
  }

  /** Among tasks of equal effective deadline, the one that entered the
      pool first, and among those the one that comes first in the input. */
  ghost predicate TieBefore(tasks: seq<Task>, done: seq<Task>, a: Task, b: Task)
  {
    ReadySince(done, a) < ReadySince(done, b) ||
    (ReadySince(done, a) == ReadySince(done, b) && IndexOfId(tasks, a.id) < IndexOfId(tasks, b.id))
  }

  /** `a` is taken from the pool before `b`. */
  ghost predicate RankBefore(tasks: seq<Task>, alpha: real, done: seq<Task>, a: Task, b: Task)
  {
    EffectiveDeadline(a, alpha) < EffectiveDeadline(b, alpha) ||
    (EffectiveDeadline(a, alpha) == EffectiveDeadline(b, alpha) && TieBefore(tasks, done, a, b))
  }

  /** After `done` has been emitted, `next` is ready and is ranked before
      every other ready task. */
  ghost predicate GreedyStep(tasks: seq<Task>, alpha: real, done: seq<Task>, next: Task)
  {
    Ready(tasks, done, next) &&
    forall t {:trigger Ready(tasks, done, t)} :: t in tasks && Ready(tasks, done, t) && t != next ==> RankBefore(tasks, alpha, done, next, t)
  }

  /** The order the priority-weighted Kahn's algorithm emits: every input task
      exactly once, each one ready when it is emitted and ranked first among
      the ready tasks. */
  ghost predicate PriorityOrder(tasks: seq<Task>, alpha: real, out: seq<Task>)
  {
    multiset(out) == multiset(tasks) &&
    forall k {:trigger GreedyStep(tasks, alpha, out[..k], out[k])} :: 0 <= k < |out| ==> GreedyStep(tasks, alpha, out[..k], out[k])
  }

  /** `o` lists every input task exactly once, and every dependency that
      names an input task comes before the task that depends on it. */
  ghost predicate IsTopologicalOrder(tasks: seq<Task>, o: seq<Task>)
  {
    multiset(o) == multiset(tasks) &&
    forall i, j :: 0 <= i < |o| && 0 <= j < |o| && o[j].id in o[i].dependencies ==> j < i
  }

  /** Some input task with id `x` lists `y` among its dependencies. */
  ghost predicate DependsOn(tasks: seq<Task>, x: int, y: int)
  {
    exists t :: t in tasks && t.id == x && y in t.dependencies
  }

  /** The `k`-th step of the closed walk `c`: its `k`-th id depends on the
      next one, the last id on the first. */
  ghost predicate CycleStep(tasks: seq<Task>, c: seq<int>, k: int)
    requires 0 <= k < |c|
  {
    DependsOn(tasks, c[k], c[(k + 1) % |c|])
  }

  /** `c` is a closed walk along dependencies between input tasks. */
  ghost predicate IsDependencyCycle(tasks: seq<Task>, c: seq<int>)
  {
    |c| > 0 &&
    forall k :: 0 <= k < |c| ==> CycleStep(tasks, c, k)
  }

  /** The dependencies among the input tasks contain a cycle. */
  ghost predicate HasDependencyCycle(tasks: seq<Task>)
  {
    exists c :: IsDependencyCycle(tasks, c)
  }

  /** A sequence without repeated ids holds each of its tasks exactly once. */
  lemma {:induction false} UniqueIdsCount(s: seq<Task>)
    requires UniqueIds(s)
    ensures forall x :: multiset(s)[x] == if x in s then 1 else 0
  {
    if s != [] {
      var rest := s[1..];
      assert UniqueIds(rest) by {
        forall i, j | 0 <= i < |rest| && 0 <= j < |rest| && rest[i].id == rest[j].id
          ensures i == j
        {
          assert s[i + 1].id == s[j + 1].id;
        }
      }
      UniqueIdsCount(rest);
      assert s == [s[0]] + rest;
      assert s[0] !in rest;
    }
  }

  /** Appending a task does not move the ids already present. */
  lemma {:induction false} IndexOfIdAppend(s: seq<Task>, t: Task, id: int)
    requires id in Ids(s)
    ensures IndexOfId(s + [t], id) == IndexOfId(s, id) < |s|
  {
    IndexOfIdFound(s, id);
    if s[0].id != id {
      assert Ids(s) == {s[0].id} + Ids(s[1..]);
      assert (s + [t])[1..] == s[1..] + [t];
      IndexOfIdAppend(s[1..], t, id);
    }
  }

  /** A task whose id is new sits last after being appended. */
  lemma {:induction false} IndexOfIdAppendNew(s: seq<Task>, t: Task)
    requires t.id !in Ids(s)
    ensures IndexOfId(s + [t], t.id) == |s|
  {
    if s != [] {
      assert s[0] in s;
      assert Ids(s[1..]) <= Ids(s) by {
        forall x | x in s[1..] ensures x in s { }
      }
      assert (s + [t])[1..] == s[1..] + [t];
      IndexOfIdAppendNew(s[1..], t);
    }
  }

  /** In a sequence without repeated ids, a task sits at the position of its id. */
  lemma UniqueIdsPosition(s: seq<Task>, x: Task, k: int)
    requires UniqueIds(s) && x in s && k == IndexOfId(s, x.id)
    ensures k < |s| && s[k] == x
  {
    var p :| 0 <= p < |s| && s[p] == x;
    assert x.id in Ids(s);
    IndexOfIdFound(s, x.id);
  }

  /** A task that occurs at two positions occurs at least twice. */
  lemma RepeatedCount(s: seq<Task>, i: int, j: int)
    requires 0 <= i < j < |s| && s[i] == s[j]
    ensures multiset(s)[s[i]] >= 2
  {
    assert s == s[..i] + [s[i]] + s[i + 1..j] + [s[j]] + s[j + 1..];
  }

  /** Taking tasks of a sequence without repeated ids, each at most as
      often as it occurs there and in any order, leaves no repeated ids. */
  lemma {:induction false} SubMultisetKeepsUniqueIds(a: seq<Task>, b: seq<Task>)
    requires UniqueIds(a) && multiset(b) <= multiset(a)
    ensures UniqueIds(b)
  {
    UniqueIdsCount(a);
    forall i, j | 0 <= i < |b| && 0 <= j < |b| && b[i].id == b[j].id
      ensures i == j
    {
      if i != j {
        assert b[i] in multiset(a) && b[j] in multiset(a);
        if b[i] == b[j] {
          if i < j { RepeatedCount(b, i, j); } else { RepeatedCount(b, j, i); }
          assert false;
        }
      }
    }
  }

  /** The priority order is a topological order: every dependency that
      names an input task is emitted before the task that depends on it. */
  lemma {:induction false} PriorityOrderIsTopological(tasks: seq<Task>, alpha: real, out: seq<Task>)
    requires UniqueIds(tasks) && PriorityOrder(tasks, alpha, out)
    ensures IsTopologicalOrder(tasks, out)
  {
    SubMultisetKeepsUniqueIds(tasks, out);
    forall i, j | 0 <= i < |out| && 0 <= j < |out| && out[j].id in out[i].dependencies
      ensures j < i
    {
      assert GreedyStep(tasks, alpha, out[..i], out[i]);
      assert out[j] in multiset(tasks);
      assert out[j].id in Ids(tasks);
      var m :| m in out[..i] && m.id == out[j].id;
      var p :| 0 <= p < i && out[..i][p] == m;
      assert out[p].id == out[j].id;
    }
  }

  /** At every step the emitted task has the smallest effective deadline
      among the tasks that are ready at that step. */
  lemma PriorityOrderPicksMinimalDeadline(tasks: seq<Task>, alpha: real, out: seq<Task>, k: int, t: Task)
    requires PriorityOrder(tasks, alpha, out)
    requires 0 <= k < |out| && t in tasks && Ready(tasks, out[..k], t)
    ensures EffectiveDeadline(out[k], alpha) <= EffectiveDeadline(t, alpha)
  {
    assert GreedyStep(tasks, alpha, out[..k], out[k]);
  }

  /** Two tasks cannot each be ranked before the other. */
  lemma RankBeforeAsymmetric(tasks: seq<Task>, alpha: real, done: seq<Task>, a: Task, b: Task)
    requires RankBefore(tasks, alpha, done, a, b)
    ensures !RankBefore(tasks, alpha, done, b, a)
  {
  }

  /** At most one task can be the greedy choice after a given prefix. */
  lemma GreedyChoiceUnique(tasks: seq<Task>, alpha: real, done: seq<Task>, x: Task, y: Task)
    requires GreedyStep(tasks, alpha, done, x) && GreedyStep(tasks, alpha, done, y)
    ensures x == y
  {
    if x != y {
      assert RankBefore(tasks, alpha, done, x, y);
      RankBeforeAsymmetric(tasks, alpha, done, x, y);
      assert false;
    }
  }

  /** Two priority orders of the same input agree on every prefix. */
  lemma {:induction false} PriorityPrefixesAgree(tasks: seq<Task>, alpha: real, o1: seq<Task>, o2: seq<Task>, k: nat)
    requires PriorityOrder(tasks, alpha, o1) && PriorityOrder(tasks, alpha, o2)
    requires k <= |o1| && k <= |o2|
    ensures o1[..k] == o2[..k]
  {
    if k > 0 {
      PriorityPrefixesAgree(tasks, alpha, o1, o2, k - 1);
      assert GreedyStep(tasks, alpha, o1[..k - 1], o1[k - 1]);
      assert GreedyStep(tasks, alpha, o2[..k - 1], o2[k - 1]);
      GreedyChoiceUnique(tasks, alpha, o1[..k - 1], o1[k - 1], o2[k - 1]);
      assert o1[..k] == o1[..k - 1] + [o1[k - 1]];
      assert o2[..k] == o2[..k - 1] + [o2[k - 1]];
    }
  }

  /** The priority order is determined by the input and `alpha`: two
      sequences that both satisfy it are equal. */
  lemma PriorityOrderUnique(tasks: seq<Task>, alpha: real, o1: seq<Task>, o2: seq<Task>)
    requires PriorityOrder(tasks, alpha, o1) && PriorityOrder(tasks, alpha, o2)
    ensures o1 == o2
  {
    assert |o1| == |multiset(o1)| == |multiset(o2)| == |o2|;
    PriorityPrefixesAgree(tasks, alpha, o1, o2, |o1|);
    assert o1 == o1[..|o1|] && o2 == o2[..|o2|];
  }
}
