/** The two steps of Kahn's algorithm that walk a list: filtering the tasks
    of in-degree 0 into the first pool, and lowering the in-degrees along an
    adjacency list after a task is emitted, collecting the tasks that reach
    in-degree 0. */
module KahnSteps {
  import opened Tasks
  import opened TaskOrder
  import opened DependencyGraph

  /** The tasks of `ts` whose in-degree is 0, in input order. */
  function ZeroInDegree(ts: seq<Task>, inDegree: map<int, int>): (r: seq<Task>)
    requires forall t :: t in ts ==> t.id in inDegree
    ensures forall t :: t in r ==> t in ts && inDegree[t.id] == 0
    ensures forall t :: t in ts && inDegree[t.id] == 0 ==> t in r
  {
    if ts == [] then []
    else if inDegree[ts[0].id] == 0 then [ts[0]] + ZeroInDegree(ts[1..], inDegree)
    else ZeroInDegree(ts[1..], inDegree)
  }

  /** The tasks of `r` come in the order of their ids in `ts`. */
  ghost predicate InInputOrder(ts: seq<Task>, r: seq<Task>)
  {
    forall i, j :: 0 <= i < j < |r| ==> IndexOfId(ts, r[i].id) < IndexOfId(ts, r[j].id)
  }

  /** An order by positions in `ts[1..]` is also one by positions in `ts`. */
  lemma InInputOrderShift(ts: seq<Task>, r: seq<Task>)
    requires UniqueIds(ts) && ts != []
    requires forall x :: x in r ==> x in ts[1..]
    requires InInputOrder(ts[1..], r)
    ensures InInputOrder(ts, r)
    ensures forall x :: x in r ==> 0 < IndexOfId(ts, x.id)
  {
    forall x | x in r ensures IndexOfId(ts, x.id) == 1 + IndexOfId(ts[1..], x.id) {
      var p :| 0 <= p < |ts[1..]| && ts[1..][p] == x;
      assert ts[p + 1] == x;
      assert x.id != ts[0].id;
    }
    forall i, j | 0 <= i < j < |r| ensures IndexOfId(ts, r[i].id) < IndexOfId(ts, r[j].id) {
      assert r[i] in r && r[j] in r;
    }
  }

  /** The first task of `ts` can go in front of tasks that come after it. */
  lemma InInputOrderCons(ts: seq<Task>, r: seq<Task>)
    requires ts != [] && InInputOrder(ts, r)
    requires forall x :: x in r ==> 0 < IndexOfId(ts, x.id)
    ensures InInputOrder(ts, [ts[0]] + r)
  {
    var r2 := [ts[0]] + r;
    forall i, j | 0 <= i < j < |r2| ensures IndexOfId(ts, r2[i].id) < IndexOfId(ts, r2[j].id) {
      assert r2[j] == r[j - 1] && r[j - 1] in r;
      if i > 0 {
        assert r2[i] == r[i - 1];
      }
    }
  }

  /** The filter keeps the input order. */
  lemma {:induction false} ZeroInDegreeInInputOrder(ts: seq<Task>, inDegree: map<int, int>)
    requires forall t :: t in ts ==> t.id in inDegree
    requires UniqueIds(ts)
    ensures InInputOrder(ts, ZeroInDegree(ts, inDegree))
  {
    if ts != [] {
      var rest := ts[1..];
      assert UniqueIds(rest) by {
        forall i, j | 0 <= i < |rest| && 0 <= j < |rest| && rest[i].id == rest[j].id ensures i == j {
          assert ts[i + 1].id == ts[j + 1].id;
        }
      }
      ZeroInDegreeInInputOrder(rest, inDegree);
      var r, r' := ZeroInDegree(ts, inDegree), ZeroInDegree(rest, inDegree);
      InInputOrderShift(ts, r');
      if inDegree[ts[0].id] == 0 {
        assert r == [ts[0]] + r';
        InInputOrderCons(ts, r');
      } else {
        assert r == r';
      }
    }
  }
  /** The tasks the release loop has appended after `k` entries of
      `dependents`: an entry appends the task it names when that task's
      in-degree reaches 0 there, that is, when `pending` expects nothing more
      of it and the entries processed so far are all the entries naming it. */
  ghost function Released(taskMap: map<int, Task>, pending: map<int, int>, dependents: seq<int>, k: int): seq<Task>
    requires 0 <= k <= |dependents|
    requires forall i :: 0 <= i < |dependents| ==> dependents[i] in taskMap && dependents[i] in pending
  {
    if k == 0 then []
    else
      var y := dependents[k - 1];
      if pending[y] + multiset(dependents)[y] == multiset(dependents[..k])[y]
      then Released(taskMap, pending, dependents, k - 1) + [taskMap[y]]
      else Released(taskMap, pending, dependents, k - 1)
  }

  /** A released task was named by an entry already processed, and nothing
      more is pending for it. */
  lemma {:induction false} ReleasedSound(taskMap: map<int, Task>, pending: map<int, int>, dependents: seq<int>, k: int)
    requires 0 <= k <= |dependents|
    requires forall y :: y in taskMap ==> taskMap[y].id == y
    requires forall i :: 0 <= i < |dependents| ==> dependents[i] in taskMap && dependents[i] in pending
    requires forall y :: y in pending ==> pending[y] >= 0
    ensures forall t :: t in Released(taskMap, pending, dependents, k) ==>
      t.id in dependents[..k] && t.id in taskMap && taskMap[t.id] == t &&
      pending[t.id] + multiset(dependents)[t.id] == multiset(dependents[..k])[t.id]
  {
    if k > 0 {
      ReleasedSound(taskMap, pending, dependents, k - 1);
      var y := dependents[k - 1];
      assert dependents[..k] == dependents[..k - 1] + [y];
      forall t | t in Released(taskMap, pending, dependents, k - 1)
        ensures pending[t.id] + multiset(dependents)[t.id] == multiset(dependents[..k])[t.id]
      {
        MultisetPrefixBound(dependents, k, t.id);
      }
    }
  }

  /** A prefix names `y` at most as often as the whole sequence, and strictly
      less often when the entry after it names `y`. */
  lemma MultisetPrefixBound(s: seq<int>, k: int, y: int)
    requires 0 < k <= |s|
    ensures multiset(s[..k - 1])[y] <= multiset(s[..k])[y] <= multiset(s)[y]
    ensures s[k - 1] == y ==> multiset(s[..k - 1])[y] < multiset(s[..k])[y]
  {
    assert s[..k] == s[..k - 1] + [s[k - 1]];
    assert s == s[..k] + s[k..];
  }

  /** Every processed entry whose task has nothing pending any more has been
      released. */
  lemma {:induction false} ReleasedComplete(taskMap: map<int, Task>, pending: map<int, int>, dependents: seq<int>, k: int)
    requires 0 <= k <= |dependents|
    requires forall i :: 0 <= i < |dependents| ==> dependents[i] in taskMap && dependents[i] in pending
    ensures forall y :: y in dependents[..k] && pending[y] + multiset(dependents)[y] == multiset(dependents[..k])[y] ==>
      taskMap[y] in Released(taskMap, pending, dependents, k)
  {
    if k > 0 {
      ReleasedComplete(taskMap, pending, dependents, k - 1);
      var y := dependents[k - 1];
      assert dependents[..k] == dependents[..k - 1] + [y];
      forall z | z in dependents[..k] && pending[z] + multiset(dependents)[z] == multiset(dependents[..k])[z]
        ensures taskMap[z] in Released(taskMap, pending, dependents, k)
      {
        if z != y {
          assert z in dependents[..k - 1];
        }
      }
    }
  }

  /** The entries of `dependents` name tasks of `tasks`, in input order. */
  ghost predicate EntriesInInputOrder(tasks: seq<Task>, dependents: seq<int>)
  {
    (forall i :: 0 <= i < |dependents| ==> IndexOfId(tasks, dependents[i]) < |tasks|) &&
    forall a, b :: 0 <= a < b < |dependents| ==> IndexOfId(tasks, dependents[a]) <= IndexOfId(tasks, dependents[b])
  }

  /** Tasks released before entry `k - 1` is processed come earlier in the
      input than the task that entry names. */
  lemma ReleasedBefore(tasks: seq<Task>, taskMap: map<int, Task>, pending: map<int, int>,
                       dependents: seq<int>, k: int)
    requires 0 < k <= |dependents|
    requires forall y :: y in taskMap ==> taskMap[y].id == y
    requires forall i :: 0 <= i < |dependents| ==> dependents[i] in taskMap && dependents[i] in pending
    requires forall y :: y in pending ==> pending[y] >= 0
    requires EntriesInInputOrder(tasks, dependents)
    ensures var r := Released(taskMap, pending, dependents, k - 1);
      forall i :: 0 <= i < |r| ==> IndexOfId(tasks, r[i].id) < IndexOfId(tasks, taskMap[dependents[k - 1]].id)
  {
    ReleasedSound(taskMap, pending, dependents, k - 1);
    EarlierEntries(tasks, pending, dependents, k, Released(taskMap, pending, dependents, k - 1));
  }

  /** Released tasks come in input order. */
  lemma {:induction false} ReleasedInOrder(tasks: seq<Task>, taskMap: map<int, Task>, pending: map<int, int>,
                                           dependents: seq<int>, k: int)
    requires 0 <= k <= |dependents|
    requires forall y :: y in taskMap ==> taskMap[y].id == y
    requires forall i :: 0 <= i < |dependents| ==> dependents[i] in taskMap && dependents[i] in pending
    requires forall y :: y in pending ==> pending[y] >= 0
    requires EntriesInInputOrder(tasks, dependents)
    ensures InInputOrder(tasks, Released(taskMap, pending, dependents, k))
  {
    if k > 0 {
      ReleasedInOrder(tasks, taskMap, pending, dependents, k - 1);
      ReleasedBefore(tasks, taskMap, pending, dependents, k);
      ReleasedNext(taskMap, pending, dependents, k - 1);
      InInputOrderSnoc(tasks, Released(taskMap, pending, dependents, k - 1), taskMap[dependents[k - 1]]);
    }
  }

  /** Tasks released before entry `k - 1` was processed come earlier in the
      input than the task that entry names. */
  lemma EarlierEntries(tasks: seq<Task>, pending: map<int, int>, dependents: seq<int>, k: int, r: seq<Task>)
    requires 0 < k <= |dependents|
    requires forall i :: 0 <= i < |dependents| ==> dependents[i] in pending
    requires forall y :: y in pending ==> pending[y] >= 0
    requires EntriesInInputOrder(tasks, dependents)
    requires forall t :: t in r ==>
      t.id in dependents[..k - 1] && pending[t.id] + multiset(dependents)[t.id] == multiset(dependents[..k - 1])[t.id]
    ensures forall i :: 0 <= i < |r| ==> IndexOfId(tasks, r[i].id) < IndexOfId(tasks, dependents[k - 1])
  {
    forall i | 0 <= i < |r| ensures IndexOfId(tasks, r[i].id) < IndexOfId(tasks, dependents[k - 1]) {
      assert r[i] in r;
      EarlierEntry(tasks, pending, dependents, k, r[i].id);
    }
  }

  /** A task released before entry `k - 1` was processed is named by an
      earlier entry and is not the task entry `k - 1` names, so it comes
      earlier in the input. */
  lemma EarlierEntry(tasks: seq<Task>, pending: map<int, int>, dependents: seq<int>, k: int, z: int)
    requires 0 < k <= |dependents|
    requires forall i :: 0 <= i < |dependents| ==> dependents[i] in pending
    requires forall y :: y in pending ==> pending[y] >= 0
    requires EntriesInInputOrder(tasks, dependents)
    requires z in dependents[..k - 1] && pending[z] + multiset(dependents)[z] == multiset(dependents[..k - 1])[z]
    ensures IndexOfId(tasks, z) < IndexOfId(tasks, dependents[k - 1])
  {
    var y := dependents[k - 1];
    MultisetPrefixBound(dependents, k, z);
    var a :| 0 <= a < k - 1 && dependents[a] == z;
    assert z != y;
    assert IndexOfId(tasks, z) <= IndexOfId(tasks, y);
  }

  /** A task placed after tasks that all come before it in the input keeps
      the input order. */
  lemma InInputOrderSnoc(tasks: seq<Task>, r: seq<Task>, x: Task)
    requires InInputOrder(tasks, r)
    requires forall i :: 0 <= i < |r| ==> IndexOfId(tasks, r[i].id) < IndexOfId(tasks, x.id)
    ensures InInputOrder(tasks, r + [x])
  {
    var r2 := r + [x];
    forall i, j | 0 <= i < j < |r2| ensures IndexOfId(tasks, r2[i].id) < IndexOfId(tasks, r2[j].id) {
      assert r2[i] == r[i];
      if j < |r| {
        assert r2[j] == r[j];
      }
    }
  }

  /** After `k` entries each in-degree is what `pending` expects plus the
      entries still to come. */
  ghost predicate CountsAhead(pending: map<int, int>, dependents: seq<int>, k: int, inDegree: map<int, int>)
    requires 0 <= k <= |dependents|
  {
    inDegree.Keys == pending.Keys &&
    forall y :: y in inDegree ==> inDegree[y] + multiset(dependents[..k])[y] == pending[y] + multiset(dependents)[y]
  }

  /** Processing entry `k` lowers the in-degree of the task it names by one
      and so keeps each in-degree equal to what is pending plus the entries
      still to come. */
  lemma ReleaseCountStep(pending: map<int, int>, dependents: seq<int>, k: int, inDegree: map<int, int>)
    requires 0 <= k < |dependents|
    requires forall i :: 0 <= i < |dependents| ==> dependents[i] in pending
    requires CountsAhead(pending, dependents, k, inDegree)
    ensures dependents[k] in inDegree
    ensures var d := inDegree[dependents[k] := inDegree[dependents[k]] - 1];
      CountsAhead(pending, dependents, k + 1, d) &&
      (d[dependents[k]] == 0 <==>
       pending[dependents[k]] + multiset(dependents)[dependents[k]] == multiset(dependents[..k + 1])[dependents[k]])
  {
    assert dependents[..k + 1] == dependents[..k] + [dependents[k]];
    var y := dependents[k];
    assert inDegree[y] + multiset(dependents[..k])[y] == pending[y] + multiset(dependents)[y];
    assert multiset(dependents[..k + 1])[y] == multiset(dependents[..k])[y] + 1;
  }

  /** Entry `k` appends the task it names exactly when that task has nothing
      pending and no later entry names it. */
  lemma ReleasedNext(taskMap: map<int, Task>, pending: map<int, int>, dependents: seq<int>, k: int)
    requires 0 <= k < |dependents|
    requires forall i :: 0 <= i < |dependents| ==> dependents[i] in taskMap && dependents[i] in pending
    ensures dependents[k] in taskMap && dependents[k] in pending
    ensures Released(taskMap, pending, dependents, k + 1) ==
      if pending[dependents[k]] + multiset(dependents)[dependents[k]] == multiset(dependents[..k + 1])[dependents[k]]
      then Released(taskMap, pending, dependents, k) + [taskMap[dependents[k]]]
      else Released(taskMap, pending, dependents, k)
  {
  }

  /** The inner loop after emitting a task: for every entry of its adjacency
      list `dependents`, lower that task's in-degree by one and, when it
      reaches 0, append the task to `released`. On entry each in-degree is the
      count `pending` expects once the loop is over, plus the number of
      entries that name it. */
  method ReleaseDependents(ghost pending: map<int, int>, taskMap: map<int, Task>,
                           inDegree0: map<int, int>, dependents: seq<int>)
    returns (inDegree: map<int, int>, released: seq<Task>)
    requires inDegree0.Keys == pending.Keys
    requires forall i :: 0 <= i < |dependents| ==> dependents[i] in taskMap && dependents[i] in pending
    requires forall y :: y in inDegree0 ==> inDegree0[y] == pending[y] + multiset(dependents)[y]
    ensures inDegree.Keys == pending.Keys && forall y :: y in inDegree ==> inDegree[y] == pending[y]
    ensures released == Released(taskMap, pending, dependents, |dependents|)
  {
    inDegree, released := inDegree0, [];
    assert CountsAhead(pending, dependents, 0, inDegree) by {
      assert dependents[..0] == [];
    }
    for k := 0 to |dependents|
      invariant CountsAhead(pending, dependents, k, inDegree)
      invariant released == Released(taskMap, pending, dependents, k)
    {
      var nbr := dependents[k];
      ReleaseCountStep(pending, dependents, k, inDegree);
      ReleasedNext(taskMap, pending, dependents, k);
      inDegree := inDegree[nbr := inDegree[nbr] - 1];
      if inDegree[nbr] == 0 {
        released := released + [taskMap[nbr]];
      }
    }
    assert dependents[..|dependents|] == dependents;
    assert CountsAhead(pending, dependents, |dependents|, inDegree);
  }
}
