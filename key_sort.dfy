/** The ready pool's re-sort: a stable sort of tasks by effective deadline,
    written as an insertion sort. */
module KeySort {
  import opened Tasks
  import opened TaskOrder

  /** Effective deadlines never decrease along `s`. */
  ghost predicate SortedByKey(s: seq<Task>, key: Task -> real)
  {
    forall i, j :: 0 <= i < j < |s| ==> key(s[i]) <= key(s[j])
  }

  /** Where a stable insertion puts `t`: after every leading task whose key
      is at most that of `t`. */
  function InsertionPoint(s: seq<Task>, t: Task, key: Task -> real): (p: nat)
    ensures p <= |s|
    ensures forall i :: 0 <= i < p ==> key(s[i]) <= key(t)
    ensures p < |s| ==> key(t) < key(s[p])
  {
    if s == [] || key(t) < key(s[0]) then 0
    else 1 + InsertionPoint(s[1..], t, key)
  }

  /** Putting `t` at a position `p` after every smaller or equal key and
      before every larger one keeps the keys sorted. */
  lemma InsertionKeepsSorted(s: seq<Task>, t: Task, key: Task -> real, p: nat)
    requires SortedByKey(s, key) && p <= |s|
    requires forall i :: 0 <= i < p ==> key(s[i]) <= key(t)
    requires p < |s| ==> key(t) < key(s[p])
    ensures SortedByKey(s[..p] + [t] + s[p..], key)
  {
    var r := s[..p] + [t] + s[p..];
    forall i, j | 0 <= i < j < |r| ensures key(r[i]) <= key(r[j]) {
      if j < p {
        assert r[i] == s[i] && r[j] == s[j];
      } else if j == p {
        assert r[i] == s[i] && r[j] == t;
      } else if i < p {
        assert r[i] == s[i] && r[j] == s[j - 1];
        assert key(s[i]) <= key(t) < key(s[p]);
        assert key(s[p]) <= key(s[j - 1]);
      } else if i == p {
        assert r[i] == t && r[j] == s[j - 1];
        assert key(t) < key(s[p]) && key(s[p]) <= key(s[j - 1]);
      } else {
        assert r[i] == s[i - 1] && r[j] == s[j - 1];
      }
    }
  }

  /** Putting `t` anywhere in `s` adds exactly `t`. */
  lemma InsertionAddsOne(s: seq<Task>, t: Task, p: nat)
    requires p <= |s|
    ensures multiset(s[..p] + [t] + s[p..]) == multiset(s) + multiset{t}
  {
    assert s == s[..p] + s[p..];
  }

  /** Inserts `t` into the sorted `s` after all tasks of equal key. */
  function InsertByKey(s: seq<Task>, t: Task, key: Task -> real): (r: seq<Task>)
    requires SortedByKey(s, key)
    ensures SortedByKey(r, key)
    ensures multiset(r) == multiset(s) + multiset{t}
  {
    var p := InsertionPoint(s, t, key);
    InsertionKeepsSorted(s, t, key, p);
    InsertionAddsOne(s, t, p);
    s[..p] + [t] + s[p..]
  }

  /** `list.sort(key=effective_deadline)`: sorted by key and a rearrangement
      of its input. */
  function SortByKey(s: seq<Task>, key: Task -> real): (r: seq<Task>)
    ensures SortedByKey(r, key)
    ensures multiset(r) == multiset(s)
  {
    if s == [] then []
    else
      assert s == s[..|s| - 1] + [s[|s| - 1]];
      InsertByKey(SortByKey(s[..|s| - 1], key), s[|s| - 1], key)
  }

  /** Tasks of equal key in `r` appear in the order of their ids in `s`. */
  ghost predicate KeepsTieOrder(s: seq<Task>, r: seq<Task>, key: Task -> real)
  {
    forall i, j :: 0 <= i < j < |r| && key(r[i]) == key(r[j]) ==>
      IndexOfId(s, r[i].id) < IndexOfId(s, r[j].id)
  }

  /** Where each task of `r` lands after inserting `t`. */
  lemma InsertByKeyAt(r: seq<Task>, t: Task, key: Task -> real)
    requires SortedByKey(r, key)
    ensures var p, r2 := InsertionPoint(r, t, key), InsertByKey(r, t, key);
      |r2| == |r| + 1 && r2[p] == t &&
      (forall i :: 0 <= i < p ==> r2[i] == r[i]) &&
      (forall i :: p < i < |r2| ==> r2[i] == r[i - 1])
  {
  }

  /** After appending `t` to `s`, the ids of `s` keep their positions and
      `t` sits last. */
  lemma IndexOfIdAfterAppend(s: seq<Task>, t: Task, x: Task)
    requires x.id in Ids(s) && t.id !in Ids(s)
    ensures IndexOfId(s + [t], x.id) == IndexOfId(s, x.id) < |s| == IndexOfId(s + [t], t.id)
  {
    IndexOfIdAppend(s, t, x.id);
    IndexOfIdAppendNew(s, t);
  }

  /** One pair of equal-key tasks after the insertion of `t`. */
  lemma InsertByKeyStablePair(s: seq<Task>, r: seq<Task>, t: Task, key: Task -> real, i: int, j: int)
    requires SortedByKey(r, key) && KeepsTieOrder(s, r, key)
    requires forall x :: x in r ==> x.id in Ids(s)
    requires t.id !in Ids(s)
    requires 0 <= i < j < |InsertByKey(r, t, key)|
    requires key(InsertByKey(r, t, key)[i]) == key(InsertByKey(r, t, key)[j])
    ensures IndexOfId(s + [t], InsertByKey(r, t, key)[i].id) < IndexOfId(s + [t], InsertByKey(r, t, key)[j].id)
  {
    var p, r2 := InsertionPoint(r, t, key), InsertByKey(r, t, key);
    InsertByKeyAt(r, t, key);
    if j < p {
      assert r2[i] == r[i] && r2[j] == r[j];
      IndexOfIdAfterAppend(s, t, r[i]);
      IndexOfIdAfterAppend(s, t, r[j]);
    } else if j == p {
      assert r2[i] == r[i] && r[i] in r;
      IndexOfIdAfterAppend(s, t, r[i]);
    } else if i < p {
      assert r2[i] == r[i] && r2[j] == r[j - 1] && r[i] in r && r[j - 1] in r;
      IndexOfIdAfterAppend(s, t, r[i]);
      IndexOfIdAfterAppend(s, t, r[j - 1]);
    } else if i == p {
      assert false;
    } else {
      assert r2[i] == r[i - 1] && r2[j] == r[j - 1] && r[i - 1] in r && r[j - 1] in r;
      IndexOfIdAfterAppend(s, t, r[i - 1]);
      IndexOfIdAfterAppend(s, t, r[j - 1]);
    }
  }

  /** Inserting the task that comes last in `s` after all tasks of equal key
      keeps the tie order. */
  lemma InsertByKeyStable(s: seq<Task>, r: seq<Task>, t: Task, key: Task -> real)
    requires SortedByKey(r, key) && KeepsTieOrder(s, r, key)
    requires forall x :: x in r ==> x.id in Ids(s)
    requires t.id !in Ids(s)
    ensures KeepsTieOrder(s + [t], InsertByKey(r, t, key), key)
  {
    var r2 := InsertByKey(r, t, key);
    forall i, j | 0 <= i < j < |r2| && key(r2[i]) == key(r2[j])
      ensures IndexOfId(s + [t], r2[i].id) < IndexOfId(s + [t], r2[j].id)
    {
      InsertByKeyStablePair(s, r, t, key, i, j);
    }
  }

  /** The sort is stable: tasks of equal key keep their relative order. */
  lemma {:induction false} SortByKeyStable(s: seq<Task>, key: Task -> real)
    requires UniqueIds(s)
    ensures KeepsTieOrder(s, SortByKey(s, key), key)
  {
    if s != [] {
      var n := |s| - 1;
      var s', t := s[..n], s[n];
      assert s == s' + [t];
      assert UniqueIds(s') by {
        forall i, j | 0 <= i < |s'| && 0 <= j < |s'| && s'[i].id == s'[j].id ensures i == j {
          assert s[i].id == s[j].id;
        }
      }
      SortByKeyStable(s', key);
      var r' := SortByKey(s', key);
      assert t.id !in Ids(s');
      forall x | x in r' ensures x.id in Ids(s') {
        assert x in multiset(s');
      }
      InsertByKeyStable(s', r', t, key);
    }
  }

  /** Whatever tie order the input keeps among tasks of equal effective
      deadline, the sorted pool keeps too; with the sort order this ranks the
      whole pool. */
  lemma SortByKeyRanks(s: seq<Task>, alpha: real, tasks: seq<Task>, done: seq<Task>)
    requires UniqueIds(s)
    requires forall i, j :: 0 <= i < j < |s| && EffectiveDeadline(s[i], alpha) == EffectiveDeadline(s[j], alpha) ==>
      TieBefore(tasks, done, s[i], s[j])
    ensures forall i, j :: 0 <= i < j < |SortByKey(s, ByEffectiveDeadline(alpha))| ==>
      RankBefore(tasks, alpha, done, SortByKey(s, ByEffectiveDeadline(alpha))[i], SortByKey(s, ByEffectiveDeadline(alpha))[j])
  {
    var key := ByEffectiveDeadline(alpha);
    var r := SortByKey(s, key);
    SortByKeyStable(s, key);
    assert KeepsTieOrder(s, r, key);
    forall i, j | 0 <= i < j < |r| ensures RankBefore(tasks, alpha, done, r[i], r[j]) {
      assert key(r[i]) <= key(r[j]);
      if key(r[i]) == key(r[j]) {
        assert r[i] in multiset(s) && r[j] in multiset(s);
        var a, b := IndexOfId(s, r[i].id), IndexOfId(s, r[j].id);
        assert a < b;
        UniqueIdsPosition(s, r[i], a);
        UniqueIdsPosition(s, r[j], b);
      }
    }
  }
}
