/** The backward scheduler: keep the plannable tasks, order them with the
    priority-weighted topological sort, then walk that order from the back
    with a cursor that starts at the largest deadline, giving each task the
    latest window that ends by the cursor and by its own deadline. */
module Scheduling {
  import opened Wrappers
  import opened Tasks
  import opened TaskOrder
  import opened KahnSteps
  import opened Kahn

  /** The tasks of `tasks` whose status is to-do, in-progress or paused, in
      input order. */
  function FilterPlannable(tasks: seq<Task>): (r: seq<Task>)
    ensures forall t :: t in r ==> t in tasks && Plannable(t.status)
    ensures forall t :: t in tasks && Plannable(t.status) ==> t in r
    ensures multiset(r) <= multiset(tasks)
  {
    if tasks == [] then []
    else
      assert tasks == [tasks[0]] + tasks[1..];
      if Plannable(tasks[0].status) then [tasks[0]] + FilterPlannable(tasks[1..])
      else FilterPlannable(tasks[1..])
  }

  /** Filtering keeps the input order. */
  lemma {:induction false} FilterPlannableInInputOrder(tasks: seq<Task>)
    requires UniqueIds(tasks)
    ensures InInputOrder(tasks, FilterPlannable(tasks))
  {
    if tasks != [] {
      var rest := tasks[1..];
      assert UniqueIds(rest) by {
        forall i, j | 0 <= i < |rest| && 0 <= j < |rest| && rest[i].id == rest[j].id ensures i == j {
          assert tasks[i + 1].id == tasks[j + 1].id;
        }
      }
      FilterPlannableInInputOrder(rest);
      var r' := FilterPlannable(rest);
      InInputOrderShift(tasks, r');
      if Plannable(tasks[0].status) {
        InInputOrderCons(tasks, r');
      }
    }
  }

  /** Filtering keeps ids unique. */
  lemma FilterKeepsUniqueIds(tasks: seq<Task>)
    requires UniqueIds(tasks)
    ensures UniqueIds(FilterPlannable(tasks))
  {
    SubMultisetKeepsUniqueIds(tasks, FilterPlannable(tasks));
  }

  /** The largest deadline of a non-empty list of tasks. */
  function MaxDeadline(s: seq<Task>): (m: int)
    requires s != []
    ensures forall k :: 0 <= k < |s| ==> s[k].deadline <= m
    ensures exists k :: 0 <= k < |s| && s[k].deadline == m
  {
    if |s| == 1 then s[0].deadline
    else
      var m' := MaxDeadline(s[1..]);
      assert forall k :: 1 <= k < |s| ==> s[k] == s[1..][k - 1];
      if s[0].deadline >= m' then s[0].deadline else m'
  }

  /** The time window given to a task. */
  datatype Window = Window(start: int, finish: int)

  /** The windows the backward pass gives `order` when its cursor starts at
      `cursor`: the last task finishes at the earlier of the cursor and its
      deadline and starts its duration before that; the tasks before it are
      planned with the cursor moved to that start. */
  function BackwardPlan(order: seq<Task>, cursor: int): (w: seq<Window>)
    ensures |w| == |order|
    ensures order != [] ==>
      w[|w| - 1].finish <= cursor && w[|w| - 1].finish <= order[|order| - 1].deadline &&
      w[|w| - 1].finish - w[|w| - 1].start == order[|order| - 1].duration
  {
    if order == [] then []
    else
      var t := order[|order| - 1];
      var finish := if cursor <= t.deadline then cursor else t.deadline;
      var start := finish - t.duration;
      BackwardPlan(order[..|order| - 1], start) + [Window(start, finish)]
  }

  /** `v` gives every task of `order` a window as long as its duration that
      ends by its deadline, no window ends after the next one starts, and
      the last one ends by `cursor`. */
  ghost predicate Feasible(order: seq<Task>, cursor: int, v: seq<Window>)
  {
    |v| == |order| &&
    (forall k :: 0 <= k < |v| ==> v[k].finish - v[k].start == order[k].duration && v[k].finish <= order[k].deadline) &&
    (forall k :: 0 <= k < |v| - 1 ==> v[k].finish <= v[k + 1].start) &&
    (|v| > 0 ==> v[|v| - 1].finish <= cursor)
  }

  /** Unfolding the plan at the last task. */
  lemma BackwardPlanLast(order: seq<Task>, cursor: int)
    requires order != []
    ensures var n, t := |order| - 1, order[|order| - 1];
      var finish := if cursor <= t.deadline then cursor else t.deadline;
      BackwardPlan(order, cursor)[n] == Window(finish - t.duration, finish) &&
      BackwardPlan(order, cursor)[..n] == BackwardPlan(order[..n], finish - t.duration)
  {
  }

  /** Feasible windows for all but the last task, then a window for the
      last task that fits it and starts no earlier than the cursor they were
      planned with, are feasible for the whole order. */
  lemma FeasibleSnoc(order: seq<Task>, cursor: int, v: seq<Window>, inner: int)
    requires |v| == |order| > 0
    requires var n := |order| - 1;
      Feasible(order[..n], inner, v[..n]) &&
      v[n].finish - v[n].start == order[n].duration && v[n].finish <= order[n].deadline &&
      v[n].finish <= cursor && inner <= v[n].start
    ensures Feasible(order, cursor, v)
  {
    var n := |order| - 1;
    assert forall k :: 0 <= k < n ==> v[..n][k] == v[k] && order[..n][k] == order[k];
  }

  /** A feasible plan restricted to all but the last task is feasible with
      the last window's start as the cursor. */
  lemma FeasiblePrefix(order: seq<Task>, cursor: int, v: seq<Window>)
    requires Feasible(order, cursor, v) && order != []
    ensures var n := |order| - 1;
      Feasible(order[..n], v[n].start, v[..n]) &&
      v[n].finish - v[n].start == order[n].duration && v[n].finish <= order[n].deadline &&
      v[n].finish <= cursor
  {
    var n := |order| - 1;
    assert forall k :: 0 <= k < n ==> v[..n][k] == v[k] && order[..n][k] == order[k];
    if n > 0 {
      assert v[n - 1].finish <= v[n].start;
    }
  }

  /** Feasibility under a cursor carries over to any later cursor. */
  lemma FeasibleLater(order: seq<Task>, cursor: int, later: int, v: seq<Window>)
    requires Feasible(order, cursor, v) && cursor <= later
    ensures Feasible(order, later, v)
  {
  }

  /** Every window lasts its task's duration and ends by its deadline, each
      window ends by the time the next one starts, and the last ends by the
      cursor. */
  lemma {:induction false} BackwardPlanFeasible(order: seq<Task>, cursor: int)
    ensures Feasible(order, cursor, BackwardPlan(order, cursor))
  {
    if order != [] {
      var n := |order| - 1;
      var w := BackwardPlan(order, cursor);
      BackwardPlanLast(order, cursor);
      BackwardPlanFeasible(order[..n], w[n].start);
      FeasibleSnoc(order, cursor, w, w[n].start);
    }
  }

  /** Every window of `v` ends and starts no later than the one of `w` at
      the same position. */
  ghost predicate NoLater(v: seq<Window>, w: seq<Window>)
  {
    |v| == |w| &&
    forall k :: 0 <= k < |v| ==> v[k].finish <= w[k].finish && v[k].start <= w[k].start
  }

  /** `NoLater` holds for all positions when it holds before the last one
      and at the last one. */
  lemma NoLaterSnoc(v: seq<Window>, w: seq<Window>)
    requires |v| == |w| > 0
    requires var n := |v| - 1;
      NoLater(v[..n], w[..n]) && v[n].finish <= w[n].finish && v[n].start <= w[n].start
    ensures NoLater(v, w)
  {
    var n := |v| - 1;
    assert forall k :: 0 <= k < n ==> v[..n][k] == v[k] && w[..n][k] == w[k];
  }

  /** The plan is the latest one: any feasible windows end and start no
      later than the plan's. */
  lemma {:induction false} BackwardPlanLatest(order: seq<Task>, cursor: int, v: seq<Window>)
    requires Feasible(order, cursor, v)
    ensures NoLater(v, BackwardPlan(order, cursor))
  {
    if order != [] {
      var n := |order| - 1;
      var w := BackwardPlan(order, cursor);
      BackwardPlanLast(order, cursor);
      FeasiblePrefix(order, cursor, v);
      FeasibleLater(order[..n], v[n].start, w[n].start, v[..n]);
      BackwardPlanLatest(order[..n], w[n].start, v[..n]);
      NoLaterSnoc(v, w);
    }
  }

  /** When the cursor starts at or after the last task's deadline, the last
      task finishes exactly at its deadline. */
  lemma LastFinishesAtDeadline(order: seq<Task>, cursor: int)
    requires order != [] && order[|order| - 1].deadline <= cursor
    ensures BackwardPlan(order, cursor)[|order| - 1].finish == order[|order| - 1].deadline
  {
    BackwardPlanLast(order, cursor);
  }

  /** With durations that are not negative, every window ends by the time
      any later window in the order starts. */
  lemma {:induction false} BackwardPlanOrdered(order: seq<Task>, cursor: int, i: int, j: int)
    requires forall k :: 0 <= k < |order| ==> order[k].duration >= 0
    requires 0 <= i < j < |order|
    ensures BackwardPlan(order, cursor)[i].finish <= BackwardPlan(order, cursor)[j].start
    decreases j - i
  {
    var w := BackwardPlan(order, cursor);
    BackwardPlanFeasible(order, cursor);
    if i + 1 < j {
      BackwardPlanOrdered(order, cursor, i + 1, j);
      assert w[i + 1].start <= w[i + 1].finish;
    }
  }

  /** With durations that are not negative, the window of every dependency
      that names a planned task ends by the time its dependent's window
      starts. */
  lemma DependencyWindowsPrecede(plannable: seq<Task>, alpha: real, order: seq<Task>, cursor: int, i: int, j: int)
    requires UniqueIds(plannable) && PriorityOrder(plannable, alpha, order)
    requires forall k :: 0 <= k < |order| ==> order[k].duration >= 0
    requires 0 <= i < |order| && 0 <= j < |order| && order[j].id in order[i].dependencies
    ensures BackwardPlan(order, cursor)[j].finish <= BackwardPlan(order, cursor)[i].start
  {
    PriorityOrderIsTopological(plannable, alpha, order);
    BackwardPlanOrdered(order, cursor, j, i);
  }

  /** No input task lists a dependency, so nothing forms a cycle. */
  lemma EmptyHasNoCycle(tasks: seq<Task>)
    requires tasks == []
    ensures !HasDependencyCycle(tasks)
  {
    forall c ensures !IsDependencyCycle(tasks, c) {
      if |c| > 0 {
        assert !CycleStep(tasks, c, 0);
      }
    }
  }

  /** One step of the backward pass, from the back: the window of task `i`
      and the cursor the tasks before it are planned with. */
  lemma BackwardPlanStep(order: seq<Task>, plan: seq<Window>, i: int, cursor: int)
    requires 0 <= i < |order| && |plan| == |order|
    requires BackwardPlan(order[..i + 1], cursor) == plan[..i + 1]
    ensures var t := order[i];
      var finish := if cursor <= t.deadline then cursor else t.deadline;
      plan[i] == Window(finish - t.duration, finish) &&
      BackwardPlan(order[..i], finish - t.duration) == plan[..i]
  {
    BackwardPlanLast(order[..i + 1], cursor);
    assert order[..i + 1][..i] == order[..i];
    assert plan[..i + 1][..i] == plan[..i];
  }

  /** Tasks with different ids are different objects. */
  lemma UniqueIdsDistinct(s: seq<Task>)
    requires UniqueIds(s)
    ensures forall i, j :: 0 <= i < j < |s| ==> s[i] != s[j]
  {
    forall i, j | 0 <= i < j < |s| ensures s[i] != s[j] {
      assert s[i].id != s[j].id;
    }
  }

  /** The backward pass: walk `order` from its last task to its first with
      a cursor that starts at `horizon`; each task finishes at the earlier of
      the cursor and its deadline, starts its duration before that, and the
      cursor moves to that start. Only the time fields of the tasks of
      `order` are written. */
  method AssignWindows(order: seq<Task>, horizon: int)
    requires UniqueIds(order)
    modifies order
    ensures forall k :: 0 <= k < |order| ==>
      order[k].startTime == Some(BackwardPlan(order, horizon)[k].start) &&
      order[k].finishTime == Some(BackwardPlan(order, horizon)[k].finish)
  {
    var currentTime := horizon;
    ghost var plan := BackwardPlan(order, horizon);
    var n := |order|;
    assert order[..n] == order && plan[..n] == plan;
    UniqueIdsDistinct(order);
    for i := n downto 0
      invariant BackwardPlan(order[..i], currentTime) == plan[..i]
      invariant forall k :: i <= k < n ==>
        order[k].startTime == Some(plan[k].start) && order[k].finishTime == Some(plan[k].finish)
    {
      var t := order[i];
      var finish := if currentTime <= t.deadline then currentTime else t.deadline;
      var start := finish - t.duration;
      BackwardPlanStep(order, plan, i, currentTime);
      assert forall k :: i < k < n ==> order[k] != t;
      t.finishTime := Some(finish);
      t.startTime := Some(start);
      currentTime := start;
    }
  }

  /** The time fields of the tasks of `order` hold the windows the backward
      pass computes with its cursor starting at the largest deadline. */
  ghost predicate HoldsBackwardPlan(order: seq<Task>)
    reads order
  {
    order != [] ==>
      forall k :: 0 <= k < |order| ==>
        order[k].startTime == Some(BackwardPlan(order, MaxDeadline(order))[k].start) &&
        order[k].finishTime == Some(BackwardPlan(order, MaxDeadline(order))[k].finish)
  }

  /** What the time fields hold once the backward pass has run from the
      largest deadline: every task finishes by its deadline after running
      for its duration, finishes by the time the next task starts, and the
      last task finishes exactly at its deadline. */
  lemma WindowsWritten(order: seq<Task>)
    requires order != [] && HoldsBackwardPlan(order)
    ensures forall k :: 0 <= k < |order| ==>
      order[k].finishTime.Some? && order[k].startTime.Some? &&
      order[k].finishTime.value <= order[k].deadline &&
      order[k].finishTime.value - order[k].startTime.value == order[k].duration
    ensures forall k :: 0 <= k < |order| - 1 ==>
      order[k].finishTime.value <= order[k + 1].startTime.value
    ensures order[|order| - 1].finishTime == Some(order[|order| - 1].deadline)
  {
    BackwardPlanFeasible(order, MaxDeadline(order));
    LastFinishesAtDeadline(order, MaxDeadline(order));
  }

  /** The scheduler. Ids must be unique. Only to-do, in-progress and paused
      tasks are planned; with none of them it returns an empty list. When
      the dependencies among the planned tasks contain a cycle it fails and
      writes no time field. Otherwise it returns the planned tasks in the
      priority order and gives each the window the backward pass computes
      from the largest deadline; no other task is written. */
  method ScheduleTasksWithPriority(tasks: seq<Task>, alpha: real) returns (r: Result<seq<Task>, SortError>)
    requires UniqueIds(tasks)
    modifies tasks
    ensures r.Err? <==> HasDependencyCycle(FilterPlannable(tasks))
    ensures r.Ok? ==> PriorityOrder(FilterPlannable(tasks), alpha, r.value)
    ensures r.Ok? ==> HoldsBackwardPlan(r.value)
    ensures forall t :: t in tasks && !(r.Ok? && t in r.value) ==>
      t.startTime == old(t.startTime) && t.finishTime == old(t.finishTime)
  {
    var tasksToDo := FilterPlannable(tasks);
    if tasksToDo == [] {
      EmptyHasNoCycle(tasksToDo);
      return Ok([]);
    }
    FilterKeepsUniqueIds(tasks);
    var sorted := TopologicalSortWithPriority(tasksToDo, alpha);
    if sorted.Err? {
      return Err(sorted.error);
    }
    var tasksOrdered := sorted.value;
    SubMultisetKeepsUniqueIds(tasksToDo, tasksOrdered);
    assert forall k :: 0 <= k < |tasksOrdered| ==> tasksOrdered[k] in tasks by {
      forall k | 0 <= k < |tasksOrdered| ensures tasksOrdered[k] in tasks {
        assert tasksOrdered[k] in multiset(tasksToDo);
      }
    }
    var maxDeadline := MaxDeadline(tasksOrdered);
    AssignWindows(tasksOrdered, maxDeadline);
    return Ok(tasksOrdered);
  }
}
