# Priority-weighted task planner, modelled in Dafny

The planner in `task_sorting.py` has two steps.

1. **Ordering.** It orders tasks with Kahn's algorithm, but the pool of ready
   tasks is kept sorted by an *effective deadline*, `deadline - alpha * priority`.
   After each task is taken from the front of the pool, the tasks it releases
   are appended and the pool is sorted again. If the pool empties before every
   task has been emitted, the ordering fails with a cycle error.
2. **Scheduling.** The scheduler keeps only the to-do, in-progress and paused
   tasks and orders them. It then walks that order from the back with a
   cursor that starts at the largest deadline. Each task finishes at the
   earlier of the cursor and its own deadline, and starts its duration before
   that. The cursor then moves to that start.

The model follows this structure, one module per part:

| module | file | what it holds |
|---|---|---|
| `Tasks` | `tasks.dfy` | the `Task` class and the status enumeration |
| `TaskOrder` | `task_order.dfy` | the specification of the ordering: readiness, pool rank, the greedy priority order, topological orders, dependency cycles |
| `DependencyGraph` | `dependency_graph.dfy` | the in-degree table and adjacency lists, built by two nested loops |
| `KahnSteps` | `kahn_steps.dfy` | the filter that seeds the pool, and the release loop after a task is emitted |
| `KeySort` | `key_sort.dfy` | the pool's re-sort, a stable sort by effective deadline |
| `Cycles` | `cycles.dfy` | a stuck pool implies a cycle; a cycle rules out every topological order |
| `Kahn` | `kahn.dfy` | the ordering method and the loop invariants that tie it to its specification |
| `Scheduling` | `scheduling.dfy` | the status filter, the backward pass and the scheduler |
| `Wrappers` | `wrappers.dfy` | `Option` and `Result` |

A task is a class. Its id, deadline, duration, priority, status and
dependencies never change after creation. The scheduler writes only the two
time fields, `startTime` and `finishTime`, and it writes them in place.
The ordering and the scheduler are imperative methods with loop invariants.
Each is proved against a specification function or predicate:

- **Ordering.** The output is the *priority order* of the input
  (`TaskOrder.PriorityOrder`). That order is a permutation of the input in
  which every task, at the moment it is emitted, is ready and is ranked first
  among the ready tasks. Ties on effective deadline are settled in a fixed
  way. A task that became ready at an earlier step goes first, because the
  re-sort is stable and new tasks are appended behind the pool. Among tasks
  that became ready at the same step, the one earlier in the input goes first.
- **Failure.** The ordering fails exactly when the dependencies among the
  input tasks contain a cycle.
- **Scheduling.** The windows the scheduler writes are the ones
  `Scheduling.BackwardPlan` computes. Lemmas show these windows are
  feasible and that they are the latest feasible ones. With durations that
  are not negative, every dependency's window ends by the time its
  dependent's window starts (`Scheduling.DependencyWindowsPrecede`). The
  scheduler itself does not check durations: with a negative duration a
  later window can start before an earlier one ends.

## Model

| member | source | states |
|---|---|---|
| Tasks.Task.constructor | task_sorting.py:4-20 | a new task stores the given id, deadline, duration, priority, status and dependency list, and has no start or finish time yet |
| Tasks.Plannable | task_sorting.py:87 | to-do, in-progress and paused tasks are plannable; cancelled, done and deleted tasks never are |
| TaskOrder.EffectiveDeadline | task_sorting.py:51-52 | the ranking key is the deadline pulled forward by `alpha` per priority point: with `alpha` 0 it is the deadline itself, and with non-negative `alpha` and priority it is never later than the deadline |
| Kahn.TaskMap | task_sorting.py:37 | the lookup table's keys are exactly the input ids, and each entry is an input task with that id |
| Kahn.TaskMapFinds | task_sorting.py:37 | with unique ids, the table finds every input task under its own id |
| DependencyGraph.AddDependencies | task_sorting.py:44-47 | for one task, each dependency entry that names an input task adds one to the task's in-degree and appends the task's id to that input task's list; entries naming no input task change nothing; no other entry changes |
| DependencyGraph.BuildGraph | task_sorting.py:40-47 | every input id gets an in-degree and a list; a task's in-degree is the number of its dependency entries that name input tasks, repeats included; the list of `c` is `Dependents(tasks, c)` |
| DependencyGraph.DependentsCount | task_sorting.py:43-47 | the list of `c` names a task exactly as often as that task's dependency list names `c` |
| DependencyGraph.DependentsInInputOrder | task_sorting.py:43-46 | each adjacency list names its dependents in input order |
| DependencyGraph.PendingZero | task_sorting.py:54 | an in-degree is 0 exactly when every dependency that names an input task has been emitted, so in-degree 0 means ready |
| DependencyGraph.PendingRelease | task_sorting.py:64-65 | emitting `c` lowers a task's count by the number of times its dependencies name `c` |
| KahnSteps.ZeroInDegree | task_sorting.py:54 | the first pool holds exactly the input tasks of in-degree 0 |
| KahnSteps.ZeroInDegreeInInputOrder | task_sorting.py:54 | the first pool, before sorting, keeps the input order |
| KahnSteps.ReleaseDependents | task_sorting.py:64-67 | after the loop every in-degree equals the count still pending, and the appended tasks are exactly those the specification function `Released` picks, in list order |
| KahnSteps.ReleasedSound | task_sorting.py:66-67 | a task is appended only if an entry already processed names it and it has nothing pending |
| KahnSteps.ReleasedComplete | task_sorting.py:66-67 | every processed entry whose task has nothing pending has had its task appended |
| KahnSteps.ReleasedInOrder | task_sorting.py:64-67 | tasks released by one emission are appended in input order |
| KeySort.InsertByKey | task_sorting.py:69 | inserting into a list sorted by key keeps it sorted and adds exactly the new task |
| KeySort.SortByKey | task_sorting.py:55 | the sort returns a permutation of its input sorted by effective deadline |
| KeySort.SortByKeyStable | task_sorting.py:69 | the sort is stable: tasks of equal key keep their relative order |
| KeySort.SortByKeyRanks | task_sorting.py:69 | a ready pool whose equal-key tasks are in tie order comes out of the sort in pool rank order |
| Kahn.FrontIsGreedy | task_sorting.py:61 | the task popped from the front of the pool is ready and ranked before every other ready task |
| Kahn.InitialPool | task_sorting.py:54-55 | the first sorted pool holds exactly the tasks ready before anything is emitted, each once, in rank order |
| Kahn.ReleasedOnlyReady | task_sorting.py:64-67 | every released task is an input task that depends on the emitted task and has nothing left pending |
| Kahn.ReleasedAllReady | task_sorting.py:64-67 | every input task that depends on the emitted task and has nothing left pending is released |
| Kahn.NextPool | task_sorting.py:61-69 | popping the front, appending the released tasks and re-sorting gives exactly the tasks ready at the next step, each once, in rank order |
| Kahn.Finished | task_sorting.py:71-73 | when the pool is empty, all tasks emitted means the output is the priority order and there is no cycle; fewer tasks emitted means there is a cycle |
| Kahn.TopologicalSortWithPriority | task_sorting.py:28-75 | on success the result is the priority order of the input; it fails exactly when the dependencies among the input tasks contain a cycle |
| TaskOrder.PriorityOrderIsTopological | task_sorting.py:60-67 | the priority order is a topological order: each dependency that names an input task comes before its dependent |
| TaskOrder.PriorityOrderPicksMinimalDeadline | task_sorting.py:60-69 | at each step the emitted task has the smallest effective deadline among the tasks ready at that step |
| TaskOrder.PriorityOrderUnique | task_sorting.py:60-69 | the priority order is determined by the input and `alpha`: any two outputs are equal |
| Cycles.StuckMeansCycle | task_sorting.py:71-73 | if tasks are left but none is ready, the dependencies among input tasks contain a cycle |
| Cycles.CycleBlocksTopologicalOrder | task_sorting.py:71-73 | an input with a dependency cycle has no topological order, so an order that covers every task rules out a cycle |
| Scheduling.FilterPlannable | task_sorting.py:87-88 | a task is kept exactly when it is an input task whose status is to-do, in-progress or paused; nothing is added or repeated |
| Scheduling.FilterPlannableInInputOrder | task_sorting.py:88 | the kept tasks come in input order, so ties among planned tasks are settled by their input positions |
| Scheduling.FilterKeepsUniqueIds | task_sorting.py:88 | the filtered tasks still have unique ids |
| Scheduling.EmptyHasNoCycle | task_sorting.py:90-91 | an empty task list has no dependency cycle, so the early empty result is not a cycle failure |
| Scheduling.MaxDeadline | task_sorting.py:98 | the result is at least every deadline of the list and equals one of them |
| Scheduling.BackwardPlan | task_sorting.py:104-114 | one window per task of the order; the last task's window ends by the cursor and by its deadline and lasts its duration; BackwardPlanFeasible and BackwardPlanLatest give the whole plan's meaning |
| Scheduling.BackwardPlanFeasible | task_sorting.py:104-114 | every window lasts its task's duration and ends by its deadline; each window ends by the time the next starts; the last ends by the starting cursor |
| Scheduling.BackwardPlanLatest | task_sorting.py:101-114 | any feasible choice of windows ends and starts no later than the computed ones, task by task |
| Scheduling.LastFinishesAtDeadline | task_sorting.py:98-106 | when the cursor starts at or after the last task's deadline, the last task finishes exactly at its deadline |
| Scheduling.BackwardPlanOrdered | task_sorting.py:104-114 | with durations that are not negative, each window ends by the time every later window starts |
| Scheduling.DependencyWindowsPrecede | task_sorting.py:94-114 | with durations that are not negative, the window of a planned dependency ends by the time its dependent's window starts |
| Scheduling.AssignWindows | task_sorting.py:99-114 | the backward loop writes into each task of the order exactly the window `BackwardPlan` computes from the starting cursor |
| Scheduling.WindowsWritten | task_sorting.py:104-114 | after the backward pass from the largest deadline, every task finishes by its deadline after running for its duration; each finishes by the time the next starts; the last finishes at its deadline |
| Scheduling.ScheduleTasksWithPriority | task_sorting.py:78-116 | it fails exactly when the plannable tasks have a dependency cycle; otherwise it returns the plannable tasks in priority order, each holding its backward-pass window; tasks it does not return keep their time fields, and so does every task on failure |

## Left out

- `Task.__repr__` (task_sorting.py:22-25) and the demonstration block (task_sorting.py:119-138) only format and print text.
- The cycle exception is modelled as the error value `CyclicDependency` of a `Result`; its message text is not modelled.
- `alpha` and effective deadlines are exact reals. Floating-point rounding is not modelled. Deadlines, durations and priorities are integers.
- Kahn.TopologicalSortWithPriority and Scheduling.ScheduleTasksWithPriority require unique task ids, as the id's description in the constructor's docstring promises. With repeated ids the source's dictionaries silently merge tasks; that behaviour is not modelled beyond `Kahn.TaskMap`, where the later task wins.
- The pool's re-sort is Python's built-in stable sort. It is modelled as a stable insertion sort written as a function. Any stable sort gives the same result, but the built-in sort's internal steps are not modelled.
- Statuses are the six values of an enumeration instead of free-form strings. A status string outside the six, which the source would simply not plan, cannot be represented.
- Both operations default `alpha` to 1.0 (task_sorting.py:28 and :78). Kahn.TopologicalSortWithPriority and Scheduling.ScheduleTasksWithPriority take `alpha` as a required argument; a caller wanting the default passes 1.0.
- Ids and dependency entries may be any hashable value in the source. The model fixes them to integers; only their equality is used.
- A missing dependency list (`None`) is passed to the constructor as the empty sequence.
- The source builds the ready pool and the result as Python lists, mutated in place. The model keeps them as sequences held in local variables. The in-degree table and adjacency lists are maps in local variables, updated by reassignment.
- Scheduling.ScheduleTasksWithPriority: the property that a dependency's window ends by the time its dependent's starts holds only for durations that are not negative. The source does not check durations, so this property is a separate lemma with that precondition, not part of the scheduler's contract.
