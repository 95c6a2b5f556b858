/** The task record of the planner. */
module Tasks {
  import opened Wrappers

  /** The six statuses a task can have. */
  datatype Status = ToDo | InProgress | Paused | Cancelled | Done | Deleted

  /** Only to-do, in-progress and paused tasks are planned: cancelled, done
      and deleted tasks never are. */
  predicate Plannable(s: Status): (b: bool)
    ensures b <==> !(s == Cancelled || s == Done || s == Deleted)
  {
    s == ToDo || s == InProgress || s == Paused
  }

  /** A unit of work. Everything except the two time fields is fixed when the
      task is created; the scheduler fills in `startTime` and `finishTime`. */
  class Task {
    const id: int
    const deadline: int
    const duration: int
    const priority: int
    const status: Status
    const dependencies: seq<int>
    var startTime: Option<int>
    var finishTime: Option<int>

    /** A missing dependency list is the empty list. */
    constructor (id: int, deadline: int, duration: int, priority: int, status: Status, dependencies: seq<int>)
      ensures this.id == id && this.deadline == deadline && this.duration == duration
      ensures this.priority == priority && this.status == status
      ensures this.dependencies == dependencies
      ensures startTime == None && finishTime == None
    {
      this.id := id;
      this.deadline := deadline;
      this.duration := duration;
      this.priority := priority;
      this.status := status;
      this.dependencies := dependencies;
      startTime := None;
      finishTime := None;
    }
  }
}
