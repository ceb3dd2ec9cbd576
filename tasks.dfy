/**
  The parts of a raylet task that the lineage cache looks at: its id and
  the ids of the objects it takes as arguments.
 */
module Tasks {

  type TaskId = nat

  /** An object id names the task that creates the object and the object's
      position among that task's returns. */
  datatype ObjectId = ObjectId(creatorTask: TaskId, index: nat)

  /** The id of the task that created an object. */
  function ComputeTaskId(objectId: ObjectId): TaskId {
    objectId.creatorTask
  }

  /** A task: its id and its argument (dependency) list. */
  datatype Task = Task(id: TaskId, dependencies: seq<ObjectId>)

  /** Taking `x` out of the ids still to visit adds it to the visited ones. */
  lemma TakeOne(all: set<TaskId>, remaining: set<TaskId>, x: TaskId)
    requires remaining <= all && x in remaining
    ensures all - (remaining - {x}) == (all - remaining) + {x}
  {
  }
}
