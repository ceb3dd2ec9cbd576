/**
  An entry of a lineage: a task together with its status in the GCS.
  In the raylet this is a value type that is copied and moved through
  optionals, so it is a datatype here and `SetStatus`/`ResetStatus` return
  the updated entry.
 */
module LineageEntries {
  import opened GcsStatuses
  import opened Tasks

  datatype LineageEntry = LineageEntry(task: Task, status: GcsStatus) {

    /** The key of this entry in a lineage. */
    function EntryId(): TaskId {
      task.id
    }

    /** A task's parents are the tasks that created its arguments. */
    function Parents(): set<TaskId> {
      set d | d in task.dependencies :: ComputeTaskId(d)
    }

    /** Collects the parent ids one dependency at a time. */
    method GetParentTaskIds() returns (parentIds: set<TaskId>)
      ensures parentIds == Parents()
    {
      var dependencies := task.dependencies;
      parentIds := {};
      for i := 0 to |dependencies|
        invariant parentIds == set d | d in dependencies[..i] :: ComputeTaskId(d)
      {
        parentIds := parentIds + {ComputeTaskId(dependencies[i])};
      }
      assert dependencies[..|dependencies|] == dependencies;
    }

    /** Sets the status only when `newStatus` is strictly greater, and says
        whether it did. */
    function SetStatus(newStatus: GcsStatus): (r: (bool, LineageEntry))
      ensures r.0 <==> Less(status, newStatus)
      ensures r.1.task == task
      ensures r.1.status == (if r.0 then newStatus else status)
      ensures !Less(r.1.status, status) && !Less(r.1.status, newStatus)
    {
      if Less(status, newStatus) then (true, this.(status := newStatus)) else (false, this)
    }

    /** Lowers the status; the new status must be strictly lower. */
    function ResetStatus(newStatus: GcsStatus): (r: LineageEntry)
      requires Less(newStatus, status)
      ensures r.task == task && r.status == newStatus
      ensures Less(r.status, status)
    {
      this.(status := newStatus)
    }
  }

  /** The parents are exactly the creators of the task's dependencies, one
      per dependency. */
  lemma ParentsByIndex(e: LineageEntry)
    ensures forall i :: 0 <= i < |e.task.dependencies| ==> ComputeTaskId(e.task.dependencies[i]) in e.Parents()
    ensures forall p :: p in e.Parents() ==>
              exists i :: 0 <= i < |e.task.dependencies| && ComputeTaskId(e.task.dependencies[i]) == p
  {
    forall i | 0 <= i < |e.task.dependencies|
      ensures ComputeTaskId(e.task.dependencies[i]) in e.Parents()
    {
      assert e.task.dependencies[i] in e.task.dependencies;
    }
  }

  /** A status can only rise through `SetStatus`: whatever the argument,
      the result is at least the old status and at least the argument. */
  lemma SetStatusIsMonotone(e: LineageEntry, s: GcsStatus, t: GcsStatus)
    ensures !Less(e.SetStatus(s).1.status, e.status)
    ensures !Less(e.SetStatus(s).1.SetStatus(t).1.status, e.SetStatus(t).1.status)
  {
  }

  /** Setting the status a second time to the same value changes nothing. */
  lemma SetStatusIdempotent(e: LineageEntry, s: GcsStatus)
    ensures !e.SetStatus(s).1.SetStatus(s).0
    ensures e.SetStatus(s).1.SetStatus(s).1 == e.SetStatus(s).1
  {
  }
}
