/**
  The raylet lineage cache: a lineage of uncommitted tasks, the READY tasks
  still to be written to the GCS, the remote tasks subscribed to, and for
  each uncommitted parent the READY children waiting on it. Requests to the
  GCS (task-table writes and pubsub (un)subscriptions) are appended to
  `requests`; the commit callback of a write is a later call of
  `HandleEntryCommitted` by the environment.
 */
module LineageCaches {
  import opened Optional
  import opened GcsStatuses
  import opened Tasks
  import opened LineageEntries
  import opened Lineages
  import opened LineageTraversals
  import opened LineageCacheSpec

  class LineageCache {
    const lineage: Lineage
    var uncommittedReadyTasks: set<TaskId>
    var subscribedTasks: set<TaskId>
    var uncommittedReadyChildren: Children
    var requests: seq<GcsRequest>

    ghost predicate Valid()
      reads this, lineage
    {
      lineage.Valid()
    }

    constructor ()
      ensures Valid() && fresh(lineage)
      ensures lineage.entries == map[] && uncommittedReadyTasks == {} && subscribedTasks == {}
      ensures uncommittedReadyChildren == map[] && requests == []
    {
      lineage := new Lineage();
      uncommittedReadyTasks := {};
      subscribedTasks := {};
      uncommittedReadyChildren := map[];
      requests := [];
    }

    /** Merges the uncommitted lineage that came with `task` from a remote
        node, then adds `task` at UNCOMMITTED_WAITING. Every entry of
        `uncommitted` the merge may visit must be UNCOMMITTED_REMOTE, and
        the task must not already be WAITING or further along. `merged` is
        the lineage between the merge and the insertion of the task: a
        received entry is in it whenever the merge reaches it, unless the
        cache already held that key at a status at least as high. */
    method AddWaitingTask(task: Task, uncommitted: Lineage) returns (ghost merged: Entries)
      requires Valid() && uncommitted.Valid() && uncommitted != lineage
      requires forall k :: k in uncommitted.entries && Reach(uncommitted.entries, StopWhenNotFound, task.id, k) ==>
                 uncommitted.entries[k].status == UncommittedRemote
      requires Less(StatusOf(lineage.entries, task.id), UncommittedWaiting)
      modifies lineage
      ensures Valid()
      ensures task.id in lineage.entries && lineage.entries[task.id] == LineageEntry(task, UncommittedWaiting)
      ensures forall k :: k in old(lineage.entries) ==> k in lineage.entries
      ensures forall k :: k in lineage.entries && k != task.id ==>
                || (k in old(lineage.entries) && lineage.entries[k] == old(lineage.entries)[k])
                || (&& k in uncommitted.entries
                    && Less(StatusOf(old(lineage.entries), k), UncommittedRemote)
                    && lineage.entries[k] == uncommitted.entries[k]
                    && lineage.entries[k].status == UncommittedRemote
                    && Reach(uncommitted.entries, StopWhenNotFound, task.id, k))
      ensures lineage.entries == merged[task.id := LineageEntry(task, UncommittedWaiting)]
      ensures Grows(old(lineage.entries), merged)
      ensures CopiedFrom(old(lineage.entries), merged, uncommitted.entries, StopWhenNotFound, task.id)
      ensures task.id in uncommitted.entries ==>
                !Less(StatusOf(merged, task.id), uncommitted.entries[task.id].status)
      ensures ParentsCovered(old(lineage.entries), merged, uncommitted.entries, StopWhenNotFound)
      ensures merged == old(lineage.entries) +
                Reachable(PendingPart(uncommitted.entries, old(lineage.entries)), StopWhenNotFound, task.id)
      ensures unchanged(this)
      ensures (forall k :: k in uncommitted.entries && Reach(uncommitted.entries, StopWhenNotFound, task.id, k) ==>
                 k !in old(lineage.entries)) ==>
              forall k :: k in uncommitted.entries && Reach(uncommitted.entries, StopWhenNotFound, task.id, k) && k != task.id ==>
                k in lineage.entries && lineage.entries[k] == uncommitted.entries[k]
    {
      var from := uncommitted.entries;
      ghost var before := lineage.entries;
      MergeLineageHelper(task.id, from, lineage, StopWhenNotFound);
      merged := lineage.entries;
      ReceivedMergeShape(before, merged, from, task.id);
      if forall k :: k in from && Reach(from, StopWhenNotFound, task.id, k) ==> k !in before {
        MergeFillsAbsent(before, merged, from, StopWhenNotFound, task.id);
      }
      if task.id in from && Reach(from, StopWhenNotFound, task.id, task.id) {
        assert from[task.id].status == UncommittedRemote;
      }
      var taskEntry := LineageEntry(task, UncommittedWaiting);
      var inserted := lineage.SetEntry(taskEntry);
      assert inserted;
    }

    /** Adds `task` at UNCOMMITTED_READY and attempts to flush it; a task
        that cannot be flushed yet is remembered as ready. */
    method AddReadyTask(task: Task)
      requires Valid()
      requires Less(StatusOf(lineage.entries, task.id), UncommittedReady)
      requires NoWaitingParent(lineage.entries[task.id := LineageEntry(task, UncommittedReady)], task.id)
      modifies this, lineage
      ensures Valid()
      ensures var m := old(lineage.entries)[task.id := LineageEntry(task, UncommittedReady)];
        var flushed := AllParentsCommitted(m, task.id);
        var ps := m[task.id].Parents();
        && lineage.entries == (if flushed then m[task.id := LineageEntry(task, Committing)] else m)
        && uncommittedReadyTasks == (if flushed then old(uncommittedReadyTasks) else old(uncommittedReadyTasks) + {task.id})
        && subscribedTasks == old(subscribedTasks) + RemoteAmong(m, ps)
        && ChildAdded(old(uncommittedReadyChildren), uncommittedReadyChildren, UncommittedAmong(m, ps), task.id)
        && |requests| >= |old(requests)| && requests[..|old(requests)|] == old(requests)
        && Enumerates(requests[|old(requests)|..], FlushRequests(m, old(subscribedTasks), task.id))
    {
      var newEntry := LineageEntry(task, UncommittedReady);
      var inserted := lineage.SetEntry(newEntry);
      assert inserted;
      var flushed := FlushTask(task.id);
      if !flushed {
        uncommittedReadyTasks := uncommittedReadyTasks + {task.id};
      }
    }

    /** Puts a WAITING task back to UNCOMMITTED_REMOTE, keeping its entry in
        case a local task depends on it. */
    method RemoveWaitingTask(taskId: TaskId)
      requires Valid()
      requires taskId in lineage.entries && lineage.entries[taskId].status == UncommittedWaiting
      modifies lineage
      ensures Valid()
      ensures lineage.entries == old(lineage.entries)[taskId := old(lineage.entries)[taskId].(status := UncommittedRemote)]
      ensures unchanged(this)
    {
      var entry := lineage.PopEntry(taskId);
      var reset := entry.value.ResetStatus(UncommittedRemote);
      var inserted := lineage.SetEntry(reset);
      assert inserted;
    }

    /** The entries reachable from `taskId` through uncommitted entries:
        a new lineage that holds no COMMITTED entry, and holds the task's
        own entry when the task is in the cache and not COMMITTED. The
        cache itself is left unchanged. */
    method GetUncommittedLineage(taskId: TaskId) returns (r: Lineage)
      requires Valid()
      ensures fresh(r)
      ensures r.Valid()
      ensures r.entries == Reachable(lineage.entries, StopAtCommitted, taskId)
      ensures forall k :: k in r.entries ==> r.entries[k].status != Committed
      ensures taskId in lineage.entries && lineage.entries[taskId].status != Committed ==>
                taskId in r.entries && r.entries[taskId] == lineage.entries[taskId]
    {
      r := new Lineage();
      MergeLineageHelper(taskId, lineage.entries, r, StopAtCommitted);
      MergeIntoEmpty(lineage.entries, r.entries, StopAtCommitted, taskId);
      forall k | k in r.entries ensures r.entries[k].status != Committed {
        ReachEnds(lineage.entries, StopAtCommitted, taskId, k);
      }
      if taskId in lineage.entries && lineage.entries[taskId].status != Committed {
        ReachSelf(lineage.entries, StopAtCommitted, taskId);
      }
    }

    /** The loop of a flush attempt of `taskId` over its parents: records
        the task as a child of each uncommitted parent, requests a
        subscription to each remote parent not subscribed to yet, and says
        whether every parent in the lineage is COMMITTED. No parent may
        still be WAITING. */
    method ScanParents(taskId: TaskId, parentIds: set<TaskId>)
      returns (allArgumentsCommitted: bool, ghost issued: seq<GcsRequest>)
      requires Valid() && taskId in lineage.entries && parentIds == lineage.entries[taskId].Parents()
      requires NoWaitingParent(lineage.entries, taskId)
      modifies this
      ensures lineage.entries == old(lineage.entries)
      ensures requests == old(requests) + issued
      ensures uncommittedReadyTasks == old(uncommittedReadyTasks)
      ensures ParentsScanned(lineage.entries, taskId, old(subscribedTasks), old(uncommittedReadyChildren), parentIds,
                             allArgumentsCommitted, subscribedTasks, uncommittedReadyChildren, issued)
    {
      ghost var m := lineage.entries;
      ghost var s0 := subscribedTasks;
      ghost var c0 := uncommittedReadyChildren;
      ghost var r0 := requests;
      allArgumentsCommitted := true;
      var remaining := parentIds;
      ghost var done: set<TaskId> := {};
      issued := [];
      ParentsScannedStart(m, taskId, s0, c0);
      while remaining != {}
        invariant remaining <= parentIds && done == parentIds - remaining
        invariant uncommittedReadyTasks == old(uncommittedReadyTasks)
        invariant requests == r0 + issued
        invariant ParentsScanned(m, taskId, s0, c0, done, allArgumentsCommitted,
                                 subscribedTasks, uncommittedReadyChildren, issued)
        decreases remaining
      {
        var parentId :| parentId in remaining;
        ghost var all := allArgumentsCommitted;
        ghost var s := subscribedTasks;
        ghost var c := uncommittedReadyChildren;
        ghost var issued0 := issued;
        var parent := lineage.GetEntry(parentId);
        if parent.Some? && parent.value.status != Committed {
          assert parent.value.status != UncommittedWaiting;
          if parent.value.status == UncommittedRemote {
            if parentId !in subscribedTasks {
              subscribedTasks := subscribedTasks + {parentId};
              LogAppend(r0, issued, [RequestNotifications(parentId)]);
              requests := requests + [RequestNotifications(parentId)];
              issued := issued + [RequestNotifications(parentId)];
            }
          }
          allArgumentsCommitted := false;
          uncommittedReadyChildren := uncommittedReadyChildren[parentId :=
            ChildrenOf(uncommittedReadyChildren, parentId) + {taskId}];
          ParentsScannedStep(m, taskId, s0, c0, done, all, s, c, issued0, parentId,
                             allArgumentsCommitted, subscribedTasks, uncommittedReadyChildren, issued);
        } else {
          ParentsScannedStep(m, taskId, s0, c0, done, all, s, c, issued0, parentId,
                             allArgumentsCommitted, subscribedTasks, uncommittedReadyChildren, issued);
        }
        TakeOne(parentIds, remaining, parentId);
        done := done + {parentId};
        remaining := remaining - {parentId};
      }
      assert done == parentIds;
    }

    /** One flush attempt of a READY task: written to the GCS and marked
        COMMITTING exactly when every parent in the lineage is COMMITTED;
        otherwise recorded as a child of each uncommitted parent, with a
        subscription requested for each remote parent not subscribed to
        yet. No parent may still be WAITING. */
    method FlushTask(taskId: TaskId) returns (flushed: bool)
      requires Valid()
      requires taskId in lineage.entries && lineage.entries[taskId].status == UncommittedReady
      requires NoWaitingParent(lineage.entries, taskId)
      modifies this, lineage
      ensures Valid()
      ensures flushed <==> AllParentsCommitted(old(lineage.entries), taskId)
      ensures lineage.entries == if flushed then old(lineage.entries)[taskId := old(lineage.entries)[taskId].(status := Committing)]
                                 else old(lineage.entries)
      ensures subscribedTasks == old(subscribedTasks) + RemoteAmong(old(lineage.entries), old(lineage.entries)[taskId].Parents())
      ensures ChildAdded(old(uncommittedReadyChildren), uncommittedReadyChildren,
                         UncommittedAmong(old(lineage.entries), old(lineage.entries)[taskId].Parents()), taskId)
      ensures uncommittedReadyTasks == old(uncommittedReadyTasks)
      ensures |requests| >= |old(requests)| && requests[..|old(requests)|] == old(requests)
      ensures Enumerates(requests[|old(requests)|..], FlushRequests(old(lineage.entries), old(subscribedTasks), taskId))
    {
      ghost var m := lineage.entries;
      ghost var s0 := subscribedTasks;
      ghost var c0 := uncommittedReadyChildren;
      ghost var r0 := requests;
      var entry := lineage.GetEntry(taskId);
      var parentIds := entry.value.GetParentTaskIds();
      ghost var issued;
      var allArgumentsCommitted;
      allArgumentsCommitted, issued := ScanParents(taskId, parentIds);
      assert lineage.entries == m;
      assert parentIds == m[taskId].Parents();
      ghost var s := subscribedTasks;
      ghost var c := uncommittedReadyChildren;
      if allArgumentsCommitted {
        LogAppend(r0, issued, [TaskAdd(taskId, entry.value.task)]);
        requests := requests + [TaskAdd(taskId, entry.value.task)];
        var popped := lineage.PopEntry(taskId);
        var (changed, committing) := popped.value.SetStatus(Committing);
        assert changed;
        var inserted := lineage.SetEntry(committing);
        assert inserted;
        assert lineage.entries == m[taskId := m[taskId].(status := Committing)];
      }
      assert requests[|r0|..] == if allArgumentsCommitted then issued + [TaskAdd(taskId, m[taskId].task)] else issued;
      flushed := allArgumentsCommitted;
      assert subscribedTasks == s && uncommittedReadyChildren == c && uncommittedReadyTasks == old(uncommittedReadyTasks);
      FlushTaskDone(m, taskId, s0, c0, allArgumentsCommitted, s, c, issued);
    }

    /** One attempt of a batch: flushes `t` against the lineage left by the
        attempts of `done`, and erases `t` from the ready tasks when it was
        flushed. */
    method FlushNext(t: TaskId, ghost m0: Entries, ghost s0: set<TaskId>, ghost c0: Children,
                     ghost tasks: set<TaskId>, ghost done: set<TaskId>, ghost issued: seq<GcsRequest>)
      returns (ghost more: seq<GcsRequest>)
      requires Valid() && Flushable(m0, tasks) && done <= tasks && t in tasks - done
      requires FlushedSoFar(m0, s0, c0, done, lineage.entries, subscribedTasks, uncommittedReadyChildren, issued)
      requires AllParentsCommitted(m0, t) ==> t in uncommittedReadyTasks
      modifies this, lineage
      ensures Valid()
      ensures requests == old(requests) + more
      ensures FlushedSoFar(m0, s0, c0, done + {t}, lineage.entries, subscribedTasks, uncommittedReadyChildren, issued + more)
      ensures uncommittedReadyTasks == old(uncommittedReadyTasks) - (if AllParentsCommitted(m0, t) then {t} else {})
    {
      ghost var m := lineage.entries;
      ghost var s := subscribedTasks;
      ghost var c := uncommittedReadyChildren;
      ghost var r := requests;
      StillFlushable(m0, tasks, done, t);
      var flushed := FlushTask(t);
      if flushed {
        uncommittedReadyTasks := uncommittedReadyTasks - {t};
      }
      more := requests[|r|..];
      assert requests == r + more;
      FlushStep(m0, s0, c0, tasks, done, t, m, s, c, issued,
                lineage.entries, subscribedTasks, uncommittedReadyChildren, more);
    }

    /** Attempts to flush each of `tasks` once, all against the current
        lineage (a flush only marks READY entries COMMITTING, which no other
        attempt looks at), and erases each flushed task from the ready
        tasks, which must hold it. */
    method FlushEach(tasks: set<TaskId>)
      requires Valid() && Flushable(lineage.entries, tasks)
      requires forall t :: t in tasks && t in lineage.entries && AllParentsCommitted(lineage.entries, t) ==>
                 t in uncommittedReadyTasks
      modifies this, lineage
      ensures Valid()
      ensures |requests| >= |old(requests)| && requests[..|old(requests)|] == old(requests)
      ensures FlushedSoFar(old(lineage.entries), old(subscribedTasks), old(uncommittedReadyChildren), tasks,
                           lineage.entries, subscribedTasks, uncommittedReadyChildren, requests[|old(requests)|..])
      ensures uncommittedReadyTasks == old(uncommittedReadyTasks) - Flushed(old(lineage.entries), tasks)
    {
      ghost var m0 := lineage.entries;
      ghost var s0 := subscribedTasks;
      ghost var c0 := uncommittedReadyChildren;
      ghost var r0 := requests;
      ghost var ready0 := uncommittedReadyTasks;
      var remaining := tasks;
      ghost var done: set<TaskId> := {};
      ghost var issued: seq<GcsRequest> := [];
      FlushedSoFarStart(m0, s0, c0);
      while remaining != {}
        invariant Valid()
        invariant remaining <= tasks && done == tasks - remaining
        invariant requests == r0 + issued
        invariant FlushedSoFar(m0, s0, c0, done, lineage.entries, subscribedTasks, uncommittedReadyChildren, issued)
        invariant uncommittedReadyTasks == ready0 - Flushed(m0, done)
        decreases remaining
      {
        var t :| t in remaining;
        ghost var more := FlushNext(t, m0, s0, c0, tasks, done, issued);
        FlushedStep(m0, done, t);
        LogAppend(r0, issued, more);
        issued := issued + more;
        TakeOne(tasks, remaining, t);
        done := done + {t};
        remaining := remaining - {t};
      }
      assert done == tasks;
      assert requests[|r0|..] == issued;
    }

    /** Attempts to flush every READY task remembered so far; those flushed
        are no longer remembered. */
    method Flush()
      requires Valid() && Flushable(lineage.entries, uncommittedReadyTasks)
      modifies this, lineage
      ensures Valid()
      ensures |requests| >= |old(requests)| && requests[..|old(requests)|] == old(requests)
      ensures FlushedSoFar(old(lineage.entries), old(subscribedTasks), old(uncommittedReadyChildren), old(uncommittedReadyTasks),
                           lineage.entries, subscribedTasks, uncommittedReadyChildren, requests[|old(requests)|..])
      ensures uncommittedReadyTasks == old(uncommittedReadyTasks) - Flushed(old(lineage.entries), old(uncommittedReadyTasks))
    {
      FlushEach(uncommittedReadyTasks);
    }

    /** The lineage side of a commit notification: pops the entry of
        `taskId` and the ancestors of its parents (each REMOTE or
        COMMITTED), and puts the entry back at COMMITTED. */
    method CommitEntry(taskId: TaskId)
      requires Valid() && taskId in lineage.entries
      requires forall k ::
                 (k in lineage.entries && k != taskId &&
                  AncestorOf(lineage.entries - {taskId}, lineage.entries[taskId].Parents(), k)) ==>
                 RemoteOrCommitted(lineage.entries[k].status)
      modifies lineage
      ensures Valid()
      ensures lineage.entries == CommittedLineage(old(lineage.entries), taskId)
    {
      ghost var m := lineage.entries;
      var entry := lineage.PopEntry(taskId);
      ghost var rest := lineage.entries;
      var parentIds := entry.value.GetParentTaskIds();
      var remaining := parentIds;
      PruneStart(rest, parentIds);
      while remaining != {}
        invariant Valid()
        invariant remaining <= parentIds
        invariant PruneProgress(rest, lineage.entries, parentIds, parentIds - remaining)
        decreases remaining
      {
        var parentId :| parentId in remaining;
        ghost var pre := lineage.entries;
        forall k | k in pre && Reach(pre, StopWhenNotFound, parentId, k)
          ensures RemoteOrCommitted(pre[k].status)
        {
          ReachSubMap(pre, rest, StopWhenNotFound, parentId, k);
        }
        PopAncestorTasks(parentId, lineage);
        PruneStep(rest, pre, lineage.entries, parentIds, parentIds - remaining, parentId);
        TakeOne(parentIds, remaining, parentId);
        remaining := remaining - {parentId};
      }
      PruneDone(m, taskId, lineage.entries);
      var (committed, committedEntry) := entry.value.SetStatus(Committed);
      if !committed {
        assert committedEntry.status == Committed;
      }
      var inserted := lineage.SetEntry(committedEntry);
      assert inserted;
    }

    /** Handles the GCS notification that `taskId` was committed: updates
        the lineage as `CommitEntry` says, cancels the subscription to the
        task, and attempts to flush the children that waited on it. */
    method HandleEntryCommitted(taskId: TaskId)
      requires Valid() && taskId in lineage.entries
      requires forall k ::
                 (k in lineage.entries && k != taskId &&
                  AncestorOf(lineage.entries - {taskId}, lineage.entries[taskId].Parents(), k)) ==>
                 RemoteOrCommitted(lineage.entries[k].status)
      requires taskId in uncommittedReadyChildren ==>
                 var m' := CommittedLineage(lineage.entries, taskId);
                 var kids := uncommittedReadyChildren[taskId];
                 && Flushable(m', kids)
                 && forall t :: t in kids && t in m' && AllParentsCommitted(m', t) ==> t in uncommittedReadyTasks
      modifies this, lineage
      ensures Valid()
      ensures var m' := CommittedLineage(old(lineage.entries), taskId);
        var wasSubscribed := taskId in old(subscribedTasks);
        var n := |old(requests)| + (if wasSubscribed then 1 else 0);
        var kids := ChildrenOf(old(uncommittedReadyChildren), taskId);
        && |requests| >= n && requests[..|old(requests)|] == old(requests)
        && (wasSubscribed ==> requests[|old(requests)|] == CancelNotifications(taskId))
        && FlushedSoFar(m', old(subscribedTasks) - {taskId}, old(uncommittedReadyChildren) - {taskId}, kids,
                        lineage.entries, subscribedTasks, uncommittedReadyChildren, requests[n..])
        && uncommittedReadyTasks == old(uncommittedReadyTasks) - Flushed(m', kids)
      ensures taskId in lineage.entries && lineage.entries[taskId].status == Committed
      ensures taskId !in subscribedTasks && taskId !in uncommittedReadyChildren
    {
      ghost var m := lineage.entries;
      ghost var r := requests;
      ghost var ready := uncommittedReadyTasks;
      ghost var kids := ChildrenOf(uncommittedReadyChildren, taskId);
      CommitEntry(taskId);
      ghost var m' := lineage.entries;
      assert taskId in m' && m'[taskId].status == Committed by {
        CommittedLineageShape(m, taskId);
      }

      if taskId in subscribedTasks {
        requests := requests + [CancelNotifications(taskId)];
        subscribedTasks := subscribedTasks - {taskId};
      }
      ghost var n := |requests|;
      ghost var s := subscribedTasks;
      ghost var c := uncommittedReadyChildren - {taskId};
      ghost var rn := requests;

      if taskId in uncommittedReadyChildren {
        var children := uncommittedReadyChildren[taskId];
        uncommittedReadyChildren := uncommittedReadyChildren - {taskId};
        FlushEach(children);
      } else {
        FlushedSoFarStart(m', s, c);
        assert Flushed(m', {}) == {};
      }
      assert requests[..|r|] == r by {
        assert requests[..|rn|] == rn;
      }
      CommittedNeverBlocks(m', kids, taskId);
      MarkCommittingKeepsCommitted(m', kids, taskId);
    }
  }
}
