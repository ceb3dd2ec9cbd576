/**
  The two recursive traversals of lineage_cache.cc that are not members of
  a class: `MergeLineageHelper` (a DFS copy along parent edges) and
  `PopAncestorTasks` (a DFS removal along parent edges).
 */
module LineageTraversals {
  import opened GcsStatuses
  import opened Tasks
  import opened LineageEntries
  import opened Lineages

  /** No status goes down from `m` to `m'` (a missing entry reads NONE). */
  ghost predicate Grows(m: Entries, m': Entries) {
    forall k :: !Less(StatusOf(m', k), StatusOf(m, k))
  }

  /** The entries of `from` that a successful `SetEntry` into `m` would
      still change: those strictly above their status in `m`. */
  ghost function PendingPart(from: Entries, m: Entries): Entries {
    map k | k in from && Less(StatusOf(m, k), from[k].status) :: from[k]
  }

  /** Every entry of `m'` is either the entry of `m` unchanged, or a copy of
      the entry of `from` at a strictly higher status, at a key that a
      traversal of `from` under `c` reaches from `a` through entries that
      were all still pending against `m` (the DFS does not go past an entry
      whose `SetEntry` fails). */
  ghost predicate CopiedFrom(m: Entries, m': Entries, from: Entries, c: StopCondition, a: TaskId) {
    forall k :: k in m' ==>
      || (k in m && m'[k] == m[k])
      || (&& Less(StatusOf(m, k), m'[k].status) && k in from && m'[k] == from[k]
          && Reach(PendingPart(from, m), c, a, k))
  }

  /** As the target grows, the pending part of `from` only loses entries. */
  lemma PendingPartShrinks(from: Entries, m: Entries, m': Entries)
    requires Grows(m, m')
    ensures SubMap(PendingPart(from, m'), PendingPart(from, m))
  {
    forall k | k in PendingPart(from, m') ensures k in PendingPart(from, m) {
      assert !Less(StatusOf(m', k), StatusOf(m, k));
    }
  }

  /** Every parent of an entry raised from `m` to `m'` that the traversal
      may enter is in `m'` at least at its status in `from`. */
  ghost predicate ParentsCovered(m: Entries, m': Entries, from: Entries, c: StopCondition) {
    forall k, p ::
      && k in m' && Less(StatusOf(m, k), m'[k].status)
      && p in m'[k].Parents() && p in from && !Stops(c, from[p].status)
      ==> !Less(StatusOf(m', p), from[p].status)
  }

  /** The keys of `from` that a successful `SetEntry` of their entry into
      `m` would still change. The DFS only descends after such a success,
      so this set bounds its depth. */
  function Pending(from: Entries, m: Entries): set<TaskId> {
    set k | k in from && Less(StatusOf(m, k), from[k].status)
  }

  lemma PendingShrinks(from: Entries, m: Entries, m': Entries)
    requires Grows(m, m')
    ensures Pending(from, m') <= Pending(from, m)
  {
    forall k | k in Pending(from, m') ensures k in Pending(from, m) {
      assert !Less(StatusOf(m', k), StatusOf(m, k));
    }
  }

  /** What the DFS loop over the parents of `taskId` has established once
      the parents in `done` have been merged, `before` being the target
      before `taskId`'s own entry was inserted. */
  ghost predicate MergeProgress(before: Entries, cur: Entries, from: Entries, stop: StopCondition,
                                taskId: TaskId, done: set<TaskId>)
    requires taskId in from
  {
    && Grows(before, cur)
    && Less(StatusOf(before, taskId), from[taskId].status)
    && taskId in cur && cur[taskId] == from[taskId]
    && CopiedFrom(before, cur, from, stop, taskId)
    && (forall p :: p in done && p in from && !Stops(stop, from[p].status) ==>
          !Less(StatusOf(cur, p), from[p].status))
    && (forall k, p ::
          && k in cur && k != taskId && Less(StatusOf(before, k), cur[k].status)
          && p in cur[k].Parents() && p in from && !Stops(stop, from[p].status)
          ==> !Less(StatusOf(cur, p), from[p].status))
  }

  /** One iteration of the loop: merging parent `p` keeps the progress. */
  lemma MergeStep(before: Entries, pre: Entries, post: Entries, from: Entries, stop: StopCondition,
                  taskId: TaskId, done: set<TaskId>, p: TaskId)
    requires taskId in from && !Stops(stop, from[taskId].status) && p in from[taskId].Parents()
    requires MergeProgress(before, pre, from, stop, taskId, done)
    requires Grows(pre, post)
    requires CopiedFrom(pre, post, from, stop, p)
    requires p in from && !Stops(stop, from[p].status) ==> !Less(StatusOf(post, p), from[p].status)
    requires ParentsCovered(pre, post, from, stop)
    ensures MergeProgress(before, post, from, stop, taskId, done + {p})
    ensures Pending(from, post) < Pending(from, before)
  {
    MergeCopiedStep(before, pre, post, from, stop, taskId, p);
    MergeCoveredStep(before, pre, post, from, stop, taskId, done, p);
    PendingShrinks(from, before, post);
    assert taskId in Pending(from, before) - Pending(from, post);
  }

  /** Merging parent `p` copies only entries reachable from `taskId`. */
  lemma MergeCopiedStep(before: Entries, pre: Entries, post: Entries, from: Entries, stop: StopCondition,
                        taskId: TaskId, p: TaskId)
    requires taskId in from && !Stops(stop, from[taskId].status) && p in from[taskId].Parents()
    requires Less(StatusOf(before, taskId), from[taskId].status)
    requires Grows(before, pre) && CopiedFrom(before, pre, from, stop, taskId)
    requires Grows(pre, post) && CopiedFrom(pre, post, from, stop, p)
    ensures Grows(before, post) && CopiedFrom(before, post, from, stop, taskId)
  {
    forall k ensures !Less(StatusOf(post, k), StatusOf(before, k)) {
      assert !Less(StatusOf(post, k), StatusOf(pre, k)) && !Less(StatusOf(pre, k), StatusOf(before, k));
    }
    PendingPartShrinks(from, before, pre);
    forall k | k in post && Less(StatusOf(pre, k), post[k].status)
      ensures Reach(PendingPart(from, before), stop, taskId, k)
    {
      ReachSubMap(PendingPart(from, pre), PendingPart(from, before), stop, p, k);
      ReachPrepend(PendingPart(from, before), stop, taskId, p, k);
    }
  }

  /** Merging parent `p` covers `p` and keeps the earlier coverage. */
  lemma MergeCoveredStep(before: Entries, pre: Entries, post: Entries, from: Entries, stop: StopCondition,
                         taskId: TaskId, done: set<TaskId>, p: TaskId)
    requires taskId in from
    requires MergeProgress(before, pre, from, stop, taskId, done)
    requires Grows(pre, post) && CopiedFrom(pre, post, from, stop, p)
    requires p in from && !Stops(stop, from[p].status) ==> !Less(StatusOf(post, p), from[p].status)
    requires ParentsCovered(pre, post, from, stop)
    ensures forall q :: q in done + {p} && q in from && !Stops(stop, from[q].status) ==>
              !Less(StatusOf(post, q), from[q].status)
    ensures forall k, q ::
              && k in post && k != taskId && Less(StatusOf(before, k), post[k].status)
              && q in post[k].Parents() && q in from && !Stops(stop, from[q].status)
              ==> !Less(StatusOf(post, q), from[q].status)
  {
    forall q | q in done && q in from && !Stops(stop, from[q].status)
      ensures !Less(StatusOf(post, q), from[q].status)
    {
      assert !Less(StatusOf(post, q), StatusOf(pre, q));
    }
    forall k, q | && k in post && k != taskId && Less(StatusOf(before, k), post[k].status)
                  && q in post[k].Parents() && q in from && !Stops(stop, from[q].status)
      ensures !Less(StatusOf(post, q), from[q].status)
    {
      assert !Less(StatusOf(post, q), StatusOf(pre, q));
    }
  }

  /** Merges the entries of `from` reachable from `taskId` into `to`, in DFS
      order, descending into an entry's parents only when that entry was
      inserted into `to` (which also keeps the DFS from visiting an entry
      twice). `from` is read-only, so it is given by value. */
  method MergeLineageHelper(taskId: TaskId, from: Entries, to: Lineage, stop: StopCondition)
    requires WellFormed(from) && to.Valid()
    modifies to
    decreases Pending(from, to.entries)
    ensures to.Valid()
    ensures Grows(old(to.entries), to.entries)
    ensures CopiedFrom(old(to.entries), to.entries, from, stop, taskId)
    ensures taskId in from && !Stops(stop, from[taskId].status) ==>
              !Less(StatusOf(to.entries, taskId), from[taskId].status)
    ensures ParentsCovered(old(to.entries), to.entries, from, stop)
    ensures to.entries == old(to.entries) + Reachable(PendingPart(from, old(to.entries)), stop, taskId)
  {
    ghost var start := to.entries;
    if taskId !in from || Stops(stop, from[taskId].status) {
      MergeExact(start, to.entries, from, stop, taskId);
      return;
    }
    var entry := from[taskId];
    var parentIds := entry.GetParentTaskIds();
    ghost var before := to.entries;
    var inserted := to.SetEntry(entry);
    if inserted {
      ReachSelf(PendingPart(from, before), stop, taskId);
      PendingShrinks(from, before, to.entries);
      assert taskId in Pending(from, before) - Pending(from, to.entries);
      var remaining := parentIds;
      while remaining != {}
        invariant to.Valid()
        invariant remaining <= parentIds
        invariant MergeProgress(before, to.entries, from, stop, taskId, parentIds - remaining)
        invariant Pending(from, to.entries) < Pending(from, before)
        decreases remaining
      {
        var p :| p in remaining;
        ghost var pre := to.entries;
        MergeLineageHelper(p, from, to, stop);
        MergeStep(before, pre, to.entries, from, stop, taskId, parentIds - remaining, p);
        TakeOne(parentIds, remaining, p);
        remaining := remaining - {p};
      }
    }
    MergeExact(start, to.entries, from, stop, taskId);
  }

  /** The entries of `from` that a traversal under `c` reaches from `a`. */
  ghost function Reachable(from: Entries, c: StopCondition, a: TaskId): Entries {
    map k | k in from && Reach(from, c, a, k) :: from[k]
  }

  /** A pending entry that the merged lineage covers is there as the copy
      from `from`. */
  lemma CoveredPendingCopied(m: Entries, after: Entries, from: Entries, c: StopCondition, a: TaskId, k: TaskId)
    requires CopiedFrom(m, after, from, c, a)
    requires k in from && Less(StatusOf(m, k), from[k].status) && !Less(StatusOf(after, k), from[k].status)
    ensures k in after && after[k] == from[k]
  {
    assert StatusOf(after, k) != NoStatus;
  }

  /** Every entry the traversal reaches from `a` through pending entries is
      in the merged lineage as the copy from `from`. */
  lemma MergeReachesPending(m: Entries, after: Entries, from: Entries, c: StopCondition, a: TaskId, k: TaskId)
    requires CopiedFrom(m, after, from, c, a)
    requires a in from && !Stops(c, from[a].status) ==> !Less(StatusOf(after, a), from[a].status)
    requires ParentsCovered(m, after, from, c)
    requires Reach(PendingPart(from, m), c, a, k)
    ensures k in after && after[k] == from[k]
  {
    var pend := PendingPart(from, m);
    var path :| IsPath(pend, c, path) && path[0] == a && path[|path| - 1] == k;
    CoveredPendingCopied(m, after, from, c, a, a);
    var i := 0;
    while i < |path| - 1
      invariant 0 <= i < |path| && path[i] in after && after[path[i]] == from[path[i]]
    {
      var x := path[i];
      var y := path[i + 1];
      assert x in pend && y in pend && y in from[x].Parents();
      assert Less(StatusOf(m, x), after[x].status);
      CoveredPendingCopied(m, after, from, c, a, y);
      i := i + 1;
    }
  }

  /** A map that agrees key by key with `m` overwritten by `r` is `m + r`. */
  lemma OverwriteByKeys(after: Entries, m: Entries, r: Entries)
    requires forall k :: k in after <==> k in m || k in r
    requires forall k :: k in r ==> after[k] == r[k]
    requires forall k :: k in m && k !in r ==> after[k] == m[k]
    ensures after == m + r
  {
  }

  /** What the merge yields, exactly: the target `m` overwritten with every
      entry of `from` that the traversal reaches from `a` through entries
      still pending against `m`. An entry `m` holds at an equal or higher
      status is kept, and the DFS goes no further through it. The premises
      are what `MergeLineageHelper` ensures. */
  lemma MergeExact(m: Entries, after: Entries, from: Entries, c: StopCondition, a: TaskId)
    requires WellFormed(m)
    requires Grows(m, after) && CopiedFrom(m, after, from, c, a)
    requires a in from && !Stops(c, from[a].status) ==> !Less(StatusOf(after, a), from[a].status)
    requires ParentsCovered(m, after, from, c)
    ensures after == m + Reachable(PendingPart(from, m), c, a)
  {
    var r := Reachable(PendingPart(from, m), c, a);
    forall k | k in r ensures k in after && after[k] == r[k] {
      MergeReachesPending(m, after, from, c, a, k);
    }
    forall k | k in m ensures k in after {
      assert !Less(StatusOf(after, k), StatusOf(m, k));
    }
    forall k | k in after && k !in r ensures k in m && after[k] == m[k] {
    }
    OverwriteByKeys(after, m, r);
  }

  /** Against an empty target every entry of a well-formed `from` is pending. */
  lemma PendingPartOfEmpty(from: Entries)
    requires WellFormed(from)
    ensures PendingPart(from, map[]) == from
  {
  }

  /** Merged into an empty lineage, the DFS copies exactly the entries of
      `from` that it reaches from `a`; the premises are what
      `MergeLineageHelper` ensures. */
  lemma MergeIntoEmpty(from: Entries, after: Entries, c: StopCondition, a: TaskId)
    requires WellFormed(from)
    requires CopiedFrom(map[], after, from, c, a)
    requires a in from && !Stops(c, from[a].status) ==> !Less(StatusOf(after, a), from[a].status)
    requires ParentsCovered(map[], after, from, c)
    ensures after == Reachable(from, c, a)
  {
    MergeExact(map[], after, from, c, a);
    PendingPartOfEmpty(from);
    assert map[] + Reachable(from, c, a) == Reachable(from, c, a);
  }

  /** When every entry the traversal of `from` reaches from `a` is pending
      against `m`, those traversals stay inside the pending part. */
  lemma ReachWithinPending(m: Entries, from: Entries, c: StopCondition, a: TaskId, k: TaskId)
    requires forall x :: x in from && Reach(from, c, a, x) ==> Less(StatusOf(m, x), from[x].status)
    requires Reach(from, c, a, k)
    ensures Reach(PendingPart(from, m), c, a, k)
  {
    var path :| IsPath(from, c, path) && path[0] == a && path[|path| - 1] == k;
    forall i | 0 <= i < |path| ensures path[i] in PendingPart(from, m) {
      assert IsPath(from, c, path[..i + 1]);
    }
    assert IsPath(PendingPart(from, m), c, path);
  }

  /** The merge adds what the target lacks: when no entry of `from` that
      the traversal reaches from `a` is in `m` yet, each of them is in the
      merged lineage `after` as the copy from `from`. The premises are what
      `MergeLineageHelper` ensures. */
  lemma MergeFillsAbsent(m: Entries, after: Entries, from: Entries, c: StopCondition, a: TaskId)
    requires WellFormed(from)
    requires CopiedFrom(m, after, from, c, a)
    requires a in from && !Stops(c, from[a].status) ==> !Less(StatusOf(after, a), from[a].status)
    requires ParentsCovered(m, after, from, c)
    requires forall k :: k in from && Reach(from, c, a, k) ==> k !in m
    ensures forall k :: k in from && Reach(from, c, a, k) ==> k in after && after[k] == from[k]
  {
    forall k | k in from && Reach(from, c, a, k) ensures k in after && after[k] == from[k] {
      ReachWithinPending(m, from, c, a, k);
      MergeReachesPending(m, after, from, c, a, k);
    }
  }

  /** The statuses `PopAncestorTasks` accepts on the entries it removes. */
  predicate RemoteOrCommitted(s: GcsStatus) {
    s == UncommittedRemote || s == Committed
  }

  /** Every parent of an entry removed from `m` on the way to `m'` is not in
      `m'` either. */
  ghost predicate RemovalClosed(m: Entries, m': Entries) {
    forall k, p :: k in m && k !in m' && p in m[k].Parents() ==> p !in m'
  }

  /** A removal closed under parents that removes `a` removes everything
      reachable from `a`. */
  lemma RemovalFollowsPaths(m: Entries, m': Entries, a: TaskId, b: TaskId)
    requires SubMap(m', m) && a !in m' && RemovalClosed(m, m')
    requires Reach(m, StopWhenNotFound, a, b)
    ensures b !in m'
  {
    var path :| IsPath(m, StopWhenNotFound, path) && path[0] == a && path[|path| - 1] == b;
    var i := 0;
    while i < |path| - 1
      invariant 0 <= i < |path| && path[i] !in m'
    {
      assert path[i + 1] in m[path[i]].Parents();
      i := i + 1;
    }
  }

  /** The ancestors of a parent of `taskId` in a part `cur` of `m` are
      ancestors of `taskId` in `m`. */
  lemma ParentAncestors(m: Entries, cur: Entries, taskId: TaskId, p: TaskId, k: TaskId)
    requires SubMap(cur, m) && taskId in m && p in m[taskId].Parents()
    requires Reach(cur, StopWhenNotFound, p, k)
    ensures Reach(m, StopWhenNotFound, taskId, k)
  {
    ReachSubMap(cur, m, StopWhenNotFound, p, k);
    ReachPrepend(m, StopWhenNotFound, taskId, p, k);
  }

  /** What the loop over the parents of `taskId` has established once the
      parents in `done` have been popped, `m` being the lineage on entry. */
  ghost predicate PopProgress(m: Entries, cur: Entries, taskId: TaskId, done: set<TaskId>) {
    && SubMap(cur, m)
    && taskId in m && taskId !in cur
    && (forall k :: k in m && k !in cur ==> Reach(m, StopWhenNotFound, taskId, k))
    && (forall p :: p in done ==> p !in cur)
    && (forall k, p :: k in m && k !in cur && k != taskId && p in m[k].Parents() ==> p !in cur)
  }

  /** One iteration of the loop: popping the ancestors of parent `p` keeps
      the progress. */
  lemma PopStep(m: Entries, pre: Entries, post: Entries, taskId: TaskId, done: set<TaskId>, p: TaskId)
    requires PopProgress(m, pre, taskId, done) && p in m[taskId].Parents()
    requires SubMap(post, pre) && p !in post && RemovalClosed(pre, post)
    requires forall k :: k in pre && k !in post ==> Reach(pre, StopWhenNotFound, p, k)
    ensures PopProgress(m, post, taskId, done + {p})
  {
    forall k | k in m && k !in post
      ensures Reach(m, StopWhenNotFound, taskId, k)
    {
      if k in pre {
        ParentAncestors(m, pre, taskId, p, k);
      }
    }
  }

  /** Removes `taskId` and, recursively, every ancestor of it still in the
      lineage. Every entry removed must have status UNCOMMITTED_REMOTE or
      COMMITTED. */
  method PopAncestorTasks(taskId: TaskId, lineage: Lineage)
    requires lineage.Valid()
    requires forall k :: k in lineage.entries && Reach(lineage.entries, StopWhenNotFound, taskId, k) ==>
               RemoteOrCommitted(lineage.entries[k].status)
    modifies lineage
    decreases lineage.entries.Keys
    ensures lineage.Valid()
    ensures SubMap(lineage.entries, old(lineage.entries))
    ensures taskId !in lineage.entries
    ensures forall k :: k in old(lineage.entries) ==>
              (k !in lineage.entries <==> Reach(old(lineage.entries), StopWhenNotFound, taskId, k))
    ensures RemovalClosed(old(lineage.entries), lineage.entries)
  {
    ghost var m := lineage.entries;
    var entry := lineage.PopEntry(taskId);
    if entry.None? {
      forall k | Reach(m, StopWhenNotFound, taskId, k) ensures false {
        ReachEnds(m, StopWhenNotFound, taskId, k);
      }
      return;
    }
    ReachSelf(m, StopWhenNotFound, taskId);
    assert RemoteOrCommitted(entry.value.status);
    var parentIds := entry.value.GetParentTaskIds();
    var remaining := parentIds;
    while remaining != {}
      invariant lineage.Valid()
      invariant remaining <= parentIds
      invariant PopProgress(m, lineage.entries, taskId, parentIds - remaining)
      decreases remaining
    {
      var p :| p in remaining;
      ghost var pre := lineage.entries;
      forall k | k in pre && Reach(pre, StopWhenNotFound, p, k)
        ensures RemoteOrCommitted(pre[k].status)
      {
        ParentAncestors(m, pre, taskId, p, k);
      }
      assert pre.Keys < m.Keys;
      PopAncestorTasks(p, lineage);
      PopStep(m, pre, lineage.entries, taskId, parentIds - remaining, p);
      assert parentIds - (remaining - {p}) == parentIds - remaining + {p};
      remaining := remaining - {p};
    }
    forall k | k in m && Reach(m, StopWhenNotFound, taskId, k)
      ensures k !in lineage.entries
    {
      RemovalFollowsPaths(m, lineage.entries, taskId, k);
    }
  }
}
