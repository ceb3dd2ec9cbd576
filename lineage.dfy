/**
  A lineage: a map from task id to lineage entry. Each entry has an edge to
  each of its parents, so a lineage is a graph (a DAG in practice; nothing
  here relies on acyclicity).
 */
module Lineages {
  import opened Optional
  import opened GcsStatuses
  import opened Tasks
  import opened LineageEntries

  type Entries = map<TaskId, LineageEntry>

  /** Every entry sits at its own id, and no stored entry has status NONE
      (`SetEntry` never stores one). */
  ghost predicate WellFormed(m: Entries) {
    forall k :: k in m ==> m[k].EntryId() == k && m[k].status != NoStatus
  }

  /** The status of `k` in `m`, reading NONE for a missing entry. */
  function StatusOf(m: Entries, k: TaskId): GcsStatus {
    if k in m then m[k].status else NoStatus
  }

  /** `m1` is `m2` with some entries removed. */
  ghost predicate SubMap(m1: Entries, m2: Entries) {
    forall k :: k in m1 ==> k in m2 && m1[k] == m2[k]
  }

  lemma SubMapWellFormed(m1: Entries, m2: Entries)
    requires SubMap(m1, m2) && WellFormed(m2)
    ensures WellFormed(m1)
  {
  }

  /** When a traversal of a lineage stops at an entry. */
  datatype StopCondition =
    | StopWhenNotFound    // only a missing entry stops the traversal
    | StopAtCommitted     // a COMMITTED entry stops it too

  predicate Stops(c: StopCondition, s: GcsStatus) {
    c == StopAtCommitted && s == Committed
  }

  /** `path` follows parent edges through entries of `m` none of which
      stops the traversal. */
  ghost predicate IsPath(m: Entries, c: StopCondition, path: seq<TaskId>) {
    && |path| > 0
    && (forall i :: 0 <= i < |path| ==> path[i] in m && !Stops(c, m[path[i]].status))
    && (forall i :: 0 < i < |path| ==> path[i] in m[path[i - 1]].Parents())
  }

  /** `b` is reached from `a` by a traversal of `m` under `c`. */
  ghost predicate Reach(m: Entries, c: StopCondition, a: TaskId, b: TaskId) {
    exists path :: IsPath(m, c, path) && path[0] == a && path[|path| - 1] == b
  }

  lemma ReachEnds(m: Entries, c: StopCondition, a: TaskId, b: TaskId)
    requires Reach(m, c, a, b)
    ensures a in m && !Stops(c, m[a].status)
    ensures b in m && !Stops(c, m[b].status)
  {
    var path :| IsPath(m, c, path) && path[0] == a && path[|path| - 1] == b;
    assert path[|path| - 1] in m;
  }

  lemma ReachSelf(m: Entries, c: StopCondition, a: TaskId)
    requires a in m && !Stops(c, m[a].status)
    ensures Reach(m, c, a, a)
  {
    assert IsPath(m, c, [a]);
  }

  /** A traversal that can enter `a` and reach `b` from a parent of `a`
      reaches `b` from `a`. */
  lemma ReachPrepend(m: Entries, c: StopCondition, a: TaskId, p: TaskId, b: TaskId)
    requires a in m && !Stops(c, m[a].status) && p in m[a].Parents()
    requires Reach(m, c, p, b)
    ensures Reach(m, c, a, b)
  {
    var path :| IsPath(m, c, path) && path[0] == p && path[|path| - 1] == b;
    var longer := [a] + path;
    assert forall i :: 0 < i < |longer| ==> longer[i] == path[i - 1];
    assert IsPath(m, c, longer);
  }

  /** A traversal that reaches `b` can go on to a parent of `b` that it may enter. */
  lemma ReachAppend(m: Entries, c: StopCondition, a: TaskId, b: TaskId, q: TaskId)
    requires Reach(m, c, a, b)
    requires b in m && q in m[b].Parents() && q in m && !Stops(c, m[q].status)
    ensures Reach(m, c, a, q)
  {
    var path :| IsPath(m, c, path) && path[0] == a && path[|path| - 1] == b;
    var longer := path + [q];
    assert IsPath(m, c, longer);
  }

  /** Removing entries never creates a path. */
  lemma ReachSubMap(m1: Entries, m2: Entries, c: StopCondition, a: TaskId, b: TaskId)
    requires SubMap(m1, m2)
    requires Reach(m1, c, a, b)
    ensures Reach(m2, c, a, b)
  {
    var path :| IsPath(m1, c, path) && path[0] == a && path[|path| - 1] == b;
    assert IsPath(m2, c, path);
  }

  /** The lineage class: `entries_` and the three operations on it. */
  class Lineage {
    var entries: Entries

    ghost predicate Valid()
      reads this
    {
      WellFormed(entries)
    }

    constructor ()
      ensures Valid() && entries == map[]
    {
      entries := map[];
    }

    /** Empty exactly when the id is not in the lineage. */
    function GetEntry(taskId: TaskId): (r: Option<LineageEntry>)
      reads this
      ensures r.None? <==> taskId !in entries
      ensures r.Some? ==> r.value == entries[taskId]
    {
      if taskId in entries then Some(entries[taskId]) else None
    }

    /** Deletes and returns the entry when it is present; otherwise returns
        empty and changes nothing. */
    method PopEntry(taskId: TaskId) returns (r: Option<LineageEntry>)
      modifies this
      ensures r == old(GetEntry(taskId))
      ensures entries == old(entries) - {taskId}
    {
      if taskId in entries {
        r := Some(entries[taskId]);
        entries := entries - {taskId};
      } else {
        r := None;
      }
    }

    /** Overwrites the entry at the new entry's id if and only if the new
        status is strictly higher than the current one (NONE when absent),
        and says whether it did. The new entry may have status NONE only
        when its id is present: otherwise there is no current entry to put
        back. */
    method SetEntry(newEntry: LineageEntry) returns (inserted: bool)
      requires Valid()
      requires newEntry.EntryId() in entries || newEntry.status != NoStatus
      modifies this
      ensures Valid()
      ensures inserted <==> Less(StatusOf(old(entries), newEntry.EntryId()), newEntry.status)
      ensures entries == if inserted then old(entries)[newEntry.EntryId() := newEntry] else old(entries)
    {
      var taskId := newEntry.EntryId();
      var currentStatus := NoStatus;
      var current := PopEntry(taskId);
      if current.Some? {
        currentStatus := current.value.status;
      }
      if Less(currentStatus, newEntry.status) {
        entries := entries[taskId := newEntry];
        inserted := true;
      } else {
        entries := entries[taskId := current.value];
        inserted := false;
      }
    }
  }

  /** After `SetEntry`, the status at the key is the larger of the old
      status and the new entry's status. */
  lemma SetEntryKeepsMaximum(m: Entries, e: LineageEntry, inserted: bool, m': Entries)
    requires inserted <==> Less(StatusOf(m, e.EntryId()), e.status)
    requires m' == if inserted then m[e.EntryId() := e] else m
    ensures !Less(StatusOf(m', e.EntryId()), StatusOf(m, e.EntryId()))
    ensures !Less(StatusOf(m', e.EntryId()), e.status)
    ensures StatusOf(m', e.EntryId()) == StatusOf(m, e.EntryId()) || StatusOf(m', e.EntryId()) == e.status
    ensures forall k :: k != e.EntryId() ==> (k in m' <==> k in m) && (k in m ==> m'[k] == m[k])
  {
  }
}
