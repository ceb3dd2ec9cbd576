/**
  Specification functions for the lineage cache: what one flush attempt
  and a batch of flush attempts do to the lineage, the subscriptions, the
  children index and the request log, and what committing an entry does to
  the lineage.
 */
module LineageCacheSpec {
  import opened GcsStatuses
  import opened Tasks
  import opened LineageEntries
  import opened Lineages
  import opened LineageTraversals

  /** The shape of the lineage after merging a received lineage `from`
      whose entries the merge reaches from `a` are all UNCOMMITTED_REMOTE:
      no key is lost, and every changed entry is a REMOTE copy from `from`,
      reached from `a`, at a key that was below REMOTE. */
  lemma ReceivedMergeShape(before: Entries, merged: Entries, from: Entries, a: TaskId)
    requires WellFormed(before)
    requires forall k :: k in from && Reach(from, StopWhenNotFound, a, k) ==> from[k].status == UncommittedRemote
    requires Grows(before, merged) && CopiedFrom(before, merged, from, StopWhenNotFound, a)
    ensures forall k :: k in before ==> k in merged
    ensures forall k :: k in merged ==>
              || (k in before && merged[k] == before[k])
              || (&& k in from
                  && Less(StatusOf(before, k), UncommittedRemote)
                  && merged[k] == from[k]
                  && merged[k].status == UncommittedRemote
                  && Reach(from, StopWhenNotFound, a, k))
  {
    forall k | k in before ensures k in merged {
      assert !Less(StatusOf(merged, k), StatusOf(before, k));
    }
    forall k | k in merged && !(k in before && merged[k] == before[k])
      ensures Reach(from, StopWhenNotFound, a, k)
    {
      ReachSubMap(PendingPart(from, before), from, StopWhenNotFound, a, k);
    }
  }

  /** A request to the GCS: a task-table write (`task_storage_.Add`) or a
      pubsub (un)subscription (`task_pubsub_`). */
  datatype GcsRequest =
    | TaskAdd(taskId: TaskId, task: Task)
    | RequestNotifications(taskId: TaskId)
    | CancelNotifications(taskId: TaskId)

  /** `uncommitted_ready_children_`: parent id to the ready children waiting on it. */
  type Children = map<TaskId, set<TaskId>>

  /** The ids among `ps` whose entries are in `m` and not COMMITTED. */
  function UncommittedAmong(m: Entries, ps: set<TaskId>): set<TaskId> {
    set p | p in ps && p in m && m[p].status != Committed
  }

  /** The ids among `ps` whose entries are in `m` at UNCOMMITTED_REMOTE. */
  function RemoteAmong(m: Entries, ps: set<TaskId>): set<TaskId> {
    set p | p in ps && p in m && m[p].status == UncommittedRemote
  }

  /** Every parent of `t` that is in the lineage is COMMITTED. */
  ghost predicate AllParentsCommitted(m: Entries, t: TaskId)
    requires t in m
  {
    forall p :: p in m[t].Parents() && p in m ==> m[p].status == Committed
  }

  /** No parent of `t` in the lineage is still waiting to execute. */
  ghost predicate NoWaitingParent(m: Entries, t: TaskId)
    requires t in m
  {
    forall p :: p in m[t].Parents() && p in m ==> m[p].status != UncommittedWaiting
  }

  /** The tasks may each be given to `FlushTask`. */
  ghost predicate Flushable(m: Entries, tasks: set<TaskId>) {
    forall t :: t in tasks ==> t in m && m[t].status == UncommittedReady && NoWaitingParent(m, t)
  }

  function ChildrenOf(c: Children, k: TaskId): set<TaskId> {
    if k in c then c[k] else {}
  }

  /** `c'` is `c` with `t` recorded as a child of every id in `ps`. */
  ghost predicate ChildAdded(c: Children, c': Children, ps: set<TaskId>, t: TaskId) {
    && c'.Keys == c.Keys + ps
    && forall k :: k in c' ==> c'[k] == ChildrenOf(c, k) + (if k in ps then {t} else {})
  }

  ghost function NotificationRequests(ps: set<TaskId>): set<GcsRequest> {
    set p | p in ps :: RequestNotifications(p)
  }

  lemma LogAppend(r0: seq<GcsRequest>, issued: seq<GcsRequest>, more: seq<GcsRequest>)
    ensures (r0 + issued) + more == r0 + (issued + more)
  {
  }

  /** A log that kept `prefix` is `prefix` followed by what was appended. */
  lemma AppendedTo(r0: seq<GcsRequest>, issued: seq<GcsRequest>, log: seq<GcsRequest>)
    requires |log| >= |r0 + issued| && log[..|r0 + issued|] == r0 + issued
    ensures log == r0 + (issued + log[|r0 + issued|..])
  {
    var more := log[|r0 + issued|..];
    assert log == (r0 + issued) + more;
    assert (r0 + issued) + more == r0 + (issued + more);
  }

  /** `sq` lists each element of `st` exactly once, in some order: the
      order in which a loop over a set issues its requests is not
      determined. */
  ghost predicate Enumerates(sq: seq<GcsRequest>, st: set<GcsRequest>) {
    && (forall i, j :: 0 <= i < j < |sq| ==> sq[i] != sq[j])
    && (forall x :: x in sq <==> x in st)
  }

  lemma EnumeratesSingle(x: GcsRequest)
    ensures Enumerates([x], {x})
  {
  }

  /** Listing two disjoint sets one after the other lists their union. */
  lemma EnumeratesAppend(a: seq<GcsRequest>, sa: set<GcsRequest>, b: seq<GcsRequest>, sb: set<GcsRequest>)
    requires Enumerates(a, sa) && Enumerates(b, sb) && sa !! sb
    ensures Enumerates(a + b, sa + sb)
  {
    var ab := a + b;
    forall i, j | 0 <= i < j < |ab| ensures ab[i] != ab[j] {
      if j < |a| {
        assert ab[i] == a[i] && ab[j] == a[j];
      } else if i >= |a| {
        assert ab[i] == b[i - |a|] && ab[j] == b[j - |a|];
      } else {
        assert ab[i] == a[i] && ab[j] == b[j - |a|];
        assert a[i] in sa && b[j - |a|] in sb;
      }
    }
    forall x ensures x in ab <==> x in sa + sb {
      assert x in ab <==> x in a || x in b;
    }
  }

  /** A listing of a set has one element per member of the set. */
  lemma EnumeratesMultiset(sq: seq<GcsRequest>, st: set<GcsRequest>)
    requires Enumerates(sq, st)
    ensures multiset(sq) == multiset(st)
    decreases |sq|
  {
    if sq != [] {
      var x := sq[|sq| - 1];
      var init := sq[..|sq| - 1];
      assert sq == init + [x];
      forall i, j | 0 <= i < j < |init| ensures init[i] != init[j] {
        assert init[i] == sq[i] && init[j] == sq[j];
      }
      forall y ensures y in init <==> y in st - {x} {
        if y in init {
          var k :| 0 <= k < |init| && init[k] == y;
          assert sq[k] == y && k < |sq| - 1;
        }
      }
      EnumeratesMultiset(init, st - {x});
      assert st == (st - {x}) + {x};
    }
  }

  /** The requests one flush attempt of `t` issues: the task write when all
      its parents are committed, and otherwise one subscription per remote
      parent not already subscribed to. */
  ghost function FlushRequests(m: Entries, subscribed: set<TaskId>, t: TaskId): set<GcsRequest>
    requires t in m
  {
    if AllParentsCommitted(m, t) then {TaskAdd(t, m[t].task)}
    else NotificationRequests(RemoteAmong(m, m[t].Parents()) - subscribed)
  }

  /** What the loop of one flush attempt of `t` has done once the parents
      in `done` are scanned, starting from subscriptions `s0` and children
      `c0`: `allCommitted` says no scanned parent is uncommitted, and
      `issued` holds the subscriptions requested meanwhile. */
  ghost predicate ParentsScanned(m: Entries, t: TaskId, s0: set<TaskId>, c0: Children, done: set<TaskId>,
                                 allCommitted: bool, s: set<TaskId>, c: Children, issued: seq<GcsRequest>) {
    && (allCommitted <==> forall p :: p in done && p in m ==> m[p].status == Committed)
    && s == s0 + RemoteAmong(m, done)
    && ChildAdded(c0, c, UncommittedAmong(m, done), t)
    && Enumerates(issued, NotificationRequests(RemoteAmong(m, done) - s0))
  }

  lemma ParentsScannedStart(m: Entries, t: TaskId, s0: set<TaskId>, c0: Children)
    ensures ParentsScanned(m, t, s0, c0, {}, true, s0, c0, [])
  {
    assert NotificationRequests({}) == {};
  }

  /** Scanning parent `p`: the subscription and request side. */
  lemma ScanSubscriptionStep(m: Entries, s0: set<TaskId>, done: set<TaskId>, s: set<TaskId>,
                             issued: seq<GcsRequest>, p: TaskId, s': set<TaskId>, issued': seq<GcsRequest>)
    requires p !in done
    requires s == s0 + RemoteAmong(m, done)
    requires Enumerates(issued, NotificationRequests(RemoteAmong(m, done) - s0))
    requires var remote := p in m && m[p].status == UncommittedRemote;
      && s' == (if remote then s + {p} else s)
      && issued' == (if remote && p !in s then issued + [RequestNotifications(p)] else issued)
    ensures s' == s0 + RemoteAmong(m, done + {p})
    ensures Enumerates(issued', NotificationRequests(RemoteAmong(m, done + {p}) - s0))
  {
    var done' := done + {p};
    var before := RemoteAmong(m, done) - s0;
    if p in m && m[p].status == UncommittedRemote {
      assert RemoteAmong(m, done') == RemoteAmong(m, done) + {p};
      if p !in s {
        assert RemoteAmong(m, done') - s0 == before + {p};
        NotificationRequestsUnion(before, {p});
        assert NotificationRequests({p}) == {RequestNotifications(p)};
        EnumeratesSingle(RequestNotifications(p));
        EnumeratesAppend(issued, NotificationRequests(before), [RequestNotifications(p)], {RequestNotifications(p)});
      } else {
        assert RemoteAmong(m, done') - s0 == before;
      }
    } else {
      assert RemoteAmong(m, done') == RemoteAmong(m, done);
    }
  }

  /** Scanning parent `p`: the commit flag and children side. */
  lemma ScanChildStep(m: Entries, t: TaskId, c0: Children, done: set<TaskId>,
                      allCommitted: bool, c: Children, p: TaskId, allCommitted': bool, c': Children)
    requires p !in done
    requires allCommitted <==> forall q :: q in done && q in m ==> m[q].status == Committed
    requires ChildAdded(c0, c, UncommittedAmong(m, done), t)
    requires var blocks := p in m && m[p].status != Committed;
      && allCommitted' == (allCommitted && !blocks)
      && c' == (if blocks then c[p := ChildrenOf(c, p) + {t}] else c)
    ensures allCommitted' <==> forall q :: q in done + {p} && q in m ==> m[q].status == Committed
    ensures ChildAdded(c0, c', UncommittedAmong(m, done + {p}), t)
  {
    if p in m && m[p].status != Committed {
      assert UncommittedAmong(m, done + {p}) == UncommittedAmong(m, done) + {p};
    } else {
      assert UncommittedAmong(m, done + {p}) == UncommittedAmong(m, done);
    }
  }

  /** Scanning parent `p` of a flush attempt of `t` keeps the progress. */
  lemma ParentsScannedStep(m: Entries, t: TaskId, s0: set<TaskId>, c0: Children, done: set<TaskId>,
                           allCommitted: bool, s: set<TaskId>, c: Children, issued: seq<GcsRequest>, p: TaskId,
                           allCommitted': bool, s': set<TaskId>, c': Children, issued': seq<GcsRequest>)
    requires p !in done
    requires ParentsScanned(m, t, s0, c0, done, allCommitted, s, c, issued)
    requires var blocks := p in m && m[p].status != Committed;
      var remote := p in m && m[p].status == UncommittedRemote;
      && allCommitted' == (allCommitted && !blocks)
      && s' == (if remote then s + {p} else s)
      && issued' == (if remote && p !in s then issued + [RequestNotifications(p)] else issued)
      && c' == (if blocks then c[p := ChildrenOf(c, p) + {t}] else c)
    ensures ParentsScanned(m, t, s0, c0, done + {p}, allCommitted', s', c', issued')
  {
    ScanSubscriptionStep(m, s0, done, s, issued, p, s', issued');
    ScanChildStep(m, t, c0, done, allCommitted, c, p, allCommitted', c');
  }

  /** Once every parent is scanned, the flush attempt has done what
      `FlushRequests` and the children and subscription updates say. */
  lemma FlushTaskDone(m: Entries, t: TaskId, s0: set<TaskId>, c0: Children,
                      allCommitted: bool, s: set<TaskId>, c: Children, issued: seq<GcsRequest>)
    requires t in m && ParentsScanned(m, t, s0, c0, m[t].Parents(), allCommitted, s, c, issued)
    ensures allCommitted <==> AllParentsCommitted(m, t)
    ensures Enumerates(if allCommitted then issued + [TaskAdd(t, m[t].task)] else issued, FlushRequests(m, s0, t))
  {
    CommittedParentsBlockNothing(m, t);
    if allCommitted {
      assert RemoteAmong(m, m[t].Parents()) - s0 == {};
      assert NotificationRequests({}) == {};
      EnumeratesMultiset(issued, {});
      assert |issued| == |multiset(issued)| == 0;
      EnumeratesSingle(TaskAdd(t, m[t].task));
    }
  }

  // ---- A batch of flush attempts, all against the same lineage `m` ----

  ghost function Flushed(m: Entries, tasks: set<TaskId>): set<TaskId> {
    set t | t in tasks && t in m && AllParentsCommitted(m, t)
  }

  /** Flushing `t` adds it to the flushed tasks exactly when all its
      parents are committed. */
  lemma FlushedStep(m: Entries, done: set<TaskId>, t: TaskId)
    requires t in m
    ensures Flushed(m, done + {t}) == Flushed(m, done) + (if AllParentsCommitted(m, t) then {t} else {})
  {
  }

  ghost function MarkCommitting(m: Entries, flushed: set<TaskId>): Entries {
    map k | k in m :: if k in flushed then m[k].(status := Committing) else m[k]
  }

  ghost function BlockingParents(m: Entries, tasks: set<TaskId>): set<TaskId> {
    set t, p | t in tasks && t in m && p in UncommittedAmong(m, m[t].Parents()) :: p
  }

  ghost function BlockingRemote(m: Entries, tasks: set<TaskId>): set<TaskId> {
    set t, p | t in tasks && t in m && p in RemoteAmong(m, m[t].Parents()) :: p
  }

  ghost function BlockedChildren(m: Entries, tasks: set<TaskId>, k: TaskId): set<TaskId> {
    set t | t in tasks && t in m && k in UncommittedAmong(m, m[t].Parents())
  }

  /** `c'` is `c` with every task of `tasks` recorded as a child of each of
      its uncommitted parents. */
  ghost predicate ChildrenAdded(c: Children, c': Children, m: Entries, tasks: set<TaskId>) {
    && c'.Keys == c.Keys + BlockingParents(m, tasks)
    && forall k :: k in c' ==> c'[k] == ChildrenOf(c, k) + BlockedChildren(m, tasks, k)
  }

  ghost function BatchRequests(m: Entries, subscribed: set<TaskId>, tasks: set<TaskId>): set<GcsRequest> {
    (set t | t in Flushed(m, tasks) :: TaskAdd(t, m[t].task))
      + NotificationRequests(BlockingRemote(m, tasks) - subscribed)
  }

  /** The state after flush attempts of the tasks in `done`, one at a time,
      starting from lineage `m0`, subscriptions `s0` and children `c0`;
      `issued` is the part of the request log written meanwhile. */
  ghost predicate FlushedSoFar(m0: Entries, s0: set<TaskId>, c0: Children, done: set<TaskId>,
                               m: Entries, s: set<TaskId>, c: Children, issued: seq<GcsRequest>) {
    && m == MarkCommitting(m0, Flushed(m0, done))
    && s == s0 + BlockingRemote(m0, done)
    && ChildrenAdded(c0, c, m0, done)
    && Enumerates(issued, BatchRequests(m0, s0, done))
  }

  lemma FlushedSoFarStart(m0: Entries, s0: set<TaskId>, c0: Children)
    ensures FlushedSoFar(m0, s0, c0, {}, m0, s0, c0, [])
  {
    assert MarkCommitting(m0, {}) == m0;
  }

  /** Marking flushed READY entries COMMITTING changes no entry's task, no
      key, and does not change which entries are COMMITTED, REMOTE or
      WAITING; so a later flush attempt sees the same parents. */
  lemma MarkCommittingKeepsClasses(m0: Entries, tasks: set<TaskId>, done: set<TaskId>, t: TaskId)
    requires Flushable(m0, tasks) && done <= tasks && t in tasks
    ensures var m := MarkCommitting(m0, Flushed(m0, done));
      && m.Keys == m0.Keys
      && m[t].task == m0[t].task
      && UncommittedAmong(m, m0[t].Parents()) == UncommittedAmong(m0, m0[t].Parents())
      && RemoteAmong(m, m0[t].Parents()) == RemoteAmong(m0, m0[t].Parents())
      && (AllParentsCommitted(m, t) <==> AllParentsCommitted(m0, t))
      && NoWaitingParent(m, t)
      && (t !in done ==> m[t] == m0[t])
  {
  }

  /** A task of the batch not attempted yet can still be given to `FlushTask`. */
  lemma StillFlushable(m0: Entries, tasks: set<TaskId>, done: set<TaskId>, t: TaskId)
    requires Flushable(m0, tasks) && done <= tasks && t in tasks - done
    ensures Flushable(MarkCommitting(m0, Flushed(m0, done)), {t})
  {
    MarkCommittingKeepsClasses(m0, tasks, done, t);
  }

  lemma CommittedParentsBlockNothing(m: Entries, t: TaskId)
    requires t in m
    ensures AllParentsCommitted(m, t) <==> UncommittedAmong(m, m[t].Parents()) == {}
    ensures AllParentsCommitted(m, t) ==> RemoteAmong(m, m[t].Parents()) == {}
  {
    if !AllParentsCommitted(m, t) {
      var p :| p in m[t].Parents() && p in m && m[p].status != Committed;
      assert p in UncommittedAmong(m, m[t].Parents());
    }
  }

  /** Adding `t` to the batch adds its parents to the blocking sets. */
  lemma BlockingRemoteStep(m0: Entries, done: set<TaskId>, t: TaskId)
    requires t in m0
    ensures BlockingRemote(m0, done + {t}) == BlockingRemote(m0, done) + RemoteAmong(m0, m0[t].Parents())
  {
  }

  lemma BlockingParentsStep(m0: Entries, done: set<TaskId>, t: TaskId)
    requires t in m0
    ensures BlockingParents(m0, done + {t}) == BlockingParents(m0, done) + UncommittedAmong(m0, m0[t].Parents())
  {
  }

  lemma BlockedChildrenStep(m0: Entries, done: set<TaskId>, t: TaskId, k: TaskId)
    requires t in m0
    ensures BlockedChildren(m0, done + {t}, k) ==
              BlockedChildren(m0, done, k) + (if k in UncommittedAmong(m0, m0[t].Parents()) then {t} else {})
  {
  }

  lemma ChildrenOfAdded(c0: Children, c: Children, m0: Entries, done: set<TaskId>, k: TaskId)
    requires ChildrenAdded(c0, c, m0, done)
    ensures ChildrenOf(c, k) == ChildrenOf(c0, k) + BlockedChildren(m0, done, k)
  {
  }

  lemma ChildrenPointStep(c0: Children, c: Children, c': Children, m0: Entries, done: set<TaskId>, t: TaskId, k: TaskId)
    requires t in m0 && k in c'
    requires ChildrenAdded(c0, c, m0, done)
    requires c'[k] == ChildrenOf(c, k) + (if k in UncommittedAmong(m0, m0[t].Parents()) then {t} else {})
    ensures c'[k] == ChildrenOf(c0, k) + BlockedChildren(m0, done + {t}, k)
  {
    ChildrenOfAdded(c0, c, m0, done, k);
    BlockedChildrenStep(m0, done, t, k);
  }

  lemma ChildrenStep(m0: Entries, c0: Children, done: set<TaskId>, t: TaskId, c: Children, c': Children)
    requires t in m0 && t !in done
    requires ChildrenAdded(c0, c, m0, done)
    requires ChildAdded(c, c', UncommittedAmong(m0, m0[t].Parents()), t)
    ensures ChildrenAdded(c0, c', m0, done + {t})
  {
    BlockingParentsStep(m0, done, t);
    forall k | k in c' ensures c'[k] == ChildrenOf(c0, k) + BlockedChildren(m0, done + {t}, k) {
      ChildrenPointStep(c0, c, c', m0, done, t, k);
    }
  }

  lemma NotificationRequestsUnion(a: set<TaskId>, b: set<TaskId>)
    ensures NotificationRequests(a + b) == NotificationRequests(a) + NotificationRequests(b)
    ensures a !! b ==> NotificationRequests(a) !! NotificationRequests(b)
  {
  }

  lemma RequestsStep(m0: Entries, s0: set<TaskId>, done: set<TaskId>, t: TaskId, s: set<TaskId>)
    requires t in m0 && t !in done
    requires s == s0 + BlockingRemote(m0, done)
    ensures var ps := m0[t].Parents();
      var added := if AllParentsCommitted(m0, t) then {TaskAdd(t, m0[t].task)}
                   else NotificationRequests(RemoteAmong(m0, ps) - s);
      BatchRequests(m0, s0, done + {t}) == BatchRequests(m0, s0, done) + added
      && BatchRequests(m0, s0, done) !! added
  {
    var ps := m0[t].Parents();
    var done' := done + {t};
    var adds := set t' | t' in Flushed(m0, done) :: TaskAdd(t', m0[t'].task);
    var notes := NotificationRequests(BlockingRemote(m0, done) - s0);
    assert BatchRequests(m0, s0, done) == adds + notes;
    BlockingRemoteStep(m0, done, t);
    CommittedParentsBlockNothing(m0, t);
    if AllParentsCommitted(m0, t) {
      assert Flushed(m0, done') == Flushed(m0, done) + {t};
      assert (set t' | t' in Flushed(m0, done') :: TaskAdd(t', m0[t'].task)) == adds + {TaskAdd(t, m0[t].task)};
      assert BlockingRemote(m0, done') == BlockingRemote(m0, done);
      assert TaskAdd(t, m0[t].task) !in adds;
      assert TaskAdd(t, m0[t].task) !in notes;
    } else {
      assert Flushed(m0, done') == Flushed(m0, done);
      var news := RemoteAmong(m0, ps) - s;
      assert BlockingRemote(m0, done') - s0 == (BlockingRemote(m0, done) - s0) + news;
      NotificationRequestsUnion(BlockingRemote(m0, done) - s0, news);
      forall r | r in NotificationRequests(news) ensures r !in adds {
      }
    }
  }

  /** One flush attempt of `t` marks `t` COMMITTING exactly when the batch
      so far has flushed it too. */
  lemma LineageStep(m0: Entries, tasks: set<TaskId>, done: set<TaskId>, t: TaskId, m: Entries, m': Entries)
    requires Flushable(m0, tasks) && done <= tasks && t in tasks - done
    requires m == MarkCommitting(m0, Flushed(m0, done))
    requires m' == if AllParentsCommitted(m, t) then m[t := m[t].(status := Committing)] else m
    ensures m' == MarkCommitting(m0, Flushed(m0, done + {t}))
    ensures AllParentsCommitted(m, t) <==> AllParentsCommitted(m0, t)
  {
    MarkCommittingKeepsClasses(m0, tasks, done, t);
    if AllParentsCommitted(m0, t) {
      assert Flushed(m0, done + {t}) == Flushed(m0, done) + {t};
    } else {
      assert Flushed(m0, done + {t}) == Flushed(m0, done);
    }
  }

  /** One flush attempt of `t` extends the batch from `done` to `done + {t}`. */
  lemma FlushStep(m0: Entries, s0: set<TaskId>, c0: Children, tasks: set<TaskId>, done: set<TaskId>, t: TaskId,
                  m: Entries, s: set<TaskId>, c: Children, issued: seq<GcsRequest>,
                  m': Entries, s': set<TaskId>, c': Children, more: seq<GcsRequest>)
    requires Flushable(m0, tasks) && done <= tasks && t in tasks - done
    requires FlushedSoFar(m0, s0, c0, done, m, s, c, issued)
    requires t in m
    requires m' == if AllParentsCommitted(m, t) then m[t := m[t].(status := Committing)] else m
    requires s' == s + RemoteAmong(m, m[t].Parents())
    requires ChildAdded(c, c', UncommittedAmong(m, m[t].Parents()), t)
    requires Enumerates(more, FlushRequests(m, s, t))
    ensures FlushedSoFar(m0, s0, c0, done + {t}, m', s', c', issued + more)
    ensures AllParentsCommitted(m, t) <==> AllParentsCommitted(m0, t)
  {
    MarkCommittingKeepsClasses(m0, tasks, done, t);
    LineageStep(m0, tasks, done, t, m, m');
    BlockingRemoteStep(m0, done, t);
    ChildrenStep(m0, c0, done, t, c, c');
    FlushRequestsKept(m0, tasks, done, t, s);
    IssuedStep(m0, s0, done, t, s, issued, more);
  }

  /** A flush attempt of `t` against the lineage of the batch so far asks
      for what it would against the batch's starting lineage. */
  lemma FlushRequestsKept(m0: Entries, tasks: set<TaskId>, done: set<TaskId>, t: TaskId, s: set<TaskId>)
    requires Flushable(m0, tasks) && done <= tasks && t in tasks
    ensures var m := MarkCommitting(m0, Flushed(m0, done));
      t in m && FlushRequests(m, s, t) == FlushRequests(m0, s, t)
  {
    MarkCommittingKeepsClasses(m0, tasks, done, t);
  }

  /** The requests of one more flush attempt extend the batch's listing. */
  lemma IssuedStep(m0: Entries, s0: set<TaskId>, done: set<TaskId>, t: TaskId, s: set<TaskId>,
                   issued: seq<GcsRequest>, more: seq<GcsRequest>)
    requires t in m0 && t !in done
    requires s == s0 + BlockingRemote(m0, done)
    requires Enumerates(issued, BatchRequests(m0, s0, done))
    requires Enumerates(more, FlushRequests(m0, s, t))
    ensures Enumerates(issued + more, BatchRequests(m0, s0, done + {t}))
  {
    RequestsStep(m0, s0, done, t, s);
    EnumeratesAppend(issued, BatchRequests(m0, s0, done), more, FlushRequests(m0, s, t));
  }

  // ---- Committing an entry ----

  /** `k` is reached from one of `ps` by a traversal of `m` that stops only
      at missing entries. */
  ghost predicate AncestorOf(m: Entries, ps: set<TaskId>, k: TaskId) {
    exists p :: p in ps && Reach(m, StopWhenNotFound, p, k)
  }

  /** The lineage once the commit of `id` is handled: the entry of `id` at
      COMMITTED, and every ancestor of its parents in the lineage without
      `id` removed. */
  ghost function CommittedLineage(m: Entries, id: TaskId): Entries
    requires id in m
  {
    var rest := m - {id};
    (map k | k in rest && !AncestorOf(rest, m[id].Parents(), k) :: rest[k])[id := m[id].(status := Committed)]
  }

  /** What the loop over the parents `ps` of the committed entry has done to
      `rest` (the lineage without that entry) once the parents in `done` had
      their ancestors popped. */
  ghost predicate PruneProgress(rest: Entries, cur: Entries, ps: set<TaskId>, done: set<TaskId>) {
    && SubMap(cur, rest)
    && (forall k :: k in rest && k !in cur ==> AncestorOf(rest, ps, k))
    && (forall p :: p in done ==> p !in cur)
    && RemovalClosed(rest, cur)
  }

  lemma PruneStart(rest: Entries, ps: set<TaskId>)
    ensures PruneProgress(rest, rest, ps, {})
  {
  }

  /** Popping the ancestors of parent `p` keeps the progress. */
  lemma PruneStep(rest: Entries, pre: Entries, post: Entries, ps: set<TaskId>, done: set<TaskId>, p: TaskId)
    requires PruneProgress(rest, pre, ps, done) && p in ps
    requires SubMap(post, pre) && p !in post && RemovalClosed(pre, post)
    requires forall k :: k in pre && k !in post ==> Reach(pre, StopWhenNotFound, p, k)
    ensures PruneProgress(rest, post, ps, done + {p})
  {
    forall k | k in rest && k !in post && k in pre
      ensures AncestorOf(rest, ps, k)
    {
      ReachSubMap(pre, rest, StopWhenNotFound, p, k);
    }
    forall k, q | k in rest && k !in post && q in rest[k].Parents()
      ensures q !in post
    {
      if k in pre {
        assert pre[k] == rest[k];
      }
    }
  }

  /** Once every parent is done, putting the COMMITTED entry back gives
      `CommittedLineage`. */
  lemma PruneDone(m: Entries, id: TaskId, cur: Entries)
    requires id in m && PruneProgress(m - {id}, cur, m[id].Parents(), m[id].Parents())
    ensures cur[id := m[id].(status := Committed)] == CommittedLineage(m, id)
  {
    var rest := m - {id};
    forall k | k in rest && AncestorOf(rest, m[id].Parents(), k)
      ensures k !in cur
    {
      var p :| p in m[id].Parents() && Reach(rest, StopWhenNotFound, p, k);
      RemovalFollowsPaths(rest, cur, p, k);
    }
  }

  /** After the commit of `id`: its entry is COMMITTED with its task
      unchanged; every other entry left is unchanged; no parent of `id`
      other than `id` itself is left; and whenever an entry is removed, so
      are its parents (other than `id`). */
  lemma CommittedLineageShape(m: Entries, id: TaskId)
    requires id in m
    ensures var m' := CommittedLineage(m, id);
      && id in m' && m'[id].status == Committed && m'[id].task == m[id].task
      && (forall k :: k in m' && k != id ==> k in m && m'[k] == m[k])
      && (forall p :: p in m[id].Parents() && p != id ==> p !in m')
      && (forall k, q :: k in m && k != id && k !in m' && q in m[k].Parents() && q != id ==> q !in m')
  {
    var rest := m - {id};
    var ps := m[id].Parents();
    var m' := CommittedLineage(m, id);
    forall p | p in ps && p != id && p in m
      ensures AncestorOf(rest, ps, p)
    {
      ReachSelf(rest, StopWhenNotFound, p);
    }
    forall k, q | k in m && k != id && k !in m' && q in m[k].Parents() && q != id && q in m
      ensures AncestorOf(rest, ps, q)
    {
      var p :| p in ps && Reach(rest, StopWhenNotFound, p, k);
      ReachAppend(rest, StopWhenNotFound, p, k, q);
    }
  }

  /** A COMMITTED entry never blocks a flush: it is neither subscribed to
      nor given children by a batch. */
  lemma CommittedNeverBlocks(m: Entries, tasks: set<TaskId>, id: TaskId)
    requires id in m && m[id].status == Committed
    ensures id !in BlockingParents(m, tasks) && id !in BlockingRemote(m, tasks)
  {
  }

  /** A batch of flushes leaves a COMMITTED entry COMMITTED. */
  lemma MarkCommittingKeepsCommitted(m: Entries, tasks: set<TaskId>, id: TaskId)
    requires Flushable(m, tasks) && id in m && m[id].status == Committed
    ensures id in MarkCommitting(m, Flushed(m, tasks)) && MarkCommitting(m, Flushed(m, tasks))[id].status == Committed
  {
  }
}
