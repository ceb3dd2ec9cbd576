# Ray lineage cache and Java object-store client, in Dafny

This project models two independent parts of Ray.

The first is the raylet lineage cache (`lineage_cache.cc`/`.h`). A lineage is
a map from task id to an entry: the task and its status in the GCS. The
statuses are ordered NONE < UNCOMMITTED_REMOTE < UNCOMMITTED_WAITING <
UNCOMMITTED_READY < COMMITTING < COMMITTED. The cache holds:

- the lineage (`lineage_`);
- the READY tasks not yet written (`uncommitted_ready_tasks_`);
- the remote tasks it subscribed to (`subscribed_tasks_`);
- for each uncommitted parent, the READY children waiting on it
  (`uncommitted_ready_children_`).

A task moves WAITING → READY → COMMITTING → COMMITTED through
`AddWaitingTask`, `AddReadyTask`, `FlushTask`/`Flush` and
`HandleEntryCommitted`. Task-table writes and pubsub (un)subscriptions are
appended to a request log (`requests`) on the cache. The asynchronous commit
callback is a later call of `HandleEntryCommitted` by the environment.

The second is the Java object-store client:

- `RayBuffer`: a byte array with a release action that may run once.
- `ObjectStoreLink`: the interface, its constants, and its single-id
  defaults.
- `MockObjectStore`: two maps and an optional scheduler.
- `PlasmaClient`: the client over a native plasma connection. Every native
  call is appended to the call log of a `PlasmaStore` object, and what the
  native store answers is a parameter of the method.

Modules, one per file:

- `GcsStatuses`, `Tasks`, `LineageEntries`, `Lineages`: the enum, tasks,
  `LineageEntry` and `Lineage`.
- `LineageTraversals`: `MergeLineageHelper` and `PopAncestorTasks`.
- `LineageCacheSpec`: the specification functions of a flush and of a commit,
  and the lemmas about them.
- `LineageCaches`: the `LineageCache` class.
- `ObjectIds`, `ObjectStoreLinks`, `PlasmaStores`, `RayBuffers`,
  `MockObjectStores`, `PlasmaClients`: the Java side.

How the code is modelled:

- Each C++ `RAY_CHECK` and each Java `assert` on an input becomes a
  `requires`, and so does the `System.exit` of `MockObjectStore.put`.
- The batch loops iterate over an unordered set, so the order of the
  requests they issue is not fixed. A flush is specified by the set of
  requests it issues, and the appended part of the log lists that set with
  no duplicates (`Enumerates`).
- The lineage-cache header is out of date with the .cc: it still declares
  `LineageCacheEntry`, `AddReadyObject` and `Status Flush()`. The model
  follows the .cc and takes only the enum order and the doc comments from
  the header.
- A null metadata value makes `MockObjectStore.put` throw. The metadata map
  is a `ConcurrentHashMap` that rejects null values, and it is written after
  the data map. So the data is stored but the metadata and the scheduler
  notification are not. The put-then-get round trip holds for non-null
  metadata only.

## Model

| member | source | states |
|---|---|---|
| GcsStatuses.Rank | src/ray/raylet/lineage_cache.h:30-46 | the enumerator value is 0..5, 0 exactly for NONE and 5 exactly for COMMITTED |
| GcsStatuses.DeclarationOrder | src/ray/raylet/lineage_cache.h:30-46 | NONE < REMOTE < WAITING < READY < COMMITTING < COMMITTED |
| GcsStatuses.LessIsStrictTotalOrder | src/ray/raylet/lineage_cache.h:30-46 | status `<` is irreflexive, asymmetric, transitive and total |
| GcsStatuses.Extremes | src/ray/raylet/lineage_cache.h:30-46 | NONE is below and COMMITTED above every other status |
| LineageEntries.LineageEntry.SetStatus | src/ray/raylet/lineage_cache.cc:12-19 | returns true iff the new status is strictly greater; the status becomes the new one exactly then, the task is untouched, and the result is at least both the old and the new status |
| LineageEntries.LineageEntry.ResetStatus | src/ray/raylet/lineage_cache.cc:21-24 | requires a strictly lower status; the entry gets exactly it with the same task |
| LineageEntries.SetStatusIsMonotone | src/ray/raylet/lineage_cache.h:79-86 | no call lowers a status, and a first SetStatus never leaves a later one lower than it would be alone |
| LineageEntries.SetStatusIdempotent | src/ray/raylet/lineage_cache.cc:12-19 | repeating SetStatus with the same value returns false and changes nothing |
| LineageEntries.LineageEntry.GetParentTaskIds | src/ray/raylet/lineage_cache.cc:30-38 | the loop collects exactly the creators of the dependencies |
| LineageEntries.ParentsByIndex | src/ray/raylet/lineage_cache.cc:30-38 | every dependency's creator is a parent, and every parent is the creator of some dependency |
| Lineages.Lineage.constructor | src/ray/raylet/lineage_cache.cc:44 | an empty lineage |
| Lineages.Lineage.GetEntry | src/ray/raylet/lineage_cache.cc:56-63 | empty iff the id is absent, otherwise the stored entry |
| Lineages.Lineage.PopEntry | src/ray/raylet/lineage_cache.cc:95-104 | returns the entry and removes exactly that key when present; returns empty and changes nothing when absent |
| Lineages.Lineage.SetEntry | src/ray/raylet/lineage_cache.cc:74-93 | inserts iff the new status is strictly above the current one (NONE when absent) and says so; otherwise the map is unchanged; requires a non-NONE status for an absent key; the key is the entry's id, the id of its task (`GetEntryId`, lineage_cache.cc:26-28) |
| Lineages.SetEntryKeepsMaximum | src/ray/raylet/lineage_cache.h:130-138 | after SetEntry the key holds the larger of the old and the new status, and no other key changes |
| LineageTraversals.PendingShrinks | src/ray/raylet/lineage_cache.cc:155-163 | a merge step never raises the set of keys still able to succeed, the bound that makes the recursion terminate |
| LineageTraversals.MergeLineageHelper | src/ray/raylet/lineage_cache.cc:139-165 | terminates; statuses never go down; every changed entry is a copy of a `from` entry at a higher status, reached from the task along parents through entries that were all strictly above their status in the target (the DFS goes no further than a failed `SetEntry`); every non-stopping parent of a changed entry is covered; and the result is exactly the target overwritten with those reachable pending entries |
| LineageTraversals.MergeExact | src/ray/raylet/lineage_cache.cc:139-165 | the merge's own guarantees pin its result: the target overwritten with every `from` entry reached from the task through entries still pending against the target, and nothing else; a key held at an equal or higher status is kept and blocks the DFS |
| LineageTraversals.MergeReachesPending | src/ray/raylet/lineage_cache.cc:155-163 | every entry reached through pending entries ends in the result as the copy from `from` |
| LineageTraversals.MergeIntoEmpty | src/ray/raylet/lineage_cache.cc:139-165 | merged into an empty lineage, the DFS copies exactly the entries of `from` it reaches |
| LineageTraversals.MergeFillsAbsent | src/ray/raylet/lineage_cache.cc:139-165 | when the target holds none of the entries the traversal reaches, the merge copies every one of them |
| LineageTraversals.PopAncestorTasks | src/ray/raylet/lineage_cache.cc:300-310 | removes exactly the task and the entries reachable from it (a sub-map of the old lineage), each required to be REMOTE or COMMITTED |
| LineageTraversals.RemovalFollowsPaths | src/ray/raylet/lineage_cache.cc:300-310 | a removal that is closed under parents and removes `a` removes everything reachable from `a` |
| LineageCaches.LineageCache.constructor | src/ray/raylet/lineage_cache.cc:124-127 | an empty lineage, no ready tasks, subscriptions, children or requests |
| LineageCaches.LineageCache.AddWaitingTask | src/ray/raylet/lineage_cache.cc:167-185 | the final lineage is the merged lineage with the task at UNCOMMITTED_WAITING. The merged lineage is exactly the old lineage overwritten with every received entry reached from the task through received entries the cache held below their received status; a key the cache held at an equal or higher status is kept and the merge does not go past it. So no status went down, the task's own received entry is covered, and every parent of a copied entry is covered. When the cache held none of the reachable received entries, every one of them other than the task is copied. No key is lost, every changed entry other than the task is a REMOTE copy at a key that was below REMOTE, and the cache's other members and request log are unchanged |
| LineageCacheSpec.ReceivedMergeShape | src/ray/raylet/lineage_cache.cc:167-185 | merging a received lineage of REMOTE entries loses no key and changes only keys below REMOTE, each to its REMOTE received entry reached from the task |
| LineageCaches.LineageCache.AddReadyTask | src/ray/raylet/lineage_cache.cc:187-198 | the task is set READY and flushed; it ends COMMITTING iff all its parents are committed, and otherwise it is kept among the ready tasks; the subscriptions, the children index and the appended requests are those of one flush |
| LineageCaches.LineageCache.RemoveWaitingTask | src/ray/raylet/lineage_cache.cc:200-210 | requires WAITING; the entry stays, at UNCOMMITTED_REMOTE, every other entry is unchanged, and the ready tasks, subscriptions, children and request log are unchanged |
| LineageCaches.LineageCache.GetUncommittedLineage | src/ray/raylet/lineage_cache.cc:212-222 | a newly allocated lineage, distinct from the cache's, holding exactly the entries reachable through non-COMMITTED entries: none is COMMITTED, the task's own entry is there when it is present and not COMMITTED, and the cache is unchanged |
| LineageCaches.LineageCache.ScanParents | src/ray/raylet/lineage_cache.cc:231-260 | the parent loop: leaves the lineage alone, adds the task as a child of each uncommitted parent, subscribes the remote parents, requests a notification only for newly subscribed ones, and reports whether every present parent is COMMITTED |
| LineageCaches.LineageCache.FlushTask | src/ray/raylet/lineage_cache.cc:224-284 | requires READY and no WAITING parent; returns true iff every present parent is COMMITTED, and then the task is COMMITTING and the one new request is its write; otherwise the lineage is unchanged and the new requests are the new subscriptions |
| LineageCacheSpec.FlushTaskDone | src/ray/raylet/lineage_cache.cc:261-283 | once every parent is scanned, the loop's flag is `all parents committed`, and the log gets the task write exactly then |
| LineageCacheSpec.FlushedStep | src/ray/raylet/lineage_cache.cc:290-296 | an attempt adds a task to the flushed ones exactly when all its parents are committed |
| LineageCacheSpec.MarkCommittingKeepsClasses | src/ray/raylet/lineage_cache.cc:279-281 | marking flushed READY tasks COMMITTING keeps every key and task, and keeps which entries are COMMITTED, REMOTE or WAITING, so later attempts see the same parents |
| LineageCacheSpec.FlushStep | src/ray/raylet/lineage_cache.cc:288-297 | one more attempt extends the batch state (lineage, subscriptions, children, requests) from `done` to `done` plus the task |
| LineageCaches.LineageCache.FlushNext | src/ray/raylet/lineage_cache.cc:290-296 | one iteration of the erase-while-iterating loop: flush, then erase the task from the ready tasks exactly when it was flushed |
| LineageCaches.LineageCache.FlushEach | src/ray/raylet/lineage_cache.cc:286-298 | after one attempt per task, the state is that of the batch: flushed tasks COMMITTING, subscriptions and children of the blocked ones, requests enumerating writes and new subscriptions; each flushed task is erased from the ready tasks |
| LineageCaches.LineageCache.Flush | src/ray/raylet/lineage_cache.cc:286-298 | the ready tasks kept are exactly those whose flush returned false |
| LineageCacheSpec.PruneDone | src/ray/raylet/lineage_cache.cc:316-318 | popping the ancestors of every parent and putting the COMMITTED entry back gives the committed lineage |
| LineageCaches.LineageCache.CommitEntry | src/ray/raylet/lineage_cache.cc:314-328 | the lineage becomes the committed lineage of the task: its entry COMMITTED, and every ancestor of its parents removed |
| LineageCacheSpec.CommittedLineageShape | src/ray/raylet/lineage_cache.cc:314-328 | after a commit the entry is COMMITTED with its task, every other entry left is unchanged, no parent remains, and removal is closed under parents |
| LineageCacheSpec.CommittedNeverBlocks | src/ray/raylet/lineage_cache.cc:337-355 | a COMMITTED entry gets no children and no subscription from any flush |
| LineageCacheSpec.MarkCommittingKeepsCommitted | src/ray/raylet/lineage_cache.cc:347-354 | flushing the children leaves the committed entry COMMITTED |
| LineageCaches.LineageCache.HandleEntryCommitted | src/ray/raylet/lineage_cache.cc:312-356 | the entry is COMMITTED with its ancestors pruned; a cancellation is logged iff the task was subscribed; the task is neither subscribed nor a key of the children index; its former children are flushed as a batch and the flushed ones erased from the ready tasks |
| ObjectIds.GetBytesInjective | java/runtime-native/src/main/java/org/ray/spi/impl/PlasmaClient.java:93 | two ids are equal iff their bytes are equal |
| ObjectStoreLinks.TimeoutsFitInt | java/runtime-common/src/main/java/org/ray/spi/ObjectStoreLink.java:14-15 | GET_TIMEOUT_MS is 1000 and WAIT_TIMEOUT_MS (`1 << 30` on a 32-bit int) is 2^30, both positive ints |
| RayBuffers.RayBuffer.constructor | java/runtime-common/src/main/java/org/ray/spi/model/RayBuffer.java:14-16 | the bytes as given, which is what `buffer()` (`Buffer`) returns, no release action, not released |
| RayBuffers.RayBuffer.WithFinalizer | java/runtime-common/src/main/java/org/ray/spi/model/RayBuffer.java:18-21 | the bytes (returned by `Buffer`, RayBuffer.java:23-25) and the release action as given, not released |
| RayBuffers.RayBuffer.Release | java/runtime-common/src/main/java/org/ray/spi/model/RayBuffer.java:27-33 | without a release action: nothing changes, so it can be repeated; with one: requires not yet released, logs the native release of its id once, and sets released; afterwards the leak check of `finalize` (`NotLeaked`: no release action, or released; RayBuffer.java:35-37) holds |
| MockObjectStores.Present | java/runtime-dev/src/main/java/org/ray/spi/impl/MockObjectStore.java:64-72 | keeps exactly the ids that are in the map, and no more of them than there are ids |
| MockObjectStores.PresentAppend | java/runtime-dev/src/main/java/org/ray/spi/impl/MockObjectStore.java:64-72 | filtering keeps the input order |
| MockObjectStores.PresentAll | java/runtime-dev/src/main/java/org/ray/spi/impl/MockObjectStore.java:64-72 | when every id has been put, wait returns its input |
| MockObjectStores.PutThenGet | java/runtime-dev/src/main/java/org/ray/spi/impl/MockObjectStore.java:30-31 | after a put, looking up the id gives the value and the metadata last put, whatever was there; other ids are unaffected |
| MockObjectStores.MockHashBreaksContract | java/runtime-dev/src/main/java/org/ray/spi/impl/MockObjectStore.java:74-77 | after a put, the mock's null digest violates the `hash` contract of the interface |
| MockObjectStores.MockObjectStore.constructor | java/runtime-dev/src/main/java/org/ray/spi/impl/MockObjectStore.java:19-21 | empty maps and no scheduler |
| MockObjectStores.MockObjectStore.Put | java/runtime-dev/src/main/java/org/ray/spi/impl/MockObjectStore.java:24-36 | requires a value; replaces the data; with metadata, replaces it and tells the registered scheduler exactly once; with null metadata, throws after storing the data, and the scheduler is not told |
| MockObjectStores.MockObjectStore.Get | java/runtime-dev/src/main/java/org/ray/spi/impl/MockObjectStore.java:39-47 | one new buffer per id, in order, all distinct, holding the chosen map's bytes or null, none with a release action |
| MockObjectStores.MockObjectStore.GetOne | java/runtime-common/src/main/java/org/ray/spi/ObjectStoreLink.java:35-37 | the single-id default: the chosen map's bytes for the id, no release action |
| MockObjectStores.MockObjectStore.Wait | java/runtime-dev/src/main/java/org/ray/spi/impl/MockObjectStore.java:64-72 | exactly the input ids that were put, in input order |
| MockObjectStores.MockObjectStore.Fetch | java/runtime-dev/src/main/java/org/ray/spi/impl/MockObjectStore.java:79-82 | has no effect: the store is unchanged |
| MockObjectStores.MockObjectStore.FetchOne | java/runtime-common/src/main/java/org/ray/spi/ObjectStoreLink.java:74-76 | the single-id default is the batch fetch of `[id]`, so it has no effect either |
| MockObjectStores.MockObjectStore.Hash | java/runtime-dev/src/main/java/org/ray/spi/impl/MockObjectStore.java:74-77 | always null |
| MockObjectStores.MockObjectStore.Evict | java/runtime-dev/src/main/java/org/ray/spi/impl/MockObjectStore.java:84-87 | evicts 0 bytes |
| MockObjectStores.MockObjectStore.IsObjectReady | java/runtime-dev/src/main/java/org/ray/spi/impl/MockObjectStore.java:89-91 | true iff the id has been put |
| MockObjectStores.MockObjectStore.RegisterScheduler | java/runtime-dev/src/main/java/org/ray/spi/impl/MockObjectStore.java:93-95 | sets the scheduler and leaves both maps alone |
| PlasmaClients.IdBytes | java/runtime-native/src/main/java/org/ray/spi/impl/PlasmaClient.java:76-83 | one entry per id, entry `i` the bytes of id `i` |
| PlasmaClients.PlasmaClient.GetIdBytes | java/runtime-native/src/main/java/org/ray/spi/impl/PlasmaClient.java:76-83 | a new array whose contents are the bytes of each id, in order |
| PlasmaClients.PutSealsOnlyCreated | java/runtime-native/src/main/java/org/ray/spi/impl/PlasmaClient.java:37-53 | put always creates first; it seals and releases iff create gave a buffer, and then in the order copy, seal, release, once each |
| PlasmaClients.PlasmaClient.Put | java/runtime-native/src/main/java/org/ray/spi/impl/PlasmaClient.java:37-53 | the native calls made are those of `PutSealsOnlyCreated` for the create outcome |
| PlasmaClients.PlasmaClient.WrapAll | java/runtime-native/src/main/java/org/ray/spi/impl/PlasmaClient.java:61-73 | the loop of `get`: one new, distinct, unreleased buffer per native entry, in order, from the chosen channel, with a release action exactly for a non-null view |
| PlasmaClients.PlasmaClient.Get | java/runtime-native/src/main/java/org/ray/spi/impl/PlasmaClient.java:56-74 | requires one native entry per id; logs the native get with the id bytes; one new unreleased buffer per id, in order, all distinct so each can be released once, from channel 1 for metadata and 0 for data; null view gives a null buffer without a release action, else a copy whose release action releases that id |
| PlasmaClients.PlasmaClient.GetOne | java/runtime-common/src/main/java/org/ray/spi/ObjectStoreLink.java:35-37 | the single-id default is element 0 of the batch get of `[id]` |
| PlasmaClients.FirstMatch | java/runtime-native/src/main/java/org/ray/spi/impl/PlasmaClient.java:92-97 | the first id with the ready bytes is the id made of those bytes, when it is among the ids |
| PlasmaClients.PlasmaClient.FindReady | java/runtime-native/src/main/java/org/ray/spi/impl/PlasmaClient.java:92-97 | the inner search loop finds that first matching id, or none |
| PlasmaClients.MatchReady | java/runtime-native/src/main/java/org/ray/spi/impl/PlasmaClient.java:91-98 | at most one result per ready entry, each an input id |
| PlasmaClients.MatchReadyAppend | java/runtime-native/src/main/java/org/ray/spi/impl/PlasmaClient.java:91-98 | matching keeps the native order |
| PlasmaClients.MatchReadyAllMatched | java/runtime-native/src/main/java/org/ray/spi/impl/PlasmaClient.java:100 | when every entry matches, one result per entry, result `i` the input id with the bytes of entry `i` |
| PlasmaClients.MatchReadyFullOnlyIfAllMatched | java/runtime-native/src/main/java/org/ray/spi/impl/PlasmaClient.java:100 | one result per entry only if every entry matched, so the size assertion is the same as the `requires` of `Wait` |
| PlasmaClients.PlasmaClient.Wait | java/runtime-native/src/main/java/org/ray/spi/impl/PlasmaClient.java:86-102 | logs the native wait with the id bytes; returns each ready entry's matching id in native order, exactly one per entry |
| PlasmaClients.PlasmaClient.Hash | java/runtime-native/src/main/java/org/ray/spi/impl/PlasmaClient.java:105-107 | forwards the id bytes and returns the native digest |
| PlasmaClients.PlasmaClient.Fetch | java/runtime-native/src/main/java/org/ray/spi/impl/PlasmaClient.java:110-113 | forwards the bytes of every id, in order |
| PlasmaClients.PlasmaClient.FetchOne | java/runtime-common/src/main/java/org/ray/spi/ObjectStoreLink.java:74-76 | the single-id default is the batch fetch of `[id]` |
| PlasmaClients.PlasmaClient.Evict | java/runtime-native/src/main/java/org/ray/spi/impl/PlasmaClient.java:116-118 | forwards the byte count and returns the native result |
| PlasmaClients.PlasmaClient.Seal | java/runtime-native/src/main/java/org/ray/spi/impl/PlasmaClient.java:128-130 | forwards the id bytes to seal |
| PlasmaClients.PlasmaClient.Release | java/runtime-native/src/main/java/org/ray/spi/impl/PlasmaClient.java:137-139 | forwards the id bytes to release; a buffer's release action logs the same call |
| PlasmaClients.PlasmaClient.Contains | java/runtime-native/src/main/java/org/ray/spi/impl/PlasmaClient.java:146-148 | forwards the id bytes and returns the native answer |

## Left out

- Flatbuffer packing is not modelled: `Lineage(const ForwardTaskRequest&)`, `Lineage::ToFlatbuffer` and the pack/unpack lines of `FlushTask` belong to a serialization library.
- The GCS client and pubsub are a request log; their callbacks, driver and client ids are not modelled.
- Logging is not modelled: the `RAY_LOG` lines of the cache, the `RayLog.core.error` call in the exception handler of `PlasmaClient.put`, and the mock's logging.
- `GetEntryMutable`, `GetEntries` and `TaskData` are plain accessors; the model reads the map directly.
- `ComputeTaskId` is the projection of an object id onto its creating task. The properties depend only on the parent sets it induces.
- Order of iteration over unordered sets: the model lets every loop choose any remaining element, so the order of issued requests is stated only as a set.
- LineageCaches.LineageCache.AddWaitingTask: requires every entry of the received lineage reachable from the task to be UNCOMMITTED_REMOTE. The source checks only the entries its DFS visits, and it skips the parents of an entry that is already at an equal or higher status. The stronger condition holds for every lineage the raylet receives: it is rebuilt from the forwarded request by the constructor at lineage_cache.cc:46-54, which gives every entry UNCOMMITTED_REMOTE.
- LineageCaches.LineageCache.FlushEach: the source runs the child loop of `HandleEntryCommitted` and the loop of `Flush` separately, and the model shares one method between them. In `Flush` the erase must find the task, which it always does there.
- LineageCaches.LineageCache.ScanParents, FlushNext and CommitEntry, and PlasmaClients.PlasmaClient.WrapAll and FindReady, are pieces of `FlushTask`, `Flush`/`HandleEntryCommitted`, `HandleEntryCommitted`, and the client's `get` and `wait`, split out as methods. They are not separate functions in the source.
- The JNI native store (`PlasmaClientJNI`) is not modelled: its answers are method parameters, and its calls make up the log on `PlasmaStore`.
- The `PlasmaClient` constructor and finalization (connect and disconnect) are not modelled; the model's constructor only takes the store.
- Blocking and timeouts of the native `get` and `wait`: time is not observable, so the timeouts are only forwarded.
- `ByteBuffer` positions: native views are given by their remaining bytes, and the copy `buf.get(bb)` is the view's bytes.
- RayBuffers.RayBuffer.Release: the release action's byte-array argument is not passed, because the only action the client creates ignores it.
- `MockObjectStore.logPrefix` and `getUserTrace`, and the internals of `MockLocalScheduler`: the model keeps only the ids the scheduler was told about.
- `ConcurrentHashMap` thread safety: the model is sequential.
- A null id in `PlasmaClient.put` or a null value in `PlasmaClient.put` (a NullPointerException in Java): ids are values here and a value is always present.
- `UniqueID` is modelled by its bytes, which is how the client compares ids.
