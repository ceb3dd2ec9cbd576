/**
  `MockObjectStore`: the object store of the single-process runtime, two
  maps from object id to bytes and an optional local scheduler told about
  every put.
 */
module MockObjectStores {
  import opened Optional
  import opened ObjectIds
  import opened RayBuffers
  import opened ObjectStoreLinks

  /** The local scheduler of the single-process runtime is not part of this
      model; the model keeps the ids it was told about, in order. */
  class MockLocalScheduler {
    var objectsPut: seq<UniqueId>

    constructor ()
      ensures objectsPut == []
    {
      objectsPut := [];
    }

    method OnObjectPut(objectId: UniqueId)
      modifies this
      ensures objectsPut == old(objectsPut) + [objectId]
    {
      objectsPut := objectsPut + [objectId];
    }
  }

  /** How `put` ends: normally, or with the NullPointerException that a
      concurrent hash map throws for a null value. */
  datatype PutOutcome = Returned | NullPointerThrown

  /** `map.get`: null for a missing key. */
  function Lookup(m: map<UniqueId, Bytes>, id: UniqueId): Option<Bytes> {
    if id in m then Some(m[id]) else None
  }

  /** The ids of `ids` that are keys of `m`, in order. */
  function Present(m: map<UniqueId, Bytes>, ids: seq<UniqueId>): (r: seq<UniqueId>)
    ensures |r| <= |ids|
    ensures forall x :: x in r <==> x in ids && x in m
  {
    if ids == [] then []
    else if ids[0] in m then [ids[0]] + Present(m, ids[1..])
    else Present(m, ids[1..])
  }

  /** Filtering keeps the order: the ids present in `a + b` are those
      present in `a` followed by those present in `b`. */
  lemma {:induction false} PresentAppend(m: map<UniqueId, Bytes>, a: seq<UniqueId>, b: seq<UniqueId>)
    ensures Present(m, a + b) == Present(m, a) + Present(m, b)
  {
    if a == [] {
      assert a + b == b;
    } else {
      assert (a + b)[0] == a[0] && (a + b)[1..] == a[1..] + b;
      PresentAppend(m, a[1..], b);
    }
  }

  /** All ids present: the result is the input. */
  lemma {:induction false} PresentAll(m: map<UniqueId, Bytes>, ids: seq<UniqueId>)
    requires forall x :: x in ids ==> x in m
    ensures Present(m, ids) == ids
  {
    if ids != [] {
      PresentAll(m, ids[1..]);
    }
  }

  class MockObjectStore {
    var data: map<UniqueId, Bytes>
    var metadata: map<UniqueId, Bytes>
    var scheduler: MockLocalScheduler?

    constructor ()
      ensures data == map[] && metadata == map[] && scheduler == null
    {
      data := map[];
      metadata := map[];
      scheduler := null;
    }

    /** Stores data and metadata under `objectId`, replacing what was there,
        then tells the registered scheduler. A null value ends the process,
        so it is excluded; a null metadata value makes the metadata map
        throw after the data was stored, and the scheduler is not told. */
    method Put(objectId: UniqueId, value: Option<Bytes>, metadataValue: Option<Bytes>) returns (outcome: PutOutcome)
      requires value.Some?
      modifies this, scheduler
      ensures data == old(data)[objectId := value.value]
      ensures scheduler == old(scheduler)
      ensures outcome == Returned <==> metadataValue.Some?
      ensures metadataValue.Some? ==> metadata == old(metadata)[objectId := metadataValue.value]
      ensures metadataValue.None? ==> metadata == old(metadata)
      ensures scheduler != null ==>
                scheduler.objectsPut == old(scheduler.objectsPut) + (if outcome == Returned then [objectId] else [])
    {
      data := data[objectId := value.value];
      if metadataValue.None? {
        return NullPointerThrown;
      }
      metadata := metadata[objectId := metadataValue.value];
      if scheduler != null {
        scheduler.OnObjectPut(objectId);
      }
      outcome := Returned;
    }

    /** One new buffer per id, in order, holding the data (or metadata) of
        that id, or null for an id never put; no buffer has a release
        action. */
    method Get(objectIds: seq<UniqueId>, timeoutMs: int, isMetadata: bool) returns (rets: seq<RayBuffer>)
      ensures |rets| == |objectIds|
      ensures forall i, j :: 0 <= i < j < |rets| ==> rets[i] != rets[j]
      ensures forall i :: 0 <= i < |rets| ==>
                && fresh(rets[i])
                && rets[i].buffer == Lookup(if isMetadata then metadata else data, objectIds[i])
                && rets[i].finalizer.None? && !rets[i].isReleased
    {
      var dataMap := if isMetadata then metadata else data;
      rets := [];
      for i := 0 to |objectIds|
        invariant |rets| == i
        invariant forall j, k :: 0 <= j < k < i ==> rets[j] != rets[k]
        invariant forall j :: 0 <= j < i ==>
                    && fresh(rets[j])
                    && rets[j].buffer == Lookup(dataMap, objectIds[j])
                    && rets[j].finalizer.None? && !rets[j].isReleased
      {
        var b := new RayBuffer(Lookup(dataMap, objectIds[i]));
        rets := rets + [b];
      }
    }

    /** `get` of a single id: element 0 of the batch `get`. */
    method GetOne(objectId: UniqueId, timeoutMs: int, isMetadata: bool) returns (r: RayBuffer)
      ensures fresh(r) && r.finalizer.None? && !r.isReleased
      ensures r.buffer == Lookup(if isMetadata then metadata else data, objectId)
    {
      var rets := Get([objectId], timeoutMs, isMetadata);
      r := rets[0];
    }

    /** The ids that have been put, in input order; the timeout and the
        number asked for are ignored. */
    method Wait(objectIds: seq<UniqueId>, timeoutMs: int, numReturns: int) returns (rets: seq<UniqueId>)
      ensures rets == Present(data, objectIds)
    {
      rets := [];
      for i := 0 to |objectIds|
        invariant rets == Present(data, objectIds[..i])
      {
        if objectIds[i] in data {
          rets := rets + [objectIds[i]];
        }
        PresentAppend(data, objectIds[..i], [objectIds[i]]);
        assert objectIds[..i + 1] == objectIds[..i] + [objectIds[i]];
      }
      assert objectIds[..|objectIds|] == objectIds;
    }

    /** No digest is computed: always null. */
    method Hash(objectId: UniqueId) returns (digest: Option<Bytes>)
      ensures digest.None?
    {
      digest := None;
    }

    /** Does nothing. */
    method Fetch(objectIds: seq<UniqueId>)
      ensures unchanged(this)
    {
    }

    /** `fetch` of a single id: the batch `fetch` of `[objectId]`. */
    method FetchOne(objectId: UniqueId)
      ensures unchanged(this)
    {
      Fetch([objectId]);
    }

    /** Nothing is evicted. */
    method Evict(numBytes: int) returns (evicted: int)
      ensures evicted == 0
    {
      evicted := 0;
    }

    /** Ready exactly when it has been put. */
    method IsObjectReady(objectId: UniqueId) returns (ready: bool)
      ensures ready <==> objectId in data
    {
      ready := objectId in data;
    }

    method RegisterScheduler(s: MockLocalScheduler?)
      modifies this
      ensures scheduler == s && data == old(data) && metadata == old(metadata)
    {
      scheduler := s;
    }
  }

  /** What a successful `put` stores is what `get` of that id returns, for
      data and for metadata, whatever was stored before. */
  lemma PutThenGet(data: map<UniqueId, Bytes>, metadata: map<UniqueId, Bytes>, id: UniqueId, v: Bytes, m: Bytes)
    ensures Lookup(data[id := v], id) == Some(v) && Lookup(metadata[id := m], id) == Some(m)
    ensures forall k :: k != id ==> Lookup(data[id := v], k) == Lookup(data, k)
  {
  }

  /** After a put, the mock's null digest breaks the interface contract of
      `hash`. */
  lemma MockHashBreaksContract(data: map<UniqueId, Bytes>, id: UniqueId, v: Bytes)
    ensures !HashContract(id in data[id := v], None)
  {
  }
}
