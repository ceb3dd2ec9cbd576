/**
  `PlasmaClient`: the object store interface over a native plasma store
  connection. Every native call is recorded on `store`; what the native
  store answers is a parameter of the method that makes the call.
 */
module PlasmaClients {
  import opened Optional
  import opened ObjectIds
  import opened PlasmaStores
  import opened RayBuffers

  /** How the native `create` ends: a new buffer, a null buffer, or one of
      its two exceptions. */
  datatype CreateReply = Created | CreatedNull | ObjectExists | OutOfMemory

  /** The two views the native `get` gives for one object, each null when
      the object is missing; a view is given by its remaining bytes. */
  datatype NativeObject = NativeObject(data: Option<Bytes>, metadata: Option<Bytes>) {
    /** Channel 1 for metadata, channel 0 for data. */
    function Channel(isMetadata: bool): Option<Bytes> {
      if isMetadata then metadata else data
    }
  }

  /** The bytes of each id, in order. */
  function IdBytes(objectIds: seq<UniqueId>): (r: seq<Bytes>)
    ensures |r| == |objectIds|
    ensures forall i :: 0 <= i < |r| ==> r[i] == objectIds[i].GetBytes()
  {
    if objectIds == [] then [] else [objectIds[0].GetBytes()] + IdBytes(objectIds[1..])
  }

  /** The native calls made by `put`: `create`, and only when it gave a
      buffer, the copy of the value into it, `seal` and `release`. */
  function PutCalls(objectId: UniqueId, value: Bytes, metadata: Option<Bytes>, reply: CreateReply): seq<StoreCall> {
    var create := CreateCall(objectId.GetBytes(), |value|, metadata);
    if reply == Created then
      [create, WriteCall(objectId.GetBytes(), value), SealCall(objectId.GetBytes()), ReleaseCall(objectId.GetBytes())]
    else
      [create]
  }

  /** `put` seals and releases exactly when `create` gave a buffer, each
      once, after the value was copied in and in that order. */
  lemma PutSealsOnlyCreated(objectId: UniqueId, value: Bytes, metadata: Option<Bytes>, reply: CreateReply)
    ensures var calls := PutCalls(objectId, value, metadata, reply);
      && calls[0] == CreateCall(objectId.GetBytes(), |value|, metadata)
      && (SealCall(objectId.GetBytes()) in calls <==> reply == Created)
      && (ReleaseCall(objectId.GetBytes()) in calls <==> reply == Created)
      && (reply == Created ==>
            && |calls| == 4
            && calls[1] == WriteCall(objectId.GetBytes(), value)
            && calls[2] == SealCall(objectId.GetBytes())
            && calls[3] == ReleaseCall(objectId.GetBytes()))
      && (reply != Created ==> |calls| == 1)
  {
  }

  /** The first of `ids` whose bytes equal `ready`: since an id is its
      bytes, that is the id made of `ready`, when it is among `ids`. */
  function FirstMatch(ready: Bytes, ids: seq<UniqueId>): (r: Option<UniqueId>)
    ensures r == if UniqueId(ready) in ids then Some(UniqueId(ready)) else None
  {
    if ids == [] then None
    else if ids[0].GetBytes() == ready then Some(ids[0])
    else
      var rest := FirstMatch(ready, ids[1..]);
      assert ids == [ids[0]] + ids[1..];
      rest
  }

  /** Each ready entry, in order, mapped to its first matching id; an
      entry that matches no id is dropped. */
  function MatchReady(readys: seq<Bytes>, ids: seq<UniqueId>): (r: seq<UniqueId>)
    ensures |r| <= |readys|
    ensures forall x :: x in r ==> x in ids
  {
    if readys == [] then []
    else
      var m := FirstMatch(readys[0], ids);
      (if m.Some? then [m.value] else []) + MatchReady(readys[1..], ids)
  }

  /** When every ready entry matches some id, there is one result per
      entry, and result `i` is an input id with the bytes of entry `i`. */
  lemma {:induction false} MatchReadyAllMatched(readys: seq<Bytes>, ids: seq<UniqueId>)
    requires forall i :: 0 <= i < |readys| ==> UniqueId(readys[i]) in ids
    ensures |MatchReady(readys, ids)| == |readys|
    ensures forall i :: 0 <= i < |readys| ==>
              MatchReady(readys, ids)[i] in ids && MatchReady(readys, ids)[i].GetBytes() == readys[i]
  {
    if readys != [] {
      assert UniqueId(readys[0]) in ids;
      forall i | 0 <= i < |readys| - 1 ensures UniqueId(readys[1..][i]) in ids {
        assert readys[1..][i] == readys[i + 1];
      }
      MatchReadyAllMatched(readys[1..], ids);
      var r := MatchReady(readys, ids);
      assert r == [UniqueId(readys[0])] + MatchReady(readys[1..], ids);
      forall i | 0 <= i < |readys| ensures r[i] in ids && r[i].GetBytes() == readys[i] {
        if i > 0 {
          assert r[i] == MatchReady(readys[1..], ids)[i - 1];
          assert readys[1..][i - 1] == readys[i];
        }
      }
    }
  }

  /** Conversely, one result per entry means every entry matched an id:
      the size check of `wait` holds exactly when no ready entry is
      unknown. */
  lemma {:induction false} MatchReadyFullOnlyIfAllMatched(readys: seq<Bytes>, ids: seq<UniqueId>)
    requires |MatchReady(readys, ids)| == |readys|
    ensures forall i :: 0 <= i < |readys| ==> UniqueId(readys[i]) in ids
  {
    if readys != [] {
      assert FirstMatch(readys[0], ids).Some?;
      MatchReadyFullOnlyIfAllMatched(readys[1..], ids);
      forall i | 0 < i < |readys| ensures UniqueId(readys[i]) in ids {
        assert readys[i] == readys[1..][i - 1];
      }
    }
  }

  /** Matching keeps the order of the ready entries. */
  lemma {:induction false} MatchReadyAppend(a: seq<Bytes>, b: seq<Bytes>, ids: seq<UniqueId>)
    ensures MatchReady(a + b, ids) == MatchReady(a, ids) + MatchReady(b, ids)
  {
    if a == [] {
      assert a + b == b;
    } else {
      assert (a + b)[0] == a[0] && (a + b)[1..] == a[1..] + b;
      MatchReadyAppend(a[1..], b, ids);
    }
  }

  class PlasmaClient {
    const store: PlasmaStore

    constructor (store: PlasmaStore)
      ensures this.store == store
    {
      this.store := store;
    }

    /** `getIdBytes`: a new array with the bytes of each id, in order. */
    static method GetIdBytes(objectIds: seq<UniqueId>) returns (ids: array<Bytes>)
      ensures fresh(ids)
      ensures ids[..] == IdBytes(objectIds)
    {
      var size := |objectIds|;
      ids := new Bytes[size];
      for i := 0 to size
        invariant forall j :: 0 <= j < i ==> ids[j] == objectIds[j].GetBytes()
      {
        ids[i] := objectIds[i].GetBytes();
      }
    }

    /** Creates the object; when a buffer is given, copies the value in,
        seals the object and releases it. */
    method Put(objectId: UniqueId, value: Bytes, metadata: Option<Bytes>, created: CreateReply)
      modifies store
      ensures store.calls == old(store.calls) + PutCalls(objectId, value, metadata, created)
    {
      store.Call(CreateCall(objectId.GetBytes(), |value|, metadata));
      if created != Created {
        return;
      }
      store.Call(WriteCall(objectId.GetBytes(), value));
      store.Call(SealCall(objectId.GetBytes()));
      store.Call(ReleaseCall(objectId.GetBytes()));
    }

    /** One buffer per id, in order, copied from the chosen channel of the
        native answer `bufs`; a null view gives a null buffer without a
        release action, any other view a copy whose release action
        releases that id. The native answer must have one entry per id. */
    method Get(objectIds: seq<UniqueId>, timeoutMs: int, isMetadata: bool, bufs: seq<NativeObject>)
      returns (ret: seq<RayBuffer>)
      requires |bufs| == |objectIds|
      modifies store
      ensures store.calls == old(store.calls) + [GetCall(IdBytes(objectIds), timeoutMs)]
      ensures |ret| == |objectIds|
      ensures forall i, j :: 0 <= i < j < |ret| ==> ret[i] != ret[j]
      ensures forall i :: 0 <= i < |ret| ==>
                && fresh(ret[i]) && !ret[i].isReleased
                && ret[i].buffer == bufs[i].Channel(isMetadata)
                && ret[i].finalizer == if bufs[i].Channel(isMetadata).None? then None
                                       else Some(ReleaseObject(store, objectIds[i]))
    {
      var ids := GetIdBytes(objectIds);
      store.Call(GetCall(ids[..], timeoutMs));
      ret := WrapAll(objectIds, isMetadata, bufs);
    }

    /** The loop of `get`: one new buffer per native entry, from the chosen
        channel; a null view gives a null buffer without a release action,
        any other view a copy whose release action releases that id. */
    method WrapAll(objectIds: seq<UniqueId>, isMetadata: bool, bufs: seq<NativeObject>)
      returns (ret: seq<RayBuffer>)
      requires |bufs| == |objectIds|
      ensures |ret| == |objectIds|
      ensures forall i, j :: 0 <= i < j < |ret| ==> ret[i] != ret[j]
      ensures forall i :: 0 <= i < |ret| ==>
                && fresh(ret[i]) && !ret[i].isReleased
                && ret[i].buffer == bufs[i].Channel(isMetadata)
                && ret[i].finalizer == if bufs[i].Channel(isMetadata).None? then None
                                       else Some(ReleaseObject(store, objectIds[i]))
    {
      ret := [];
      for i := 0 to |bufs|
        invariant |ret| == i
        invariant forall j, k :: 0 <= j < k < i ==> ret[j] != ret[k]
        invariant forall j :: 0 <= j < i ==>
                    && fresh(ret[j]) && !ret[j].isReleased
                    && ret[j].buffer == bufs[j].Channel(isMetadata)
                    && ret[j].finalizer == if bufs[j].Channel(isMetadata).None? then None
                                           else Some(ReleaseObject(store, objectIds[j]))
      {
        var oid := objectIds[i];
        var buf := bufs[i].Channel(isMetadata);
        var b: RayBuffer;
        if buf.None? {
          b := new RayBuffer.WithFinalizer(None, None);
        } else {
          b := new RayBuffer.WithFinalizer(Some(buf.value), Some(ReleaseObject(store, oid)));
        }
        ret := ret + [b];
      }
    }

    /** `get` of a single id: element 0 of the batch `get`. */
    method GetOne(objectId: UniqueId, timeoutMs: int, isMetadata: bool, buf: NativeObject) returns (r: RayBuffer)
      modifies store
      ensures store.calls == old(store.calls) + [GetCall([objectId.GetBytes()], timeoutMs)]
      ensures fresh(r) && !r.isReleased && r.buffer == buf.Channel(isMetadata)
      ensures r.finalizer == if buf.Channel(isMetadata).None? then None else Some(ReleaseObject(store, objectId))
    {
      var rets := Get([objectId], timeoutMs, isMetadata, [buf]);
      assert IdBytes([objectId]) == [objectId.GetBytes()];
      r := rets[0];
    }

    /** The inner search of `wait`: the first id whose bytes equal `ready`. */
    static method FindReady(ready: Bytes, objectIds: seq<UniqueId>) returns (m: Option<UniqueId>)
      ensures m == FirstMatch(ready, objectIds)
    {
      var j := 0;
      while j < |objectIds|
        invariant 0 <= j <= |objectIds|
        invariant UniqueId(ready) !in objectIds[..j]
      {
        if ready == objectIds[j].GetBytes() {
          return Some(objectIds[j]);
        }
        assert objectIds[..j + 1] == objectIds[..j] + [objectIds[j]];
        j := j + 1;
      }
      assert objectIds[..j] == objectIds;
      m := None;
    }

    /** Each entry of the native answer `readys`, in order, mapped to the
        first id with equal bytes. Every entry must match an id. */
    method Wait(objectIds: seq<UniqueId>, timeoutMs: int, numReturns: int, readys: seq<Bytes>)
      returns (ret: seq<UniqueId>)
      requires forall i :: 0 <= i < |readys| ==> UniqueId(readys[i]) in objectIds
      modifies store
      ensures store.calls == old(store.calls) + [WaitCall(IdBytes(objectIds), timeoutMs, numReturns)]
      ensures ret == MatchReady(readys, objectIds)
      ensures |ret| == |readys|
    {
      var ids := GetIdBytes(objectIds);
      store.Call(WaitCall(ids[..], timeoutMs, numReturns));
      ghost var calls := store.calls;
      ret := [];
      for i := 0 to |readys|
        invariant store.calls == calls
        invariant ret == MatchReady(readys[..i], objectIds)
      {
        var m := FindReady(readys[i], objectIds);
        if m.Some? {
          ret := ret + [m.value];
        }
        MatchReadyAppend(readys[..i], [readys[i]], objectIds);
        assert readys[..i + 1] == readys[..i] + [readys[i]];
      }
      assert readys[..|readys|] == readys;
      MatchReadyAllMatched(readys, objectIds);
    }

    method Hash(objectId: UniqueId, digest: Option<Bytes>) returns (r: Option<Bytes>)
      modifies store
      ensures store.calls == old(store.calls) + [HashCall(objectId.GetBytes())]
      ensures r == digest
    {
      store.Call(HashCall(objectId.GetBytes()));
      r := digest;
    }

    method Fetch(objectIds: seq<UniqueId>)
      modifies store
      ensures store.calls == old(store.calls) + [FetchCall(IdBytes(objectIds))]
    {
      var ids := GetIdBytes(objectIds);
      store.Call(FetchCall(ids[..]));
    }

    /** `fetch` of a single id: the batch `fetch` of `[objectId]`. */
    method FetchOne(objectId: UniqueId)
      modifies store
      ensures store.calls == old(store.calls) + [FetchCall([objectId.GetBytes()])]
    {
      Fetch([objectId]);
      assert IdBytes([objectId]) == [objectId.GetBytes()];
    }

    method Evict(numBytes: int, evicted: int) returns (r: int)
      modifies store
      ensures store.calls == old(store.calls) + [EvictCall(numBytes)]
      ensures r == evicted
    {
      store.Call(EvictCall(numBytes));
      r := evicted;
    }

    method Seal(objectId: UniqueId)
      modifies store
      ensures store.calls == old(store.calls) + [SealCall(objectId.GetBytes())]
    {
      store.Call(SealCall(objectId.GetBytes()));
    }

    method Release(objectId: UniqueId)
      modifies store
      ensures store.calls == old(store.calls) + [ReleaseCall(objectId.GetBytes())]
    {
      store.Call(ReleaseCall(objectId.GetBytes()));
    }

    method Contains(objectId: UniqueId, present: bool) returns (r: bool)
      modifies store
      ensures store.calls == old(store.calls) + [ContainsCall(objectId.GetBytes())]
      ensures r == present
    {
      store.Call(ContainsCall(objectId.GetBytes()));
      r := present;
    }
  }
}
