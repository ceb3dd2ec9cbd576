/**
  The native plasma store behind one connection, seen from the client: the
  calls made to it, in order. What the store answers is not modelled here;
  each client method takes the native answer as a parameter.
 */
module PlasmaStores {
  import opened Optional
  import opened ObjectIds

  datatype StoreCall =
    | CreateCall(objectId: Bytes, size: nat, metadata: Option<Bytes>)
    | WriteCall(objectId: Bytes, value: Bytes)
    | SealCall(objectId: Bytes)
    | ReleaseCall(objectId: Bytes)
    | GetCall(objectIds: seq<Bytes>, timeoutMs: int)
    | WaitCall(objectIds: seq<Bytes>, timeoutMs: int, numReturns: int)
    | HashCall(objectId: Bytes)
    | ContainsCall(objectId: Bytes)
    | FetchCall(objectIds: seq<Bytes>)
    | EvictCall(numBytes: int)

  class PlasmaStore {
    var calls: seq<StoreCall>

    constructor ()
      ensures calls == []
    {
      calls := [];
    }

    /** Records one native call. */
    method Call(c: StoreCall)
      modifies this
      ensures calls == old(calls) + [c]
    {
      calls := calls + [c];
    }
  }
}
