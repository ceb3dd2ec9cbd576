/**
  `RayBuffer`: a byte array, possibly null, with an optional release
  action that may run once. The only release action the client creates
  releases one object in the plasma store.
 */
module RayBuffers {
  import opened Optional
  import opened ObjectIds
  import opened PlasmaStores

  /** The release action `b -> release(objectId)` of a buffer obtained from
      the plasma store. It ignores its argument. */
  datatype Finalizer = ReleaseObject(store: PlasmaStore, objectId: UniqueId)

  class RayBuffer {
    const buffer: Option<Bytes>
    const finalizer: Option<Finalizer>
    var isReleased: bool

    /** A buffer with no release action. */
    constructor (buffer: Option<Bytes>)
      ensures this.buffer == buffer && finalizer.None? && !isReleased
    {
      this.buffer := buffer;
      this.finalizer := None;
      isReleased := false;
    }

    constructor WithFinalizer(buffer: Option<Bytes>, finalizer: Option<Finalizer>)
      ensures this.buffer == buffer && this.finalizer == finalizer && !isReleased
    {
      this.buffer := buffer;
      this.finalizer := finalizer;
      isReleased := false;
    }

    /** What running the release action may change. */
    function Effects(): set<object> {
      if finalizer.Some? then {finalizer.value.store} else {}
    }

    /** The bytes given at construction, as each constructor states. */
    function Buffer(): Option<Bytes> {
      buffer
    }

    /** The leak check made at finalization: a buffer with a release
        action must have been released. */
    predicate NotLeaked()
      reads this
    {
      finalizer.None? || isReleased
    }

    /** Runs the release action, which may happen only once; without one
        this does nothing and may be repeated. */
    method Release()
      requires finalizer.Some? ==> !isReleased
      modifies this, Effects()
      ensures NotLeaked()
      ensures finalizer.None? ==> isReleased == old(isReleased)
      ensures finalizer.Some? ==>
                && isReleased
                && finalizer.value.store.calls ==
                   old(finalizer.value.store.calls) + [ReleaseCall(finalizer.value.objectId.GetBytes())]
    {
      if finalizer.Some? {
        finalizer.value.store.Call(ReleaseCall(finalizer.value.objectId.GetBytes()));
        isReleased := true;
      }
    }
  }
}
