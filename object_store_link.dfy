/**
  The object store interface shared by the mock store and the plasma
  client: its two timeouts and the contract of `hash`.
 */
module ObjectStoreLinks {
  import opened Optional
  import opened ObjectIds

  /** `GET_TIMEOUT_MS`. */
  const GetTimeoutMs: int := 1000

  /** `WAIT_TIMEOUT_MS`, written `1 << 30` on a 32-bit int. */
  const WaitTimeoutMs: int := ((1 as bv32) << 30) as int

  /** Both timeouts are positive 32-bit ints, and the wait timeout is 2^30. */
  lemma TimeoutsFitInt()
    ensures WaitTimeoutMs == 1073741824
    ensures 0 < GetTimeoutMs < WaitTimeoutMs < 0x8000_0000
  {
  }

  /** The interface contract of `hash`: null means the object is not in
      the store. */
  predicate HashContract(inStore: bool, digest: Option<Bytes>) {
    digest.None? <==> !inStore
  }
}
