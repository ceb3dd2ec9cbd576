/**
  The status of a lineage cache entry according to its status in the GCS,
  declared as a C++ enum whose values are compared with `<`.
 */
module GcsStatuses {

  datatype GcsStatus =
    | NoStatus            // GcsStatus_NONE: the task is not in the lineage cache
    | UncommittedRemote   // being executed on a remote node
    | UncommittedWaiting  // waiting to be executed locally
    | UncommittedReady    // started execution locally; ready to be written to the GCS
    | Committing          // written to the GCS, waiting for the acknowledgement
    | Committed           // committed in the GCS; safe to remove from the cache

  /** The enumerator's value: its position in the declaration, starting at 0. */
  function Rank(s: GcsStatus): (r: nat)
    ensures r <= 5
    ensures r == 0 <==> s == NoStatus
    ensures r == 5 <==> s == Committed
  {
    match s
    case NoStatus => 0
    case UncommittedRemote => 1
    case UncommittedWaiting => 2
    case UncommittedReady => 3
    case Committing => 4
    case Committed => 5
  }

  /** The enum's `<`. */
  predicate Less(a: GcsStatus, b: GcsStatus) {
    Rank(a) < Rank(b)
  }

  /** The declaration order is a chain. */
  lemma DeclarationOrder()
    ensures Less(NoStatus, UncommittedRemote)
    ensures Less(UncommittedRemote, UncommittedWaiting)
    ensures Less(UncommittedWaiting, UncommittedReady)
    ensures Less(UncommittedReady, Committing)
    ensures Less(Committing, Committed)
  {
  }

  /** `Less` is a strict total order on the six statuses. */
  lemma LessIsStrictTotalOrder(a: GcsStatus, b: GcsStatus, c: GcsStatus)
    ensures !Less(a, a)
    ensures Less(a, b) ==> !Less(b, a)
    ensures Less(a, b) && Less(b, c) ==> Less(a, c)
    ensures a != b ==> Less(a, b) || Less(b, a)
  {
  }

  /** NONE is below every other status and COMMITTED is above every other status. */
  lemma Extremes(s: GcsStatus)
    ensures s != NoStatus ==> Less(NoStatus, s)
    ensures s != Committed ==> Less(s, Committed)
    ensures !Less(Committed, s) && !Less(s, NoStatus)
  {
  }
}
