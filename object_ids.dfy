/**
  Object ids and raw bytes on the Java side. A `UniqueID` is compared by
  its bytes, so it is modelled as the datatype of its bytes.
 */
module ObjectIds {
  type Byte = bv8
  type Bytes = seq<Byte>

  datatype UniqueId = UniqueId(bytes: Bytes) {
    function GetBytes(): Bytes {
      bytes
    }
  }

  /** Two ids are equal exactly when their bytes are. */
  lemma GetBytesInjective(a: UniqueId, b: UniqueId)
    ensures a == b <==> a.GetBytes() == b.GetBytes()
  {
  }
}
