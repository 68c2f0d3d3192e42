/** Small shared vocabulary: an optional value and the byte type of the serial link. */
module Wrappers {

  /** A value that may be absent (Python's `None`, C's "no message"). */
  datatype Option<+T> = None | Some(value: T)

  /** One octet on the serial link. */
  type Byte = bv8

  /** The bytes carried by an optional payload: nothing when it is absent. */
  function Flatten(data: Option<seq<Byte>>): (s: seq<Byte>)
    ensures data.None? ==> s == []
    ensures data.Some? ==> s == data.value
  {
    match data
    case None => []
    case Some(d) => d
  }

}
