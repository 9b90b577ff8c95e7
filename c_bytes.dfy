/** Bytes as they cross the C boundary, and Rust's `CString::new`. */
module CBytes {

  import opened Wrappers

  /** Rust's `u8`. */
  newtype u8 = x: int | 0 <= x < 256

  /** `CString::new` fails with the position of the first NUL byte. */
  datatype NulError = NulError(position: nat)

  /** Index of the first `0` byte of `bytes`, if any. */
  function FirstNul(bytes: seq<u8>): (r: Option<nat>)
    ensures r.Some? ==> r.value < |bytes| && bytes[r.value] == 0
    ensures r.Some? ==> forall k :: 0 <= k < r.value ==> bytes[k] != 0
    ensures r.None? ==> forall k :: 0 <= k < |bytes| ==> bytes[k] != 0
  {
    if bytes == [] then None
    else if bytes[0] == 0 then Some(0)
    else match FirstNul(bytes[1..])
      case None => None
      case Some(i) => Some(i + 1)
  }

  /**
   * `CString::new(bytes)`: accepts a byte string that holds no NUL (the
   * terminator is added by the C string), and otherwise reports where the
   * first NUL is.
   */
  function CStringNew(bytes: seq<u8>): (r: Result<seq<u8>, NulError>)
    ensures r.Ok? <==> forall k :: 0 <= k < |bytes| ==> bytes[k] != 0
    ensures r.Ok? ==> r.value == bytes
    ensures r.Err? ==> r.error.position < |bytes| && bytes[r.error.position] == 0
    ensures r.Err? ==> forall k :: 0 <= k < r.error.position ==> bytes[k] != 0
  {
    match FirstNul(bytes)
    case None => Ok(bytes)
    case Some(i) => Err(NulError(i))
  }
}
