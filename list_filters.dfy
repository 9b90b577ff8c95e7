/**
 * The filter arguments `list` builds before calling the engine
 * (`src/ffi/list.rs`): each filter list travels as a C string of bytes,
 * and a NUL inside it makes `list` fail with `InvalidArgument`.
 */
module ListFilters {

  import opened Wrappers
  import opened CBytes
  import Priorities
  import Statuses

  datatype ListError = InvalidArgument

  /** The C string holding a byte filter, or `InvalidArgument` when it holds a NUL. */
  function FilterArgument(bytes: seq<u8>): (r: Result<seq<u8>, ListError>)
    ensures r.Ok? <==> CStringNew(bytes).Ok?
    ensures r.Ok? ==> r.value == bytes
  {
    match CStringNew(bytes)
    case Ok(c) => Ok(c)
    case Err(_) => Err(InvalidArgument)
  }

  /** The priority filter is refused exactly when it names `Priority::None`. */
  lemma {:induction false} PriorityFilterRejectedIffNone(ps: seq<Priorities.Priority>)
    ensures FilterArgument(Priorities.ToBytes(ps)).Err? <==> Priorities.None in ps
    ensures FilterArgument(Priorities.ToBytes(ps)).Ok? ==>
      FilterArgument(Priorities.ToBytes(ps)).value == Priorities.ToBytes(ps)
  {
    var bytes := Priorities.ToBytes(ps);
    if Priorities.None in ps {
      var k :| 0 <= k < |ps| && ps[k] == Priorities.None;
      assert bytes[k] == 0;
    }
  }

  /**
   * A status filter, whatever byte string of status encodings it is, never
   * holds a NUL, so it never makes `list` fail with `InvalidArgument`.
   */
  lemma StatusFilterAccepted(bytes: seq<u8>)
    requires forall k :: 0 <= k < |bytes| ==> Statuses.IsStatusByte(bytes[k])
    ensures FilterArgument(bytes) == Ok(bytes)
  {
    forall k | 0 <= k < |bytes| ensures bytes[k] != 0 {
      var s: Statuses.Status :| Statuses.Encode(s) == bytes[k];
    }
  }
}
