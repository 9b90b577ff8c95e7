/** Ticket statuses and their single-byte wire encoding (`src/ffi/status.rs`). */
module Statuses {

  import opened Wrappers
  import opened CBytes

  datatype Status = Backlog | Todo | Doing | Done

  /** The `#[repr(u8)]` discriminant. */
  function Encode(s: Status): (b: u8)
    ensures 'a' as u8 <= b <= 'z' as u8
  {
    match s
    case Backlog => 'b' as u8
    case Todo => 't' as u8
    case Doing => 'w' as u8
    case Done => 'd' as u8
  }

  /** The four encodings are pairwise distinct. */
  lemma EncodeInjective(s: Status, t: Status)
    ensures Encode(s) == Encode(t) ==> s == t
  {
  }

  /** `add` passes an optional status as its byte, or `0` for "let the engine choose". */
  function EncodeOptional(s: Option<Status>): (b: u8)
    ensures b == 0 <==> s.None?
    ensures s.Some? ==> b == Encode(s.value)
  {
    match s
    case None => 0
    case Some(st) => Encode(st)
  }

  /** The optional encoding is unambiguous: no status is sent as `0`. */
  lemma EncodeOptionalInjective(s: Option<Status>, t: Option<Status>)
    ensures EncodeOptional(s) == EncodeOptional(t) ==> s == t
  {
    if EncodeOptional(s) == EncodeOptional(t) && s.Some? && t.Some? {
      EncodeInjective(s.value, t.value);
    }
  }

  predicate IsStatusByte(b: u8) {
    exists s: Status :: Encode(s) == b
  }
}
