/**
 * Ticket priorities and their single-byte wire encoding
 * (`src/ffi/priority.rs`).
 */
module Priorities {

  import opened CBytes

  /** `a` is high, `b` medium, `c` low, `z` the default; `None` asks the engine for its default. */
  datatype Priority = A | B | C | Z | None

  /** The `#[repr(u8)]` discriminant: the ASCII letter, and `0` for `None`. */
  function Encode(p: Priority): (b: u8)
    ensures b == 0 <==> p == None
    ensures p != None ==> 'a' as u8 <= b <= 'z' as u8
  {
    match p
    case A => 'a' as u8
    case B => 'b' as u8
    case C => 'c' as u8
    case Z => 'z' as u8
    case None => 0
  }

  /** `From<u8> for Priority`: total, never `None`, and every unknown byte means `z`. */
  function FromByte(b: u8): (p: Priority)
    ensures p != None
    ensures b == Encode(p) || (p == Z && b != 'a' as u8 && b != 'b' as u8 && b != 'c' as u8)
  {
    if b == 'a' as u8 then A
    else if b == 'b' as u8 then B
    else if b == 'c' as u8 then C
    else Z
  }

  /** The five encodings are pairwise distinct. */
  lemma EncodeInjective(p: Priority, q: Priority)
    ensures Encode(p) == Encode(q) ==> p == q
  {
  }

  /** Decoding inverts encoding on every priority except `None`. */
  lemma RoundTrip(p: Priority)
    requires p != None
    ensures FromByte(Encode(p)) == p
  {
  }

  /** `None` is sent as `0`, which comes back as `z`: no round trip for `None`. */
  lemma NoneDoesNotRoundTrip()
    ensures Encode(None) == 0 && FromByte(Encode(None)) == Z
  {
  }

  /** Encoding after decoding gives back exactly the four letter bytes. */
  lemma DecodeThenEncode(b: u8)
    ensures Encode(FromByte(b)) == b <==> b in {'a' as u8, 'b' as u8, 'c' as u8, 'z' as u8}
  {
  }

  /** `PriorityVecExt::to_bytes`: one byte per priority, in order. */
  function ToBytes(v: seq<Priority>): (r: seq<u8>)
    ensures |r| == |v|
    ensures forall i :: 0 <= i < |v| ==> r[i] == Encode(v[i])
  {
    if v == [] then [] else [Encode(v[0])] + ToBytes(v[1..])
  }

  /** `to_bytes` holds a NUL exactly when the list holds `None`. */
  lemma ToBytesNulIffNone(v: seq<Priority>)
    ensures (exists k :: 0 <= k < |v| && ToBytes(v)[k] == 0) <==> None in v
  {
    if None in v {
      var k :| 0 <= k < |v| && v[k] == None;
      assert ToBytes(v)[k] == 0;
    }
  }

  /** `to_bytes` distributes over concatenation. */
  lemma {:induction false} ToBytesAppend(v: seq<Priority>, w: seq<Priority>)
    ensures ToBytes(v + w) == ToBytes(v) + ToBytes(w)
  {
    if v != [] {
      assert (v + w)[1..] == v[1..] + w;
      ToBytesAppend(v[1..], w);
    }
  }
}
