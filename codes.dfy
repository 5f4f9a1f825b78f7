/** Status codes, bytes and records shared by every part of the model. */
module Codes {

  /** One byte of a record. */
  newtype byte = x: int | 0 <= x < 256

  /** A record is an opaque byte string; the empty record is a valid record, distinct from "no record". */
  type Record = seq<byte>

  datatype Option<+T> = None | Some(value: T)

  /** The status codes the modelled operations return (0 is `Ok`, the others are the
      library's HAM_KEY_NOT_FOUND, HAM_DUPLICATE_KEY, HAM_CURSOR_IS_NIL, HAM_INV_PARAMETER
      and HAM_INV_PAGESIZE). */
  datatype Status = Ok | KeyNotFound | DuplicateKey | CursorIsNil | InvParameter | InvPageSize

  /** The four bytes of an unsigned 32-bit value as the tests lay it out in memory,
      least significant first. */
  function U32Bytes(v: nat): (r: seq<byte>)
    requires v < 0x1_0000_0000
    ensures |r| == 4
  {
    [(v % 0x100) as byte, (v / 0x100 % 0x100) as byte, (v / 0x1_0000 % 0x100) as byte, (v / 0x100_0000) as byte]
  }

  /** Reading the four bytes back. */
  function U32Value(b: seq<byte>): (v: nat)
    requires |b| == 4
    ensures v < 0x1_0000_0000
  {
    b[0] as nat + 0x100 * b[1] as nat + 0x1_0000 * b[2] as nat + 0x100_0000 * b[3] as nat
  }

  lemma U32RoundTrip(v: nat)
    requires v < 0x1_0000_0000
    ensures U32Value(U32Bytes(v)) == v
  {
    var b := U32Bytes(v);
    assert v == v % 0x100 + 0x100 * (v / 0x100);
    assert v / 0x100 == v / 0x100 % 0x100 + 0x100 * (v / 0x1_0000);
    assert v / 0x1_0000 == v / 0x1_0000 % 0x100 + 0x100 * (v / 0x100_0000);
  }
}
