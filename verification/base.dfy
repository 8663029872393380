/** Fixed-width values and small wrappers shared by every module of the model. */
module Base {

  /** One byte of a report or payload. */
  type byte = bv8

  /** An unsigned 8-bit field used as a number (transaction and session
      ids), kept as an integer so that its wrap-around is written out. */
  type uint8 = x: int | 0 <= x < 256

  /** An unsigned 16-bit length field (`uint16_t` transfer sizes). */
  type uint16 = x: int | 0 <= x < 0x1_0000

  /** Absent-or-present value; stands for the source's nullable pointers. */
  datatype Option<+T> = None | Some(value: T)

  /** `n` zero bytes: the padding `memset` leaves behind a short copy. */
  function Zeros(n: nat): (z: seq<byte>)
    ensures |z| == n
    ensures forall i | 0 <= i < n :: z[i] == 0
  {
    seq(n, _ => 0)
  }

  /** A 32-bit word as four bytes, least-significant first (the byte order
      of the little-endian hosts the library is built for). */
  function Le32(v: bv32): (b: seq<byte>)
    ensures |b| == 4
  {
    [ (v & 0xFF) as byte, ((v >> 8) & 0xFF) as byte,
      ((v >> 16) & 0xFF) as byte, ((v >> 24) & 0xFF) as byte ]
  }

  /** Reads four bytes, least-significant first, back into a word. */
  function FromLe32(b: seq<byte>): bv32
    requires |b| == 4
  {
    (b[0] as bv32) | ((b[1] as bv32) << 8) | ((b[2] as bv32) << 16) | ((b[3] as bv32) << 24)
  }

  /** The high half of a word, `v >> 16`, as a number. */
  function Major(v: bv32): (n: nat)
    ensures n < 0x1_0000
  {
    ((v >> 16) as bv16) as nat
  }

  /** The low half of a word, `v & 0xFFFF`, as a number. */
  function Minor(v: bv32): (n: nat)
    ensures n < 0x1_0000
  {
    ((v & 0xFFFF) as bv16) as nat
  }

  /** Encoding a word and reading it back gives the word. */
  lemma Le32RoundTrip(v: bv32)
    ensures FromLe32(Le32(v)) == v
  {
  }

  /** Reading four bytes and encoding the word gives the bytes back. */
  lemma FromLe32RoundTrip(b: seq<byte>)
    requires |b| == 4
    ensures Le32(FromLe32(b)) == b
  {
  }
}
