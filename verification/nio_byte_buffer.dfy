/**
 * The byte layout of `java.nio.ByteBuffer`, which ByteUtilTest uses as its
 * oracle: `putShort`/`putInt`/`putLong` into a buffer of exactly the type's
 * width, then `array()`; and `wrap(bytes)` followed by `getShort`/`getInt`/
 * `getLong`. Only the layout is modelled, not the buffer's position or limit.
 */
module NioByteBuffer {
  import opened Bytes
  import opened JavaPrimitives

  /** java.nio.ByteOrder. */
  datatype ByteOrder = BigEndian | LittleEndian

  /** The significance (0 = least significant) of the byte a buffer in
      `order` stores at index k of a `width`-byte slot. The map is its own
      inverse, so it also gives the index of the byte of significance k. */
  function Significance(order: ByteOrder, width: nat, k: nat): (s: nat)
    requires k < width
    ensures s < width
    ensures order.LittleEndian? ==> s == k
    ensures order.BigEndian? ==> s + k == width - 1
  {
    match order
    case LittleEndian => k
    case BigEndian => width - 1 - k
  }

  /** `(byte) (v >> 8 * s)` as an octet, for any signed v. */
  function ByteOf(v: int, s: nat): Byte {
    v / Pow256(s) % 256
  }

  /** The bytes `put` writes for v into a `width`-byte buffer in `order`. */
  function Put(v: int, width: nat, order: ByteOrder): (r: seq<Byte>)
    ensures |r| == width
  {
    seq(width, k requires 0 <= k < width => ByteOf(v, Significance(order, width, k)))
  }

  /** The sum, over the significances below m, of each byte times its weight. */
  function Assemble(bytes: seq<Byte>, width: nat, order: ByteOrder, m: nat): (u: nat)
    requires m <= width <= |bytes|
    ensures u < Pow256(m)
  {
    if m == 0 then 0
    else
      var low := Assemble(bytes, width, order, m - 1);
      var b := bytes[Significance(order, width, m - 1)];
      DigitBound(low, b, Pow256(m - 1));
      low + b * Pow256(m - 1)
  }

  /** The value `get` reads from the first `width` bytes in `order`: the
      assembled bit pattern, read as a two's-complement number. */
  function Get(bytes: seq<Byte>, width: nat, order: ByteOrder): (r: int)
    requires 0 < width <= |bytes|
    ensures InSignedRange(r, width)
  {
    Signed(Assemble(bytes, width, order, width), width)
  }
}
