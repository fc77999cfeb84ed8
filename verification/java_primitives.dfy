/**
 * Java's fixed-width signed integers: their byte widths, their ranges and
 * the two's-complement reading of an unsigned bit pattern of that width.
 */
module JavaPrimitives {
  import opened Bytes

  /** Short.BYTES, Integer.BYTES and Long.BYTES. */
  const SHORT_BYTES: nat := 2
  const INTEGER_BYTES: nat := 4
  const LONG_BYTES: nat := 8

  /** Java `short`, `int` and `long`. */
  type Int16 = x: int | -0x8000 <= x < 0x8000
  type Int32 = x: int | -0x8000_0000 <= x < 0x8000_0000
  type Int64 = x: int | -0x8000_0000_0000_0000 <= x < 0x8000_0000_0000_0000

  /** 2^(8 * width - 1): the weight of the sign bit. */
  function SignBit(width: nat): (h: int)
    requires width > 0
    ensures h > 0 && 2 * h == Pow256(width)
  {
    128 * Pow256(width - 1)
  }

  /** The values a signed integer of `width` bytes can hold. */
  predicate InSignedRange(v: int, width: nat)
    requires width > 0
  {
    -SignBit(width) <= v < SignBit(width)
  }

  /** The signed value whose two's-complement bit pattern at `width` bytes is
      the unsigned value `u`: the one representative of u modulo 256^width in
      the signed range, negative exactly when the sign bit of u is set. */
  function Signed(u: nat, width: nat): (r: int)
    requires width > 0 && u < Pow256(width)
    ensures InSignedRange(r, width)
    ensures r % Pow256(width) == u
    ensures r < 0 <==> u >= SignBit(width)
  {
    if u < SignBit(width) then
      DivModUnique(u, Pow256(width), 0, u);
      u
    else
      DivModUnique(u - Pow256(width), Pow256(width), -1, u);
      u - Pow256(width)
  }

  /** Reading back the two's-complement pattern of a value in range gives the
      value: so `Signed` is the inverse of reduction modulo 256^width. */
  lemma SignedOfResidue(v: int, width: nat)
    requires width > 0 && InSignedRange(v, width)
    ensures Signed(v % Pow256(width), width) == v
  {
    var p := Pow256(width);
    if v >= 0 {
      DivModUnique(v, p, 0, v);
    } else {
      DivModUnique(v, p, -1, v + p);
    }
  }

  /** The Java ranges are exactly the signed ranges of their byte widths. */
  lemma JavaRanges()
    ensures SignBit(SHORT_BYTES) == 0x8000
    ensures SignBit(INTEGER_BYTES) == 0x8000_0000
    ensures SignBit(LONG_BYTES) == 0x8000_0000_0000_0000
  {
    assert Pow256(1) == 0x100;
    assert Pow256(3) == 0x100_0000;
    assert Pow256(7) == 0x100_0000_0000_0000;
  }
}
