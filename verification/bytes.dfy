/**
 * Octets, powers of 256 and the integer-division facts the codec proofs rest on.
 *
 * Dafny's `/` and `%` on `int` are Euclidean: for a positive divisor `d`,
 * `v / d` is the floor of v/d and `v % d` lies in [0, d), also for negative `v`.
 * That is exactly Java's arithmetic shift `v >> 8*k` followed by `& 0xFF`,
 * so the layout of a two's-complement value can be written on `int` directly.
 */
module Bytes {

  /** One octet, held as its unsigned value 0..255. Java's `byte` is signed,
      but it carries the same bit pattern, and byte arrays compare equal
      exactly when these values do. */
  type Byte = b: int | 0 <= b < 256

  /** 256^k, the weight of the byte of significance k. */
  function Pow256(k: nat): (r: int)
    ensures r > 0
  {
    if k == 0 then 1 else 256 * Pow256(k - 1)
  }

  /** Euclidean division is unique: any decomposition v == d * q + r with
      0 <= r < d is the one `/` and `%` compute. */
  lemma DivModUnique(v: int, d: int, q: int, r: int)
    requires d > 0 && 0 <= r < d && v == d * q + r
    ensures v / d == q && v % d == r
  {
    var q0, r0 := v / d, v % d;
    assert v == d * q0 + r0;
    if q0 < q {
      assert d * q - d * q0 == d * (q - q0);
      MulAtLeast(d, q - q0);
      assert false;
    } else if q < q0 {
      assert d * q0 - d * q == d * (q0 - q);
      MulAtLeast(d, q0 - q);
      assert false;
    }
  }

  lemma MulAtLeast(d: int, x: int)
    requires d > 0 && x >= 1
    ensures d * x >= d
  {
  }

  /** Shifting right by a then by b is shifting right by a * b. */
  lemma DivDiv(v: int, a: int, b: int)
    requires a > 0 && b > 0
    ensures v / a / b == v / (a * b)
  {
    var q1, r1 := v / a, v % a;
    var q2, r2 := q1 / b, q1 % b;
    Distribute(a, b, q2, r2);
    MixedRadixBound(a, b, r1, r2);
    DivModUnique(v, a * b, q2, a * r2 + r1);
  }

  lemma Distribute(a: int, b: int, q: int, r: int)
    ensures a * (b * q + r) == (a * b) * q + a * r
  {
  }

  /** A digit below a, plus a times a digit below b, stays below a * b. */
  lemma MixedRadixBound(a: int, b: int, r1: int, r2: int)
    requires 0 <= r1 < a && 0 <= r2 < b
    ensures 0 <= a * r2 + r1 < a * b
  {
    assert a * (b - 1 - r2) >= 0;
    assert a * (b - 1) - a * r2 == a * (b - 1 - r2);
  }

  /** Placing a byte above a lower part that fits in p keeps the sum below 256 * p. */
  lemma DigitBound(low: int, b: Byte, p: int)
    requires 0 <= low < p
    ensures 0 <= low + b * p < 256 * p
  {
    assert b * p <= 255 * p;
  }

  /** The low byte and the remaining bytes of a residue modulo 256 * m. */
  lemma ModSplit(v: int, m: int)
    requires m > 0
    ensures v % (256 * m) == v % 256 + 256 * ((v / 256) % m)
  {
    var q1, r1 := v / 256, v % 256;
    var q2, r2 := q1 / m, q1 % m;
    assert v == 256 * q1 + r1;
    assert q1 == m * q2 + r2;
    assert 256 * q1 == (256 * m) * q2 + 256 * r2;
    DivModUnique(v, 256 * m, q2, 256 * r2 + r1);
  }

  /** Taking a residue modulo 256 * m keeps the low byte and divides down to
      the residue modulo m of the rest. */
  lemma ResidueBytes(v: int, m: int)
    requires m > 0
    ensures v % (256 * m) % 256 == v % 256
    ensures v % (256 * m) / 256 == (v / 256) % m
  {
    ModSplit(v, m);
    DivModUnique(v % (256 * m), 256, (v / 256) % m, v % 256);
  }

  /** The sequence read back to front. */
  function Reverse(s: seq<Byte>): (r: seq<Byte>)
    ensures |r| == |s|
    ensures forall i :: 0 <= i < |s| ==> r[i] == s[|s| - 1 - i]
  {
    if |s| == 0 then [] else [s[|s| - 1]] + Reverse(s[..|s| - 1])
  }

  /** Reversing twice gives the sequence back. */
  lemma ReverseReverse(s: seq<Byte>)
    ensures Reverse(Reverse(s)) == s
  {
    assert forall i :: 0 <= i < |s| ==> Reverse(Reverse(s))[i] == s[i];
  }
}
