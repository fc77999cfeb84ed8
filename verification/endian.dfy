/**
 * The model's byte splitting and combining, written as recursion over the
 * byte count: splitting a value into bytes (the low byte is `v % 256`, the
 * rest is `v >> 8`, i.e. `v / 256`), and combining bytes back into an
 * unsigned bit pattern. Each is proved equal to the `java.nio.ByteBuffer`
 * layout; the recursion is this model's own, not a transcription of ByteUtil.
 */
module Endian {
  import opened Bytes
  import opened NioByteBuffer

  /** The low `width` bytes of v's two's-complement pattern, least significant first. */
  function LittleEndianBytes(v: int, width: nat): (r: seq<Byte>)
    ensures |r| == width
    decreases width
  {
    if width == 0 then [] else [v % 256] + LittleEndianBytes(v / 256, width - 1)
  }

  /** The low `width` bytes of v's two's-complement pattern, most significant first. */
  function BigEndianBytes(v: int, width: nat): (r: seq<Byte>)
    ensures |r| == width
    decreases width
  {
    if width == 0 then [] else BigEndianBytes(v / 256, width - 1) + [v % 256]
  }

  /** The unsigned bit pattern whose bytes, least significant first, are `bytes`. */
  function LittleEndianValue(bytes: seq<Byte>): (u: nat)
    ensures u < Pow256(|bytes|)
  {
    if |bytes| == 0 then 0 else bytes[0] + 256 * LittleEndianValue(bytes[1..])
  }

  /** The unsigned bit pattern whose bytes, most significant first, are `bytes`. */
  function BigEndianValue(bytes: seq<Byte>): (u: nat)
    ensures u < Pow256(|bytes|)
  {
    if |bytes| == 0 then 0 else 256 * BigEndianValue(bytes[..|bytes| - 1]) + bytes[|bytes| - 1]
  }

  /** The byte of significance s of v / 256 is the byte of significance s + 1 of v. */
  lemma ShiftByteOf(v: int, s: nat)
    ensures ByteOf(v / 256, s) == ByteOf(v, s + 1)
  {
    var p := Pow256(s);
    DivDiv(v, 256, p);
    assert Pow256(s + 1) == 256 * p;
  }

  /** Byte k of the little-endian encoding is the byte of significance k. */
  lemma {:induction false} LittleEndianBytesAt(v: int, width: nat, k: nat)
    requires k < width
    ensures LittleEndianBytes(v, width)[k] == ByteOf(v, k)
    decreases width
  {
    if k > 0 {
      var rest := LittleEndianBytes(v / 256, width - 1);
      assert LittleEndianBytes(v, width) == [v % 256] + rest;
      LittleEndianBytesAt(v / 256, width - 1, k - 1);
      ShiftByteOf(v, k - 1);
    } else {
      DivModUnique(v, 1, v, 0);
    }
  }

  /** Byte k of the big-endian encoding is the byte of significance width - 1 - k. */
  lemma {:induction false} BigEndianBytesAt(v: int, width: nat, k: nat)
    requires k < width
    ensures BigEndianBytes(v, width)[k] == ByteOf(v, width - 1 - k)
    decreases width
  {
    if k < width - 1 {
      assert BigEndianBytes(v, width)[k] == BigEndianBytes(v / 256, width - 1)[k];
      BigEndianBytesAt(v / 256, width - 1, k);
      ShiftByteOf(v, width - 2 - k);
    } else {
      assert Pow256(0) == 1;
    }
  }

  /** The little-endian encoding is what a little-endian ByteBuffer `put` writes. */
  lemma LittleEndianBytesIsPut(v: int, width: nat)
    ensures LittleEndianBytes(v, width) == Put(v, width, LittleEndian)
  {
    forall k | 0 <= k < width
      ensures LittleEndianBytes(v, width)[k] == Put(v, width, LittleEndian)[k]
    {
      LittleEndianBytesAt(v, width, k);
    }
  }

  /** The big-endian encoding is what a big-endian ByteBuffer `put` writes. */
  lemma BigEndianBytesIsPut(v: int, width: nat)
    ensures BigEndianBytes(v, width) == Put(v, width, BigEndian)
  {
    forall k | 0 <= k < width
      ensures BigEndianBytes(v, width)[k] == Put(v, width, BigEndian)[k]
    {
      BigEndianBytesAt(v, width, k);
    }
  }

  /** Combining the little-endian bytes of v gives v's pattern at `width` bytes. */
  lemma {:induction false} LittleEndianValueOfBytes(v: int, width: nat)
    ensures LittleEndianValue(LittleEndianBytes(v, width)) == v % Pow256(width)
    decreases width
  {
    if width == 0 {
      DivModUnique(v, 1, v, 0);
    } else {
      var s := LittleEndianBytes(v, width);
      assert s[1..] == LittleEndianBytes(v / 256, width - 1);
      LittleEndianValueOfBytes(v / 256, width - 1);
      ModSplit(v, Pow256(width - 1));
    }
  }

  /** Combining the big-endian bytes of v gives v's pattern at `width` bytes. */
  lemma {:induction false} BigEndianValueOfBytes(v: int, width: nat)
    ensures BigEndianValue(BigEndianBytes(v, width)) == v % Pow256(width)
    decreases width
  {
    if width == 0 {
      DivModUnique(v, 1, v, 0);
    } else {
      var s := BigEndianBytes(v, width);
      assert s[..width - 1] == BigEndianBytes(v / 256, width - 1);
      BigEndianValueOfBytes(v / 256, width - 1);
      ModSplit(v, Pow256(width - 1));
    }
  }

  /** Splitting a combined little-endian pattern gives the bytes back. */
  lemma {:induction false} LittleEndianBytesOfValue(bytes: seq<Byte>)
    ensures LittleEndianBytes(LittleEndianValue(bytes), |bytes|) == bytes
  {
    if |bytes| > 0 {
      var rest := LittleEndianValue(bytes[1..]);
      DivModUnique(LittleEndianValue(bytes), 256, rest, bytes[0]);
      LittleEndianBytesOfValue(bytes[1..]);
    }
  }

  /** Splitting a combined big-endian pattern gives the bytes back. */
  lemma {:induction false} BigEndianBytesOfValue(bytes: seq<Byte>)
    ensures BigEndianBytes(BigEndianValue(bytes), |bytes|) == bytes
  {
    if |bytes| > 0 {
      var n := |bytes|;
      var rest := BigEndianValue(bytes[..n - 1]);
      DivModUnique(BigEndianValue(bytes), 256, rest, bytes[n - 1]);
      BigEndianBytesOfValue(bytes[..n - 1]);
    }
  }

  /** The little-endian bytes depend only on v modulo 256^width. */
  lemma {:induction false} LittleEndianBytesOfResidue(v: int, width: nat)
    ensures LittleEndianBytes(v % Pow256(width), width) == LittleEndianBytes(v, width)
    decreases width
  {
    if width > 0 {
      ResidueBytes(v, Pow256(width - 1));
      LittleEndianBytesOfResidue(v / 256, width - 1);
    }
  }

  /** The big-endian bytes depend only on v modulo 256^width. */
  lemma {:induction false} BigEndianBytesOfResidue(v: int, width: nat)
    ensures BigEndianBytes(v % Pow256(width), width) == BigEndianBytes(v, width)
    decreases width
  {
    if width > 0 {
      ResidueBytes(v, Pow256(width - 1));
      BigEndianBytesOfResidue(v / 256, width - 1);
    }
  }

  /** A byte appended to a little-endian sequence is its most significant one. */
  lemma {:induction false} LittleEndianValueAppend(s: seq<Byte>, b: Byte)
    ensures LittleEndianValue(s + [b]) == LittleEndianValue(s) + b * Pow256(|s|)
  {
    if |s| > 0 {
      assert (s + [b])[1..] == s[1..] + [b];
      LittleEndianValueAppend(s[1..], b);
      assert 256 * (b * Pow256(|s| - 1)) == b * Pow256(|s|);
    } else {
      assert (s + [b])[1..] == [];
    }
  }

  /** A byte prepended to a big-endian sequence is its most significant one. */
  lemma {:induction false} BigEndianValuePrepend(b: Byte, s: seq<Byte>)
    ensures BigEndianValue([b] + s) == b * Pow256(|s|) + BigEndianValue(s)
  {
    if |s| > 0 {
      assert ([b] + s)[..|s|] == [b] + s[..|s| - 1];
      BigEndianValuePrepend(b, s[..|s| - 1]);
      assert 256 * (b * Pow256(|s| - 1)) == b * Pow256(|s|);
    } else {
      assert ([b] + s)[..0] == [];
    }
  }

  /** What a little-endian ByteBuffer assembles from the low m significances. */
  lemma {:induction false} AssembleLittleEndian(bytes: seq<Byte>, width: nat, m: nat)
    requires m <= width <= |bytes|
    ensures Assemble(bytes, width, LittleEndian, m) == LittleEndianValue(bytes[..m])
  {
    if m > 0 {
      AssembleLittleEndian(bytes, width, m - 1);
      assert bytes[..m] == bytes[..m - 1] + [bytes[m - 1]];
      LittleEndianValueAppend(bytes[..m - 1], bytes[m - 1]);
    }
  }

  /** What a big-endian ByteBuffer assembles from the low m significances:
      the last m bytes of the slot. */
  lemma {:induction false} AssembleBigEndian(bytes: seq<Byte>, width: nat, m: nat)
    requires m <= width <= |bytes|
    ensures Assemble(bytes, width, BigEndian, m) == BigEndianValue(bytes[width - m..width])
  {
    if m > 0 {
      AssembleBigEndian(bytes, width, m - 1);
      assert bytes[width - m..width] == [bytes[width - m]] + bytes[width - m + 1..width];
      BigEndianValuePrepend(bytes[width - m], bytes[width - m + 1..width]);
    }
  }
}
