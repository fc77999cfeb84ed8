/**
 * What ByteUtilTest asserts of the codec, for every value of each type and
 * both byte orders: decoding inverts encoding, the default overloads are the
 * little-endian ones, and big-endian is little-endian read backwards.
 */
module ByteUtilProperties {
  import opened Bytes
  import opened JavaPrimitives
  import opened NioByteBuffer
  import opened Endian
  import opened ByteUtil

  /** Decoding the encoding of a value in range gives the value back. */
  lemma DecodeEncode(v: int, width: nat, order: ByteOrder)
    requires 0 < width && InSignedRange(v, width)
    ensures BytesToNumber(NumberToBytes(v, width, order), width, order) == v
  {
    var bytes := NumberToBytes(v, width, order);
    assert bytes[..width] == bytes;
    match order {
      case LittleEndian => LittleEndianValueOfBytes(v, width);
      case BigEndian => BigEndianValueOfBytes(v, width);
    }
    assert BytesToBits(bytes, width, order) == v % Pow256(width);
    SignedOfResidue(v, width);
  }

  /** Two values in range with the same encoding are equal. */
  lemma EncodeInjective(v: int, w: int, width: nat, order: ByteOrder)
    requires 0 < width && InSignedRange(v, width) && InSignedRange(w, width)
    requires NumberToBytes(v, width, order) == NumberToBytes(w, width, order)
    ensures v == w
  {
    DecodeEncode(v, width, order);
    DecodeEncode(w, width, order);
  }

  /** bytesToShort(shortToBytes(s, o), o) == s, negative shorts included. */
  lemma ShortRoundTrip(value: Int16, order: ByteOrder)
    ensures BytesToShort(ShortToBytes(value, order), order) == value
  {
    JavaRanges();
    DecodeEncode(value, SHORT_BYTES, order);
  }

  /** bytesToInt(intToBytes(i, o), o) == i. */
  lemma IntRoundTrip(value: Int32, order: ByteOrder)
    ensures BytesToInt(IntToBytes(value, order), order) == value
  {
    JavaRanges();
    DecodeEncode(value, INTEGER_BYTES, order);
  }

  /** bytesToLong(longToBytes(l, o), o) == l. */
  lemma LongRoundTrip(value: Int64, order: ByteOrder)
    ensures BytesToLong(LongToBytes(value, order), order) == value
  {
    JavaRanges();
    DecodeEncode(value, LONG_BYTES, order);
  }

  /** A ByteBuffer wrapped around an encoding and read in the same order
      gives the value back; the encoders without an order are read
      little-endian. */
  lemma ByteBufferReadsEncodings(s: Int16, i: Int32, l: Int64)
    ensures Get(ShortToBytesDefault(s), SHORT_BYTES, LittleEndian) == s
    ensures Get(ShortToBytes(s, BigEndian), SHORT_BYTES, BigEndian) == s
    ensures Get(IntToBytesDefault(i), INTEGER_BYTES, LittleEndian) == i
    ensures Get(IntToBytes(i, BigEndian), INTEGER_BYTES, BigEndian) == i
    ensures Get(LongToBytesDefault(l), LONG_BYTES, LittleEndian) == l
    ensures Get(LongToBytes(l, BigEndian), LONG_BYTES, BigEndian) == l
  {
    ShortRoundTrip(s, LittleEndian);
    ShortRoundTrip(s, BigEndian);
    IntRoundTrip(i, LittleEndian);
    IntRoundTrip(i, BigEndian);
    LongRoundTrip(l, LittleEndian);
    LongRoundTrip(l, BigEndian);
  }

  /** Mixing a default overload with an explicit LITTLE_ENDIAN one round-trips. */
  lemma DefaultOrderRoundTrips(s: Int16, i: Int32, l: Int64)
    ensures BytesToShort(ShortToBytesDefault(s), LittleEndian) == s
    ensures BytesToShortDefault(ShortToBytes(s, LittleEndian)) == s
    ensures BytesToInt(IntToBytesDefault(i), LittleEndian) == i
    ensures BytesToIntDefault(IntToBytes(i, LittleEndian)) == i
    ensures BytesToLong(LongToBytesDefault(l), LittleEndian) == l
    ensures BytesToLongDefault(LongToBytes(l, LittleEndian)) == l
  {
    ShortRoundTrip(s, LittleEndian);
    IntRoundTrip(i, LittleEndian);
    LongRoundTrip(l, LittleEndian);
  }

  /** Every encoder without an order argument is the LITTLE_ENDIAN one. */
  lemma DefaultEncodeIsLittleEndian(s: Int16, i: Int32, l: Int64)
    ensures ShortToBytesDefault(s) == ShortToBytes(s, LittleEndian)
    ensures IntToBytesDefault(i) == IntToBytes(i, LittleEndian)
    ensures LongToBytesDefault(l) == LongToBytes(l, LittleEndian)
  {
  }

  /** Every decoder without an order argument is the LITTLE_ENDIAN one. */
  lemma DefaultDecodeIsLittleEndian(bytes: seq<Byte>)
    ensures |bytes| >= SHORT_BYTES ==> BytesToShortDefault(bytes) == BytesToShort(bytes, LittleEndian)
    ensures |bytes| >= INTEGER_BYTES ==> BytesToIntDefault(bytes) == BytesToInt(bytes, LittleEndian)
    ensures |bytes| >= LONG_BYTES ==> BytesToLongDefault(bytes) == BytesToLong(bytes, LittleEndian)
  {
  }

  /** The big-endian encoding is the little-endian encoding reversed. */
  lemma BigEndianIsReversedLittleEndian(v: int, width: nat)
    ensures NumberToBytes(v, width, BigEndian) == Reverse(NumberToBytes(v, width, LittleEndian))
  {
    var be, le := NumberToBytes(v, width, BigEndian), NumberToBytes(v, width, LittleEndian);
    forall k | 0 <= k < width
      ensures be[k] == Reverse(le)[k]
    {
      assert Reverse(le)[k] == le[width - 1 - k];
    }
  }

  /** The same, for the three Java widths. */
  lemma TypedBigEndianIsReversed(s: Int16, i: Int32, l: Int64)
    ensures ShortToBytes(s, BigEndian) == Reverse(ShortToBytes(s, LittleEndian))
    ensures IntToBytes(i, BigEndian) == Reverse(IntToBytes(i, LittleEndian))
    ensures LongToBytes(l, BigEndian) == Reverse(LongToBytes(l, LittleEndian))
  {
    BigEndianIsReversedLittleEndian(s, SHORT_BYTES);
    BigEndianIsReversedLittleEndian(i, INTEGER_BYTES);
    BigEndianIsReversedLittleEndian(l, LONG_BYTES);
  }

  /** Reading big-endian is reading the reversed slot little-endian. */
  lemma BigEndianDecodeIsReversedLittleEndian(bytes: seq<Byte>, width: nat)
    requires 0 < width <= |bytes|
    ensures BytesToNumber(bytes, width, BigEndian)
         == BytesToNumber(Reverse(bytes[..width]), width, LittleEndian)
  {
    var slot := bytes[..width];
    var r := BytesToNumber(bytes, width, BigEndian);
    var rev := Reverse(slot);
    var q := BytesToNumber(rev, width, LittleEndian);
    assert rev[..width] == rev;
    BigEndianIsReversedLittleEndian(r, width);
    ReverseReverse(NumberToBytes(r, width, LittleEndian));
    EncodeInjective(r, q, width, LittleEndian);
  }

  /** Bytes after the first `width` do not change the value read. */
  lemma DecodeIgnoresTrailingBytes(bytes: seq<Byte>, extra: seq<Byte>, width: nat, order: ByteOrder)
    requires 0 < width <= |bytes|
    ensures BytesToNumber(bytes + extra, width, order) == BytesToNumber(bytes, width, order)
  {
    var r := BytesToNumber(bytes + extra, width, order);
    var q := BytesToNumber(bytes, width, order);
    assert (bytes + extra)[..width] == bytes[..width];
    EncodeInjective(r, q, width, order);
  }

  /** The orders give different bytes whenever v's lowest and highest byte differ. */
  lemma OrderMatters(v: int, width: nat)
    requires 0 < width && ByteOf(v, 0) != ByteOf(v, width - 1)
    ensures NumberToBytes(v, width, BigEndian) != NumberToBytes(v, width, LittleEndian)
  {
    assert NumberToBytes(v, width, BigEndian)[0] == ByteOf(v, width - 1);
    assert NumberToBytes(v, width, LittleEndian)[0] == ByteOf(v, 0);
  }

  /** The short 122 is 0x00 0x7A big-endian and 0x7A 0x00 little-endian, and
      reads back as 122 in each order. */
  lemma Short122()
    ensures ShortToBytes(122, BigEndian) == [0x00, 0x7A]
    ensures ShortToBytes(122, LittleEndian) == [0x7A, 0x00]
    ensures BytesToShort([0x00, 0x7A], BigEndian) == 122
    ensures BytesToShort([0x7A, 0x00], LittleEndian) == 122
  {
    assert ByteOf(122, 0) == 0x7A;
    assert ByteOf(122, 1) == 0x00 by { assert Pow256(1) == 256; }
    ShortRoundTrip(122, BigEndian);
    ShortRoundTrip(122, LittleEndian);
  }
}
