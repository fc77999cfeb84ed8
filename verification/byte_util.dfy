/**
 * cn.hutool.core.util.ByteUtil, the fixed-width integer part: `short`, `int`
 * and `long` to and from byte arrays, in a given ByteOrder or in the default
 * one. Java's overloads become two functions each: `XToBytes(value, order)`
 * and `XToBytesDefault(value)` for the overload without an order.
 */
module ByteUtil {
  import opened Bytes
  import opened JavaPrimitives
  import opened NioByteBuffer
  import opened Endian

  /** The order of every overload that takes no ByteOrder: the tests read
      their output, and feed their input, as little-endian. */
  const DefaultOrder: ByteOrder := LittleEndian

  /** The low `width` bytes of v in `order`, as ByteBuffer `put` lays them out. */
  function NumberToBytes(v: int, width: nat, order: ByteOrder): (r: seq<Byte>)
    ensures r == Put(v, width, order)
  {
    match order
    case LittleEndian =>
      LittleEndianBytesIsPut(v, width);
      LittleEndianBytes(v, width)
    case BigEndian =>
      BigEndianBytesIsPut(v, width);
      BigEndianBytes(v, width)
  }

  /** The unsigned bit pattern held by the first `width` bytes in `order`. */
  function BytesToBits(bytes: seq<Byte>, width: nat, order: ByteOrder): (u: nat)
    requires width <= |bytes|
    ensures u < Pow256(width)
    ensures u == Assemble(bytes, width, order, width)
    ensures NumberToBytes(u, width, order) == bytes[..width]
  {
    match order
    case LittleEndian =>
      AssembleLittleEndian(bytes, width, width);
      LittleEndianBytesOfValue(bytes[..width]);
      LittleEndianValue(bytes[..width])
    case BigEndian =>
      AssembleBigEndian(bytes, width, width);
      assert bytes[width - width..width] == bytes[..width];
      BigEndianBytesOfValue(bytes[..width]);
      BigEndianValue(bytes[..width])
  }

  /** Only v's residue modulo 256^width reaches the bytes. */
  lemma NumberToBytesOfResidue(v: int, width: nat, order: ByteOrder)
    ensures NumberToBytes(v % Pow256(width), width, order) == NumberToBytes(v, width, order)
  {
    match order
    case LittleEndian => LittleEndianBytesOfResidue(v, width);
    case BigEndian => BigEndianBytesOfResidue(v, width);
  }

  /** The signed value of `width` bytes held by the first `width` bytes in
      `order`: what ByteBuffer `get` returns, and the one value in range
      whose encoding is exactly those bytes. Later bytes are not read. */
  function BytesToNumber(bytes: seq<Byte>, width: nat, order: ByteOrder): (r: int)
    requires 0 < width <= |bytes|
    ensures InSignedRange(r, width)
    ensures r == Get(bytes, width, order)
    ensures NumberToBytes(r, width, order) == bytes[..width]
  {
    var u := BytesToBits(bytes, width, order);
    NumberToBytesOfResidue(Signed(u, width), width, order);
    Signed(u, width)
  }

  /** shortToBytes(short, ByteOrder). */
  function ShortToBytes(value: Int16, order: ByteOrder): (r: seq<Byte>)
    ensures |r| == SHORT_BYTES
    ensures r == Put(value, SHORT_BYTES, order)
  {
    NumberToBytes(value, SHORT_BYTES, order)
  }

  /** shortToBytes(short): the little-endian layout. */
  function ShortToBytesDefault(value: Int16): (r: seq<Byte>)
    ensures r == Put(value, SHORT_BYTES, LittleEndian)
  {
    ShortToBytes(value, DefaultOrder)
  }

  /** bytesToShort(byte[], ByteOrder). */
  function BytesToShort(bytes: seq<Byte>, order: ByteOrder): (r: Int16)
    requires |bytes| >= SHORT_BYTES
    ensures r == Get(bytes, SHORT_BYTES, order)
    ensures ShortToBytes(r, order) == bytes[..SHORT_BYTES]
  {
    JavaRanges();
    BytesToNumber(bytes, SHORT_BYTES, order)
  }

  /** bytesToShort(byte[]): the little-endian reading. */
  function BytesToShortDefault(bytes: seq<Byte>): (r: Int16)
    requires |bytes| >= SHORT_BYTES
    ensures r == Get(bytes, SHORT_BYTES, LittleEndian)
  {
    BytesToShort(bytes, DefaultOrder)
  }

  /** intToBytes(int, ByteOrder). */
  function IntToBytes(value: Int32, order: ByteOrder): (r: seq<Byte>)
    ensures |r| == INTEGER_BYTES
    ensures r == Put(value, INTEGER_BYTES, order)
  {
    NumberToBytes(value, INTEGER_BYTES, order)
  }

  /** intToBytes(int): the little-endian layout. */
  function IntToBytesDefault(value: Int32): (r: seq<Byte>)
    ensures r == Put(value, INTEGER_BYTES, LittleEndian)
  {
    IntToBytes(value, DefaultOrder)
  }

  /** bytesToInt(byte[], ByteOrder). */
  function BytesToInt(bytes: seq<Byte>, order: ByteOrder): (r: Int32)
    requires |bytes| >= INTEGER_BYTES
    ensures r == Get(bytes, INTEGER_BYTES, order)
    ensures IntToBytes(r, order) == bytes[..INTEGER_BYTES]
  {
    JavaRanges();
    BytesToNumber(bytes, INTEGER_BYTES, order)
  }

  /** bytesToInt(byte[]): the little-endian reading. */
  function BytesToIntDefault(bytes: seq<Byte>): (r: Int32)
    requires |bytes| >= INTEGER_BYTES
    ensures r == Get(bytes, INTEGER_BYTES, LittleEndian)
  {
    BytesToInt(bytes, DefaultOrder)
  }

  /** longToBytes(long, ByteOrder). */
  function LongToBytes(value: Int64, order: ByteOrder): (r: seq<Byte>)
    ensures |r| == LONG_BYTES
    ensures r == Put(value, LONG_BYTES, order)
  {
    NumberToBytes(value, LONG_BYTES, order)
  }

  /** longToBytes(long): the little-endian layout. */
  function LongToBytesDefault(value: Int64): (r: seq<Byte>)
    ensures r == Put(value, LONG_BYTES, LittleEndian)
  {
    LongToBytes(value, DefaultOrder)
  }

  /** bytesToLong(byte[], ByteOrder). */
  function BytesToLong(bytes: seq<Byte>, order: ByteOrder): (r: Int64)
    requires |bytes| >= LONG_BYTES
    ensures r == Get(bytes, LONG_BYTES, order)
    ensures LongToBytes(r, order) == bytes[..LONG_BYTES]
  {
    JavaRanges();
    BytesToNumber(bytes, LONG_BYTES, order)
  }

  /** bytesToLong(byte[]): the little-endian reading. */
  function BytesToLongDefault(bytes: seq<Byte>): (r: Int64)
    requires |bytes| >= LONG_BYTES
    ensures r == Get(bytes, LONG_BYTES, LittleEndian)
  {
    BytesToLong(bytes, DefaultOrder)
  }
}
