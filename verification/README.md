# hutool ByteUtil: fixed-width integer byte codec

A Dafny model of the integer part of `cn.hutool.core.util.ByteUtil`:
`shortToBytes`/`bytesToShort` (2 bytes), `intToBytes`/`bytesToInt` (4 bytes)
and `longToBytes`/`bytesToLong` (8 bytes). Each takes a `java.nio.ByteOrder`,
and each has an overload without one, which behaves as little-endian
(ByteUtilTest.java:68-74, 122-128); the model names that order `DefaultOrder`.

The implementation of `ByteUtil` is not part of this model; its test class
`ByteUtilTest` is. So the model states the behaviour those tests pin down. The
reference is the layout of `java.nio.ByteBuffer`, which the tests use as their
oracle:

- big-endian stores the most significant byte first;
- little-endian stores the least significant byte first;
- signed values are two's complement at the type's width.

The modules are:

- `Bytes`: the octet type (values 0..255; Java's signed `byte` holds the same
  bit pattern), `Pow256`, `Reverse`, and the facts about Euclidean division
  the proofs need. Dafny's `v / 256^k % 256` with a floored quotient is Java's
  `(byte) (v >> 8*k)` for negative `v` as well, so no separate unsigned
  conversion is needed.
- `JavaPrimitives`: `Int16`, `Int32` and `Int64` with Java's ranges;
  `Short.BYTES`, `Integer.BYTES` and `Long.BYTES`; `Signed`, the
  two's-complement reading of a bit pattern.
- `NioByteBuffer`: `ByteOrder` and the reference layout. `Put` is what
  `putShort`/`putInt`/`putLong` write. `Get` is what
  `getShort`/`getInt`/`getLong` read: a weighted sum of the bytes, then read
  as two's complement.
- `Endian`: the model's byte splitting and combining, written as recursion
  over the byte count and proved equal to the `ByteBuffer` layout (`Put` and
  `Get`).
- `ByteUtil`: the public entry points. Each Java overload pair becomes
  `XToBytes(value, order)` and `XToBytesDefault(value)`.
- `ByteUtilProperties`: round trips for every value of each type in both
  orders, the default-order equalities, big-endian as reversed little-endian,
  and the `122` example.

## Model

| member | source | states |
|---|---|---|
| `NioByteBuffer.Put` | hutool-core/src/test/java/cn/hutool/core/util/ByteUtilTest.java:15-18 | the oracle `ByteBuffer.allocate(W).order(o).putX(v).array()` (also lines 40-42, 57-60, 82-84): W bytes where index k holds `(byte)(v >> 8*s)`, with s = k little-endian and s = W-1-k big-endian |
| `NioByteBuffer.Get` | hutool-core/src/test/java/cn/hutool/core/util/ByteUtilTest.java:143-145 | the oracle `ByteBuffer.wrap(b).order(o).getX()` (also lines 148-150, 157-159, 162-164, 172-174, 177-179): the sum of the first W bytes each times 256 to its significance, read as two's complement at W bytes, so the result lies in the signed range |
| `NioByteBuffer.Assemble` | hutool-core/src/test/java/cn/hutool/core/util/ByteUtilTest.java:157-159 | the weighted byte sum `getX` forms before the sign is applied: the bytes of the m lowest significances, each times 256 to its significance, a value below 256^m |
| `Endian.LittleEndianBytesAt` | hutool-core/src/test/java/cn/hutool/core/util/ByteUtilTest.java:15-21 | little-endian: byte k of the encoding is the byte of significance k (`v >> 8k`), for every value, negatives included |
| `Endian.BigEndianBytesAt` | hutool-core/src/test/java/cn/hutool/core/util/ByteUtilTest.java:40-45 | big-endian: byte k of a W-byte encoding is the byte of significance W-1-k, so byte 0 is the most significant |
| `Endian.LittleEndianValueOfBytes` | hutool-core/src/test/java/cn/hutool/core/util/ByteUtilTest.java:23-24 | combining the little-endian bytes of v gives v modulo 256^W, its unsigned pattern at W bytes |
| `Endian.BigEndianValueOfBytes` | hutool-core/src/test/java/cn/hutool/core/util/ByteUtilTest.java:48-49 | combining the big-endian bytes of v gives v modulo 256^W |
| `Endian.AssembleLittleEndian` | hutool-core/src/test/java/cn/hutool/core/util/ByteUtilTest.java:157-160 | what a little-endian `ByteBuffer` assembles from the first W bytes equals the codec's little-endian combination of them |
| `Endian.AssembleBigEndian` | hutool-core/src/test/java/cn/hutool/core/util/ByteUtilTest.java:162-165 | what a big-endian `ByteBuffer` assembles equals the codec's big-endian combination of the first W bytes |
| `JavaPrimitives.Signed` | hutool-core/src/test/java/cn/hutool/core/util/ByteUtilTest.java:116-120 | reading a W-byte pattern as two's complement yields the one value in the signed range congruent to it modulo 256^W, negative exactly when the sign bit is set |
| `JavaPrimitives.SignedOfResidue` | hutool-core/src/test/java/cn/hutool/core/util/ByteUtilTest.java:116-120 | every value in the signed range is recovered from its W-byte pattern, so negative shorts survive the codec |
| `ByteUtil.NumberToBytes` | hutool-core/src/test/java/cn/hutool/core/util/ByteUtilTest.java:15-45 | the encoding of v at W bytes in either order is exactly the `ByteBuffer` `put` layout |
| `ByteUtil.BytesToBits` | hutool-core/src/test/java/cn/hutool/core/util/ByteUtilTest.java:155-166 | the unsigned pattern read from the first W bytes is below 256^W, is what `ByteBuffer` assembles, and re-encodes to those W bytes |
| `ByteUtil.BytesToNumber` | hutool-core/src/test/java/cn/hutool/core/util/ByteUtilTest.java:23-24 | the value decoded from the first W bytes is in the signed range, equals `ByteBuffer` `get` in the same order, and encodes back to exactly those W bytes |
| `ByteUtil.NumberToBytesOfResidue` | hutool-core/src/test/java/cn/hutool/core/util/ByteUtilTest.java:116-118 | only v modulo 256^W reaches the bytes, so a value and its two's-complement pattern encode alike |
| `ByteUtil.ShortToBytes` | hutool-core/src/test/java/cn/hutool/core/util/ByteUtilTest.java:118 | `shortToBytes(s, order)` gives 2 bytes, the `ByteBuffer` `putShort` layout in that order |
| `ByteUtil.ShortToBytesDefault` | hutool-core/src/test/java/cn/hutool/core/util/ByteUtilTest.java:122 | `shortToBytes(s)` gives the little-endian `putShort` layout |
| `ByteUtil.BytesToShort` | hutool-core/src/test/java/cn/hutool/core/util/ByteUtilTest.java:119 | `bytesToShort(b, order)` equals `getShort` in that order and is the short whose encoding is the first 2 bytes |
| `ByteUtil.BytesToShortDefault` | hutool-core/src/test/java/cn/hutool/core/util/ByteUtilTest.java:127 | `bytesToShort(b)` equals a little-endian `getShort` |
| `ByteUtil.IntToBytes` | hutool-core/src/test/java/cn/hutool/core/util/ByteUtilTest.java:20-21 | `intToBytes(i, order)` gives 4 bytes, identical to `ByteBuffer` `putInt` in that order |
| `ByteUtil.IntToBytesDefault` | hutool-core/src/test/java/cn/hutool/core/util/ByteUtilTest.java:157 | `intToBytes(i)` gives the little-endian `putInt` layout |
| `ByteUtil.BytesToInt` | hutool-core/src/test/java/cn/hutool/core/util/ByteUtilTest.java:48 | `bytesToInt(b, order)` equals `getInt` in that order and is the int whose encoding is the first 4 bytes |
| `ByteUtil.BytesToIntDefault` | hutool-core/src/test/java/cn/hutool/core/util/ByteUtilTest.java:72-74 | `bytesToInt(b)` equals a little-endian `getInt`; the tests exercise this overload only for long and short, and the int one is modelled alike |
| `ByteUtil.LongToBytes` | hutool-core/src/test/java/cn/hutool/core/util/ByteUtilTest.java:86-87 | `longToBytes(l, order)` gives 8 bytes, identical to `ByteBuffer` `putLong` in that order |
| `ByteUtil.LongToBytesDefault` | hutool-core/src/test/java/cn/hutool/core/util/ByteUtilTest.java:68 | `longToBytes(l)` gives the little-endian `putLong` layout |
| `ByteUtil.BytesToLong` | hutool-core/src/test/java/cn/hutool/core/util/ByteUtilTest.java:65 | `bytesToLong(b, order)` equals `getLong` in that order and is the long whose encoding is the first 8 bytes |
| `ByteUtil.BytesToLongDefault` | hutool-core/src/test/java/cn/hutool/core/util/ByteUtilTest.java:73 | `bytesToLong(b)` equals a little-endian `getLong` |
| `ByteUtilProperties.DecodeEncode` | hutool-core/src/test/java/cn/hutool/core/util/ByteUtilTest.java:20-32 | for every width, order and value in the signed range, decoding the encoding gives the value |
| `ByteUtilProperties.EncodeInjective` | hutool-core/src/test/java/cn/hutool/core/util/ByteUtilTest.java:20-24 | two values in range with the same encoding are equal |
| `ByteUtilProperties.ShortRoundTrip` | hutool-core/src/test/java/cn/hutool/core/util/ByteUtilTest.java:116-120 | `bytesToShort(shortToBytes(s, o), o) == s` for every short, negatives included, and both orders |
| `ByteUtilProperties.IntRoundTrip` | hutool-core/src/test/java/cn/hutool/core/util/ByteUtilTest.java:44-49 | `bytesToInt(intToBytes(i, o), o) == i` for every int and both orders |
| `ByteUtilProperties.LongRoundTrip` | hutool-core/src/test/java/cn/hutool/core/util/ByteUtilTest.java:86-90 | `bytesToLong(longToBytes(l, o), o) == l` for every long and both orders |
| `ByteUtilProperties.ByteBufferReadsEncodings` | hutool-core/src/test/java/cn/hutool/core/util/ByteUtilTest.java:141-181 | a `ByteBuffer` wrapped around an encoding and read in the same order returns the value, for the default (little-endian) and the big-endian encoders of all three types |
| `ByteUtilProperties.DefaultOrderRoundTrips` | hutool-core/src/test/java/cn/hutool/core/util/ByteUtilTest.java:68-74 | a default-order encoder decoded explicitly little-endian, and an explicit little-endian encoding decoded by the default decoder, both give the value, for all three types |
| `ByteUtilProperties.DefaultEncodeIsLittleEndian` | hutool-core/src/test/java/cn/hutool/core/util/ByteUtilTest.java:122-124 | each encoder without an order equals the little-endian one |
| `ByteUtilProperties.DefaultDecodeIsLittleEndian` | hutool-core/src/test/java/cn/hutool/core/util/ByteUtilTest.java:126-128 | each decoder without an order equals the little-endian one |
| `ByteUtilProperties.BigEndianIsReversedLittleEndian` | hutool-core/src/test/java/cn/hutool/core/util/ByteUtilTest.java:57-87 | at every width the big-endian encoding of v is its little-endian encoding reversed |
| `ByteUtilProperties.TypedBigEndianIsReversed` | hutool-core/src/test/java/cn/hutool/core/util/ByteUtilTest.java:15-45 | for short, int and long, the big-endian bytes are the little-endian bytes reversed |
| `ByteUtilProperties.BigEndianDecodeIsReversedLittleEndian` | hutool-core/src/test/java/cn/hutool/core/util/ByteUtilTest.java:44-49 | reading W bytes big-endian gives the value of reading them reversed little-endian |
| `ByteUtilProperties.DecodeIgnoresTrailingBytes` | hutool-core/src/test/java/cn/hutool/core/util/ByteUtilTest.java:143-145 | bytes after the first W do not change the decoded value, as `wrap(b).getX()` reads only the first W bytes; no test passes trailing bytes, so this is the model's choice for longer input |
| `ByteUtilProperties.OrderMatters` | hutool-core/src/test/java/cn/hutool/core/util/ByteUtilTest.java:15-45 | given the little-endian (lines 15-21) and big-endian (lines 40-45) layouts as premises, the two orders give different bytes whenever the value's lowest and highest bytes differ |
| `ByteUtilProperties.Short122` | hutool-core/src/test/java/cn/hutool/core/util/ByteUtilTest.java:133-137 | the short 122 encodes as `0x00 0x7A` big-endian and `0x7A 0x00` little-endian, and both decode to 122 |

## Left out

- `floatToBytes` and `bytesToFloat`: they reinterpret IEEE-754 bit patterns, and floating point is not modelled.
- `RandomUtil` and the JUnit harness: the lemmas quantify over every value of each type instead of random samples.
- `java.nio.ByteBuffer` as a stateful object: only its byte layout (`Put`, `Get`) is modelled, not its position, limit or `order` setter.
- Decoding fewer than W bytes: every decoder requires at least W bytes. No test passes a shorter array or expects an error value for one (in Java a short array ends in an exception), so no `InsufficientLength` error path is modelled.
- The recursion in `Endian` that splits and combines bytes is this model's own; it is proved equal to the `ByteBuffer` layout, and was not read from `ByteUtil.java`. Likewise `DefaultOrder` is the model's name for the order the no-order overloads use.
- `ByteUtil.java` is not part of this model. Its behaviour is taken from what `ByteUtilTest` asserts and from the `ByteBuffer` layout those assertions compare against.
- The `(short)` cast of a random `int` at line 116 is not modelled; every `Int16` value is covered instead.
