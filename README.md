# BSON integer codec of the Ruby native extension

This project models the integer codec in `mongo-meta-driver/ruby/ext/bson/native.c`, the
C extension of the Ruby BSON gem, and proves its properties in Dafny. The codec covers:

- `Integer#to_bson_int32` and `Integer#to_bson_int64`. They append the little-endian,
  two's-complement wire form of an Integer to a binary String. These are the "int32" and
  "int64" basic types of BSON 1.0.
- `Time#to_bson_time`. It writes a UTC datetime, which is a count of milliseconds, through
  the int64 encoder.
- `Int32.from_bson_int32` and `Int64.from_bson_int64`. They read the bytes back into an
  Integer.
- `String#setint32`. It overwrites four bytes of a binary String in place. A document
  encoder uses this to fill in a length prefix after writing the payload.

The files:

- `c_int.dfy` (module `CInt`) gives the C fixed-width integers over Dafny's unbounded
  `int`: the ranges of `int32_t` and `int64_t`, conversions into the unsigned types
  (reduction modulo 2^32 or 2^64), and two's-complement reinterpretation into the signed
  types.
- `native.dfy` (module `Native`) holds the codec. A Ruby binary String is the class
  `BinaryString`, whose field `bytes` the encoders append to and `SetInt32` patches in
  place. The decoders are functions over a byte sequence.

Two Ruby runtime conversions are modelled from their documented behaviour:

- `NUM2INT` and `NUM2INT64` raise `RangeError` for an Integer outside the target type.
  The model gives `Fail(RangeError)` and leaves the string unchanged.
- `INT2NUM` and `INT642NUM` of an unsigned C value read its bits as signed (`ToInt32`,
  `ToInt64`).

The model assumes a two's-complement compiler whose signed arithmetic wraps, in `int` and in
`int64_t`. In C, `>>` of a negative value is implementation-defined. The following are
undefined behaviour:

- shifting a byte of 0x80 or more by 24 into the sign bit of an `int` (native.c:130, 150-151);
- `upper << 32` on a negative `int64_t`, which happens when byte 7 is 0x80 or more
  (native.c:152);
- the overflow of `lower + (upper << 32)` in `int64_t` (native.c:152), for example on the
  bytes `FF FF FF FF 00 00 00 80`;
- the overflow of the `offset + 4` sum (native.c:230).

Under this assumption:

- `>>` is an arithmetic shift, which is Dafny's floor division by a power of two;
- `& 255` is `% 0x100`;
- the shifted byte's sum is read as a signed word, which `IntWord` writes out;
- an overflowing `int` sum is reduced to its signed 32-bit reading;
- the 64-bit shift and sum at native.c:152 are computed exactly and reduced modulo 2^64.

The wire format is defined once, as `LeValue`, the unsigned little-endian reading of a byte
sequence. Each encoder and decoder is proved against it. Round trips in both directions
are proved for every int32, and for every int64 with the corrected decoder. The int64
decoder as written fails the round trip for every value whose bit 31 is set (see
Findings).

## Model

| member | source | states |
|---|---|---|
| Native.Int32Bytes | mongo-meta-driver/ruby/ext/bson/native.c:105-110 | Defines the `bytes[4]` array built from v, also used at native.c:224-229. Native.Int32BytesAt and Native.Int32BytesLittleEndian state what it holds. |
| Native.Int64Bytes | mongo-meta-driver/ruby/ext/bson/native.c:173-182 | Defines the `bytes[8]` array built from v. Native.Int64BytesAt, Native.Int64BytesLittleEndian and Native.Int64BytesSplit state what it holds. |
| Native.IntWord | mongo-meta-driver/ruby/ext/bson/native.c:130 | Defines the `int`-promoted sum of four shifted bytes, also at native.c:150 and 151. Its contract says the sum is always an int32, and Native.IntWordValue says it is the little-endian sum read as signed. |
| Native.RejectsPositionAsWritten | mongo-meta-driver/ruby/ext/bson/native.c:230 | Defines the guard as a wrapping build evaluates it, with `offset + 4` reduced to its signed 32-bit reading. Native.PositionGuardOverflow and Native.PositionGuardAgrees compare it with the intended check. |
| Native.Patched | mongo-meta-driver/ruby/ext/bson/native.c:232 | Defines the String after the `memcpy` of the four bytes at offset. Native.PatchedFrame, Native.PatchedReadBack, Native.PatchIdempotent and Native.PatchLastWins state what it holds. |
| Native.IntegerToBsonInt32 | mongo-meta-driver/ruby/ext/bson/native.c:102-112 | For an int32, the result is the same String with the four int32 bytes appended and the old bytes an unchanged prefix. Outside int32 it raises RangeError and the String is unchanged. |
| Native.BinaryString.Cat | mongo-meta-driver/ruby/ext/bson/native.c:111 | `rb_str_cat` appends the given bytes at the end of the String and changes nothing else. |
| Native.Int32BytesAt | mongo-meta-driver/ruby/ext/bson/native.c:105-110 | There are exactly four appended bytes, and byte i is `(v >> 8i) & 255`. |
| Native.Int32BytesLittleEndian | mongo-meta-driver/ruby/ext/bson/native.c:105-110 | The four bytes are the little-endian form of v modulo 2^32, which is v's two's-complement form. |
| Native.IntegerFromBsonInt32 | mongo-meta-driver/ruby/ext/bson/native.c:127-132 | The decoded value always lies in the int32 range. |
| Native.IntWordValue | mongo-meta-driver/ruby/ext/bson/native.c:130 | The C `int` sum of four shifted bytes equals their little-endian sum read as a signed 32-bit word. |
| Native.IntegerFromBsonInt32Value | mongo-meta-driver/ruby/ext/bson/native.c:129-131 | The decoder returns the little-endian value of bytes 0..3, read in two's complement. |
| Native.IntegerFromBsonInt32Prefix | mongo-meta-driver/ruby/ext/bson/native.c:129-130 | Only bytes 0..3 matter. Two inputs that agree on them decode alike, and trailing bytes are ignored. |
| Native.IntegerFromBsonInt32Sign | mongo-meta-driver/ruby/ext/bson/native.c:130-131 | The result is negative exactly when byte 3 is 0x80 or more. |
| Native.Int32RoundTrip | mongo-meta-driver/ruby/ext/bson/native.c:102-132 | Decoding the four bytes written for an int32 v gives v. |
| Native.Int32DecodeEncode | mongo-meta-driver/ruby/ext/bson/native.c:102-132 | Re-encoding a decoded value gives back the first four input bytes. |
| Native.IntegerToBsonInt64 | mongo-meta-driver/ruby/ext/bson/native.c:170-184 | For an int64, the result is the same String with the eight int64 bytes appended and the old bytes an unchanged prefix. Outside int64 it raises RangeError and the String is unchanged. |
| Native.Int64BytesAt | mongo-meta-driver/ruby/ext/bson/native.c:173-182 | There are exactly eight appended bytes, and byte i is `(v >> 8i) & 255`. |
| Native.Int64BytesLittleEndian | mongo-meta-driver/ruby/ext/bson/native.c:173-182 | The eight bytes are the little-endian form of v modulo 2^64. |
| Native.Int64BytesSplit | mongo-meta-driver/ruby/ext/bson/native.c:173-182 | The high four bytes of the int64 form are the int32 form of `v >> 32`, and the low four are the int32 form of v. |
| Native.Int64Byte3SignBit | mongo-meta-driver/ruby/ext/bson/native.c:177 | Byte 3 of the int64 form is 0x80 or more exactly when bit 31 of v is set. |
| Native.TimeToBson | mongo-meta-driver/ruby/ext/bson/native.c:201-204 | The milliseconds are written exactly as the int64 encoder writes them, and the Time receiver plays no part. |
| Native.IntegerFromBsonInt64 | mongo-meta-driver/ruby/ext/bson/native.c:147-154 | The decoded value always lies in the int64 range. |
| Native.IntegerFromBsonInt64Words | mongo-meta-driver/ruby/ext/bson/native.c:150-152 | As written, the result is `lower + 2^32 * upper` modulo 2^64, read as signed. Here lower is the signed reading of the low word and upper the unsigned high word. |
| CInt.CombineHalves | mongo-meta-driver/ruby/ext/bson/native.c:151-152 | Sign-extending the high word is harmless: after the 32-bit shift it contributes the same as the unsigned word, modulo 2^64. |
| Native.SignExtendedLowWord | mongo-meta-driver/ruby/ext/bson/native.c:150 | Sign-extending the low word subtracts 2^32 exactly when its top bit is set. |
| Native.IntegerFromBsonInt64AsWritten | mongo-meta-driver/ruby/ext/bson/native.c:149-153 | As written, the decoder agrees with the corrected one when byte 3 is below 0x80. Otherwise it returns the little-endian value minus 2^32, modulo 2^64, read as signed. |
| Native.Int64RoundTripAsWritten | mongo-meta-driver/ruby/ext/bson/native.c:147-184 | As written, the round trip returns v when bit 31 of v is clear, and `v - 2^32` (modulo 2^64, read as signed) when it is set. |
| Native.Int64RoundTripFails | mongo-meta-driver/ruby/ext/bson/native.c:147-184 | As written, the round trip changes every int64 whose bit 31 is set. |
| Native.Int64SignExtensionExample | mongo-meta-driver/ruby/ext/bson/native.c:150-153 | As written, 2^31 is encoded as `00 00 00 80 00 00 00 00` and decoded as -2^31. |
| Native.IntegerFromBsonInt64Corrected | mongo-meta-driver/ruby/ext/bson/native.c:147-154 | The corrected decoder, whose low word is zero-extended, always returns an int64. |
| Native.IntegerFromBsonInt64CorrectedValue | mongo-meta-driver/ruby/ext/bson/native.c:149-153 | The corrected decoder returns the little-endian value of bytes 0..7, read in two's complement. |
| Native.Int64RoundTrip | mongo-meta-driver/ruby/ext/bson/native.c:147-184 | With the corrected decoder, every int64 v comes back unchanged. |
| Native.Int64DecodeEncode | mongo-meta-driver/ruby/ext/bson/native.c:147-184 | With the corrected decoder, re-encoding a decoded value gives back the first eight input bytes. |
| Native.BinaryString.SetInt32 | mongo-meta-driver/ruby/ext/bson/native.c:220-234 | It succeeds exactly when both arguments fit in int32 and the four bytes at pos lie inside the String. On success it returns the same String, patched at pos with the int32 bytes of the value. Otherwise the String is unchanged and the error is RangeError or ArgumentError "invalid position". |
| Native.PositionGuardOverflow | mongo-meta-driver/ruby/ext/bson/native.c:230 | As written, the guard accepts every offset in [2^31-4, 2^31) for a String shorter than 2^31-4 bytes, although those four bytes lie outside the String. |
| Native.PositionGuardAgrees | mongo-meta-driver/ruby/ext/bson/native.c:230 | Below 2^31-4, the as-written guard rejects an offset exactly when the intended bounds check fails. |
| Native.PatchedFrame | mongo-meta-driver/ruby/ext/bson/native.c:230-232 | A patch keeps the length, puts the int32 bytes of v at offset..offset+4, and leaves every other byte as it was. |
| Native.PatchedReadBack | mongo-meta-driver/ruby/ext/bson/native.c:224-232 | Decoding an int32 at the patched offset gives the patched value back. |
| Native.PatchIdempotent | mongo-meta-driver/ruby/ext/bson/native.c:230-232 | Patching twice with the same value is the same as patching once. |
| Native.PatchLastWins | mongo-meta-driver/ruby/ext/bson/native.c:230-232 | Of two patches at the same offset, the second one wins. |
| Native.LeValueInjective | mongo-meta-driver/ruby/ext/bson/native.c:129-130 | Byte sequences of one length with the same little-endian value are equal, so the wire form determines the bytes. |

## Left out

- `rb_object_id_generator_next` and `rb_current_time_milliseconds` (native.c:46-86) are not modelled. They read the wall clock and the process id, and they mutate a process-wide counter.
- `Init_native` (native.c:241-281) is not modelled. It only registers the methods with Ruby.
- The Ruby runtime's checks are not modelled. These include the conversion that `NUM2INT` and `NUM2INT64` apply to a non-Integer argument: a Float is truncated (and raises `RangeError` outside the range), other objects go through `to_int`, and a value with no implicit integer conversion, such as nil or a String, raises `TypeError`. They also include the frozen-String error of `rb_str_cat`. Arguments are Integers, and Strings are mutable.
- Native.BinaryString.SetInt32: the C code never calls `rb_str_modify`. It writes straight into `RSTRING_PTR(str)`, so it also overwrites a frozen String without raising. When the String shares its buffer with other Strings, they change too. In the model each `BinaryString` owns its bytes, so neither effect is captured.
- The host variant that defines `NUM2INT64` as `NUM2LL` (native.c:13-17) is not modelled separately. Both variants are taken to range over int64.
- Native.IntegerFromBsonInt32: requires at least four bytes, because the C code reads four bytes without checking the length. A shorter String reads past its end, and that read is not modelled.
- Native.IntegerFromBsonInt64: requires at least eight bytes, for the same reason.
- Native.BinaryString.SetInt32: uses the intended bounds check. The out-of-bounds `memcpy` that the as-written guard lets through is memory corruption and is not modelled. It appears only as Native.PositionGuardOverflow, under Findings.
- The other files of the repository (the Perl driver glue, the socket code and the C headers) are not part of this model.

## Findings

| source | as written | input that shows it | evidently intended | confidence | as-written member | corrected member |
|---|---|---|---|---|---|---|
| mongo-meta-driver/ruby/ext/bson/native.c:150 | The low word is summed in C `int` and widened to `int64_t`, so it is sign-extended when byte 3 is 0x80 or more. | `Int64.from_bson_int64` of `00 00 00 80 00 00 00 00`, the encoding of 2^31, gives -2^31. | The low word is zero-extended (`uint32_t`), so that every int64 round-trips. | not executed | Native.Int64RoundTripFails | Native.Int64RoundTrip |
| mongo-meta-driver/ruby/ext/bson/native.c:230 | `offset + 4` is an `int` sum, and its overflow is undefined in C. For offset 2^31-4 and above, on a build where the `int` sum wraps, it becomes negative and passes the check. | On a build where the `int` sum wraps, `setint32(0x7FFF_FFFE, v)` on an empty String is accepted, and the `memcpy` then writes 2 GiB past the buffer. | The check rejects every offset whose four bytes do not fit, with the sum computed without overflow. | not executed | Native.PositionGuardOverflow | Native.BinaryString.SetInt32 |
