/** The integer codec of the Ruby BSON native extension (ruby/ext/bson/native.c).
    It implements the "int32" and "int64" basic types of BSON 1.0 (little-endian,
    two's complement), the UTC datetime as an int64 of milliseconds, and the in-place
    patch of an int32 inside a binary string that a document encoder uses to fill in a
    length prefix after the payload has been written. */
module Native {
  import opened CInt

  /** The Ruby exceptions the codec raises. */
  datatype Error =
    | RangeError                    // NUM2INT / NUM2INT64 of an Integer that does not fit
    | ArgumentError(message: string)

  /** A Ruby call either returns a value or raises. */
  datatype Result<T> = Ok(value: T) | Fail(error: Error)

  /** A Ruby binary String: a byte sequence the extension appends to and patches in place. */
  class BinaryString {
    var bytes: seq<Byte>

    constructor (init: seq<Byte>)
      ensures bytes == init
    {
      bytes := init;
    }

    /** Ruby's `rb_str_cat`: appends `tail` at the end of the string. */
    method Cat(tail: seq<Byte>)
      modifies this
      ensures bytes == old(bytes) + tail
    {
      bytes := bytes + tail;
    }

    /** `String#setint32(pos, int32)`: writes the four wire bytes of `anInt32` over
        the bytes at `pos`, or raises when `pos` does not leave room for them. */
    method SetInt32(pos: int, anInt32: int) returns (r: Result<BinaryString>)
      modifies this
      ensures r.Ok? <==> InInt32(pos) && InInt32(anInt32) && PositionValid(pos, |old(bytes)|)
      ensures r.Ok? ==> r.value == this && bytes == Patched(old(bytes), pos, anInt32)
      ensures r.Fail? ==> bytes == old(bytes)
      ensures r.Fail? ==> r.error == if InInt32(pos) && InInt32(anInt32)
                                     then ArgumentError("invalid position") else RangeError
    {
      if !InInt32(pos) || !InInt32(anInt32) {
        return Fail(RangeError);
      }
      var offset, v := pos, anInt32;
      var b := Int32Bytes(v);
      if !PositionValid(offset, |bytes|) {
        return Fail(ArgumentError("invalid position"));
      }
      // memcpy of the four bytes
      bytes := bytes[offset := b[0]][offset + 1 := b[1]][offset + 2 := b[2]][offset + 3 := b[3]];
      assert bytes == Patched(old(bytes), offset, v);
      return Ok(this);
    }
  }

  // ---------------------------------------------------------------------------
  // Reference definitions of the wire order

  /** 256 to the power k. */
  function Pow256(k: nat): (r: nat)
    ensures r > 0
  {
    if k == 0 then 1 else 0x100 * Pow256(k - 1)
  }

  /** Byte k of the two's-complement form of v, that is `(v >> 8k) & 255`. */
  function ByteAt(v: int, k: nat): Byte {
    (v / Pow256(k)) % 0x100
  }

  /** A byte sequence read as an unsigned little-endian number. */
  function LeValue(s: seq<Byte>): (r: nat)
    ensures r < Pow256(|s|)
  {
    if s == [] then 0 else s[0] + 0x100 * LeValue(s[1..])
  }

  /** Bit 31 of v in two's complement: the sign bit of its low 32-bit word. */
  predicate LowWordSignBit(v: int) {
    (v / 0x8000_0000) % 2 == 1
  }

  // ---------------------------------------------------------------------------
  // The codec

  /** The array `bytes[4]` built from an `int32_t` v: `v & 255`, `(v >> 8) & 255`,
      `(v >> 16) & 255`, `(v >> 24) & 255`. C leaves `>>` of a negative value to the
      implementation; the model takes the arithmetic shift of two's-complement
      compilers, which is Dafny's floor division by a positive power of two. */
  function Int32Bytes(v: int): seq<Byte> {
    [v % 0x100, (v / 0x100) % 0x100, (v / 0x1_0000) % 0x100, (v / 0x100_0000) % 0x100]
  }

  /** The array `bytes[8]` built from an `int64_t` v, byte k being `(v >> 8k) & 255`. */
  function Int64Bytes(v: int): seq<Byte> {
    [v % 0x100, (v / 0x100) % 0x100, (v / 0x1_0000) % 0x100, (v / 0x100_0000) % 0x100,
     (v / 0x1_0000_0000) % 0x100, (v / 0x100_0000_0000) % 0x100,
     (v / 0x1_0000_0000_0000) % 0x100, (v / 0x100_0000_0000_0000) % 0x100]
  }

  /** The C `int` value of `v[0] + (v[1] << 8) + (v[2] << 16) + (v[3] << 24)`, the
      bytes promoted to `int`. Shifting a byte of 0x80 or more by 24 into the sign bit
      is undefined in C; the model takes what a two's-complement, wrapping build
      does, which reads that word as negative. */
  function IntWord(b0: Byte, b1: Byte, b2: Byte, b3: Byte): (r: int)
    ensures InInt32(r)
  {
    b0 + b1 * 0x100 + b2 * 0x1_0000 + ToInt32(b3 * 0x100_0000)
  }

  /** `Integer#to_bson_int32(encoded)`: appends the int32 wire form of the receiver. */
  method IntegerToBsonInt32(integer: int, encoded: BinaryString) returns (r: Result<BinaryString>)
    modifies encoded
    ensures InInt32(integer) ==> r == Ok(encoded) && encoded.bytes == old(encoded.bytes) + Int32Bytes(integer)
    ensures !InInt32(integer) ==> r == Fail(RangeError) && encoded.bytes == old(encoded.bytes)
  {
    if !InInt32(integer) {
      return Fail(RangeError);
    }
    var v := integer;
    encoded.Cat(Int32Bytes(v));
    return Ok(encoded);
  }

  /** `Int32.from_bson_int32(bytes)`: the first four bytes read back as a signed
      32-bit integer. The sum is taken as `uint32_t`, then handed to `INT2NUM`, which
      takes a C `int`. Nothing checks the length, so four bytes must be there. */
  function IntegerFromBsonInt32(bson: seq<Byte>): (r: int)
    requires |bson| >= 4
    ensures InInt32(r)
  {
    var integer := ToUInt32(IntWord(bson[0], bson[1], bson[2], bson[3]));
    ToInt32(integer)
  }

  /** `Integer#to_bson_int64(encoded)`: appends the int64 wire form of the receiver. */
  method IntegerToBsonInt64(integer: int, encoded: BinaryString) returns (r: Result<BinaryString>)
    modifies encoded
    ensures InInt64(integer) ==> r == Ok(encoded) && encoded.bytes == old(encoded.bytes) + Int64Bytes(integer)
    ensures !InInt64(integer) ==> r == Fail(RangeError) && encoded.bytes == old(encoded.bytes)
  {
    if !InInt64(integer) {
      return Fail(RangeError);
    }
    var v := integer;
    encoded.Cat(Int64Bytes(v));
    return Ok(encoded);
  }

  /** `Int64.from_bson_int64(bytes)` as written: each half is summed in C `int` and
      then widened to `int64_t`, which sign-extends; the result is
      `lower + (upper << 32)` as `uint64_t`, handed to `INT642NUM`, which takes a
      signed 64-bit integer. */
  function IntegerFromBsonInt64(bson: seq<Byte>): (r: int)
    requires |bson| >= 8
    ensures InInt64(r)
  {
    var lower := IntWord(bson[0], bson[1], bson[2], bson[3]);
    var upper := IntWord(bson[4], bson[5], bson[6], bson[7]);
    var integer := ToUInt64(lower + upper * 0x1_0000_0000);
    ToInt64(integer)
  }

  /** The int64 decoder with the low word taken as `uint32_t`, so that it is
      zero-extended rather than sign-extended. */
  function IntegerFromBsonInt64Corrected(bson: seq<Byte>): (r: int)
    requires |bson| >= 8
    ensures InInt64(r)
  {
    var lower := ToUInt32(IntWord(bson[0], bson[1], bson[2], bson[3]));
    var upper := IntWord(bson[4], bson[5], bson[6], bson[7]);
    var integer := ToUInt64(lower + upper * 0x1_0000_0000);
    ToInt64(integer)
  }

  /** `Time#to_bson_time(milliseconds, encoded)`: the milliseconds go through the
      int64 encoder; the receiver plays no part. */
  method TimeToBson<T>(time: T, milliseconds: int, encoded: BinaryString) returns (r: Result<BinaryString>)
    modifies encoded
    ensures InInt64(milliseconds) ==> r == Ok(encoded) && encoded.bytes == old(encoded.bytes) + Int64Bytes(milliseconds)
    ensures !InInt64(milliseconds) ==> r == Fail(RangeError) && encoded.bytes == old(encoded.bytes)
  {
    r := IntegerToBsonInt64(milliseconds, encoded);
  }

  /** The bounds check of `setint32` as it was meant: the four bytes at `offset`
      lie inside a string of `len` bytes. */
  predicate PositionValid(offset: int, len: int) {
    0 <= offset && offset + 4 <= len
  }

  /** The bounds check of `setint32` as a wrapping build evaluates it: `offset + 4`
      is an `int` sum; its overflow past INT32_MAX is undefined in C, and the model
      takes the two's-complement wrap-around. */
  predicate RejectsPositionAsWritten(offset: int, len: int)
    requires InInt32(offset)
  {
    offset < 0 || ToInt32(offset + 4) > len
  }

  /** A string after `setint32(offset, v)` succeeded. */
  function Patched(s: seq<Byte>, offset: int, v: int): seq<Byte>
    requires PositionValid(offset, |s|)
  {
    s[..offset] + Int32Bytes(v) + s[offset + 4..]
  }

  // ---------------------------------------------------------------------------
  // Arithmetic helpers

  /** Dividing by 256^k is dividing by 256, k times. */
  lemma DivChain(x: int)
    ensures x / 0x1_0000 == (x / 0x100) / 0x100
    ensures x / 0x100_0000 == (x / 0x1_0000) / 0x100
    ensures x / 0x1_0000_0000 == (x / 0x100_0000) / 0x100
    ensures x / 0x100_0000_0000 == (x / 0x1_0000_0000) / 0x100
    ensures x / 0x1_0000_0000_0000 == (x / 0x100_0000_0000) / 0x100
    ensures x / 0x100_0000_0000_0000 == (x / 0x1_0000_0000_0000) / 0x100
    ensures x / 0x1_0000_0000_0000_0000 == (x / 0x100_0000_0000_0000) / 0x100
  {
    var q1 := x / 0x100;
    var q2 := q1 / 0x100;
    var q3 := q2 / 0x100;
    var q4 := q3 / 0x100;
    var q5 := q4 / 0x100;
    var q6 := q5 / 0x100;
    var q7 := q6 / 0x100;
    var q8 := q7 / 0x100;
    assert 0x1_0000 * q2 <= x < 0x1_0000 * q2 + 0x1_0000;
    assert 0x100_0000 * q3 <= x < 0x100_0000 * q3 + 0x100_0000;
    assert 0x1_0000_0000 * q4 <= x < 0x1_0000_0000 * q4 + 0x1_0000_0000;
    assert 0x100_0000_0000 * q5 <= x < 0x100_0000_0000 * q5 + 0x100_0000_0000;
    assert 0x1_0000_0000_0000 * q6 <= x < 0x1_0000_0000_0000 * q6 + 0x1_0000_0000_0000;
    assert 0x100_0000_0000_0000 * q7 <= x < 0x100_0000_0000_0000 * q7 + 0x100_0000_0000_0000;
    assert 0x1_0000_0000_0000_0000 * q8 <= x < 0x1_0000_0000_0000_0000 * q8 + 0x1_0000_0000_0000_0000;
  }

  /** x splits into its low four bytes and the rest. */
  lemma ByteSum32(x: int)
    ensures x == x % 0x100 + 0x100 * ((x / 0x100) % 0x100) + 0x1_0000 * ((x / 0x1_0000) % 0x100)
                 + 0x100_0000 * ((x / 0x100_0000) % 0x100) + 0x1_0000_0000 * (x / 0x1_0000_0000)
  {
    DivChain(x);
  }

  /** The high four bytes of the int64 form are the int32 form of `v >> 32`. */
  lemma Int64BytesSplit(v: int)
    ensures Int64Bytes(v) == Int32Bytes(v) + Int32Bytes(v / 0x1_0000_0000)
  {
    DivChain(v);
    DivChain(v / 0x1_0000_0000);
  }

  /** The little-endian value of s is that of its first four bytes plus 2^32 times
      that of the rest. */
  lemma {:induction false} LeValueSplit4(s: seq<Byte>)
    requires |s| >= 4
    ensures LeValue(s) == s[0] as int + 0x100 * (s[1] as int) + 0x1_0000 * (s[2] as int)
                          + 0x100_0000 * (s[3] as int) + 0x1_0000_0000 * LeValue(s[4..])
  {
    assert s[1..][1..] == s[2..];
    assert s[2..][1..] == s[3..];
    assert s[3..][1..] == s[4..];
    assert LeValue(s[3..]) == s[3] as int + 0x100 * LeValue(s[4..]);
    assert LeValue(s[2..]) == s[2] as int + 0x100 * LeValue(s[3..]);
    assert LeValue(s[1..]) == s[1] as int + 0x100 * LeValue(s[2..]);
  }

  /** The little-endian value of four bytes. */
  lemma LeValue4(s: seq<Byte>)
    requires |s| == 4
    ensures LeValue(s) == s[0] as int + 0x100 * (s[1] as int) + 0x1_0000 * (s[2] as int) + 0x100_0000 * (s[3] as int)
  {
    LeValueSplit4(s);
    assert s[4..] == [];
  }

  /** The little-endian value of eight bytes is that of the low word plus 2^32 times
      that of the high word. */
  lemma LeValue8(bson: seq<Byte>)
    requires |bson| >= 8
    ensures LeValue(bson[..8]) == LeValue(bson[..4]) + 0x1_0000_0000 * LeValue(bson[4..8])
    ensures LeValue(bson[..8]) < 0x1_0000_0000_0000_0000
  {
    LeValue4(bson[4..8]);
    LeValueSplit4(bson[..8]);
    LeValue4(bson[..4]);
    assert bson[..8][4..] == bson[4..8];
  }

  /** Two byte sequences of one length with the same little-endian value are equal. */
  lemma {:induction false} LeValueInjective(a: seq<Byte>, b: seq<Byte>)
    requires |a| == |b| && LeValue(a) == LeValue(b)
    ensures a == b
  {
    if a != [] {
      assert a[0] == b[0];
      LeValueInjective(a[1..], b[1..]);
      assert a == [a[0]] + a[1..] && b == [b[0]] + b[1..];
    }
  }

  /** The C `int` sum of four bytes is their little-endian sum read as signed. */
  lemma IntWordValue(b0: Byte, b1: Byte, b2: Byte, b3: Byte)
    ensures IntWord(b0, b1, b2, b3) == ToInt32(b0 as int + 0x100 * (b1 as int) + 0x1_0000 * (b2 as int) + 0x100_0000 * (b3 as int))
  {
    if b3 < 0x80 {
      assert ToInt32(b3 * 0x100_0000) == b3 * 0x100_0000;
    } else {
      assert ToInt32(b3 * 0x100_0000) == b3 * 0x100_0000 - 0x1_0000_0000;
    }
  }

  /** The first four bytes as an unsigned word: its range and its top bit. */
  lemma LowWord(bson: seq<Byte>)
    requires |bson| >= 4
    ensures LeValue(bson[..4]) == bson[0] as int + 0x100 * (bson[1] as int) + 0x1_0000 * (bson[2] as int) + 0x100_0000 * (bson[3] as int)
    ensures LeValue(bson[..4]) < 0x1_0000_0000
    ensures LeValue(bson[..4]) >= 0x8000_0000 <==> bson[3] >= 0x80
  {
    LeValue4(bson[..4]);
  }

  /** Bytes 4 to 7 as an unsigned word. */
  lemma HighWord(bson: seq<Byte>)
    requires |bson| >= 8
    ensures LeValue(bson[4..8]) == bson[4] as int + 0x100 * (bson[5] as int) + 0x1_0000 * (bson[6] as int) + 0x100_0000 * (bson[7] as int)
    ensures LeValue(bson[4..8]) < 0x1_0000_0000
  {
    LeValue4(bson[4..8]);
  }

  /** The C `int` sum of the first four bytes is their little-endian value read as signed. */
  lemma IntWordLow(bson: seq<Byte>)
    requires |bson| >= 4
    ensures IntWord(bson[0], bson[1], bson[2], bson[3]) == ToInt32(LeValue(bson[..4]))
  {
    LowWord(bson);
    IntWordValue(bson[0], bson[1], bson[2], bson[3]);
  }

  /** The same for bytes 4 to 7. */
  lemma IntWordHigh(bson: seq<Byte>)
    requires |bson| >= 8
    ensures IntWord(bson[4], bson[5], bson[6], bson[7]) == ToInt32(LeValue(bson[4..8]))
  {
    HighWord(bson);
    IntWordValue(bson[4], bson[5], bson[6], bson[7]);
  }

  // ---------------------------------------------------------------------------
  // int32

  /** Byte i of the int32 form is `(v >> 8i) & 255`. */
  lemma Int32BytesAt(v: int)
    ensures |Int32Bytes(v)| == 4
    ensures forall i | 0 <= i < 4 :: Int32Bytes(v)[i] == ByteAt(v, i)
  {
    assert Pow256(1) == 0x100 && Pow256(2) == 0x1_0000 && Pow256(3) == 0x100_0000;
  }

  /** The int32 form is the little-endian form of v modulo 2^32 (two's complement). */
  lemma Int32BytesLittleEndian(v: int)
    ensures LeValue(Int32Bytes(v)) == ToUInt32(v)
  {
    LeValue4(Int32Bytes(v));
    ByteSum32(v);
  }

  /** The decoder reads the first four bytes as a little-endian two's-complement word. */
  lemma IntegerFromBsonInt32Value(bson: seq<Byte>)
    requires |bson| >= 4
    ensures IntegerFromBsonInt32(bson) == ToInt32(LeValue(bson[..4]))
  {
    var lo := LeValue(bson[..4]);
    IntWordLow(bson);
    ToInt32Reduce(ToInt32(lo));
    ToInt32Identity(ToInt32(lo));
  }

  /** Only the first four bytes matter; anything after them is ignored. */
  lemma IntegerFromBsonInt32Prefix(bson: seq<Byte>, other: seq<Byte>)
    requires |bson| >= 4 && |other| >= 4 && bson[..4] == other[..4]
    ensures IntegerFromBsonInt32(bson) == IntegerFromBsonInt32(other)
    ensures IntegerFromBsonInt32(bson) == IntegerFromBsonInt32(bson[..4])
  {
    IntegerFromBsonInt32Value(bson);
    IntegerFromBsonInt32Value(other);
    IntegerFromBsonInt32Value(bson[..4]);
    assert bson[..4][..4] == bson[..4];
  }

  /** The result is negative exactly when the high bit of byte 3 is set. */
  lemma IntegerFromBsonInt32Sign(bson: seq<Byte>)
    requires |bson| >= 4
    ensures IntegerFromBsonInt32(bson) < 0 <==> bson[3] >= 0x80
  {
    IntegerFromBsonInt32Value(bson);
    LowWord(bson);
    ToInt32Sign(LeValue(bson[..4]));
  }

  /** Round trip: decoding the four bytes appended for v gives v back. */
  lemma Int32RoundTrip(v: int)
    requires InInt32(v)
    ensures IntegerFromBsonInt32(Int32Bytes(v)) == v
  {
    IntegerFromBsonInt32Value(Int32Bytes(v));
    assert Int32Bytes(v)[..4] == Int32Bytes(v);
    Int32BytesLittleEndian(v);
    ToInt32Reduce(v);
    ToInt32Identity(v);
  }

  /** Round trip the other way: re-encoding a decoded value gives its four bytes back. */
  lemma Int32DecodeEncode(bson: seq<Byte>)
    requires |bson| >= 4
    ensures Int32Bytes(IntegerFromBsonInt32(bson)) == bson[..4]
  {
    var u := LeValue(bson[..4]);
    IntegerFromBsonInt32Value(bson);
    LowWord(bson);
    SignedWordEncoding(u);
    LeValueInjective(Int32Bytes(IntegerFromBsonInt32(bson)), bson[..4]);
  }

  /** Encoding the signed reading of a 32-bit word gives the word's own bytes. */
  lemma SignedWordEncoding(u: int)
    requires 0 <= u < 0x1_0000_0000
    ensures LeValue(Int32Bytes(ToInt32(u))) == u
  {
    Int32BytesLittleEndian(ToInt32(u));
    UInt32OfInt32(u);
  }

  // ---------------------------------------------------------------------------
  // int64

  /** Byte i of the int64 form is `(v >> 8i) & 255`. */
  lemma Int64BytesAt(v: int)
    ensures |Int64Bytes(v)| == 8
    ensures forall i | 0 <= i < 8 :: Int64Bytes(v)[i] == ByteAt(v, i)
  {
    assert Pow256(1) == 0x100 && Pow256(2) == 0x1_0000 && Pow256(3) == 0x100_0000;
    assert Pow256(4) == 0x1_0000_0000 && Pow256(5) == 0x100_0000_0000;
    assert Pow256(6) == 0x1_0000_0000_0000 && Pow256(7) == 0x100_0000_0000_0000;
  }

  /** The int64 form is the little-endian form of v modulo 2^64 (two's complement). */
  lemma Int64BytesLittleEndian(v: int)
    ensures LeValue(Int64Bytes(v)) == ToUInt64(v)
  {
    var w := v / 0x1_0000_0000;
    Int64BytesSplit(v);
    LeValueSplit4(Int64Bytes(v));
    assert Int64Bytes(v)[4..] == Int32Bytes(w);
    Int32BytesLittleEndian(w);
    DivChain(v);
    assert w / 0x1_0000_0000 == v / 0x1_0000_0000_0000_0000;
    assert v == 0x1_0000_0000_0000_0000 * (v / 0x1_0000_0000_0000_0000) + (0x1_0000_0000 * (w % 0x1_0000_0000) + v % 0x1_0000_0000);
  }

  /** The decoder as written, in terms of the two little-endian words: the low word
      enters through its signed reading. */
  lemma IntegerFromBsonInt64Words(bson: seq<Byte>)
    requires |bson| >= 8
    ensures IntegerFromBsonInt64(bson) ==
      ToInt64(ToInt32(LeValue(bson[..4])) + 0x1_0000_0000 * LeValue(bson[4..8]))
  {
    var lo, hi := LeValue(bson[..4]), LeValue(bson[4..8]);
    IntWordLow(bson);
    IntWordHigh(bson);
    AsWrittenFromWords(bson, ToInt32(lo), hi);
    CombineHalves(ToInt32(lo), hi);
  }

  lemma AsWrittenFromWords(bson: seq<Byte>, lower: int, hi: int)
    requires |bson| >= 8
    requires IntWord(bson[0], bson[1], bson[2], bson[3]) == lower
    requires IntWord(bson[4], bson[5], bson[6], bson[7]) == ToInt32(hi)
    ensures IntegerFromBsonInt64(bson) == ToInt64(ToUInt64(lower + ToInt32(hi) * 0x1_0000_0000))
  {
  }

  /** The corrected decoder, in terms of the two little-endian words. */
  lemma IntegerFromBsonInt64CorrectedWords(bson: seq<Byte>)
    requires |bson| >= 8
    ensures IntegerFromBsonInt64Corrected(bson) ==
      ToInt64(LeValue(bson[..4]) + 0x1_0000_0000 * LeValue(bson[4..8]))
  {
    var lo, hi := LeValue(bson[..4]), LeValue(bson[4..8]);
    IntWordLow(bson);
    IntWordHigh(bson);
    LowWord(bson);
    UInt32OfInt32(lo);
    CorrectedFromWords(bson, lo, hi);
    CombineHalves(lo, hi);
  }

  lemma CorrectedFromWords(bson: seq<Byte>, lo: int, hi: int)
    requires |bson| >= 8
    requires ToUInt32(IntWord(bson[0], bson[1], bson[2], bson[3])) == lo
    requires IntWord(bson[4], bson[5], bson[6], bson[7]) == ToInt32(hi)
    ensures IntegerFromBsonInt64Corrected(bson) == ToInt64(ToUInt64(lo + ToInt32(hi) * 0x1_0000_0000))
  {
  }

  /** The corrected decoder reads eight bytes as a little-endian two's-complement word. */
  lemma IntegerFromBsonInt64CorrectedValue(bson: seq<Byte>)
    requires |bson| >= 8
    ensures IntegerFromBsonInt64Corrected(bson) == ToInt64(LeValue(bson[..8]))
  {
    IntegerFromBsonInt64CorrectedWords(bson);
    LeValue8(bson);
  }

  /** The decoder as written agrees with the corrected one when byte 3 is below 0x80,
      and otherwise comes out 2^32 lower, wrapped to 64 bits. */
  lemma IntegerFromBsonInt64AsWritten(bson: seq<Byte>)
    requires |bson| >= 8
    ensures IntegerFromBsonInt64(bson) ==
      if bson[3] < 0x80 then IntegerFromBsonInt64Corrected(bson)
      else ToInt64(LeValue(bson[..8]) - 0x1_0000_0000)
  {
    var lo, hi := LeValue(bson[..4]), LeValue(bson[4..8]);
    LowWord(bson);
    IntegerFromBsonInt64Words(bson);
    IntegerFromBsonInt64CorrectedWords(bson);
    SignExtendedLowWord(lo, hi);
    LeValue8(bson);
  }

  /** Taking the low word through its signed reading subtracts 2^32 exactly when its
      top bit is set. */
  lemma SignExtendedLowWord(lo: int, hi: int)
    requires 0 <= lo < 0x1_0000_0000
    ensures ToInt64(ToInt32(lo) + 0x1_0000_0000 * hi) ==
      if lo < 0x8000_0000 then ToInt64(lo + 0x1_0000_0000 * hi)
      else ToInt64(lo + 0x1_0000_0000 * hi - 0x1_0000_0000)
  {
  }

  /** Round trip of the corrected decoder: every int64 comes back unchanged. */
  lemma Int64RoundTrip(v: int)
    requires InInt64(v)
    ensures IntegerFromBsonInt64Corrected(Int64Bytes(v)) == v
  {
    IntegerFromBsonInt64CorrectedValue(Int64Bytes(v));
    assert Int64Bytes(v)[..8] == Int64Bytes(v);
    Int64BytesLittleEndian(v);
    ToInt64Reduce(v);
    ToInt64Identity(v);
  }

  /** Re-encoding a value the corrected decoder produced gives its eight bytes back. */
  lemma Int64DecodeEncode(bson: seq<Byte>)
    requires |bson| >= 8
    ensures Int64Bytes(IntegerFromBsonInt64Corrected(bson)) == bson[..8]
  {
    var x := IntegerFromBsonInt64Corrected(bson);
    IntegerFromBsonInt64CorrectedValue(bson);
    LeValue8(bson);
    UInt64OfInt64(LeValue(bson[..8]));
    Int64BytesLittleEndian(x);
    LeValueInjective(Int64Bytes(x), bson[..8]);
  }

  /** Byte 3 of the int64 form has its high bit set exactly when bit 31 of v is set. */
  lemma Int64Byte3SignBit(v: int)
    ensures Int64Bytes(v)[3] >= 0x80 <==> LowWordSignBit(v)
  {
    SignBitOfByte3(v);
  }

  lemma SignBitOfByte3(v: int)
    ensures (v / 0x100_0000) % 0x100 >= 0x80 <==> (v / 0x8000_0000) % 2 == 1
  {
    var q := v / 0x100_0000;
    var h := q / 0x80;
    assert 0x80 * h <= q < 0x80 * h + 0x80;
    assert 0x8000_0000 * h <= v < 0x8000_0000 * h + 0x8000_0000;
    assert v / 0x8000_0000 == h;
    assert h == 2 * (q / 0x100) + (q % 0x100) / 0x80;
  }

  /** Round trip of the decoder as written: v comes back when its bit 31 is clear;
      when it is set, the sign-extended low word makes the result v - 2^32, taken
      modulo 2^64 and read as signed. */
  lemma Int64RoundTripAsWritten(v: int)
    requires InInt64(v)
    ensures IntegerFromBsonInt64(Int64Bytes(v)) ==
      if LowWordSignBit(v) then ToInt64(v - 0x1_0000_0000) else v
  {
    var s := Int64Bytes(v);
    IntegerFromBsonInt64AsWritten(s);
    Int64RoundTrip(v);
    Int64Byte3SignBit(v);
    assert s[..8] == s;
    Int64BytesLittleEndian(v);
    ToInt64Periodic(v - 0x1_0000_0000, -(v / 0x1_0000_0000_0000_0000));
  }

  /** The round trip as written fails for every v whose bit 31 is set. */
  lemma Int64RoundTripFails(v: int)
    requires InInt64(v) && LowWordSignBit(v)
    ensures IntegerFromBsonInt64(Int64Bytes(v)) != v
  {
    Int64RoundTripAsWritten(v);
  }

  /** An instance: v = 2^31, encoded as 00 00 00 80 00 00 00 00, is decoded as -2^31. */
  lemma Int64SignExtensionExample(v: int)
    requires v == 0x8000_0000
    ensures IntegerFromBsonInt64(Int64Bytes(v)) == -v
  {
    SignBitExample(v);
    Int64RoundTripAsWritten(v);
  }

  lemma SignBitExample(v: int)
    requires v == 0x8000_0000
    ensures LowWordSignBit(v) && ToInt64(v - 0x1_0000_0000) == -v
  {
    ToInt64Identity(v - 0x1_0000_0000);
  }

  // ---------------------------------------------------------------------------
  // setint32

  /** The guard as written lets through offsets next to INT32_MAX: `offset + 4`
      wraps to a negative `int`, which is never larger than the length. */
  lemma PositionGuardOverflow(offset: int, len: int)
    requires 0x8000_0000 - 4 <= offset < 0x8000_0000 && 0 <= len < 0x8000_0000 - 4
    ensures !RejectsPositionAsWritten(offset, len)
    ensures !PositionValid(offset, len)
  {
  }

  /** Away from the overflow the guard as written and the intended check agree. */
  lemma PositionGuardAgrees(offset: int, len: int)
    requires InInt32(offset) && offset < 0x8000_0000 - 4
    ensures RejectsPositionAsWritten(offset, len) <==> !PositionValid(offset, len)
  {
  }

  /** A patch keeps the length, writes the four bytes of v at offset and leaves
      every other byte as it was. */
  lemma PatchedFrame(s: seq<Byte>, offset: int, v: int)
    requires PositionValid(offset, |s|)
    ensures |Patched(s, offset, v)| == |s|
    ensures Patched(s, offset, v)[offset..offset + 4] == Int32Bytes(v)
    ensures forall i | 0 <= i < |s| && !(offset <= i < offset + 4) :: Patched(s, offset, v)[i] == s[i]
  {
  }

  /** Reading an int32 at the patched offset gives the patched value back. */
  lemma PatchedReadBack(s: seq<Byte>, offset: int, v: int)
    requires PositionValid(offset, |s|) && InInt32(v)
    ensures IntegerFromBsonInt32(Patched(s, offset, v)[offset..]) == v
  {
    var p := Patched(s, offset, v);
    PatchedFrame(s, offset, v);
    assert p[offset..][..4] == Int32Bytes(v);
    assert Int32Bytes(v)[..4] == Int32Bytes(v);
    IntegerFromBsonInt32Prefix(p[offset..], Int32Bytes(v));
    Int32RoundTrip(v);
  }

  /** Patching twice with the same value is patching once. */
  lemma PatchIdempotent(s: seq<Byte>, offset: int, v: int)
    requires PositionValid(offset, |s|)
    ensures PositionValid(offset, |Patched(s, offset, v)|)
    ensures Patched(Patched(s, offset, v), offset, v) == Patched(s, offset, v)
  {
    PatchLastWins(s, offset, v, v);
  }

  /** Of two patches at the same offset, the last one wins. */
  lemma PatchLastWins(s: seq<Byte>, offset: int, v: int, w: int)
    requires PositionValid(offset, |s|)
    ensures PositionValid(offset, |Patched(s, offset, v)|)
    ensures Patched(Patched(s, offset, v), offset, w) == Patched(s, offset, w)
  {
    var p := Patched(s, offset, v);
    assert p[..offset] == s[..offset];
    assert p[offset + 4..] == s[offset + 4..];
  }
}
