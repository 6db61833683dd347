/** Fixed-width two's-complement integers of the C code, over Dafny's unbounded `int`.
    A C value of type `uint32_t` or `uint64_t` is an `int` in [0, 2^32) or [0, 2^64);
    a conversion into an unsigned type reduces modulo 2^32 or 2^64, and a conversion of
    an unsigned bit pattern into a signed type reinterprets it in two's complement. */
module CInt {

  /** One byte of a Ruby binary string, read through a `uint8_t` pointer. */
  type Byte = x: int | 0 <= x < 0x100

  /** The range of `int32_t` (and of C `int`). */
  predicate InInt32(v: int) {
    -0x8000_0000 <= v < 0x8000_0000
  }

  /** The range of `int64_t` (and of Ruby's `long` on a 64-bit host). */
  predicate InInt64(v: int) {
    -0x8000_0000_0000_0000 <= v < 0x8000_0000_0000_0000
  }

  /** Conversion of an integer to `uint32_t`. */
  function ToUInt32(x: int): (r: int)
    ensures 0 <= r < 0x1_0000_0000
  {
    x % 0x1_0000_0000
  }

  /** Conversion of an integer to `uint64_t`. */
  function ToUInt64(x: int): (r: int)
    ensures 0 <= r < 0x1_0000_0000_0000_0000
  {
    x % 0x1_0000_0000_0000_0000
  }

  /** Conversion of an integer to `int32_t` (or C `int`): its low 32 bits read in
      two's complement. */
  function ToInt32(x: int): (r: int)
    ensures InInt32(r)
  {
    var u := ToUInt32(x);
    if u < 0x8000_0000 then u else u - 0x1_0000_0000
  }

  /** Conversion of an integer to `int64_t` (or Ruby's `long`): its low 64 bits read
      in two's complement. */
  function ToInt64(x: int): (r: int)
    ensures InInt64(r)
  {
    var u := ToUInt64(x);
    if u < 0x8000_0000_0000_0000 then u else u - 0x1_0000_0000_0000_0000
  }

  /** A value of `int32_t` survives the conversion unchanged. */
  lemma ToInt32Identity(v: int)
    requires InInt32(v)
    ensures ToInt32(v) == v
  {
  }

  /** A value of `int64_t` survives the conversion unchanged. */
  lemma ToInt64Identity(v: int)
    requires InInt64(v)
    ensures ToInt64(v) == v
  {
  }

  /** The signed reading of x differs from x by a multiple of 2^32. */
  lemma ToInt32Congruent(x: int) returns (m: int)
    ensures ToInt32(x) == x - 0x1_0000_0000 * m
  {
    m := x / 0x1_0000_0000 + (if x % 0x1_0000_0000 < 0x8000_0000 then 0 else 1);
  }

  /** Converting to `uint32_t` first changes nothing. */
  lemma ToInt32Reduce(x: int)
    ensures ToInt32(ToUInt32(x)) == ToInt32(x)
  {
  }

  /** Converting to `uint64_t` first changes nothing. */
  lemma ToInt64Reduce(x: int)
    ensures ToInt64(ToUInt64(x)) == ToInt64(x)
  {
  }

  /** The conversion to `int64_t` ignores multiples of 2^64. */
  lemma ToInt64Periodic(x: int, k: int)
    ensures ToInt64(x + 0x1_0000_0000_0000_0000 * k) == ToInt64(x)
  {
    assert ToUInt64(x + 0x1_0000_0000_0000_0000 * k) == ToUInt64(x);
  }

  /** The signed reading of a 32-bit word is negative exactly when its top bit is set. */
  lemma ToInt32Sign(u: int)
    requires 0 <= u < 0x1_0000_0000
    ensures ToInt32(u) < 0 <==> u >= 0x8000_0000
  {
  }

  /** A 32-bit word survives a round trip through its signed reading. */
  lemma UInt32OfInt32(u: int)
    requires 0 <= u < 0x1_0000_0000
    ensures ToUInt32(ToInt32(u)) == u
  {
  }

  /** Combining two 32-bit halves as `lower + (upper << 32)` in 64 bits: a high half
      given by its signed reading contributes the same as its unsigned word. */
  lemma CombineHalves(lower: int, hi: int)
    ensures ToInt64(ToUInt64(lower + ToInt32(hi) * 0x1_0000_0000)) == ToInt64(lower + 0x1_0000_0000 * hi)
  {
    var m := ToInt32Congruent(hi);
    assert lower + ToInt32(hi) * 0x1_0000_0000 == (lower + 0x1_0000_0000 * hi) + 0x1_0000_0000_0000_0000 * -m;
    ToInt64Reduce(lower + ToInt32(hi) * 0x1_0000_0000);
    ToInt64Periodic(lower + 0x1_0000_0000 * hi, -m);
  }

  /** A 64-bit word survives a round trip through its signed reading. */
  lemma UInt64OfInt64(u: int)
    requires 0 <= u < 0x1_0000_0000_0000_0000
    ensures ToUInt64(ToInt64(u)) == u
  {
  }
}
