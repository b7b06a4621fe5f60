/** Fixed-width integers, their two's-complement bit patterns, little-endian
    byte strings (Rust's `to_le_bytes`) and decimal text (`to_string`). */
module Bytes {

  const TWO_8: int := 0x100
  const TWO_31: int := 0x8000_0000
  const TWO_32: int := 0x1_0000_0000
  const TWO_63: int := 0x8000_0000_0000_0000
  const TWO_64: int := 0x1_0000_0000_0000_0000

  type I32 = x: int | -TWO_31 <= x < TWO_31
  type U32 = x: int | 0 <= x < TWO_32
  type I64 = x: int | -TWO_63 <= x < TWO_63
  type U64 = x: int | 0 <= x < TWO_64

  /** 256 to the n. */
  function Pow256(n: nat): (r: nat)
    ensures r >= 1
  {
    if n == 0 then 1 else 256 * Pow256(n - 1)
  }

  /** `v as u8`: the low byte of any integer. */
  function LowByte(v: int): (b: bv8)
    ensures b as int == v % 256
  {
    ByteOf(v % 256)
  }

  /** The byte whose value is `n`: its high and low nibbles. */
  function ByteOf(n: int): (b: bv8)
    requires 0 <= n < 256
    ensures b as int == n
  {
    var high, low := Nibble(n / 16), Nibble(n % 16);
    NibblesValue(high, low);
    high * 16 + low
  }

  /** The byte whose value is the nibble `k`. */
  function Nibble(k: int): (b: bv8)
    requires 0 <= k < 16
    ensures b as int == k && b < 16
  {
    if k < 8 then
      if k < 4 then (if k == 0 then 0 else if k == 1 then 1 else if k == 2 then 2 else 3)
      else (if k == 4 then 4 else if k == 5 then 5 else if k == 6 then 6 else 7)
    else if k < 12 then (if k == 8 then 8 else if k == 9 then 9 else if k == 10 then 10 else 11)
    else (if k == 12 then 12 else if k == 13 then 13 else if k == 14 then 14 else 15)
  }

  /** Two nibbles make a byte without carry. */
  lemma NibblesValue(high: bv8, low: bv8)
    requires high < 16 && low < 16
    ensures (high * 16 + low) as int == 16 * (high as int) + low as int
  {
  }

  /** Every byte is the byte of its own value. */
  lemma ByteOfValue(b: bv8)
    ensures ByteOf(b as int) == b
  {
    var c := ByteOf(b as int);
    assert c as int == b as int;
  }

  /** A byte read as a two's-complement `i8`. */
  function SignedByte(b: bv8): (v: int)
    ensures -128 <= v < 128
    ensures (v - b as int) % TWO_8 == 0
  {
    if b < 0x80 then b as int else b as int - TWO_8
  }

  /** `v as u32` for any integer `v` (wrap-around modulo 2^32). */
  function AsU32(v: int): (r: U32)
    ensures (r - v) % TWO_32 == 0
  {
    v % TWO_32
  }

  /** `v as u64` for any integer `v`; for an `i32` or an `i64` this is sign extension. */
  function AsU64(v: int): (r: U64)
    ensures (r - v) % TWO_64 == 0
  {
    v % TWO_64
  }

  /** `v as i32` for any integer `v`: the low 32 bits read as two's complement. */
  function AsI32(v: int): (r: I32)
    ensures (r - v) % TWO_32 == 0
  {
    var w := v % TWO_32;
    if w < TWO_31 then w else w - TWO_32
  }

  /** `v as i64` for any integer `v`: the low 64 bits read as two's complement. */
  function AsI64(v: int): (r: I64)
    ensures (r - v) % TWO_64 == 0
  {
    var w := v % TWO_64;
    if w < TWO_63 then w else w - TWO_64
  }

  /** Reading back the bit pattern of an `i32` gives the `i32`. */
  lemma AsI32OfAsU32(v: I32)
    ensures AsI32(AsU32(v)) == v
  {
  }

  /** Reading back the bit pattern of an `i64` gives the `i64`. */
  lemma AsI64OfAsU64(v: I64)
    ensures AsI64(AsU64(v)) == v
  {
  }

  /** The n low-order bytes of `v`, least significant first. */
  function LeBytes(v: nat, n: nat): (r: seq<bv8>)
    ensures |r| == n
  {
    if n == 0 then [] else [LowByte(v)] + LeBytes(v / TWO_8, n - 1)
  }

  /** The unsigned value of a little-endian byte string. */
  function LeValue(bs: seq<bv8>): (r: nat)
    ensures r < Pow256(|bs|)
  {
    if bs == [] then 0 else bs[0] as nat + TWO_8 * LeValue(bs[1..])
  }

  /** `u32::to_le_bytes`, `i32::to_le_bytes` (of the bit pattern). */
  function Le32(v: U32): (r: seq<bv8>)
    ensures |r| == 4
  {
    LeBytes(v, 4)
  }

  /** `u64::to_le_bytes`, `i64::to_le_bytes` (of the bit pattern). */
  function Le64(v: U64): (r: seq<bv8>)
    ensures |r| == 8
  {
    LeBytes(v, 8)
  }

  /** The four bytes of `v` read back as `v`. */
  lemma Le32Value(v: U32)
    ensures LeValue(Le32(v)) == v
  {
    assert Pow256(4) == TWO_32;
    LeValueOfLeBytes(v, 4);
  }

  /** The eight bytes of `v` read back as `v`. */
  lemma Le64Value(v: U64)
    ensures LeValue(Le64(v)) == v
  {
    assert Pow256(8) == TWO_64;
    LeValueOfLeBytes(v, 8);
  }

  lemma DivBound(v: nat, p: nat)
    requires v < TWO_8 * p
    ensures v / TWO_8 < p
  {
  }

  /** Decoding the little-endian bytes of a value that fits in n bytes gives it back. */
  lemma {:induction false} LeValueOfLeBytes(v: nat, n: nat)
    requires v < Pow256(n)
    ensures LeValue(LeBytes(v, n)) == v
  {
    if n > 0 {
      DivBound(v, Pow256(n - 1));
      LeValueOfLeBytes(v / TWO_8, n - 1);
      var bs := LeBytes(v, n);
      assert bs[1..] == LeBytes(v / TWO_8, n - 1);
    }
  }

  /** Encoding the value of a byte string gives back the byte string. */
  lemma {:induction false} LeBytesOfLeValue(bs: seq<bv8>)
    ensures LeBytes(LeValue(bs), |bs|) == bs
  {
    if bs != [] {
      LeBytesOfLeValue(bs[1..]);
      var v := LeValue(bs);
      assert v / TWO_8 == LeValue(bs[1..]);
      assert v % TWO_8 == bs[0] as int;
      ByteOfValue(bs[0]);
      assert LowByte(v) == bs[0];
    }
  }

  /** The 32-bit little-endian encoding is a bijection on `u32` values. */
  lemma Le32RoundTrip(v: U32)
    ensures LeValue(Le32(v)) == v
    ensures forall bs: seq<bv8> :: |bs| == 4 ==> LeValue(bs) < TWO_32 && Le32(LeValue(bs)) == bs
  {
    Le32Value(v);
    forall bs: seq<bv8> | |bs| == 4 ensures LeValue(bs) < TWO_32 && Le32(LeValue(bs)) == bs {
      assert Pow256(4) == TWO_32;
      LeBytesOfLeValue(bs);
    }
  }

  /** Zero bytes at the high end do not change the value. */
  lemma {:induction false} LeValueZeroPad(bs: seq<bv8>)
    ensures LeValue(bs + [0, 0, 0, 0]) == LeValue(bs)
  {
    if bs == [] {
      var zeros: seq<bv8> := [0, 0, 0, 0];
      assert bs + zeros == zeros;
      assert zeros[1..][1..][1..][1..] == [];
      assert LeValue(zeros[1..][1..][1..]) == 0;
      assert LeValue(zeros[1..][1..]) == 0;
      assert LeValue(zeros[1..]) == 0;
    } else {
      var padded := bs + [0, 0, 0, 0];
      assert padded[0] == bs[0] && padded[1..] == bs[1..] + [0, 0, 0, 0];
      LeValueZeroPad(bs[1..]);
      assert LeValue(padded) == padded[0] as nat + TWO_8 * LeValue(padded[1..]);
    }
  }

  /** The eight bytes of a value below 2^32 are its four bytes and four zeros. */
  lemma Le64OfU32(v: U32)
    ensures Le64(v) == Le32(v) + [0, 0, 0, 0]
  {
    var bs := Le32(v) + [0, 0, 0, 0];
    Le32Value(v);
    LeValueZeroPad(Le32(v));
    LeBytesOfLeValue(bs);
  }

  /** An unsigned 32-bit value survives the trip through its signed reading. */
  lemma AsU32OfAsI32(v: U32)
    ensures AsU32(AsI32(v)) == v
  {
  }

  /** An unsigned 64-bit value survives the trip through its signed reading. */
  lemma AsU64OfAsI64(v: U64)
    ensures AsU64(AsI64(v)) == v
  {
  }

  /** Decoding the bytes of an `i32` as an `i32` recovers it. */
  lemma I32LeRoundTrip(v: I32)
    ensures AsI32(LeValue(Le32(AsU32(v)))) == v
  {
    Le32Value(AsU32(v));
    AsI32OfAsU32(v);
  }

  /** Decoding the bytes of an `i64` as an `i64` recovers it. */
  lemma I64LeRoundTrip(v: I64)
    ensures AsI64(LeValue(Le64(AsU64(v)))) == v
  {
    Le64Value(AsU64(v));
    AsI64OfAsU64(v);
  }

  // ---- decimal text (`u32::to_string`) ----

  function DigitChar(d: int): (c: char)
    requires 0 <= d < 10
    ensures '0' <= c <= '9' && c as int - '0' as int == d
  {
    ('0' as int + d) as char
  }

  /** The decimal digits of `n`, most significant first, without leading zeros. */
  function DecimalString(n: nat): (s: string)
    ensures 1 <= |s|
    ensures forall i :: 0 <= i < |s| ==> '0' <= s[i] <= '9'
    ensures |s| > 1 ==> s[0] != '0'
    decreases n
  {
    if n < 10 then [DigitChar(n)] else DecimalString(n / 10) + [DigitChar(n % 10)]
  }

  /** The number a string of decimal digits denotes. */
  function DecimalValue(s: string): (n: nat)
    requires forall i :: 0 <= i < |s| ==> '0' <= s[i] <= '9'
  {
    if s == [] then 0
    else 10 * DecimalValue(s[..|s| - 1]) + (s[|s| - 1] as int - '0' as int)
  }

  /** `to_string` is injective: its text denotes the number it was made from. */
  lemma {:induction false} DecimalRoundTrip(n: nat)
    ensures DecimalValue(DecimalString(n)) == n
    decreases n
  {
    if n >= 10 {
      DecimalRoundTrip(n / 10);
      var s := DecimalString(n);
      assert s[..|s| - 1] == DecimalString(n / 10);
    }
  }
}
