/** Machine integers, little-endian fields and other basics shared by the modules. */
module Bytes {
  const TWO_32 := 0x1_0000_0000
  const TWO_31 := 0x8000_0000

  datatype Option<T> = None | Some(value: T)

  type byte = x: int | 0 <= x < 256
  type u16 = x: int | 0 <= x < 0x1_0000
  type u32 = x: int | 0 <= x < 0x1_0000_0000

  function Min(a: int, b: int): int {
    if a < b then a else b
  }

  /** The value a C++ `uint32_t` holds after an assignment from `x`. */
  function U32(x: int): u32 {
    x % TWO_32
  }

  /** The value of `static_cast<int32_t>(x)` for a 32-bit unsigned `x`. */
  function I32(x: u32): int {
    if x < TWO_31 then x else x - TWO_32
  }

  /** The code's deadline test `static_cast<int32_t>(now - deadline) < 0`. */
  predicate Before(now: u32, deadline: u32) {
    I32(U32(now - deadline)) < 0
  }

  function Le16(v: u16): (s: seq<byte>)
    ensures |s| == 2
  {
    [v % 256, v / 256]
  }

  function Le32(v: u32): (s: seq<byte>)
    ensures |s| == 4
  {
    [v % 256, v / 256 % 256, v / 256 / 256 % 256, v / 256 / 256 / 256]
  }

  function FromLe16(s: seq<byte>): (v: u16)
    requires |s| == 2
  {
    s[0] as int + 256 * s[1] as int
  }

  function FromLe32(s: seq<byte>): (v: u32)
    requires |s| == 4
  {
    s[0] as int + 256 * s[1] as int + 65536 * s[2] as int + 16777216 * s[3] as int
  }

  /** The n low bits of `v`, least significant first. */
  function Bits(v: nat, n: nat): (bits: seq<bool>)
    ensures |bits| == n
  {
    if n == 0 then [] else [v % 2 == 1] + Bits(v / 2, n - 1)
  }

  /** The number whose bit i is `bits[i]`. */
  function Value(bits: seq<bool>): nat {
    if bits == [] then 0 else (if bits[0] then 1 else 0) + 2 * Value(bits[1..])
  }

  function Pow2(n: nat): (p: nat)
    ensures p > 0
  {
    if n == 0 then 1 else 2 * Pow2(n - 1)
  }

  lemma Pow2At32()
    ensures Pow2(8) == 256 && Pow2(16) == 0x10000 && Pow2(32) == TWO_32
  {
    assert Pow2(8) == 256;
    assert Pow2(16) == 0x10000;
    assert Pow2(24) == 0x1000000;
    assert Pow2(32) == 0x100000000;
  }

  lemma {:induction false} ValueBits(v: nat, n: nat)
    requires v < Pow2(n)
    ensures Value(Bits(v, n)) == v
  {
    if n > 0 {
      ValueBits(v / 2, n - 1);
    }
  }

  lemma {:induction false} BitsValue(bits: seq<bool>)
    ensures Value(bits) < Pow2(|bits|)
    ensures Bits(Value(bits), |bits|) == bits
  {
    if bits != [] {
      BitsValue(bits[1..]);
      assert Value(bits) / 2 == Value(bits[1..]);
      assert bits == [bits[0]] + bits[1..];
    }
  }

  lemma Le16RoundTrip(v: u16)
    ensures FromLe16(Le16(v)) == v
  {
  }

  lemma Le32RoundTrip(v: u32)
    ensures FromLe32(Le32(v)) == v
  {
    var a := v / 256;
    var b := a / 256;
    assert v == v % 256 + 256 * a && a == a % 256 + 256 * b && b == b % 256 + 256 * (b / 256);
  }

  /** Shifting by 16 and 24 bits is shifting by 8 bits twice and three times. */
  lemma ShiftsCompose(v: u32)
    ensures v / 65536 == v / 256 / 256 && v / 16777216 == v / 256 / 256 / 256
  {
  }

  /** The wrapped signed deadline test agrees with unbounded time as long as the
      two instants are less than 2^31 ms apart, wherever the 32-bit clock wraps. */
  lemma BeforeIsRealTime(now: nat, deadline: nat)
    requires -TWO_31 <= now - deadline < TWO_31
    ensures Before(U32(now), U32(deadline)) <==> now < deadline
  {
  }
}
