/** Integer helpers of the support library: absolute value and sign with the
    machine's two's-complement wrap-around, min/max, the power-of-two bit
    tricks used for buffer sizing, and the pointer swap. */
module IrMaths {

  const S32_MIN: int := -0x8000_0000
  const S32_MAX: int := 0x7FFF_FFFF
  const S64_MIN: int := -0x8000_0000_0000_0000
  const S64_MAX: int := 0x7FFF_FFFF_FFFF_FFFF
  const U64_MAX: int := 0xFFFF_FFFF_FFFF_FFFF

  type Int32 = x: int | S32_MIN <= x <= S32_MAX
  type Int64 = x: int | S64_MIN <= x <= S64_MAX
  type Uint64 = x: int | 0 <= x <= U64_MAX

  /** Two's-complement reinterpretation of the low 32 bits of `x`. */
  function Wrap32(x: int): (r: Int32)
    ensures (r - x) % 0x1_0000_0000 == 0
    ensures S32_MIN <= x <= S32_MAX ==> r == x
  {
    var m := x % 0x1_0000_0000;
    if m <= S32_MAX then m else m - 0x1_0000_0000
  }

  /** Two's-complement reinterpretation of the low 64 bits of `x`. */
  function Wrap64(x: int): (r: Int64)
    ensures (r - x) % 0x1_0000_0000_0000_0000 == 0
    ensures S64_MIN <= x <= S64_MAX ==> r == x
  {
    var m := x % 0x1_0000_0000_0000_0000;
    if m <= S64_MAX then m else m - 0x1_0000_0000_0000_0000
  }

  /** `s32_abs`: multiplies by -1 when the value is not positive. The product
      overflows for the minimum, which wraps back to itself. */
  function S32Abs(v: Int32): (r: Int32)
    ensures v != S32_MIN ==> r >= 0 && (r == v || r == -v)
    ensures v == S32_MIN ==> r == S32_MIN
  {
    Wrap32(v * (if v <= 0 then -1 else 1))
  }

  /** `s64_abs`, the 64-bit counterpart of `S32Abs`. */
  function S64Abs(v: Int64): (r: Int64)
    ensures v != S64_MIN ==> r >= 0 && (r == v || r == -v)
    ensures v == S64_MIN ==> r == S64_MIN
  {
    Wrap64(v * (if v <= 0 then -1 else 1))
  }

  /** `s32_sign`: zero counts as positive. */
  function S32Sign(v: Int32): (r: Int32)
    ensures r == 1 || r == -1
    ensures r * v >= 0
    ensures v == 0 ==> r == 1
  {
    if v >= 0 then 1 else -1
  }

  /** `u64_max` */
  function U64Max(a: Uint64, b: Uint64): (r: Uint64)
    ensures r == a || r == b
    ensures r >= a && r >= b
  {
    if a > b then a else b
  }

  /** `u64_min` */
  function U64Min(a: Uint64, b: Uint64): (r: Uint64)
    ensures r == a || r == b
    ensures r <= a && r <= b
  {
    if a < b then a else b
  }

  /** `s64_max` */
  function S64Max(a: Int64, b: Int64): (r: Int64)
    ensures r == a || r == b
    ensures r >= a && r >= b
  {
    if a > b then a else b
  }

  /** `s64_min` */
  function S64Min(a: Int64, b: Int64): (r: Int64)
    ensures r == a || r == b
    ensures r <= a && r <= b
  {
    if a < b then a else b
  }

  predicate IsPow2(x: bv64) {
    x != 0 && x & (x - 1) == 0
  }

  /** Or-s every bit into all lower positions: the shift cascade shared by
      both power-of-two helpers. */
  function Smear(v: bv64): bv64 {
    var a := v | (v >> 1);
    var b := a | (a >> 2);
    var c := b | (b >> 4);
    var d := c | (c >> 8);
    var e := d | (d >> 16);
    e | (e >> 32)
  }

  /** `u64_get_nearest_higher_or_equal_pow2`: decrement, smear, increment.
      Its properties are separate lemmas: stated together they overwhelm the
      bit-vector solver. */
  function NearestHigherOrEqualPow2(v: bv64): bv64
  {
    Smear(v - 1) + 1
  }

  /** `u64_get_nearest_lower_or_equal_pow2`: smear, then keep the top bit. */
  function NearestLowerOrEqualPow2(v: bv64): bv64
  {
    TopBit(Smear(v))
  }

  /** The highest set bit of a low mask. */
  function TopBit(s: bv64): bv64
  {
    s & !(s >> 1)
  }

  /** For 1 <= v <= 2^63 the higher result is a power of two not below `v`. */
  lemma HigherIsCoveringPow2(v: bv64)
    requires 1 <= v <= 0x8000_0000_0000_0000
    ensures IsPow2(NearestHigherOrEqualPow2(v))
    ensures v <= NearestHigherOrEqualPow2(v)
  {
    SmearIsLowMask(v - 1);
    SmearKeepsTopBit(v - 1);
    LowMaskSuccessorIsPow2(Smear(v - 1));
    SmearCovers(v - 1);
  }

  /** ... and the least one: for x + 1 in 2..2^63 its half is the greatest
      power of two not above x. */
  lemma HigherHalvesToLower(x: bv64)
    requires 0 < x < 0x8000_0000_0000_0000
    ensures NearestHigherOrEqualPow2(x + 1) >> 1 == NearestLowerOrEqualPow2(x)
  {
    assert (x + 1) - 1 == x;
    assert NearestHigherOrEqualPow2(x + 1) == Smear(x) + 1;
    SmearSuccessorHalf(x);
    assert TopBit(Smear(x)) == Smear(x) & !(Smear(x) >> 1);
  }

  lemma SmearSuccessorHalf(x: bv64)
    requires 0 < x < 0x8000_0000_0000_0000
    ensures (Smear(x) + 1) >> 1 == Smear(x) & !(Smear(x) >> 1)
  {
    SmearIsLowMask(x);
    SmearKeepsTopBit(x);
    SmearNonZero(x);
    MaskTop(Smear(x));
  }

  /** Both ends wrap: 0 and anything above 2^63 give 0. */
  lemma HigherWrapsToZero(v: bv64)
    requires v == 0 || v > 0x8000_0000_0000_0000
    ensures NearestHigherOrEqualPow2(v) == 0
  {
    SmearOfHigh(v - 1);
  }

  lemma LowerIsPow2(v: bv64)
    requires v != 0
    ensures IsPow2(NearestLowerOrEqualPow2(v))
  {
    SmearIsLowMask(v);
    SmearNonZero(v);
    MaskTopIsPow2(Smear(v));
  }

  /** The top bit of a nonzero low mask is a power of two. */
  lemma MaskTopIsPow2(s: bv64)
    requires s & (s + 1) == 0 && s != 0
    ensures IsPow2(TopBit(s))
  {
  }

  lemma LowerIsAtMost(v: bv64)
    ensures NearestLowerOrEqualPow2(v) <= v
  {
  }

  lemma LowerIsTopBit(v: bv64)
    ensures v >> 1 < NearestLowerOrEqualPow2(v) || v == 0
  {
  }

  lemma LowerOfZero()
    ensures NearestLowerOrEqualPow2(0) == 0
  {
  }

  lemma MaskTop(s: bv64)
    requires s & (s + 1) == 0 && s != 0 && s < 0x8000_0000_0000_0000
    ensures (s + 1) >> 1 == s & !(s >> 1)
  {
  }

  lemma SmearNonZero(x: bv64)
    ensures x != 0 ==> Smear(x) != 0
  {
  }

  // Each fact about `Smear` is its own lemma for the same reason.

  lemma SmearCovers(x: bv64)
    ensures Smear(x) >= x
  {
  }

  lemma SmearIsLowMask(x: bv64)
    ensures Smear(x) & (Smear(x) + 1) == 0
  {
  }

  lemma SmearKeepsTopBit(x: bv64)
    ensures x < 0x8000_0000_0000_0000 ==> Smear(x) < 0x8000_0000_0000_0000
  {
  }

  lemma SmearOfHigh(x: bv64)
    ensures x >= 0x8000_0000_0000_0000 ==> Smear(x) == 0xFFFF_FFFF_FFFF_FFFF
  {
  }

  lemma LowMaskSuccessorIsPow2(s: bv64)
    requires s & (s + 1) == 0 && s < 0x8000_0000_0000_0000
    ensures IsPow2(s + 1)
  {
  }

  /** `TYPE_swap` over a memory of cells: the two pointed-to cells exchange
      their values, which also covers the aliased case `i == j`. */
  function Swap<T>(mem: seq<T>, i: nat, j: nat): (m: seq<T>)
    requires i < |mem| && j < |mem|
    ensures |m| == |mem|
    ensures m[i] == mem[j] && m[j] == mem[i]
    ensures forall k :: 0 <= k < |mem| && k != i && k != j ==> m[k] == mem[k]
  {
    var t := mem[i];
    mem[i := mem[j]][j := t]
  }
}
