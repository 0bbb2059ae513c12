/** The SSE2 operations used by the scanner, as pure functions over their lanes and bits.
    A 128-bit register is a sequence of 16 byte lanes (lane 0 at the lowest address);
    a `u32` mask is the sequence of its 32 bits (index 0 is the least significant bit). */
module Simd {

  type Byte = bv8

  /** Width of one `__m128i` register in bytes (`VECTOR_BYTES`). */
  const VECTOR_BYTES: nat := 16

  /** `VECTOR_BYTES - 1`; `addr & VECTOR_ALIGN` is `addr % VECTOR_BYTES` because 16 is a power of two. */
  const VECTOR_ALIGN: nat := VECTOR_BYTES - 1

  /** A 128-bit register as its 16 byte lanes. */
  type Vector = v: seq<Byte> | |v| == 16 witness seq(16, _ => 0)

  /** A `u32` as its 32 bits, least significant first. */
  type Mask = m: seq<bool> | |m| == 32 witness seq(32, _ => false)

  /** The `u32` value 0. */
  function Zero(): Mask
  {
    seq(32, _ => false)
  }

  /** `_mm_set1_epi8(x)`: every lane holds `x`. */
  function Splat(x: Byte): Vector
  {
    seq(16, _ => x)
  }

  /** `_mm_or_si128(a, b)`: bitwise or, which acts lane by lane. */
  function Or(a: Vector, b: Vector): Vector
  {
    seq(16, i requires 0 <= i < 16 => a[i] | b[i])
  }

  /** `_mm_cmpeq_epi8(a, b)`: a lane is all ones where the lanes are equal, zero elsewhere. */
  function CmpEq(a: Vector, b: Vector): Vector
  {
    seq(16, i requires 0 <= i < 16 => if a[i] == b[i] then 0xFF else 0)
  }

  /** `_mm_movemask_epi8(v) as u32`: bit i is the top bit of lane i; bits 16 to 31 are clear. */
  function Movemask(v: Vector): Mask
  {
    seq(32, i requires 0 <= i < 32 => i < 16 && v[i] & 0x80 == 0x80)
  }

  /** The scalar form of the bit trick: a byte is a candidate when or-ing 5 into it gives `'`
      or or-ing 2 into it gives `>`. That is exactly the six bytes `"`, `#`, `&`, `'`, `<`, `>`. */
  predicate IsCandidate(b: Byte)
    ensures IsCandidate(b) <==> b in {0x22, 0x23, 0x26, 0x27, 0x3c, 0x3e}
  {
    (b | 5) == 0x27 || (b | 2) == 0x3e
  }

  /** The `maskgen` closure: bit i of the mask is set exactly when byte i of the window is a
      candidate, and no bit at or above 16 is ever set. */
  function MaskGen(x: Vector): (m: Mask)
    ensures forall i :: 0 <= i < 32 ==> (m[i] <==> i < 16 && IsCandidate(x[i]))
  {
    Movemask(Or(CmpEq(Or(x, Splat(5)), Splat(0x27)),
                CmpEq(Or(x, Splat(2)), Splat(0x3e))))
  }

  /** Index of the lowest set bit at or above `i`, or 32 when there is none. */
  function LowestSetFrom(m: Mask, i: nat): (r: nat)
    requires i <= 32
    ensures i <= r <= 32
    ensures r < 32 ==> m[r]
    ensures r == 32 ==> forall j :: i <= j < 32 ==> !m[j]
    ensures forall j :: i <= j < r ==> !m[j]
    decreases 32 - i
  {
    if i == 32 then 32
    else if m[i] then i
    else LowestSetFrom(m, i + 1)
  }

  /** `u32::trailing_zeros`: the offset of the lowest set bit, and 32 for the value 0. */
  function TrailingZeros(m: Mask): (r: nat)
    ensures r <= 32
    ensures r < 32 ==> m[r]
    ensures forall j :: 0 <= j < r ==> !m[j]
    ensures r == 32 <==> m == Zero()
  {
    assert LowestSetFrom(m, 0) == 32 ==> m == Zero() by {
      if LowestSetFrom(m, 0) == 32 {
        assert forall j :: 0 <= j < 32 ==> m[j] == Zero()[j];
      }
    }
    LowestSetFrom(m, 0)
  }

  /** `m ^ (1 << t)`: bit `t` flipped, the rest unchanged. */
  function XorBit(m: Mask, t: nat): Mask
    requires t < 32
  {
    m[t := !m[t]]
  }

  /** `m >> b`: bit j of the result is bit j + b of `m`; the top `b` bits are zero-filled. */
  function ShiftRight(m: Mask, b: nat): (r: Mask)
    requires b <= 32
    ensures forall j :: 0 <= j < 32 ==> (r[j] <==> j + b < 32 && m[j + b])
  {
    m[b..] + seq(b, _ => false)
  }

  /** Number of set bits of a bit string (`count_ones`). */
  function PopCount(s: seq<bool>): nat
  {
    if s == [] then 0 else PopCount(s[..|s| - 1]) + (if s[|s| - 1] then 1 else 0)
  }

  /** `count_ones` counts exactly the set positions, so it is zero only for the value 0. */
  lemma {:induction false} PopCountZero(s: seq<bool>)
    ensures PopCount(s) == 0 <==> forall j :: 0 <= j < |s| ==> !s[j]
  {
    if s != [] {
      var init := s[..|s| - 1];
      PopCountZero(init);
      assert forall j :: 0 <= j < |init| ==> init[j] == s[j];
    }
  }

  /** Clearing one set bit lowers the population count by exactly one. */
  lemma {:induction false} PopCountClear(s: seq<bool>, t: nat)
    requires t < |s| && s[t]
    ensures PopCount(s[t := false]) == PopCount(s) - 1
  {
    var n := |s| - 1;
    if t == n {
      assert s[t := false][..n] == s[..n];
    } else {
      assert s[t := false][..n] == s[..n][t := false];
      PopCountClear(s[..n], t);
    }
  }

  /** Flipping the lowest set bit, as each scanning step does with `mask ^= 1 << trailing_zeros`,
      clears exactly that bit: every other bit is kept, every lower bit stays clear, and the
      number of set bits drops by one, so a mask with k set bits is consumed in k steps. */
  lemma ClearLowest(m: Mask)
    requires m != Zero()
    ensures TrailingZeros(m) < 32
    ensures forall j :: 0 <= j < 32 ==>
      (XorBit(m, TrailingZeros(m))[j] <==> m[j] && j != TrailingZeros(m))
    ensures PopCount(XorBit(m, TrailingZeros(m))) == PopCount(m) - 1
  {
    PopCountClear(m, TrailingZeros(m));
  }
}
