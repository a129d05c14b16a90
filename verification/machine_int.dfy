/**
 Fixed-width machine integers, together with the conversions the jump hash
 performs on them. Signed 32- and 64-bit values are ranges of mathematical
 integers; a 64-bit bit pattern is a `bv64`, whose arithmetic wraps modulo
 2^64. The conversions are 32-bit two's-complement wrap-around, the
 reinterpretation of a signed 64-bit value as its pattern, the logical shift by
 33 bits, and the two ways of turning a floating-point quotient back into a
 32-bit integer (Rust's saturating `as i32` and the x86-64 conversion a C
 compiler emits for `(int32_t)`).
 */
module MachineInt {

  const TWO_31: int := 0x8000_0000
  const TWO_32: int := 0x1_0000_0000
  const TWO_64: int := 0x1_0000_0000_0000_0000

  const I32_MIN: int := -TWO_31
  const I32_MAX: int := TWO_31 - 1

  type I32 = x: int | -0x8000_0000 <= x < 0x8000_0000
  type I64 = x: int | -0x8000_0000_0000_0000 <= x < 0x8000_0000_0000_0000

  /** `a` and `b` have the same 32-bit two's-complement bit pattern. */
  predicate Congruent32(a: int, b: int) {
    (a - b) % TWO_32 == 0
  }

  /** The signed 32-bit value whose bit pattern is the low 32 bits of `x`. */
  function Wrap32(x: int): (r: I32)
    ensures Congruent32(x, r)
    ensures I32_MIN <= x <= I32_MAX ==> r == x
  {
    (x + TWO_31) % TWO_32 - TWO_31
  }

  /** Rust `i32::wrapping_add`, and C `+` on `int32_t` read as wrap-around. */
  function WrappingAdd32(a: I32, b: I32): (r: I32)
    ensures Congruent32(a + b, r)
    ensures I32_MIN <= a + b <= I32_MAX ==> r == a + b
  {
    Wrap32(a + b)
  }

  /** The 64-bit two's-complement pattern of a signed value: Rust `as u64`
      and C `(uint64_t)` on an `int64_t`. Wrapping 64-bit arithmetic on
      signed values is `bv64` arithmetic on their patterns. */
  function ToBits(x: I64): (b: bv64) {
    if x < 0 then (x + TWO_64) as bv64 else x as bv64
  }

  /** The logical right shift `u >> 33` of an unsigned 64-bit value: its top
      31 bits, as a number. */
  function ShiftRight33(u: bv64): (h: int)
    ensures 0 <= h < TWO_31
  {
    ((u >> 33) as bv31) as int
  }

  /** Rust `as i32` from an integer type, and C `(int32_t)` from `uint64_t`
      on a two's-complement target: keep the low 32 bits. */
  function CastI32(v: int): (r: I32)
    ensures Congruent32(v, r)
    ensures I32_MIN <= v <= I32_MAX ==> r == v
  {
    Wrap32(v)
  }

  /** The value of a floating-point division after truncation toward zero,
      or one of the non-finite outcomes of dividing by zero. */
  datatype Quotient = Finite(value: int) | PosInf | NegInf | NaN

  function Abs(x: int): (m: nat) {
    if x < 0 then -x else x
  }

  /** Floor division of a natural number by a positive divisor brackets the
      dividend between consecutive multiples. */
  lemma DivBracket(n: nat, d: int)
    requires d > 0
    ensures 0 <= n / d
    ensures (n / d) * d <= n < (n / d + 1) * d
  {
  }

  /** Integer division that truncates toward zero, as a float-to-integer
      conversion does; Dafny's own `/` rounds toward negative infinity for a
      positive divisor and is Euclidean in general. */
  function TruncDiv(a: int, b: int): (q: int)
    requires b != 0
    ensures Abs(q) * Abs(b) <= Abs(a) < (Abs(q) + 1) * Abs(b)
    ensures (a >= 0) == (b > 0) ==> q >= 0
    ensures (a >= 0) != (b > 0) ==> q <= 0
  {
    var m := Abs(a) / Abs(b);
    DivBracket(Abs(a), Abs(b));
    var q := if (a < 0) == (b < 0) then m else -m;
    assert Abs(q) == m;
    q
  }

  /** `n / (x / scale)` computed on doubles, abstracted as exact rational
      arithmetic followed by truncation toward zero. A zero divisor gives an
      infinity of the numerator's sign, or NaN for `0 / 0`. */
  function DivideByScaled(n: int, x: int, scale: int): (q: Quotient)
    requires scale > 0
    ensures x != 0 <==> q.Finite?
    ensures x == 0 ==> (q.PosInf? <==> n > 0) && (q.NegInf? <==> n < 0) && (q.NaN? <==> n == 0)
    ensures x > 0 && n >= 0 ==> q.value * x <= n * scale < (q.value + 1) * x
    ensures x < 0 && n >= 0 ==> -q.value * -x <= n * scale < (-q.value + 1) * -x
  {
    if x == 0 then (if n > 0 then PosInf else if n < 0 then NegInf else NaN)
    else Finite(TruncDiv(n * scale, x))
  }

  /** Rust's `f as i32`: truncate toward zero, saturate at the bounds, and
      map NaN to zero. */
  function SaturatingToI32(q: Quotient): (r: I32)
  {
    match q
    case Finite(v) => if v > I32_MAX then I32_MAX else if v < I32_MIN then I32_MIN else v
    case PosInf => I32_MAX
    case NegInf => I32_MIN
    case NaN => 0
  }

  /** C's `(int32_t) d` as compiled for x86-64 (`cvttsd2si`): truncate toward
      zero when the result fits, otherwise the "integer indefinite" value
      0x80000000. The C standard leaves the out-of-range case undefined. */
  function X86ToI32(q: Quotient): (r: I32)
  {
    if q.Finite? && I32_MIN <= q.value <= I32_MAX then q.value else I32_MIN
  }

  /** Whatever a non-NaN quotient is, the two conversions agree on whether the
      result lies in `[0, buckets)` for any 32-bit bucket count, and agree on
      the value when it does: saturation lands on `i32::MAX`, which is never
      below `buckets`, and the x86 conversion lands on a negative value. */
  lemma ConversionsAgreeInRange(q: Quotient, buckets: I32)
    requires !q.NaN?
    ensures 0 <= SaturatingToI32(q) < buckets <==> 0 <= X86ToI32(q) < buckets
    ensures 0 <= SaturatingToI32(q) < buckets ==> SaturatingToI32(q) == X86ToI32(q)
  {
  }
}
