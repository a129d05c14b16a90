/**
 The C `guava`: the same jump consistent hash written with plain C operators.
 Two of its steps are undefined behaviour in ISO C: signed overflow in
 `K * state + 1` and in `(int32_t)(...) + 1`, and converting an out-of-range
 double to `int32_t`. Here overflow is read as two's-complement wrap-around and
 the conversion as the x86-64 instruction a compiler emits for it, which yields
 `INT32_MIN` when the value does not fit. Under that reading the function
 returns exactly what the Rust `guava_hash` returns, for every input.
 */
module GuavaC {
  import opened MachineInt
  import GuavaRust

  /** Multiplier of the linear congruential generator, as a bit pattern. */
  const K: bv64 := 2862933555777941757

  /** The divisor `0x1.0p31`. */
  const D: int := TWO_31

  /** `state = K * state + 1` on `int64_t`, signed overflow read as
      two's-complement wrap-around: `bv64` arithmetic on the pattern. */
  function NextState(state: bv64): (s: bv64) {
    K * state + 1
  }

  /** `(int32_t)((uint64_t) state >> 33) + 1`: the integer `x` with
      `next_double == x / D`. The addition is done in `int` and wraps at
      the largest shifted value. */
  function Denominator(state: bv64): (x: I32)
    ensures 1 <= x <= I32_MAX || x == I32_MIN
    ensures x != I32_MIN ==> x == ShiftRight33(state) + 1
  {
    Wrap32(CastI32(ShiftRight33(state)) + 1)
  }

  /** `(int32_t)((candidate + 1) / next_double)` with the x86-64 conversion. */
  function Jump(candidate: I32, x: I32): (next: I32)
    requires candidate < I32_MAX
    ensures 0 <= candidate && 1 <= x && candidate + 1 <= next ==> next * x <= (candidate + 1) * D
    ensures 0 <= candidate && 1 <= x && 0 <= next ==> (candidate + 1) * D < (next + 1) * x
    ensures 0 <= candidate && 1 <= x && (candidate + 1) * D < (I32_MAX + 1) * x ==> 0 <= next
    ensures 0 <= candidate && 0 <= next ==> 1 <= x && candidate + 1 <= next
  {
    var q := DivideByScaled(candidate + 1, x, D);
    assert 0 <= candidate && 1 <= x ==> candidate + 1 <= q.value by {
      if 0 <= candidate && 1 <= x {
        GuavaRust.JumpProgress(candidate + 1, x, q.value);
      }
    }
    X86ToI32(q)
  }

  /** The C generator step is the Rust one. Once signed overflow is read as
      wrap-around both are the same `bv64` expression, so this holds by
      construction. */
  lemma NextStateAgrees(state: bv64)
    ensures NextState(state) == GuavaRust.NextState(state)
  {
  }

  /** The C denominator is the Rust one; both unfold to the same 32-bit
      wrapping addition, so this holds by construction. */
  lemma DenominatorAgrees(state: bv64)
    ensures Denominator(state) == GuavaRust.Denominator(state)
  {
  }

  /** With a non-negative candidate, the C jump and the Rust jump pass the
      guard for the same bucket counts, and are equal when they pass. They
      differ only outside the guard: where Rust saturates to `i32::MAX`, the
      x86 conversion gives `INT32_MIN`. */
  lemma JumpAgreesOnGuard(candidate: I32, x: I32, buckets: I32)
    requires 0 <= candidate < I32_MAX
    ensures GuavaRust.Accepts(Jump(candidate, x), buckets)
            <==> GuavaRust.Accepts(GuavaRust.Jump(candidate, x), buckets)
    ensures GuavaRust.Accepts(Jump(candidate, x), buckets)
            ==> Jump(candidate, x) == GuavaRust.Jump(candidate, x)
  {
    ConversionsAgreeInRange(DivideByScaled(candidate + 1, x, D), buckets);
  }

  /** `guava` itself: the `while (1)` loop returns what the Rust function
      returns, so it inherits the range guarantees. */
  method Guava(state: I64, buckets: I32) returns (r: I32)
    ensures r == GuavaRust.JumpFrom(ToBits(state), 0, buckets)
    ensures buckets >= 1 ==> 0 <= r < buckets
    ensures buckets <= 0 ==> r == 0
    ensures buckets == 1 ==> r == 0
  {
    var s := ToBits(state);
    var candidate: I32 := 0;
    while true
      invariant GuavaRust.ValidCandidate(candidate, buckets)
      invariant GuavaRust.JumpFrom(s, candidate, buckets) == GuavaRust.JumpFrom(ToBits(state), 0, buckets)
      decreases buckets - candidate
    {
      NextStateAgrees(s);
      s := NextState(s);
      DenominatorAgrees(s);
      var x := Denominator(s);
      JumpAgreesOnGuard(candidate, x, buckets);
      var next := Jump(candidate, x);
      if 0 <= next && next < buckets {
        candidate := next;
      } else {
        return candidate;
      }
    }
  }
}
