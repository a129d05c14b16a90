/**
 The Rust `guava_hash`: the jump consistent hash over a signed 64-bit state and
 a signed 32-bit bucket count, with Rust's defined wrapping arithmetic and
 saturating float-to-integer cast. This is the reference semantics; the C
 version is shown equal to it in module GuavaC.

 One loop iteration advances a 64-bit linear congruential generator, takes the
 top 31 bits of the new state plus one as a denominator `x`, and jumps to
 `(candidate + 1) / (x / 2^31)`. A jump that lands in `[0, buckets)` becomes
 the new candidate; any other jump ends the loop with the current candidate.
 */
module GuavaRust {
  import opened MachineInt

  /** Multiplier of the linear congruential generator; as an `i64` it is
      positive, so its bit pattern has the same value. */
  const K: bv64 := 2862933555777941757

  /** The divisor `0x1.0p31`, exactly representable as a double. */
  const D: int := TWO_31

  /** `state = K.wrapping_mul(state).wrapping_add(1)` on the state's bit
      pattern: two's-complement wrapping multiplication and addition are
      `bv64` multiplication and addition, both modulo 2^64. */
  function NextState(state: bv64): (s: bv64) {
    K * state + 1
  }

  /** `(state as u64) >> 33`: the top 31 bits of the state's bit pattern. */
  function HighBits(state: bv64): (h: int)
    ensures 0 <= h < TWO_31
    ensures CastI32(h) == h
  {
    ShiftRight33(state)
  }

  /** `((state as u64) >> 33) as i32).wrapping_add(1)`: the integer `x` with
      `next_double == x / D`. It is the shifted value plus one, except that
      the largest shifted value wraps to `i32::MIN`. */
  function Denominator(state: bv64): (x: I32)
    ensures 1 <= x <= I32_MAX || x == I32_MIN
    ensures x == I32_MIN <==> HighBits(state) == I32_MAX
    ensures x != I32_MIN ==> x == HighBits(state) + 1
  {
    WrappingAdd32(CastI32(HighBits(state)), 1)
  }

  /** `((candidate + 1) as f64 / next_double) as i32`. The `candidate + 1`
      is overflow-checked in a debug build, hence the precondition. A
      positive denominator gives `floor((candidate + 1) * D / x)`, saturated
      at `i32::MAX`, which never moves the candidate backwards; the wrapped
      denominator makes the jump negative. */
  function Jump(candidate: I32, x: I32): (next: I32)
    requires candidate < I32_MAX
    ensures 0 <= candidate && 1 <= x ==> candidate + 1 <= next
    ensures 0 <= candidate && 1 <= x ==> next * x <= (candidate + 1) * D
    ensures 0 <= candidate && 1 <= x ==> next == I32_MAX || (candidate + 1) * D < (next + 1) * x
    ensures x == I32_MIN ==> next == -(candidate + 1)
  {
    var q := DivideByScaled(candidate + 1, x, D);
    assert 0 <= candidate && 1 <= x ==> candidate + 1 <= q.value by {
      if 0 <= candidate && 1 <= x {
        JumpProgress(candidate + 1, x, q.value);
      }
    }
    SaturatingToI32(q)
  }

  /** The arithmetic behind progress: dividing `n * 2^31` by a denominator
      no larger than `2^31` gives at least `n`. */
  lemma JumpProgress(n: int, x: int, q: int)
    requires 1 <= n && 1 <= x <= D
    requires q * x <= n * D < (q + 1) * x
    ensures n <= q
  {
  }

  /** The guard `next >= 0 && next < buckets`. */
  predicate Accepts(next: int, buckets: I32) {
    0 <= next < buckets
  }

  /** The loop-entry condition: a non-negative candidate below the bucket
      count, or the initial candidate 0 when there are no buckets. */
  predicate ValidCandidate(candidate: I32, buckets: I32) {
    0 <= candidate && (candidate < buckets || candidate == 0)
  }

  /** The rest of the loop from `state` with `candidate` as the current
      best bucket: the value `guava_hash` returns from that point on. */
  function JumpFrom(state: bv64, candidate: I32, buckets: I32): (r: I32)
    requires ValidCandidate(candidate, buckets)
    ensures candidate <= r
    ensures buckets >= 1 ==> r < buckets
    ensures buckets <= 1 ==> r == candidate
    decreases buckets - candidate
  {
    var s := NextState(state);
    var next := Jump(candidate, Denominator(s));
    if Accepts(next, buckets) then JumpFrom(s, next, buckets) else candidate
  }

  /** `guava_hash` itself, as a loop. */
  method GuavaHash(state: I64, buckets: I32) returns (r: I32)
    ensures r == JumpFrom(ToBits(state), 0, buckets)
    ensures buckets >= 1 ==> 0 <= r < buckets
    ensures buckets <= 0 ==> r == 0
    ensures buckets == 1 ==> r == 0
  {
    var s := ToBits(state);
    var candidate: I32 := 0;
    while true
      invariant ValidCandidate(candidate, buckets)
      invariant JumpFrom(s, candidate, buckets) == JumpFrom(ToBits(state), 0, buckets)
      decreases buckets - candidate
    {
      s := NextState(s);
      var next := Jump(candidate, Denominator(s));
      if Accepts(next, buckets) {
        candidate := next;
      } else {
        return candidate;
      }
    }
  }

  /** The candidates the loop accepts after `candidate`, in order. */
  function Accepted(state: bv64, candidate: I32, buckets: I32): (t: seq<I32>)
    requires ValidCandidate(candidate, buckets)
    ensures forall i :: 0 <= i < |t| ==> candidate < t[i] < buckets
    ensures forall i, j :: 0 <= i < j < |t| ==> t[i] < t[j]
    ensures buckets >= 1 ==> |t| < buckets - candidate
    ensures buckets <= 1 ==> t == []
    decreases buckets - candidate
  {
    var s := NextState(state);
    var next := Jump(candidate, Denominator(s));
    if Accepts(next, buckets) then [next] + Accepted(s, next, buckets) else []
  }

  /** The loop returns the last accepted candidate, or the starting one when
      nothing is accepted. */
  lemma {:induction false} ReturnsLastAccepted(state: bv64, candidate: I32, buckets: I32)
    requires ValidCandidate(candidate, buckets)
    ensures var t := Accepted(state, candidate, buckets);
            JumpFrom(state, candidate, buckets) == if t == [] then candidate else t[|t| - 1]
    decreases buckets - candidate
  {
    var s := NextState(state);
    var next := Jump(candidate, Denominator(s));
    if Accepts(next, buckets) {
      ReturnsLastAccepted(s, next, buckets);
    }
  }

  /** The loop returns the current candidate exactly when the very next
      jump is rejected by the guard. */
  lemma ReturnsCandidateIffRejected(state: bv64, candidate: I32, buckets: I32)
    requires ValidCandidate(candidate, buckets)
    ensures var next := Jump(candidate, Denominator(NextState(state)));
            JumpFrom(state, candidate, buckets) == candidate <==> !Accepts(next, buckets)
  {
  }

  /** When the shifted bits are all ones the denominator wraps, the jump is
      negative, and the loop stops with the current candidate. */
  lemma WrappedDenominatorStops(state: bv64, candidate: I32, buckets: I32)
    requires ValidCandidate(candidate, buckets)
    requires HighBits(NextState(state)) == I32_MAX
    ensures Jump(candidate, Denominator(NextState(state))) < 0
    ensures JumpFrom(state, candidate, buckets) == candidate
  {
  }
}
