# guavahash in Dafny

A model of the jump consistent hash in guavahash, as popularised by Guava.
`guava_hash(state, buckets)` maps a signed 64-bit key and a signed 32-bit bucket
count to a bucket. Each loop iteration does four things. It advances a linear
congruential generator `state := K * state + 1` with 64-bit wrap-around. It
takes the top 31 bits of the new state plus one as a denominator `x`. It jumps
to `(candidate + 1) / (x / 2^31)`. It keeps the jump as the new candidate when
it lies in `[0, buckets)`, and otherwise returns the current candidate.

The repository has the function twice: in Rust (`src/lib.rs`) and in C
(`src/guava.c`).

- `machine_int.dfy` (module `MachineInt`): signed 32- and 64-bit integers as
  ranges of `int`, with the explicit conversions the hash uses. These are
  32-bit wrap-around, the 64-bit bit pattern of a signed value, the logical
  shift by 33, and truncating division. The two float-to-`i32` conversions
  are here too: Rust's saturating one and the x86-64 one.
- `guava_rust.dfy` (module `GuavaRust`): the Rust function. It is modelled
  both as a `while` loop (`GuavaHash`) and as a recursive reference
  (`JumpFrom`), with the trace of accepted candidates (`Accepted`).
- `guava_c.dfy` (module `GuavaC`): the C function as a `while (1)` loop
  (`Guava`), proved to return exactly what the Rust function returns.

The generator state is kept as its 64-bit pattern, a `bv64`. Two's-complement
wrapping multiplication and addition on `i64` produce the same low 64 bits as
unsigned arithmetic. So Rust's `K.wrapping_mul(state).wrapping_add(1)` and C's
`K * state + 1` (with overflow read as wrap-around) are both `K * state + 1` on
`bv64`, which is arithmetic modulo 2^64 by definition.

The floating-point step is abstracted as exact rational division followed by
truncation toward zero (`MachineInt.DivideByScaled`). The one property the
proofs need from it is that a positive denominator `x <= 2^31` gives a jump of
at least `candidate + 1`. That also holds for IEEE doubles. `x / 2^31` is
exact, `candidate + 1` is exactly representable, and rounding is monotone.

This code differs from the published form of the algorithm (Lamping and
Veach, "A Fast, Minimal Memory, Consistent Hash Algorithm", 2014) in one
place, and the model follows this code. The published form adds one to the
shifted value in 64-bit arithmetic, so its denominator ranges over
`[1, 2^31]`. Both sources here add one in 32-bit arithmetic (src/lib.rs:11,
src/guava.c:17), as Guava's Java does. A shifted value of `2^31 - 1` therefore
wraps the denominator to `-2^31`. The jump is then `-(candidate + 1)`, and the
loop returns the current candidate (`GuavaRust.WrappedDenominatorStops`). The
published form also starts from `b := -1, j := 0` with 64-bit candidates.
This code starts from `candidate = 0` with `i32`.

## Model

| member | source | states |
|---|---|---|
| `GuavaRust.GuavaHash` | src/lib.rs:6-20 | The loop returns the recursive reference's value; for `buckets >= 1` the result is in `[0, buckets)`, for `buckets <= 0` and for `buckets == 1` it is 0, for every 64-bit state; the loop terminates with `buckets - candidate` as the measure |
| `GuavaRust.JumpFrom` | src/lib.rs:9-19 | From a valid candidate the loop never returns less than that candidate, returns below `buckets` when `buckets >= 1`, and returns the candidate unchanged when `buckets <= 1` |
| `GuavaRust.HighBits` | src/lib.rs:11 | `(state as u64) >> 33` is in `[0, 2^31)`, and the `as i32` cast keeps it unchanged |
| `GuavaRust.Denominator` | src/lib.rs:11 | After `wrapping_add(1)` the denominator is in `[1, 2^31)` and equals the shifted value plus one, or is `-2^31` exactly when the shifted value is `2^31 - 1` |
| `GuavaRust.Jump` | src/lib.rs:12 | With a non-negative candidate and a positive denominator the jump is `floor((candidate + 1) * 2^31 / x)` saturated at `i32::MAX` (it is at most that quotient, and either `i32::MAX` or above the quotient minus one), and at least `candidate + 1`; with the wrapped denominator it is `-(candidate + 1)` |
| `GuavaRust.JumpProgress` | src/lib.rs:11-12 | Dividing `n * 2^31` by a denominator in `[1, 2^31]` and truncating gives at least `n` |
| `GuavaRust.Accepted` | src/lib.rs:9-19 | The accepted candidates strictly increase and all lie strictly between the starting candidate and `buckets`, so there are fewer than `buckets - candidate` accepted jumps and at most `buckets - candidate` iterations; none are accepted when `buckets <= 1` |
| `GuavaRust.ReturnsLastAccepted` | src/lib.rs:14-18 | The loop's result is the last accepted candidate, or the starting candidate when the first jump is rejected |
| `GuavaRust.ReturnsCandidateIffRejected` | src/lib.rs:14-18 | The loop returns its current candidate if and only if the next jump fails the guard |
| `GuavaRust.WrappedDenominatorStops` | src/lib.rs:11-17 | When the shifted bits are all ones the jump is negative and the loop returns the current candidate |
| `GuavaRust.NextState` | src/lib.rs:10 | Definition only, no contract: `K * state + 1` on the 64-bit pattern, which is `wrapping_mul` then `wrapping_add` |
| `GuavaC.NextState` | src/guava.c:16 | Definition only, no contract: `K * state + 1` on the 64-bit pattern, with signed overflow read as wrap-around |
| `GuavaRust.Accepts` | src/lib.rs:14 | Definition only, no contract: the guard `next >= 0 && next < buckets` |
| `MachineInt.ToBits` | src/lib.rs:11 | Definition only, no contract: `state as u64`, the two's-complement pattern of a signed 64-bit value (also `(uint64_t) state` at src/guava.c:17) |
| `MachineInt.CastI32` | src/lib.rs:11 | `as i32` from an integer keeps the low 32 bits: the result is congruent to the input modulo 2^32 and equals it when it fits (also `(int32_t)` at src/guava.c:17) |
| `MachineInt.WrappingAdd32` | src/lib.rs:11 | `wrapping_add` is congruent to the exact sum modulo 2^32 and equals it when it fits |
| `MachineInt.SaturatingToI32` | src/lib.rs:12 | Definition only, no contract: Rust's `f64 as i32`, truncated value clamped to `[i32::MIN, i32::MAX]`, infinities to the bounds, NaN to 0 |
| `MachineInt.X86ToI32` | src/guava.c:18 | Definition only, no contract: C's `(int32_t)` of a double as x86-64 executes it, the truncated value when it fits and `INT32_MIN` otherwise |
| `MachineInt.ShiftRight33` | src/guava.c:17 | The logical shift by 33 of a 64-bit pattern is in `[0, 2^31)`, so the `(int32_t)` cast of it is exact |
| `MachineInt.TruncDiv` | src/lib.rs:12 | Truncating division rounds the quotient's magnitude down, for each sign combination of the operands |
| `MachineInt.DivideByScaled` | src/lib.rs:11-12 | `n / (x / scale)` is finite exactly when `x != 0`, and then, for `n >= 0`, brackets `n * scale / x`; division by zero gives an infinity of the numerator's sign, or NaN for `0 / 0` |
| `MachineInt.ConversionsAgreeInRange` | src/guava.c:18-21 | For any non-NaN quotient, Rust's saturating cast and the x86 conversion agree on whether the guard `0 <= next < buckets` holds, and on the value when it does |
| `GuavaC.NextStateAgrees` | src/guava.c:16 | The C generator step `K * state + 1`, read with wrap-around, equals Rust's `wrapping_mul`/`wrapping_add` step for every state; with that reading both are the same `bv64` expression, so this holds by construction |
| `GuavaC.Denominator` | src/guava.c:17 | The C denominator is in `[1, 2^31)` and equals the shifted value plus one, or is `-2^31` |
| `GuavaC.DenominatorAgrees` | src/guava.c:17 | The C denominator equals the Rust one for every state; both unfold to the same 32-bit wrapping addition, so this holds by construction |
| `GuavaC.Jump` | src/guava.c:18 | With a non-negative candidate, a non-negative C jump implies a positive denominator and a jump of at least `candidate + 1`; with a positive denominator a non-negative jump is `floor((candidate + 1) * 2^31 / x)`, and it is non-negative whenever that quotient fits in `int32_t` |
| `GuavaC.JumpAgreesOnGuard` | src/guava.c:18-21 | With a non-negative candidate the C jump passes the guard exactly when the Rust jump does, and they are then equal |
| `GuavaC.Guava` | src/guava.c:11-26 | The C loop returns the Rust function's value for every input; so for `buckets >= 1` it is in `[0, buckets)`, and for `buckets <= 0` and `buckets == 1` it is 0 |

## Left out

- The Python bindings are not modelled because they are glue with no logic. This covers `py_guava`, the module state, `error_out` and the init functions (src/guava.c:29-121), and the pyo3 wrapper and module registration (src/lib.rs:22-31).
- `setup.py` is not modelled because it only builds and packages the extension.
- `MachineInt.DivideByScaled`: the double division is modelled as exact rational division, not with bit-exact IEEE-754 rounding. Results that depend on rounding are therefore not claimed. This includes the literal fixture table the tests load from `testdata.json`.
- `GuavaC.Jump`: an out-of-range `double` to `int32_t` conversion is undefined in ISO C. The model uses the x86-64 convention, which gives `INT32_MIN`. The equivalence with Rust holds for any convention that never yields a value in `[0, buckets)`.
- `GuavaC.NextStateAgrees`: signed overflow in `K * state + 1` and in `(int32_t)(...) + 1` is undefined in ISO C. The model reads both as two's-complement wrap-around.
- `GuavaRust.NextState`: no lemma relates the new state to the integer `K * state + 1` modulo 2^64. That holds by the definition of `bv64` arithmetic, and the solver cannot relate `bv64` products to integer products.
- `GuavaRust.Jump`: the precondition `candidate < i32::MAX` models the debug-build overflow check on `candidate + 1`. `GuavaHash` proves that the check never fires.
- The statistical minimal-remapping and uniformity behaviour is not modelled because it is probabilistic, not a per-call property.
- The tests' `isinstance(result, int)` checks are not modelled because they concern the host language's types.
- Determinism needs no lemma: every member is a pure function of its arguments.
