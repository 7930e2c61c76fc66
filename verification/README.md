# Barrett backend — a Dafny model

This project models the Barrett modular-arithmetic backend of the library's
modulus layer, the `BarrettBackend` trait in
`src/core_crypto/modulus/barrett.rs`. The trait has two parts.

- **Constant precomputation.** `precompute_alpha_and_barrett_constant` takes a
  scalar modulus `m`. It finds its bit length `n` as the word width minus the
  leading zeros and derives `mu = (1 << (2n+3)) / m` in a `u128`. It then
  narrows `mu` to the scalar width and returns `(alpha, mu)` with
  `alpha = n + 3`.
- **Residue operations.** There are three, each built on the four accessors
  `modulus`, `modulus_bits`, `barrett_constant` and `barrett_alpha`:
  - `add_mod_fast` and `sub_mod_fast`, each with one conditional correction;
  - `mul_mod_fast`, which is generalized Barrett reduction with
    `alpha = n + 3` and `beta = -2`.

Values are naturals. A scalar lives below `2^W`, where `W` is 8, 16, 32 or 64.
The doubled type has `2W` bits. Release-build semantics are written out:
- `+`, `-` and `*` wrap modulo the width of their type;
- every `as` cast keeps the low bits;
- `>>` is floor division by a power of two;
- `1u128 << k` masks the shift amount to `k mod 128` (`Word.ShlOne`).

The last point matters for precomputation. While `m < 2^62`, the amount
`2n+3` is below 128 and `mu` is the exact `floor(2^(2n+3) / m)`. A 64-bit
modulus of `2^62` or more has `n = 63` or `64`. The shift is then masked to
`1u128 << 1` or `1u128 << 3`, and the stored constant is 0.

The model has two kinds of error path:
- a zero modulus makes the `u128` division panic, modelled as `DivisionByZero`;
- the checked constructor added in this model refuses a constant that does not
  fit the scalar width, modelled as `ConstantOverflow`.

Modules:
- `Word` (`word.dfy`): powers of two, bit length, `leading_zeros`, casts,
  shifts, wrapping arithmetic, and the division facts the proofs use.
- `Barrett` (`barrett.dfy`): the accessor record `Backend`; the predicates
  `Constructed` (what precomputation yields) and `Valid` (constructed, and the
  constant survived narrowing); precomputation, construction and the three
  operations.
- `BarrettProofs` (`barrett_proofs.dfy`): the Barrett error bound,
  correctness of the three operations, and the exact condition under which
  the narrowed constant is right.
- `BarrettExamples` (`barrett_examples.dfy`): concrete instances at `W = 64`.

The constant is exact when `floor(2^(2n+3) / m) < 2^W`, that is when
`2^(2n+3) < 2^W * m`. This holds exactly when `n + 5 <= W`, or when
`n + 4 == W` and `m` is not `2^(n-1)`. Every modulus below `2^(W-5)` fits. No
modulus of bit length `W - 3` or more fits. For 64-bit scalars, every modulus
of 59 bits or fewer fits, and so does every 60-bit modulus except `2^59`. No
modulus of 61 bits or more fits, including `2^61 - 1`.

## Model

| member | source | states |
|---|---|---|
| Barrett.ModulusBits | src/core_crypto/modulus/barrett.rs:14 | word width minus `leading_zeros` is the bit length of the modulus, and at most the width |
| Word.LeadingZerosComplement | src/core_crypto/modulus/barrett.rs:14 | for any w-bit word, `w - leading_zeros` equals its bit length |
| Word.BitLengthBounds | src/core_crypto/modulus/barrett.rs:14 | the bit length `n` of a positive modulus satisfies `2^(n-1) <= m < 2^n` |
| Word.ShlOne | src/core_crypto/modulus/barrett.rs:16 | `1 << k` in a release build is a word below `2^w`: `2^k` for `k < w`, and `2^(k-w)` once the amount passes the width |
| Barrett.WideConstantCases | src/core_crypto/modulus/barrett.rs:16 | the `u128` quotient is the exact `floor(2^(2n+3)/m)` for `m < 2^62`, and 0 for every larger scalar modulus |
| Barrett.PrecomputeAlphaAndBarrettConstant | src/core_crypto/modulus/barrett.rs:12-18 | fails exactly for `m = 0`, with a division by zero; otherwise alpha is `n + 3` and the constant is a scalar: the exact floor narrowed to `W` bits when `m < 2^62`, and 0 for a larger modulus |
| BarrettProofs.PrecomputedAlphaAndConstant | src/core_crypto/modulus/barrett.rs:14-17 | alpha is `n + 3`; the returned constant `mu` satisfies the floor equation `mu*m <= 2^(2n+3) < (mu+1)*m` exactly when `2^(2n+3) < 2^W * m`, i.e. when neither the shift mask nor the narrowing lost anything |
| Barrett.ExactConstantFitsIff | src/core_crypto/modulus/barrett.rs:16-17 | `floor(2^(2n+3)/m) < 2^W` exactly when `2^(2n+3) < 2^W * m` |
| BarrettProofs.ConstantFitsIff | src/core_crypto/modulus/barrett.rs:16-17 | the unnarrowed constant fits `W` bits iff `n + 5 <= W`, or `n + 4 == W` and `m != 2^(n-1)`; every `m < 2^(W-5)` fits |
| Barrett.FitImpliesUnmaskedShift | src/core_crypto/modulus/barrett.rs:16 | when the constant fits `W` bits, `n + 3 < W` and `m < 2^62`, so the shift by `2n+3` is not masked and the `u128` quotient is exact |
| Barrett.ValidConstantExact | src/core_crypto/modulus/barrett.rs:16-17 | a valid backend stores exactly `floor(2^(2n+3)/m)` |
| Barrett.Construct | src/core_crypto/modulus/barrett.rs:12-26 | a backend built from precomputation exists exactly for `m >= 1` and its accessors return `m`, `n`, the narrowed `u128` quotient and `n + 3` |
| Barrett.ConstructChecked | src/core_crypto/modulus/barrett.rs:16-17 | succeeds exactly when `m >= 1` and `2^(2n+3) < 2^W * m`, and then yields a backend whose constant is the exact floor |
| Barrett.AddModFast | src/core_crypto/modulus/barrett.rs:28-37 | the result is below `m`; it is `(a+b) % m` when the sum does not wrap, and the wrapped sum otherwise |
| BarrettProofs.AddModFastCorrect | src/core_crypto/modulus/barrett.rs:28-37 | on a valid backend the sum never wraps, so the result is `(a+b) % m` |
| Barrett.SubModFast | src/core_crypto/modulus/barrett.rs:39-48 | the result is the Euclidean `(a-b) mod m`, in `[0, m)` |
| BarrettProofs.AddSubInverse | src/core_crypto/modulus/barrett.rs:28-48 | subtracting `b` undoes adding `b`, and adding `b` undoes subtracting `b` |
| BarrettProofs.IdentityLaws | src/core_crypto/modulus/barrett.rs:28-85 | adding or subtracting 0 and multiplying by 1 return the operand; `m >= 2` gives the `n >= 2` that multiplication needs |
| BarrettProofs.BarrettQuotientEstimate | src/core_crypto/modulus/barrett.rs:54-57 | for `x < m^2` the estimate `q = ((x >> (n-2)) * mu) >> (n+5)` satisfies `q*m <= x < q*m + 2m`, so `q <= floor(x/m) <= q + 1` |
| BarrettProofs.QuotientWithinOne | src/core_crypto/modulus/barrett.rs:77-82 | an estimate with `q*m <= x < q*m + 2m` is at most one below `floor(x/m)`, and one conditional subtraction of `m` from `x - q*m` gives `x mod m` |
| Barrett.MulModFast | src/core_crypto/modulus/barrett.rs:61-85 | for any constructed backend with `n >= 2`, the result is a scalar |
| BarrettProofs.MulModFastNoWrap | src/core_crypto/modulus/barrett.rs:65-78 | on a valid backend with `n >= 2`, the products `ab` and `tmp * mu` of the code do not wrap in `2W` bits, and its `q` satisfies `q*m <= ab < q*m + 2m` with `ab - q*m < 2^W`: `ab - tmp` does not underflow and the cast back to `Scalar` loses nothing |
| BarrettProofs.MulModFastCorrect | src/core_crypto/modulus/barrett.rs:61-85 | on a valid backend with `n >= 2`, the result is `(a*b) % m` |
| BarrettProofs.MulModFastCommutes | src/core_crypto/modulus/barrett.rs:61-85 | on any constructed backend with `n >= 2`, whether or not its constant was truncated, multiplication is commutative |
| BarrettProofs.ConstructCheckedMulCorrect | src/core_crypto/modulus/barrett.rs:61-85 | every backend from the checked construction with `m >= 2` has `n >= 2` and multiplies correctly |
| BarrettExamples.SmallModulusScenario | src/core_crypto/modulus/barrett.rs:12-85 | at `W = 64` and `m = 17`: `n = 5`, `alpha = 8`, `mu = 481`; `10 + 12 = 5`, `10 - 12 = 15` and `10 * 12 = 1` |
| BarrettExamples.NarrowedConstantBreaksMul | src/core_crypto/modulus/barrett.rs:16-17 | at `W = 64`, `m = 2^61 - 1` has `n = 61`, `alpha = 64` and narrowed constant 8; `mul_mod_fast(2^32, 2^32)` returns 0, but `2^64 mod m` is 8 |
| BarrettExamples.OversizedModulusGetsZeroConstant | src/core_crypto/modulus/barrett.rs:14-17 | at `W = 64`, `m = 2^63` has `n = 64`, and precomputation returns `(67, 0)` because the shift by 131 is masked to a shift by 3; the checked construction refuses the modulus |
| BarrettExamples.CheckedConstructionRefuses61BitModulus | src/core_crypto/modulus/barrett.rs:16-17 | the checked construction rejects `2^61 - 1` at `W = 64` with `ConstantOverflow` |

## Left out

- Generic `Scalar`/`ScalarDoubled` parameters and the `AsPrimitive` conversions are not modelled generically. The width is a parameter restricted to 8, 16, 32 and 64 bits, with a doubled width of `2W`. A `u128` scalar would need a 256-bit doubled type and a lossy cast to `u128`, which is not modelled.
- The `UnsignedInteger` trait is not part of this model. Only the behaviour of `leading_zeros` and of the arithmetic operators is used.
- The debug/release distinction is modelled as follows:
  - overflowing `+`, `-` and `*` wrap, as in a release build;
  - an oversized `<<` amount is masked, as in a release build;
  - the `debug_assert!` operand bounds become preconditions;
  - debug-build overflow panics are not modelled. In a debug build, `1u128 << (2n+3)` panics for `m >= 2^62`, where the model returns the constant 0.
- Release builds also mask an oversized `>>` amount; the model's `>>` divides by the full power of two instead. This matters only for `m = 1`, where `modulus_bits() - 2` is a `usize` subtraction that underflows. `MulModFast` requires `n >= 2` and so excludes that case.
- Timing behaviour of the data-dependent correction branches and concurrent use are left out. Neither is a functional property.
- The concrete types that implement the trait and store the accessors are left out: their files are not part of this model. `Construct` stands for them: it stores what precomputation returns.
- Barrett.MulModFast: its own contract states only that the result is a scalar. With a truncated constant the result need not be the residue, as `NarrowedConstantBreaksMul` shows. Correctness is stated by `MulModFastCorrect` for valid backends.
- Barrett.AddModFast: correctness with no precondition beyond `a, b < m` is not claimed, because the sum wraps when `m > 2^(W-1)`. `AddModFastCorrect` proves that a valid backend (`8m < 2^W`) never wraps.

## Findings

| source | as written | input that shows it | evidently intended | confidence | as-written member | corrected member |
|---|---|---|---|---|---|---|
| src/core_crypto/modulus/barrett.rs:16-17 | `mu.as_()` narrows `floor(2^(2n+3)/m)` to the scalar width with no check, and the constructor accepts every nonzero modulus; from `m = 2^62` on, the masked shift even makes the constant 0 | `W = 64`, `m = 2^61 - 1`, `a = b = 2^32`: `mu = 2^64 + 8` narrows to 8, and `mul_mod_fast` returns 0 instead of 8 | the stored constant is the exact floor, and construction refuses moduli for which it does not fit (`2^(2n+3) >= 2^W * m`) | high; not executed | BarrettExamples.NarrowedConstantBreaksMul | Barrett.ConstructChecked |
