/** The Barrett backend of the modulus layer: the constants precomputed once
    per modulus, and the three residue operations built on the four accessors
    `modulus`, `modulus_bits`, `barrett_constant` and `barrett_alpha`.

    Scalar values are naturals below 2^W, where W is the width of the scalar
    type; the companion doubled type has 2W bits and the constant is derived in
    a u128. Overflowing `+`, `-` and `*` wrap and an oversized `<<` amount is
    masked, as they are in a release build; every `as` cast truncates. */
module Barrett {
  import opened Word

  datatype Result<T, E> = Ok(value: T) | Err(error: E)

  datatype PrecomputeError =
    | DivisionByZero    // a zero modulus: the u128 division panics
    | ConstantOverflow  // the checked constructor only: mu does not fit the scalar width

  /** Width of the integer the Barrett constant is derived in. */
  const WideBits: nat := 128

  /** A backend instance: the scalar width it is instantiated at and the
      values its four accessors return. */
  datatype Backend = Backend(
    scalarBits: nat,
    modulus: nat,
    modulusBits: nat,
    barrettConstant: nat,
    barrettAlpha: nat)

  /** The scalar width is a Rust unsigned type and the modulus is a scalar. */
  predicate ScalarModulus(bk: Backend) {
    ScalarWidth(bk.scalarBits) && bk.modulus < Pow2(bk.scalarBits)
  }

  /** floor(2^(2n+3) / m) before any narrowing, n the bit length of m. */
  function ExactBarrettConstant(m: nat): nat
    requires m >= 1
  {
    Pow2(2 * BitLength(m) + 3) / m
  }

  /** What the u128 division yields: `(1u128 << (2n+3)) / m`, whose shift
      amount is masked to 2n+3 mod 128. */
  function WideBarrettConstant(m: nat): nat
    requires m >= 1
  {
    Quotient(ShlOne(2 * BitLength(m) + 3, WideBits), m)
  }

  /** What the accessors of a backend built by precomputation return: the
      modulus, its bit length, alpha = n + 3 and the u128 quotient narrowed to
      the scalar width. */
  predicate Constructed(bk: Backend) {
    && ScalarModulus(bk)
    && 1 <= bk.modulus
    && bk.modulusBits == BitLength(bk.modulus)
    && bk.barrettAlpha == bk.modulusBits + 3
    && bk.barrettConstant == Narrow(WideBarrettConstant(bk.modulus), bk.scalarBits)
  }

  /** A constructed backend whose constant survived the narrowing intact. */
  predicate Valid(bk: Backend) {
    Constructed(bk) && ExactBarrettConstant(bk.modulus) < Pow2(bk.scalarBits)
  }

  // ---------------------------------------------------------------------------
  // Constant precomputation

  /** `size_of::<Scalar>() * 8 - modulus.leading_zeros()`. */
  function ModulusBits(w: nat, m: nat): (n: nat)
    requires ScalarWidth(w) && m < Pow2(w)
    ensures n <= w
    ensures n == BitLength(m)
  {
    LeadingZerosComplement(w, m);
    w - LeadingZeros(w, m)
  }

  /** `precompute_alpha_and_barrett_constant`: returns (alpha, mu). */
  function PrecomputeAlphaAndBarrettConstant(w: nat, m: nat): (r: Result<(nat, nat), PrecomputeError>)
    requires ScalarWidth(w) && m < Pow2(w)
    ensures r.Ok? <==> 1 <= m
    ensures m == 0 ==> r == Err(DivisionByZero)
    ensures r.Ok? ==> r.value.0 == BitLength(m) + 3 && r.value.1 < Pow2(w)
    ensures 1 <= m < Pow2(62) ==> r.value.1 == Narrow(ExactBarrettConstant(m), w)
    ensures Pow2(62) <= m ==> r.value.1 == 0
  {
    var n := ModulusBits(w, m);
    if m == 0 then
      Err(DivisionByZero)
    else
      WideConstantCases(w, m);
      var mu := WideBarrettConstant(m);
      Ok((n + 3, Narrow(mu, w)))
  }

  /** The mask changes nothing while 2n + 3 < 128, that is for m < 2^62. A
      larger scalar modulus has n = 63 or 64, and the masked shift 2^1 or 2^3
      is below it, so the quotient is 0. */
  lemma WideConstantCases(w: nat, m: nat)
    requires ScalarWidth(w) && 1 <= m < Pow2(w)
    ensures m < Pow2(62) ==> WideBarrettConstant(m) == ExactBarrettConstant(m)
    ensures Pow2(62) <= m ==> WideBarrettConstant(m) == 0
  {
    BitLengthAtMost(m, 62);
    if Pow2(62) <= m {
      OversizedWideConstant(w, m);
    }
  }

  lemma OversizedWideConstant(w: nat, m: nat)
    requires ScalarWidth(w) && Pow2(62) <= m < Pow2(w)
    ensures WideBarrettConstant(m) == 0
  {
    var n := BitLength(m);
    var k := 2 * n + 3;
    assert WideBarrettConstant(m) == Quotient(ShlOne(k, WideBits), m);
    BitLengthAtMost(m, 62);
    BitLengthAtMost(m, w);
    MaskedShiftSmall(n);
    Pow2Monotone(3, 62);
    QuotientOfSmaller(ShlOne(k, WideBits), m);
  }

  /** For n = 63 or 64 the masked shift amount 2n + 3 - 128 is 1 or 3. */
  lemma MaskedShiftSmall(n: nat)
    requires 62 < n <= 64
    ensures ShlOne(2 * n + 3, WideBits) <= 8 == Pow2(3)
  {
    Pow2Small();
    if n == 63 {
      assert ShlOne(129, 128) == Pow2(1);
    } else {
      assert ShlOne(131, 128) == Pow2(3);
    }
  }

  /** A backend built the way the implementations of the trait build one:
      the modulus, its bit length and the two precomputed values. */
  function Construct(w: nat, m: nat): (r: Result<Backend, PrecomputeError>)
    requires ScalarWidth(w) && m < Pow2(w)
    ensures r.Ok? <==> 1 <= m
    ensures r.Ok? ==> Constructed(r.value) && r.value.scalarBits == w && r.value.modulus == m
  {
    match PrecomputeAlphaAndBarrettConstant(w, m)
    case Err(e) => Err(e)
    case Ok((alpha, mu)) => Ok(Backend(w, m, ModulusBits(w, m), mu, alpha))
  }

  /** Construction that refuses a modulus whose constant would be truncated. */
  function ConstructChecked(w: nat, m: nat): (r: Result<Backend, PrecomputeError>)
    requires ScalarWidth(w) && m < Pow2(w)
    ensures r.Ok? <==> 1 <= m && Pow2(2 * BitLength(m) + 3) < Pow2(w) * m
    ensures r.Ok? ==> Valid(r.value) && r.value.scalarBits == w && r.value.modulus == m
  {
    if m == 0 then
      Err(DivisionByZero)
    else
      ExactConstantFitsIff(w, m);
      if ExactBarrettConstant(m) >= Pow2(w) then
        Err(ConstantOverflow)
      else
        Construct(w, m)
  }

  /** The constant fits W bits exactly when 2^(2n+3) < 2^W * m. */
  lemma ExactConstantFitsIff(w: nat, m: nat)
    requires m >= 1
    ensures ExactBarrettConstant(m) < Pow2(w) <==> Pow2(2 * BitLength(m) + 3) < Pow2(w) * m
  {
    DivLessIff(Pow2(2 * BitLength(m) + 3), m, Pow2(w));
  }

  /** When the constant fits W bits, n + 3 < W, so 2n + 3 < 128 and m < 2^62:
      the shift amount is not masked and the u128 quotient is the exact one. */
  lemma FitImpliesUnmaskedShift(w: nat, m: nat)
    requires ScalarWidth(w) && 1 <= m < Pow2(w)
    requires Pow2(2 * BitLength(m) + 3) < Pow2(w) * m
    ensures BitLength(m) + 3 < w
    ensures m < Pow2(62)
    ensures WideBarrettConstant(m) == ExactBarrettConstant(m)
  {
    FitBoundsBitLength(w, m);
    BitLengthAtMost(m, 62);
    WideConstantCases(w, m);
  }

  /** 2^(2n+3) < 2^W * m < 2^(W+n), so 2n + 3 < W + n. */
  lemma FitBoundsBitLength(w: nat, m: nat)
    requires 1 <= m
    requires Pow2(2 * BitLength(m) + 3) < Pow2(w) * m
    ensures BitLength(m) + 3 < w
  {
    var n := BitLength(m);
    BitLengthBounds(m);
    Pow2Add(w, n);
    BoundThroughProduct(Pow2(2 * n + 3), Pow2(w), m, Pow2(n), Pow2(w + n));
    Pow2Below(2 * n + 3, w + n);
  }

  /** A valid backend stores the exact floor(2^(2n+3) / m). */
  lemma ValidConstantExact(bk: Backend)
    requires Valid(bk)
    ensures bk.barrettConstant == ExactBarrettConstant(bk.modulus)
  {
    ExactConstantFitsIff(bk.scalarBits, bk.modulus);
    FitImpliesUnmaskedShift(bk.scalarBits, bk.modulus);
  }

  /** N < W*m and m < P give N < W*P. */
  lemma BoundThroughProduct(N: nat, W: nat, m: nat, P: nat, WP: nat)
    requires N < W * m && m < P && W >= 1 && WP == W * P
    ensures N < WP
  {
    MulStrictLeft(m, P, W);
  }

  // ---------------------------------------------------------------------------
  // Residue operations

  /** `add_mod_fast`: one conditional subtraction after a wrapping add. */
  function AddModFast(bk: Backend, a: nat, b: nat): (r: nat)
    requires ScalarModulus(bk)
    requires a < bk.modulus && b < bk.modulus
    ensures r < bk.modulus
    ensures a + b < Pow2(bk.scalarBits) ==> r == (a + b) % bk.modulus
    ensures a + b >= Pow2(bk.scalarBits) ==> r == a + b - Pow2(bk.scalarBits)
  {
    var c := WrappingAdd(a, b, bk.scalarBits);
    ModOfSmall(a + b, bk.modulus);
    if c >= bk.modulus then c - bk.modulus else c
  }

  /** `sub_mod_fast`: `a - b`, or `(a + m) - b` when `a < b`. */
  function SubModFast(bk: Backend, a: nat, b: nat): (r: nat)
    requires ScalarModulus(bk)
    requires a < bk.modulus && b < bk.modulus
    ensures r < bk.modulus
    ensures r == (a - b) % bk.modulus
  {
    ModOfSmall(a - b, bk.modulus);
    if a >= b then
      a - b
    else
      WrappingSub(WrappingAdd(a, bk.modulus, bk.scalarBits), b, bk.scalarBits)
  }

  /** `mul_mod_fast`: generalized Barrett reduction with alpha = n + 3 and
      beta = -2. The product and the quotient estimate live in the doubled
      width; the difference is narrowed back and corrected once. */
  function MulModFast(bk: Backend, a: nat, b: nat): (r: nat)
    requires Constructed(bk) && bk.modulusBits >= 2
    requires a < bk.modulus && b < bk.modulus
    ensures r < Pow2(bk.scalarBits)
  {
    var d := 2 * bk.scalarBits;
    var ab := WrappingMul(a, b, d);
    var tmp := Shr(ab, bk.modulusBits - 2);
    var q := Shr(WrappingMul(tmp, bk.barrettConstant, d), bk.barrettAlpha + 2);
    var qm := WrappingMul(q, bk.modulus, d);
    var res := Narrow(WrappingSub(ab, qm, d), bk.scalarBits);
    if res >= bk.modulus then res - bk.modulus else res
  }
}
