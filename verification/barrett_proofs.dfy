/** Correctness of the Barrett backend: the three operations compute the
    residues of the sum, the difference and the product, and the bound on the
    modulus under which the narrowed constant is exact. */
module BarrettProofs {
  import opened Word
  import opened Barrett

  // ---------------------------------------------------------------------------
  // The error bound of generalized Barrett reduction

  /** The precomputed constant lies between 2^(n+3) and 2^(n+4), written over
      A = 2^(n-2): 2^(n-1) = 2A, 2^n = 4A and 2^(2n+3) = 128*A*A. */
  lemma BarrettConstantRange(m: nat, A: nat, mu: nat)
    requires A >= 1 && 2 * A <= m < 4 * A
    requires mu == (128 * A * A) / m
    ensures 32 * A <= mu <= 64 * A
  {
    var N := 128 * A * A;
    DivLessIff(N, m, 32 * A);
    MulStrictLeft(m, 4 * A, 32 * A);
    assert 32 * A * (4 * A) == N;
    DivLessIff(N, m, 64 * A + 1);
    MulMonotone(2 * A, m, 64 * A + 1);
    assert (64 * A + 1) * (2 * A) == N + 2 * A;
  }

  /** The remainder estimate times 2^(n+5), split into three non-negative
      terms: the bits shifted out of x, the rounding of mu, and the bits
      shifted out of the scaled quotient. */
  lemma BarrettRemainderSplit(m: nat, A: nat, x: nat, mu: nat, t: nat, r1: nat, r2: nat, q: nat, r3: nat)
    requires x == t * A + r1
    requires 128 * A * A == mu * m + r2
    requires t * mu == q * (128 * A) + r3
    ensures (x - q * m) * (128 * A) == r1 * (128 * A) + t * r2 + r3 * m
  {
    var P := 128 * A;
    var N := 128 * A * A;
    assert x * P == t * N + r1 * P by {
      assert x * P == (t * A + r1) * P;
      assert (t * A) * P == t * N;
    }
    assert q * m * P == t * N - t * r2 - r3 * m by {
      assert q * P * m == (t * mu - r3) * m;
      assert (t * mu) * m == t * (mu * m);
      assert t * (mu * m) == t * (N - r2);
    }
  }

  lemma ShiftedOutBound(m: nat, A: nat, r1: nat)
    requires 2 * A <= m && r1 < A
    ensures 0 <= r1 * (128 * A) < 64 * (A * m)
  {
    MulMonotone(0, r1, 128 * A);
    MulStrictLeft(r1, A, 128 * A);
    MulMonotone(2 * A, m, 64 * A);
  }

  lemma ScaledQuotientBound(m: nat, A: nat, x: nat, t: nat)
    requires A >= 1 && m < 4 * A
    requires x < m * m && t * A <= x
    ensures t < 16 * A
  {
    MulMonotone(m, 4 * A, m);
    MulStrictLeft(m, 4 * A, 4 * A);
    assert 4 * A * (4 * A) == (16 * A) * A;
    MulCancelLess(t, 16 * A, A);
  }

  lemma RoundingBound(m: nat, A: nat, t: nat, r2: nat)
    requires t < 16 * A && r2 < m
    ensures 0 <= t * r2 <= 16 * (A * m)
  {
    MulMonotone(0, t, r2);
    MulMonotone(t, 16 * A, r2);
    MulMonotone(r2, m, 16 * A);
  }

  lemma QuotientRemainderBound(m: nat, A: nat, r3: nat)
    requires r3 < 128 * A && m >= 1
    ensures 0 <= r3 * m < 128 * (A * m)
  {
    MulMonotone(0, r3, m);
    MulStrictLeft(r3, 128 * A, m);
  }

  /** The three terms of the split stay below 2m * 2^(n+5): the first below
      a quarter of it, the second below a sixteenth, the third below a half. */
  lemma BarrettSplitBound(m: nat, A: nat, x: nat, t: nat, r1: nat, r2: nat, r3: nat)
    requires A >= 1 && 2 * A <= m < 4 * A
    requires x < m * m && t * A <= x
    requires r1 < A && r2 < m && r3 < 128 * A
    ensures 0 <= r1 * (128 * A) + t * r2 + r3 * m < (2 * m) * (128 * A)
  {
    ShiftedOutBound(m, A, r1);
    ScaledQuotientBound(m, A, x, t);
    RoundingBound(m, A, t, r2);
    QuotientRemainderBound(m, A, r3);
    DoubledScale(m, A);
    SumOfThreeBound(r1 * (128 * A), t * r2, r3 * m, A * m, (2 * m) * (128 * A));
  }

  lemma SumOfThreeBound(p1: int, p2: int, p3: int, k: int, s: int)
    requires 0 <= p1 < 64 * k && 0 <= p2 <= 16 * k && 0 <= p3 < 128 * k
    requires s == 256 * k
    ensures 0 <= p1 + p2 + p3 < s
  {
  }

  lemma DoubledScale(m: nat, A: nat)
    ensures (2 * m) * (128 * A) == 256 * (A * m)
  {
  }

  /** The error bound stated over the quotients and remainders of the three
      divisions the algorithm performs. */
  lemma BarrettEstimateCore(m: nat, A: nat, x: nat, mu: nat, t: nat, r1: nat, r2: nat, q: nat, r3: nat)
    requires A >= 1 && 2 * A <= m < 4 * A
    requires x < m * m
    requires x == t * A + r1 && r1 < A
    requires 128 * A * A == mu * m + r2 && r2 < m
    requires t * mu == q * (128 * A) + r3 && r3 < 128 * A
    ensures q * m <= x < q * m + 2 * m
  {
    BarrettRemainderSplit(m, A, x, mu, t, r1, r2, q, r3);
    BarrettSplitBound(m, A, x, t, r1, r2, r3);
    var E := x - q * m;
    var P := 128 * A;
    assert 0 <= E * P < (2 * m) * P;
    RemainderEstimateRange(E, m, P);
  }

  lemma RemainderEstimateRange(E: int, m: nat, P: nat)
    requires P > 0
    requires 0 <= E * P < (2 * m) * P
    ensures 0 <= E < 2 * m
  {
    MulCancelLess(E, 2 * m, P);
    MulCancelLess(-1, E, P);
  }

  /** Algorithm 2 of Knezevic et al. with alpha = n + 3, beta = -2, over
      A = 2^(n-2): for x < m^2 the quotient estimate
      q = ((x >> (n-2)) * mu) >> (n+5) satisfies q*m <= x < q*m + 2m,
      so the remainder estimate x - q*m neither underflows nor needs more than
      one correction. */
  lemma BarrettQuotientEstimate(m: nat, A: nat, x: nat, mu: nat)
    requires A >= 1 && 2 * A <= m < 4 * A
    requires x < m * m
    requires mu == (128 * A * A) / m
    ensures (x / A) * mu / (128 * A) * m <= x < (x / A) * mu / (128 * A) * m + 2 * m
    ensures (x / A) * mu / (128 * A) <= x / m <= (x / A) * mu / (128 * A) + 1
  {
    var t, r1 := Decompose(x, A);
    var mu', r2 := Decompose(128 * A * A, m);
    var q, r3 := Decompose(t * mu, 128 * A);
    BarrettEstimateCore(m, A, x, mu, t, r1, r2, q, r3);
    QuotientWithinOne(x, m, q);
  }

  /** An estimate q with q*m <= x < q*m + 2m undershoots floor(x/m) by at most
      one, so one conditional subtraction turns x - q*m into x mod m. */
  lemma QuotientWithinOne(x: nat, m: nat, q: nat)
    requires q * m <= x < q * m + 2 * m
    ensures q <= x / m <= q + 1
    ensures var e := x - q * m; (if e >= m then e - m else e) == x % m
  {
    var e := x - q * m;
    if e >= m {
      assert (q + 1) * m == q * m + m;
      DivModUnique(x, m, q + 1, e - m);
    } else {
      DivModUnique(x, m, q, e);
    }
  }

  // ---------------------------------------------------------------------------
  // The residue operations

  /** The powers of two the algorithm uses, over A = 2^(n-2). */
  lemma BarrettPowers(n: nat)
    requires n >= 2
    ensures Pow2(n - 1) == 2 * Pow2(n - 2)
    ensures Pow2(n) == 4 * Pow2(n - 2)
    ensures Pow2(n + 5) == 128 * Pow2(n - 2)
    ensures Pow2(2 * n + 3) == 128 * Pow2(n - 2) * Pow2(n - 2)
  {
    Pow2Shift(n - 2);
    Pow2Add(n - 2, n + 5);
    assert n - 2 + (n + 5) == 2 * n + 3;
  }

  lemma ProductBelowSquare(a: nat, b: nat, m: nat)
    requires a < m && b < m
    ensures a * b < m * m
  {
    MulMonotone(a, m, b);
    MulStrictLeft(b, m, m);
  }

  /** The arithmetic of one Barrett multiplication over plain naturals, with
      W = 2^w, A = 2^(n-2) and the intermediate values named: nothing reaches
      the doubled width W*W, and the remainder estimate lies in [0, 2m) with
      2m < W. */
  lemma BarrettSteps(m: nat, A: nat, W: nat, mu: nat, a: nat, b: nat, x: nat, t: nat, tm: nat, q: nat)
    requires A >= 1 && 2 * A <= m < 4 * A
    requires mu == (128 * A * A) / m && mu < W
    requires a < m && b < m
    requires x == a * b && t == x / A && tm == t * mu && q == tm / (128 * A)
    ensures x < W * W && tm < W * W
    ensures q * m <= x < q * m + 2 * m && x - q * m < 2 * m < W
  {
    BarrettConstantRange(m, A, mu);
    ProductBelowSquare(a, b, m);
    ProductBelowSquare(m, m, W);
    ScaledQuotientBound(m, A, x, t);
    ProductBelowSquare(t, mu, W);
    BarrettQuotientEstimate(m, A, x, mu);
  }

  /** `mul_mod_fast` unfolded: given the values of its intermediate steps,
      the result is the corrected remainder estimate. */
  lemma MulModFastSteps(bk: Backend, a: nat, b: nat, x: nat, t: nat, tm: nat, q: nat, qm: nat, e: nat)
    requires Constructed(bk) && bk.modulusBits >= 2
    requires a < bk.modulus && b < bk.modulus
    requires WrappingMul(a, b, 2 * bk.scalarBits) == x
    requires Shr(x, bk.modulusBits - 2) == t
    requires WrappingMul(t, bk.barrettConstant, 2 * bk.scalarBits) == tm
    requires Shr(tm, bk.barrettAlpha + 2) == q
    requires WrappingMul(q, bk.modulus, 2 * bk.scalarBits) == qm
    requires Narrow(WrappingSub(x, qm, 2 * bk.scalarBits), bk.scalarBits) == e
    ensures MulModFast(bk, a, b) == if e >= bk.modulus then e - bk.modulus else e
  {
  }

  /** `mul_mod_fast` on a valid backend returns the residue of the product:
      no intermediate wraps in the doubled width, the difference is below 2m
      and the single correction brings it below m. */
  lemma MulModFastCorrect(bk: Backend, a: nat, b: nat)
    requires Valid(bk) && bk.modulusBits >= 2
    requires a < bk.modulus && b < bk.modulus
    ensures MulModFast(bk, a, b) == (a * b) % bk.modulus
  {
    var w := bk.scalarBits;
    var m := bk.modulus;
    var d := 2 * w;
    MulModFastNoWrap(bk, a, b);
    var x := WrappingMul(a, b, d);
    var t := Shr(x, bk.modulusBits - 2);
    var tm := WrappingMul(t, bk.barrettConstant, d);
    var q := Shr(tm, bk.barrettAlpha + 2);
    var qm := WrappingMul(q, m, d);
    assert qm == q * m;
    var e := Narrow(WrappingSub(x, qm, d), w);
    assert e == x - q * m;
    MulModFastSteps(bk, a, b, x, t, tm, q, qm, e);
    QuotientWithinOne(x, m, q);
  }

  /** The intermediate values of `mul_mod_fast` for modulus m of bit length
      n, constant mu, second shift s and scalar width w are in range: neither
      wrapping multiplication in the doubled width wraps, and the quotient
      estimate q satisfies q*m <= ab < q*m + 2m, so `ab - q*m` neither
      underflows nor loses bits when narrowed to the scalar width. */
  predicate IntermediatesInRange(m: nat, n: nat, s: nat, w: nat, mu: nat, a: nat, b: nat)
    requires n >= 2
  {
    && WrappingMul(a, b, 2 * w) == a * b
    && var t := Shr(WrappingMul(a, b, 2 * w), n - 2);
       && WrappingMul(t, mu, 2 * w) == t * mu
       && var q := Shr(WrappingMul(t, mu, 2 * w), s);
          q * m <= a * b < q * m + 2 * m && a * b - q * m < Pow2(w)
  }

  /** On a valid backend no step of `mul_mod_fast` overflows. */
  lemma MulModFastNoWrap(bk: Backend, a: nat, b: nat)
    requires Valid(bk) && bk.modulusBits >= 2
    requires a < bk.modulus && b < bk.modulus
    ensures IntermediatesInRange(bk.modulus, bk.modulusBits, bk.barrettAlpha + 2,
                                 bk.scalarBits, bk.barrettConstant, a, b)
  {
    ValidConstantExact(bk);
    BarrettNoWrap(bk.modulus, bk.modulusBits, bk.barrettAlpha + 2, bk.scalarBits, bk.barrettConstant, a, b);
  }

  /** The same over plain naturals, with the constant the exact floor. */
  lemma BarrettNoWrap(m: nat, n: nat, s: nat, w: nat, mu: nat, a: nat, b: nat)
    requires m >= 1 && n == BitLength(m) && n >= 2 && s == n + 5
    requires mu == ExactBarrettConstant(m) && mu < Pow2(w)
    requires a < m && b < m
    ensures IntermediatesInRange(m, n, s, w, mu, a, b)
  {
    var A := Pow2(n - 2);
    ExactShape(m, n, s, w, mu);
    NatProduct(a, b);
    var x: nat := a * b;
    var t := Shr(x, n - 2);
    ShrByPower(x, n - 2, A);
    NatProduct(t, mu);
    var tm: nat := t * mu;
    var q := Shr(tm, s);
    ShrByPower(tm, s, 128 * A);
    BarrettSteps(m, A, Pow2(w), mu, a, b, x, t, tm, q);
    assert WrappingMul(a, b, 2 * w) == x;
    assert WrappingMul(t, mu, 2 * w) == tm;
  }

  /** The shape facts of an exact constant, over A = 2^(n-2). */
  lemma ExactShape(m: nat, n: nat, s: nat, w: nat, mu: nat)
    requires m >= 1 && n == BitLength(m) && n >= 2 && s == n + 5
    requires mu == ExactBarrettConstant(m)
    ensures 2 * Pow2(n - 2) <= m < 4 * Pow2(n - 2)
    ensures mu == (128 * Pow2(n - 2) * Pow2(n - 2)) / m
    ensures Pow2(s) == 128 * Pow2(n - 2)
    ensures Pow2(2 * w) == Pow2(w) * Pow2(w)
  {
    BitLengthBounds(m);
    BarrettPowers(n);
    Pow2Add(w, w);
    assert w + w == 2 * w;
  }

  lemma NatProduct(p: nat, r: nat)
    ensures p * r >= 0
  {
  }

  /** A right shift by k is division by 2^k. */
  lemma ShrByPower(x: nat, k: nat, D: nat)
    requires Pow2(k) == D
    ensures Shr(x, k) == x / D
  {
  }

  /** `add_mod_fast` on a valid backend returns the residue of the sum: the
      constant fitting W bits leaves room for a + b below 2^W. */
  lemma AddModFastCorrect(bk: Backend, a: nat, b: nat)
    requires Valid(bk)
    requires a < bk.modulus && b < bk.modulus
    ensures AddModFast(bk, a, b) == (a + b) % bk.modulus
  {
    ValidHeadroom(bk);
  }

  /** A valid backend keeps 8m below 2^W: mu >= 2^(n+3) > 8m. */
  lemma ValidHeadroom(bk: Backend)
    requires Valid(bk)
    ensures 8 * bk.modulus < Pow2(bk.scalarBits)
  {
    var n := bk.modulusBits;
    ValidConstantExact(bk);
    BitLengthBounds(bk.modulus);
    Pow2Shift(n);
    Pow2Add(n + 3, n);
    assert n + 3 + n == 2 * n + 3;
    HeadroomArith(bk.modulus, Pow2(n), bk.barrettConstant, Pow2(bk.scalarBits));
  }

  lemma HeadroomArith(m: nat, P: nat, mu: nat, W: nat)
    requires 1 <= m < P
    requires mu == (8 * P * P) / m && mu < W
    ensures 8 * m < W
  {
    MulStrictLeft(m, P, 8 * P);
    DivLessIff(8 * P * P, m, 8 * P);
  }

  /** Subtracting b undoes adding b, and adding b undoes subtracting it. */
  lemma AddSubInverse(bk: Backend, a: nat, b: nat)
    requires Valid(bk)
    requires a < bk.modulus && b < bk.modulus
    ensures SubModFast(bk, AddModFast(bk, a, b), b) == a
    ensures AddModFast(bk, SubModFast(bk, a, b), b) == a
  {
    SubUndoesAdd(bk, a, b);
    AddUndoesSub(bk, a, b);
  }

  lemma SubUndoesAdd(bk: Backend, a: nat, b: nat)
    requires Valid(bk)
    requires a < bk.modulus && b < bk.modulus
    ensures SubModFast(bk, AddModFast(bk, a, b), b) == a
  {
    var m := bk.modulus;
    AddModFastCorrect(bk, a, b);
    var s := AddModFast(bk, a, b);
    ModOfSmall(a + b, m);
    if a + b < m {
      assert s == a + b;
      ModOfSmall(a, m);
    } else {
      assert s == a + b - m;
      ModOfSmall(a - m, m);
    }
  }

  lemma AddUndoesSub(bk: Backend, a: nat, b: nat)
    requires Valid(bk)
    requires a < bk.modulus && b < bk.modulus
    ensures AddModFast(bk, SubModFast(bk, a, b), b) == a
  {
    var m := bk.modulus;
    var d := SubModFast(bk, a, b);
    AddModFastCorrect(bk, d, b);
    ModOfSmall(a - b, m);
    if a >= b {
      assert d == a - b;
      ModOfSmall(a, m);
    } else {
      assert d == a - b + m;
      ModOfSmall(a + m, m);
    }
  }

  /** The residue operations agree with the identity laws of modular arithmetic. */
  lemma IdentityLaws(bk: Backend, a: nat)
    requires Valid(bk)
    requires a < bk.modulus
    ensures AddModFast(bk, a, 0) == a
    ensures SubModFast(bk, a, 0) == a
    ensures bk.modulus >= 2 ==> bk.modulusBits >= 2 && MulModFast(bk, a, 1) == a
  {
    AddModFastCorrect(bk, a, 0);
    ModOfSmall(a, bk.modulus);
    if bk.modulus >= 2 {
      BitLengthAtMost(bk.modulus, 1);
      assert Pow2(1) == 2;
      MulModFastCorrect(bk, a, 1);
    }
  }

  /** Barrett multiplication is commutative in its operands on every
      constructed backend, the constant narrowed or not: it only sees a * b. */
  lemma MulModFastCommutes(bk: Backend, a: nat, b: nat)
    requires Constructed(bk) && bk.modulusBits >= 2
    requires a < bk.modulus && b < bk.modulus
    ensures MulModFast(bk, a, b) == MulModFast(bk, b, a)
  {
    assert a * b == b * a;
  }

  // ---------------------------------------------------------------------------
  // Precomputation and the bound on the modulus

  /** alpha is the bit length plus three, and the returned constant mu is
      floor(2^(2n+3) / m) exactly when that quotient fits W bits; a modulus of
      2^62 or more, whose masked shift yields 0, never fits. */
  lemma PrecomputedAlphaAndConstant(w: nat, m: nat, alpha: nat, mu: nat)
    requires ScalarWidth(w) && 1 <= m < Pow2(w)
    requires PrecomputeAlphaAndBarrettConstant(w, m) == Ok((alpha, mu))
    ensures alpha == BitLength(m) + 3
    ensures mu * m <= Pow2(2 * BitLength(m) + 3) < (mu + 1) * m
        <==> Pow2(2 * BitLength(m) + 3) < Pow2(w) * m
  {
    if m < Pow2(62) {
      NarrowedConstantIff(w, m, mu);
    } else {
      OversizedModulus(w, m);
    }
  }

  /** For m >= 2^62 the numerator 2^(2n+3) is at least m, and the fit
      condition fails because it would need n + 3 < W <= 64. */
  lemma OversizedModulus(w: nat, m: nat)
    requires ScalarWidth(w) && Pow2(62) <= m
    ensures m <= Pow2(2 * BitLength(m) + 3)
    ensures !(Pow2(2 * BitLength(m) + 3) < Pow2(w) * m)
  {
    NumeratorAtLeastModulus(m);
    BitLengthAtMost(m, 62);
    if Pow2(2 * BitLength(m) + 3) < Pow2(w) * m {
      FitBoundsBitLength(w, m);
    }
  }

  lemma NumeratorAtLeastModulus(m: nat)
    requires m >= 1
    ensures m <= Pow2(2 * BitLength(m) + 3)
  {
    var n := BitLength(m);
    BitLengthBounds(m);
    Pow2Monotone(n, 2 * n + 3);
  }

  lemma NarrowedConstantIff(w: nat, m: nat, mu: nat)
    requires m >= 1
    requires mu == Narrow(ExactBarrettConstant(m), w)
    ensures mu * m <= Pow2(2 * BitLength(m) + 3) < (mu + 1) * m
        <==> Pow2(2 * BitLength(m) + 3) < Pow2(w) * m
  {
    NarrowIsMod(ExactBarrettConstant(m), w);
    NarrowedIsFloorIff(Pow2(2 * BitLength(m) + 3), m, Pow2(w), mu);
  }

  /** The quotient N/m reduced mod W satisfies the floor equation for N and m
      exactly when N/m < W, i.e. when N < W*m. */
  lemma NarrowedIsFloorIff(N: nat, m: nat, W: nat, mu: nat)
    requires m >= 1 && W >= 1
    requires mu == (N / m) % W
    ensures mu * m <= N < (mu + 1) * m <==> N < W * m
  {
    var exact, r := Decompose(N, m);
    DivLessIff(N, m, W);
    assert (exact + 1) * m == exact * m + m;
    if exact < W {
      DivModUnique(exact, W, 0, exact);
    } else {
      assert mu < exact;
      MulMonotone(mu + 1, exact, m);
    }
  }

  /** With the top bit of the modulus at 2^k (k = n - 1): 2^(2n+3) = 2^(2k+5),
      2^(n+3), 2^(n+4) and 2^(n+5) as multiples of X = 2^k. */
  lemma NumeratorOverTopBit(k: nat)
    ensures Pow2(2 * k + 5) == 32 * Pow2(k) * Pow2(k)
    ensures Pow2(k + 4) == 16 * Pow2(k)
    ensures Pow2(k + 5) == 32 * Pow2(k)
    ensures Pow2(k + 6) == 64 * Pow2(k)
  {
    var X := Pow2(k);
    Pow2Shift(k);
    Pow2Add(k, k + 5);
    assert Pow2(2 * k + 5) == X * (32 * X);
  }

  // The three regimes of the fit condition, over X = 2^(n-1): 2^(2n+3) is
  // 32*X*X and 2^W is at least 64X, exactly 32X, or at most 16X.

  lemma FitsWithRoom(X: nat, m: nat, W: nat)
    requires 1 <= X <= m && W >= 64 * X
    ensures 32 * X * X < W * m
  {
    MulMonotone(64 * X, W, m);
    MulMonotone(X, m, 64 * X);
    assert 64 * X * X == 2 * (32 * X * X);
  }

  lemma FitsAtEdge(X: nat, m: nat, W: nat)
    requires 1 <= X <= m && W == 32 * X
    ensures 32 * X * X < W * m <==> m != X
  {
    if m != X {
      MulStrictLeft(X, m, 32 * X);
    }
  }

  lemma NeverFits(X: nat, m: nat, W: nat)
    requires 1 <= X <= m < 2 * X && W <= 16 * X
    ensures W * m < 32 * X * X
  {
    MulMonotone(W, 16 * X, m);
    MulStrictLeft(m, 2 * X, 16 * X);
    assert 16 * X * (2 * X) == 32 * X * X;
  }

  /** The narrowed constant is exact iff n + 5 <= W, or n + 4 == W and m is
      not the power of two 2^(n-1); in particular every modulus below
      2^(W-5) fits and none of bit length W-3 or more does. */
  lemma ConstantFitsIff(w: nat, m: nat)
    requires 1 <= m < Pow2(w)
    ensures var n := BitLength(m);
      ExactBarrettConstant(m) < Pow2(w) <==> n + 5 <= w || (n + 4 == w && m != Pow2(n - 1))
    ensures w >= 5 && m < Pow2(w - 5) ==> ExactBarrettConstant(m) < Pow2(w)
  {
    ExactConstantFitsIff(w, m);
    FitRegimes(w, m);
    if w >= 5 && m < Pow2(w - 5) {
      BitLengthAtMost(m, w - 5);
    }
  }

  /** The fit condition 2^(2n+3) < 2^W * m in the three regimes of n. */
  lemma FitRegimes(w: nat, m: nat)
    requires 1 <= m
    ensures var n := BitLength(m);
      Pow2(2 * n + 3) < Pow2(w) * m <==> n + 5 <= w || (n + 4 == w && m != Pow2(n - 1))
  {
    var n := BitLength(m);
    BitLengthBounds(m);
    var k := n - 1;
    var X := Pow2(k);
    NumeratorOverTopBit(k);
    assert 2 * k + 5 == 2 * n + 3 && k + 4 == n + 3 && k + 6 == n + 5;
    if n + 5 <= w {
      Pow2Monotone(n + 5, w);
      FitsWithRoom(X, m, Pow2(w));
    } else if n + 4 == w {
      FitsAtEdge(X, m, Pow2(w));
    } else {
      Pow2Monotone(w, n + 3);
      NeverFits(X, m, Pow2(w));
    }
  }

  /** The checked construction's backends multiply correctly for every modulus
      of at least two bits. */
  lemma ConstructCheckedMulCorrect(w: nat, m: nat, a: nat, b: nat)
    requires ScalarWidth(w) && 2 <= m < Pow2(w)
    requires ConstructChecked(w, m).Ok?
    requires a < m && b < m
    ensures ConstructChecked(w, m).value.modulusBits >= 2
    ensures MulModFast(ConstructChecked(w, m).value, a, b) == (a * b) % m
  {
    BitLengthAtMost(m, 1);
    assert Pow2(1) == 2;
    MulModFastCorrect(ConstructChecked(w, m).value, a, b);
  }
}
