/** Unsigned machine words as natural numbers: powers of two, the bit length
    of a value, the leading-zero count of a fixed-width word, and the casts,
    shifts and wrapping arithmetic of Rust's unsigned integer types. */
module Word {

  /** 2^k. */
  function Pow2(k: nat): (r: nat)
    ensures r >= 1
  {
    if k == 0 then 1 else 2 * Pow2(k - 1)
  }

  /** The widths Rust's unsigned scalar types come in, below 128 bits. */
  predicate ScalarWidth(w: nat) {
    w == 8 || w == 16 || w == 32 || w == 64
  }

  /** Number of significant bits of x: the index, counted from 1, of its highest set bit. */
  function BitLength(x: nat): nat
  {
    if x == 0 then 0 else 1 + BitLength(x / 2)
  }

  /** `x.leading_zeros()` for a w-bit word: the zero bits above the highest set bit. */
  function LeadingZeros(w: nat, x: nat): (r: nat)
    requires x < Pow2(w)
    ensures r <= w
    ensures r == w <==> x == 0
  {
    if w == 0 then 0
    else if x >= Pow2(w - 1) then 0
    else 1 + LeadingZeros(w - 1, x)
  }

  /** `x as uW`: truncation to the low w bits. */
  function Narrow(x: nat, w: nat): (r: nat)
    ensures r < Pow2(w)
    ensures x < Pow2(w) ==> r == x
  {
    if x < Pow2(w) then
      DivModUnique(x, Pow2(w), 0, x);
      x
    else
      x % Pow2(w)
  }

  lemma NarrowIsMod(x: nat, w: nat)
    ensures Narrow(x, w) == x % Pow2(w)
  {
    if x < Pow2(w) {
      DivModUnique(x, Pow2(w), 0, x);
    }
  }

  /** `x >> k` on an unsigned word. */
  function Shr(x: nat, k: nat): nat
  {
    Quotient(x, Pow2(k))
  }

  /** `1 << k` on a w-bit word in a release build, w a power of two: the shift
      amount is masked to its low bits, k mod w, instead of overflowing. */
  function ShlOne(k: nat, w: nat): (r: nat)
    requires w >= 1
    ensures r < Pow2(w)
    ensures k < w ==> r == Pow2(k)
    ensures w <= k < 2 * w ==> r == Pow2(k - w)
  {
    Pow2Monotone(k % w + 1, w);
    if k < 2 * w then
      ModOfSmall(k, w);
      Pow2(k % w)
    else
      Pow2(k % w)
  }

  /** Integer division of naturals. */
  function Quotient(x: nat, d: nat): nat
    requires d >= 1
  {
    x / d
  }

  lemma QuotientOfSmaller(x: nat, d: nat)
    requires x < d
    ensures Quotient(x, d) == 0
  {
    DivModUnique(x, d, 0, x);
  }

  /** `x.wrapping_add(y)` on w-bit words, what `+` does in a release build. */
  function WrappingAdd(x: nat, y: nat, w: nat): (r: nat)
    requires x < Pow2(w) && y < Pow2(w)
    ensures x + y < Pow2(w) ==> r == x + y
    ensures x + y >= Pow2(w) ==> r == x + y - Pow2(w)
  {
    ModOfSmall(x + y, Pow2(w));
    (x + y) % Pow2(w)
  }

  /** `x.wrapping_sub(y)` on w-bit words, what `-` does in a release build. */
  function WrappingSub(x: nat, y: nat, w: nat): (r: nat)
    requires x < Pow2(w) && y < Pow2(w)
    ensures x >= y ==> r == x - y
    ensures x < y ==> r == x - y + Pow2(w)
  {
    ModOfSmall(x - y, Pow2(w));
    (x - y) % Pow2(w)
  }

  /** `x.wrapping_mul(y)` on w-bit words. */
  function WrappingMul(x: nat, y: nat, w: nat): (r: nat)
    ensures r < Pow2(w)
    ensures x * y < Pow2(w) ==> r == x * y
  {
    Narrow(x * y, w)
  }

  // ---------------------------------------------------------------------------
  // Facts about powers of two and bit lengths

  lemma {:induction false} Pow2Add(i: nat, j: nat)
    ensures Pow2(i + j) == Pow2(i) * Pow2(j)
  {
    if i > 0 {
      Pow2Add(i - 1, j);
      assert Pow2(i + j) == 2 * Pow2(i - 1 + j);
    }
  }

  lemma Pow2Small()
    ensures Pow2(1) == 2 && Pow2(2) == 4 && Pow2(3) == 8 && Pow2(4) == 16
    ensures Pow2(5) == 32 && Pow2(6) == 64 && Pow2(7) == 128
  {
    assert Pow2(1) == 2 && Pow2(2) == 4 && Pow2(3) == 8 && Pow2(4) == 16;
    assert Pow2(5) == 32 && Pow2(6) == 64 && Pow2(7) == 128;
  }

  /** 2^(k + j) for a small j, as a multiple of 2^k. */
  lemma Pow2Shift(k: nat)
    ensures Pow2(k + 1) == 2 * Pow2(k) && Pow2(k + 2) == 4 * Pow2(k)
    ensures Pow2(k + 3) == 8 * Pow2(k) && Pow2(k + 4) == 16 * Pow2(k)
    ensures Pow2(k + 5) == 32 * Pow2(k) && Pow2(k + 6) == 64 * Pow2(k)
    ensures Pow2(k + 7) == 128 * Pow2(k)
  {
    Pow2Small();
    Pow2Add(k, 1);
    Pow2Add(k, 2);
    Pow2Add(k, 3);
    Pow2Add(k, 4);
    Pow2Add(k, 5);
    Pow2Add(k, 6);
    Pow2Add(k, 7);
  }

  lemma {:induction false} Pow2Monotone(i: nat, j: nat)
    requires i <= j
    ensures Pow2(i) <= Pow2(j)
  {
    if i < j {
      Pow2Monotone(i, j - 1);
    }
  }

  /** Powers of two order their exponents. */
  lemma Pow2Below(i: nat, j: nat)
    requires Pow2(i) < Pow2(j)
    ensures i < j
  {
    if i >= j {
      Pow2Monotone(j, i);
    }
  }

  /** The bit length n of a positive x is the unique n with 2^(n-1) <= x < 2^n. */
  lemma {:induction false} BitLengthBounds(x: nat)
    requires x >= 1
    ensures BitLength(x) >= 1
    ensures Pow2(BitLength(x) - 1) <= x < Pow2(BitLength(x))
  {
    if x >= 2 {
      BitLengthBounds(x / 2);
    }
  }

  lemma {:induction false} BitLengthOfBounded(x: nat, n: nat)
    requires n >= 1 && Pow2(n - 1) <= x < Pow2(n)
    ensures BitLength(x) == n
  {
    if n == 1 {
      assert x == 1;
      assert BitLength(0) == 0;
    } else {
      assert Pow2(n) == 2 * Pow2(n - 1);
      assert Pow2(n - 1) == 2 * Pow2(n - 2);
      BitLengthOfBounded(x / 2, n - 1);
    }
  }

  /** A positive x fits in k bits exactly when its bit length is at most k. */
  lemma BitLengthAtMost(x: nat, k: nat)
    requires x >= 1
    ensures BitLength(x) <= k <==> x < Pow2(k)
  {
    BitLengthBounds(x);
    if BitLength(x) <= k {
      Pow2Monotone(BitLength(x), k);
    } else {
      Pow2Monotone(k, BitLength(x) - 1);
    }
  }

  /** Subtracting the leading-zero count from the word width gives the bit length. */
  lemma {:induction false} LeadingZerosComplement(w: nat, x: nat)
    requires x < Pow2(w)
    ensures w - LeadingZeros(w, x) == BitLength(x)
  {
    if w == 0 {
    } else if x >= Pow2(w - 1) {
      BitLengthOfBounded(x, w);
    } else {
      LeadingZerosComplement(w - 1, x);
    }
  }

  // ---------------------------------------------------------------------------
  // Euclidean division facts

  lemma ModOfSmall(v: int, d: int)
    requires d > 0 && -d <= v < 2 * d
    ensures 0 <= v < d ==> v % d == v
    ensures v < 0 ==> v % d == v + d
    ensures d <= v ==> v % d == v - d
  {
    if v < 0 {
      DivModUnique(v, d, -1, v + d);
    } else if v < d {
      DivModUnique(v, d, 0, v);
    } else {
      DivModUnique(v, d, 1, v - d);
    }
  }

  /** Quotient and remainder are determined by x == q*d + r with 0 <= r < d. */
  lemma DivModUnique(x: int, d: int, q: int, r: int)
    requires d > 0 && 0 <= r < d && x == q * d + r
    ensures x / d == q && x % d == r
  {
    var q' := x / d;
    var r' := x % d;
    assert x == q' * d + r';
    if q' > q {
      assert (q' - q) * d == q' * d - q * d;
      MulMonotone(1, q' - q, d);
    } else if q' < q {
      assert (q - q') * d == q * d - q' * d;
      MulMonotone(1, q - q', d);
    }
  }

  /** Quotient and remainder of x by d, with the equation relating them. */
  lemma Decompose(x: nat, d: nat) returns (q: nat, r: nat)
    requires d > 0
    ensures q == x / d && r == x % d
    ensures x == q * d + r && r < d
  {
    q := x / d;
    r := x % d;
  }

  lemma MulMonotone(a: int, b: int, c: int)
    requires a <= b && c >= 0
    ensures a * c <= b * c
  {
  }

  lemma MulStrictLeft(a: int, b: int, c: int)
    requires a < b && c > 0
    ensures c * a < c * b
  {
  }

  lemma MulCancelLess(a: int, b: int, c: int)
    requires c > 0 && a * c < b * c
    ensures a < b
  {
    if a >= b {
      MulMonotone(b, a, c);
    }
  }

  /** floor(N / d) < K exactly when N < K * d. */
  lemma DivLessIff(N: nat, d: nat, K: nat)
    requires d > 0
    ensures N / d < K <==> N < K * d
  {
    var q := N / d;
    var r := N % d;
    assert N == q * d + r;
    if q < K {
      assert (q + 1) * d <= K * d;
    } else {
      assert q * d >= K * d;
    }
  }
}
