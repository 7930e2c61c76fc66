/** Concrete instances of the Barrett backend at the 64-bit scalar width:
    a small modulus on which all three operations agree with modular
    arithmetic, a 61-bit modulus whose Barrett constant does not survive the
    narrowing to 64 bits, and a 64-bit modulus whose shift is masked. */
module BarrettExamples {
  import opened Word
  import opened Barrett
  import opened BarrettProofs

  /** The powers of two the examples need, built up by squaring. */
  lemma Pow2Literals()
    ensures Pow2(8) == 256 && Pow2(16) == 65536 && Pow2(32) == 4294967296
    ensures Pow2(64) == 18446744073709551616
    ensures Pow2(59) == 576460752303423488
    ensures Pow2(60) == 1152921504606846976
    ensures Pow2(61) == 2305843009213693952
    ensures Pow2(62) == 4611686018427387904
    ensures Pow2(66) == 73786976294838206464
    ensures Pow2(125) == 42535295865117307932921825928971026432
    ensures Pow2(128) == 340282366920938463463374607431768211456
  {
    Pow2Small();
    Pow2Add(4, 4);
    Pow2Add(8, 8);
    Pow2Add(16, 16);
    Pow2Add(32, 32);
    Pow2Add(59, 5);
    Pow2Add(59, 1);
    Pow2Add(59, 2);
    Pow2Add(59, 3);
    Pow2Add(64, 2);
    Pow2Add(64, 61);
    Pow2Add(64, 64);
  }

  /** Modulus 17 at width 64: 10 + 12 = 5, 10 - 12 = 15 and 10 * 12 = 1 mod 17. */
  lemma SmallModulusScenario()
    ensures Pow2(64) == 18446744073709551616
    ensures ConstructChecked(64, 17).Ok?
    ensures var bk := ConstructChecked(64, 17).value;
      && bk.modulusBits == 5
      && bk.barrettAlpha == 8
      && bk.barrettConstant == 481
      && AddModFast(bk, 10, 12) == 5
      && SubModFast(bk, 10, 12) == 15
      && MulModFast(bk, 10, 12) == 1
  {
    Pow2Literals();
    BitLengthOfBounded(17, 5);
    Pow2Add(5, 8);
    assert Pow2(13) == 8192;
    DivModUnique(8192, 17, 481, 15);
    assert ExactBarrettConstant(17) == 481;
    assert WideBarrettConstant(17) == 481;
    ConstantFitsIff(64, 17);
    var bk := ConstructChecked(64, 17).value;
    assert bk == Backend(64, 17, 5, 481, 8);
    AddModFastCorrect(bk, 10, 12);
    MulModFastCorrect(bk, 10, 12);
  }

  /** 2^61 - 1 has bit length 61, so alpha = 64 and floor(2^125 / m) = 2^64 + 8,
      which narrows to 8. With that constant the quotient estimate for
      2^32 * 2^32 is 0 and the result is 2^64 narrowed to 0, while
      2^64 mod (2^61 - 1) is 8. */
  lemma NarrowedConstantBreaksMul()
    ensures Pow2(64) == 18446744073709551616 && Pow2(62) == 4611686018427387904
    ensures Construct(64, 2305843009213693951).Ok?
    ensures var bk := Construct(64, 2305843009213693951).value;
      && bk.modulusBits == 61
      && bk.barrettAlpha == 64
      && bk.barrettConstant == 8
      && MulModFast(bk, 4294967296, 4294967296) == 0
      && (4294967296 * 4294967296) % bk.modulus == 8
  {
    Pow2Literals();
    var m := 2305843009213693951;
    var a := 4294967296;
    BitLengthOfBounded(m, 61);
    var exact := 18446744073709551624;
    DivModUnique(Pow2(125), m, exact, 8);
    assert ExactBarrettConstant(m) == exact;
    assert WideBarrettConstant(m) == exact;
    NarrowIsMod(exact, 64);
    DivModUnique(exact, Pow2(64), 1, 8);
    var bk := Construct(64, m).value;
    assert bk == Backend(64, m, 61, 8, 64);
    var x := 18446744073709551616;
    DivModUnique(x, Pow2(59), 32, 0);
    DivModUnique(256, Pow2(66), 0, 256);
    NarrowIsMod(x, 64);
    DivModUnique(x, Pow2(64), 1, 0);
    MulModFastSteps(bk, a, a, x, 32, 256, 0, 0, 0);
    DivModUnique(x, m, 8, 8);
  }

  /** 2^63 has bit length 64, so `1u128 << 131` is masked to `1u128 << 3` in a
      release build and the stored constant is floor(8 / 2^63) = 0, while the
      checked construction refuses the modulus. */
  lemma OversizedModulusGetsZeroConstant()
    ensures Pow2(64) == 18446744073709551616
    ensures PrecomputeAlphaAndBarrettConstant(64, 9223372036854775808) == Ok((67, 0))
    ensures ConstructChecked(64, 9223372036854775808) == Err(ConstantOverflow)
  {
    Pow2Literals();
    var m := 9223372036854775808;
    Pow2Add(59, 4);
    BitLengthOfBounded(m, 64);
    ConstantFitsIff(64, m);
  }

  /** The checked construction refuses the same modulus. */
  lemma CheckedConstructionRefuses61BitModulus()
    ensures Pow2(64) == 18446744073709551616
    ensures ConstructChecked(64, 2305843009213693951) == Err(ConstantOverflow)
  {
    Pow2Literals();
    BitLengthOfBounded(2305843009213693951, 61);
    ConstantFitsIff(64, 2305843009213693951);
  }
}
