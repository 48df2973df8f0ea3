/**
 * Instantiations of `CalculateIntegerPow` and `LookupIntegerPow` that
 * IntegerPowTest.cpp exercises, and the two inputs on which the header's
 * estimate lets a wrapped product through.
 */
module IntegerPowExamples {
  import opened Wrappers
  import opened IntegerPow

  /** The powers of two the bit widths below are read against. */
  lemma Pow2Literals()
    ensures Pow2(3) == 8 && Pow2(4) == 16 && Pow2(5) == 32 && Pow2(6) == 64 && Pow2(7) == 128
    ensures Pow2(8) == 0x100 && Pow2(9) == 0x200 && Pow2(10) == 0x400
    ensures Pow2(11) == 0x800 && Pow2(12) == 0x1000 && Pow2(13) == 0x2000 && Pow2(14) == 0x4000
    ensures Pow2(15) == 0x8000 && Pow2(16) == 0x1_0000
    ensures Pow2(26) == 0x400_0000 && Pow2(27) == 0x800_0000 && Pow2(28) == 0x1000_0000
    ensures Pow2(31) == 0x8000_0000 && Pow2(32) == 0x1_0000_0000
    ensures Pow2(53) == 0x20_0000_0000_0000 && Pow2(54) == 0x40_0000_0000_0000
    ensures Pow2(55) == 0x80_0000_0000_0000 && Pow2(56) == 0x100_0000_0000_0000
    ensures Pow2(63) == 0x8000_0000_0000_0000 && Pow2(64) == Uint64Bound
  {
    assert Pow2(8) == 0x100;
    assert Pow2(16) == 0x1_0000;
    assert Pow2(24) == 0x100_0000;
    assert Pow2(28) == 0x1000_0000;
    assert Pow2(32) == 0x1_0000_0000;
    assert Pow2(40) == 0x100_0000_0000;
    assert Pow2(48) == 0x1_0000_0000_0000;
    assert Pow2(54) == 0x40_0000_0000_0000;
    assert Pow2(60) == 0x1000_0000_0000_0000;
    assert Pow2(64) == Uint64Bound;
  }

  lemma {:induction false} PowExponentMonotone(n: nat, a: nat, b: nat)
    requires n >= 1 && a <= b
    ensures Pow(n, a) <= Pow(n, b)
    decreases b
  {
    if a < b {
      PowExponentMonotone(n, a, b - 1);
      MulMonotone(1, n, Pow(n, b - 1), Pow(n, b - 1));
    }
  }

  lemma PowersOfTwo()
    ensures CalculateIntegerPow(2, 2) == Ok(4) && CalculateIntegerPow(2, 8) == Ok(256)
    ensures CalculateIntegerPow(2, 10) == Ok(1024)
    ensures CalculateIntegerPow(2, 16) == Ok(0x1_0000) && CalculateIntegerPow(2, 32) == Ok(0x1_0000_0000)
    ensures CalculateIntegerPow(2, 63) == Ok(9_223_372_036_854_775_808)
    ensures CalculateIntegerPow(2, 64) == Err(ShiftTooWide)
  {
    Pow2Literals();
  }

  /** 4^31 = 2^62 compiles; 4^32 = 2^64 trips the estimate at N = 256. */
  lemma PowersOfFour()
    ensures CalculateIntegerPow(4, 31) == Ok(0x4000_0000_0000_0000)
    ensures CalculateIntegerPow(4, 32) == Err(EstimateTooWide)
  {
    Pow2Literals();
    BitWidthIs(15, 4);
    BitWidthIs(255, 8);
    BitWidthIs(0xFFFF, 16);
    BitWidthIs(0xFFFF_FFFF, 32);
    assert CalculateIntegerPow(0x1_0000_0000, 1) == Ok(0x1_0000_0000);
    assert CalculateIntegerPow(0x1_0000, 3) == Ok(0x1_0000_0000_0000);
    assert CalculateIntegerPow(256, 7) == Ok(0x100_0000_0000_0000);
    assert CalculateIntegerPow(16, 15) == Ok(0x1000_0000_0000_0000);
    assert CalculateIntegerPow(256, 8) == Err(EstimateTooWide);
    assert CalculateIntegerPow(16, 16) == Err(EstimateTooWide);
  }

  /** 100^2 = 10000; 10^21 trips the estimate at N = 100. */
  lemma PowersOfAHundred()
    ensures CalculateIntegerPow(100, 2) == Ok(10000)
    ensures CalculateIntegerPow(10, 21) == Err(EstimateTooWide)
  {
    Pow2Literals();
    BitWidthIs(9, 4);
    BitWidthIs(99, 7);
    BitWidthIs(9999, 14);
    assert CalculateIntegerPow(100, 10) == Err(EstimateTooWide);
  }

  /** The levels below N = 11 in 11^19 all pass their estimates. */
  lemma ElevenLevels(m: Uint64, k: Uint64)
    requires m == 121 && k == 9
    ensures CalculateIntegerPow(m, k).Ok?
  {
    Pow2Literals();
    BitWidthIs(120, 7);
    BitWidthIs(14640, 14);
    BitWidthIs(214358880, 28);
    BitWidthIs(45949729863572160, 56);
    assert CalculateIntegerPow(214358881, 2).Ok?;
    assert CalculateIntegerPow(14641, 4).Ok?;
  }

  lemma ElevenToTheNineteen(n: nat)
    requires n == 11
    ensures Pow(n, 19) == 61159090448414546291
    ensures Pow(n, 19) == n * Pow(n * n, 9)
  {
    PowSplit(n, 19);
    assert Pow(11, 8) == 214358881;
    assert Pow(11, 16) == 45949729863572161;
    assert Pow(11, 19) == 61159090448414546291;
  }

  /** The top level of 11^19: N = 11 is unchecked, and the level below compiles to 121^9. */
  lemma ElevenTopLevel(n: Uint64, exp: Uint64)
    requires n == 11 && exp == 19
    ensures BitWidth(n - 1) == 4 && BitWidth(Wrap(Wrap(n * n) - 1)) == 7
    ensures CalculateIntegerPowAsWritten(Wrap(n * n), Half(exp)) == Ok(Pow(n * n, Half(exp)))
  {
    Pow2Literals();
    var m, k := n * n, Half(exp);
    WrapSmall(m);
    WrapSmall(m - 1);
    BitWidthIs(n - 1, 4);
    BitWidthIs(m - 1, 7);
    ElevenLevels(m, k);
    CalculateIntegerPowIsExact(m, k);
    CorrectionOnlyRejects(m, k);
  }

  lemma ElevenAsWritten(n: Uint64, exp: Uint64)
    requires n == 11 && exp == 19
    ensures CalculateIntegerPowAsWritten(n, exp).Ok?
    ensures CalculateIntegerPowAsWritten(n, exp).value == Wrap(n * Pow(n * n, Half(exp)))
  {
    ElevenTopLevel(n, exp);
    AsWrittenOkStep(n, exp, 4, 7);
    AsWrittenStep(n, exp);
    WrapSmall(n * n);
  }

  /** 11^19 overflows 2^64, but every checked level's estimate passes, so the header compiles the residue. */
  lemma ElevenToTheNineteenWraps(n: Uint64, exp: Uint64)
    requires n == 11 && exp == 19
    ensures Pow(n, exp) >= Uint64Bound
    ensures CalculateIntegerPowAsWritten(n, exp) == Ok(5_818_858_227_285_891_443)
    ensures CalculateIntegerPow(n, exp).Err?
  {
    ElevenToTheNineteen(n);
    assert Half(exp) == 9;
    ElevenAsWritten(n, exp);
    assert n * Pow(n * n, Half(exp)) == 61159090448414546291;
    assert Wrap(61159090448414546291) == 5_818_858_227_285_891_443;
    CalculateIntegerPowIsExact(n, exp);
  }

  /** (2^64 - 1)^2: N*N wraps to 1, so the header sees an unchecked level and compiles 1. */
  lemma MaxSquaredWraps(n: Uint64, exp: Uint64)
    requires n == Uint64Bound - 1 && exp == 2
    ensures CalculateIntegerPowAsWritten(n, exp) == Ok(1)
    ensures CalculateIntegerPow(n, exp) == Err(BaseTooWide)
  {
    MaxSquaredAsWritten(n);
    MaxSquaredChecked(n);
  }

  /** As written: bit_width(N*N-1) of the wrapped product is 0, and (N*N)^1 with N*N wrapped to 1 is 1. */
  lemma MaxSquaredAsWritten(n: Uint64)
    requires n == Uint64Bound - 1
    ensures CalculateIntegerPowAsWritten(n, 2) == Ok(1)
  {
    assert Wrap(n * n) == 1;
    assert Wrap(Wrap(n * n) - 1) == 0;
    assert CalculateIntegerPowAsWritten(1, 1) == Ok(1);
  }

  /** Over the exact N*N the level is checked, and N is too wide. */
  lemma MaxSquaredChecked(n: Uint64)
    requires n == Uint64Bound - 1
    ensures CalculateIntegerPow(n, 2) == Err(BaseTooWide)
  {
    var nBits := BitWidth(n - 1);
    var n2Bits := BitWidth(n * n - 1);
    assert nBits == 64 by {
      PowTwoValues();
      BitWidthIs(n - 1, 64);
    }
    assert n2Bits > CheckN2BitCount by {
      PowTwoValues();
      assert Pow2(9) == 0x200;
      BitWidthIs(0x100, 9);
      BitWidthMonotone(0x100, n * n - 1);
    }
  }

  /**
   * The table of (2^64 - 1)^0 .. (2^64 - 1)^2: the header's lookup compiles
   * and reads entry 2 as 1; the corrected lookup refuses the table.
   */
  lemma MaxTableWraps(n: Uint64, maxExp: Uint64, exp: nat)
    requires n == Uint64Bound - 1 && maxExp == 3 && exp == 2
    ensures LookupIntegerPowAsWritten(n, maxExp, exp) == Ok(1)
    ensures LookupIntegerPow(n, maxExp, exp) == Err(BaseTooWide)
  {
    MaxSquaredWraps(n, 2);
    forall i: Uint64 | i < maxExp
      ensures CalculateIntegerPowAsWritten(n, i).Ok?
    {
    }
    LookupIntegerPowAsWrittenValue(n, maxExp, exp);
    assert Pow(n, 1) == n;
    assert Pow(n, exp) == n * Pow(n, 1);
    TableEntries((i: Uint64) => CalculateIntegerPow(n, i), maxExp);
    MaxTableFails(n, maxExp);
  }

  /** The corrected table fails where its entry 2 does. */
  lemma MaxTableFails(n: Uint64, maxExp: Uint64)
    requires n == Uint64Bound - 1 && maxExp == 3 && CalculateIntegerPow(n, 2) == Err(BaseTooWide)
    ensures GenerateIntegerPowTable(n, maxExp) == Err(BaseTooWide)
  {
    var entry := (i: Uint64) => CalculateIntegerPow(n, i);
    assert entry(2) == Err(BaseTooWide);
  }

  // The tables of powers of ten: every 10^i with i < 20 compiles.

  lemma TenToTheEighthLevel(k: Uint64)
    requires k <= 2
    ensures CalculateIntegerPow(100_000_000, k).Ok?
  {
    Pow2Literals();
    BitWidthIs(99_999_999, 27);
    BitWidthIs(9_999_999_999_999_999, 54);
  }

  lemma TenToTheFourthLevel(k: Uint64)
    requires k <= 4
    ensures CalculateIntegerPow(10_000, k).Ok?
  {
    Pow2Literals();
    BitWidthIs(9999, 14);
    BitWidthIs(99_999_999, 27);
    TenToTheEighthLevel(Half(k));
  }

  lemma HundredLevel(k: Uint64)
    requires k <= 9
    ensures CalculateIntegerPow(100, k).Ok?
  {
    Pow2Literals();
    BitWidthIs(99, 7);
    BitWidthIs(9999, 14);
    TenToTheFourthLevel(Half(k));
  }

  /** 10^e compiles for every e < 20: the last odd level multiplies 10 by at most 10^18. */
  lemma PowerOfTenCompiles(e: Uint64)
    requires e < 20
    ensures CalculateIntegerPow(10, e).Ok?
  {
    if e >= 2 {
      var k := Half(e);
      Pow2Literals();
      BitWidthIs(9, 4);
      BitWidthIs(99, 7);
      HundredLevel(k);
      CalculateIntegerPowIsExact(100, k);
      PowExponentMonotone(100, k, 9);
      assert Pow(100, 4) == 100_000_000;
      assert Pow(100, 9) == 1_000_000_000_000_000_000;
    }
  }

  lemma TenTableCompiles(n: Uint64, maxExp: Uint64)
    requires n == 10 && maxExp <= 20
    ensures GenerateIntegerPowTable(n, maxExp).Ok?
  {
    forall i: Uint64 | i < maxExp
      ensures CalculateIntegerPow(n, i).Ok?
    {
      PowerOfTenCompiles(i);
    }
    IntegerPowTableCompiles(n, maxExp);
  }

  /** `LookupIntegerPow<10, 20>(exp)`: 10^exp for exp < 20, and 0 from 20 on. */
  lemma PowersOfTenTable(n: Uint64, exp: nat)
    requires n == 10
    ensures exp < 20 ==> LookupIntegerPow(n, 20, exp) == Ok(Pow(n, exp))
    ensures exp >= 20 ==> LookupIntegerPow(n, 20, exp) == Ok(0)
  {
    TenTableCompiles(n, 20);
    LookupIntegerPowValue(n, 20, exp);
  }

  lemma PowerOfThreeCompiles(i: Uint64)
    requires i < 5
    ensures CalculateIntegerPow(3, i).Ok?
  {
    if i >= 2 {
      BitWidthIs(2, 2);
      BitWidthIs(8, 4);
      BitWidthIs(80, 7);
      var k := Half(i);
      assert CalculateIntegerPow(9, k).Ok? && CalculateIntegerPow(9, k).value <= 81;
    }
  }

  lemma FortyNineLevel(k: Uint64)
    requires k <= 2
    ensures CalculateIntegerPow(49, k).Ok? && CalculateIntegerPow(49, k).value <= 2401
  {
    Pow2Literals();
    BitWidthIs(48, 6);
    BitWidthIs(2400, 12);
  }

  lemma PowerOfSevenCompiles(i: Uint64)
    requires i < 6
    ensures CalculateIntegerPow(7, i).Ok?
  {
    if i >= 2 {
      BitWidthIs(6, 3);
      BitWidthIs(48, 6);
      FortyNineLevel(Half(i));
    }
  }

  lemma SmallLookups()
    ensures LookupIntegerPow(3, 5, 4) == Ok(81)
    ensures LookupIntegerPow(7, 6, 5) == Ok(16807)
  {
    forall i: Uint64 | i < 5
      ensures CalculateIntegerPow(3, i).Ok?
    {
      PowerOfThreeCompiles(i);
    }
    forall i: Uint64 | i < 6
      ensures CalculateIntegerPow(7, i).Ok?
    {
      PowerOfSevenCompiles(i);
    }
    IntegerPowTableCompiles(3, 5);
    IntegerPowTableCompiles(7, 6);
    LookupIntegerPowValue(3, 5, 4);
    LookupIntegerPowValue(7, 6, 5);
  }

  lemma TenPowers(n: nat)
    requires n == 10
    ensures Pow(n, 12) == 1_000_000_000_000
    ensures Pow(n, 19) == 10_000_000_000_000_000_000
  {
    assert Pow(10, 8) == 100_000_000;
    assert Pow(10, 12) == 1_000_000_000_000;
    assert Pow(10, 19) == 10_000_000_000_000_000_000;
  }

  lemma TenLookups(n: Uint64)
    requires n == 10
    ensures LookupIntegerPow(n, 15, 12) == Ok(1_000_000_000_000)
    ensures LookupIntegerPow(n, 20, 19) == Ok(10_000_000_000_000_000_000)
    ensures LookupIntegerPow(n, 10, 10) == Ok(0)
  {
    TenPowers(n);
    TenTableCompiles(n, 15);
    LookupIntegerPowValue(n, 15, 12);
    PowersOfTenTable(n, 19);
    TenTableCompiles(n, 10);
    LookupIntegerPowValue(n, 10, 10);
  }
}
