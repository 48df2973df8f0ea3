/**
 * Instantiations of `CalculateIntegerPower` and `FastIntegerPow` that
 * FastIntegerPowTest.cpp exercises, and the input on which the header's
 * estimate, read off the wrapped N*N, lets an overflow through.
 */
module FastIntegerPowExamples {
  import opened Wrappers
  import opened IntegerPow
  import opened IntegerPowExamples
  import opened FastIntegerPow

  lemma SixteenSquared(n: Uint64)
    requires n == 16
    ensures CalculateIntegerPower(n, 2) == Ok(256)
  {
    Pow2Literals();
    BitWidthIs(n * n, 9);
    ExponentOne(n * n);
  }

  lemma FourToTheFifth(n: Uint64)
    requires n == 4
    ensures CalculateIntegerPower(n, 5) == Ok(1024)
  {
    Pow2Literals();
    BitWidthIs(n, 3);
    BitWidthIs(n * n, 5);
    SixteenSquared(n * n);
  }

  /** `CalculateIntegerPower<2, 10>()` is 1024. */
  lemma TwoToTheTenth(n: Uint64)
    requires n == 2
    ensures CalculateIntegerPower(n, 10) == Ok(1024)
  {
    Pow2Literals();
    BitWidthIs(n * n, 3);
    FourToTheFifth(n * n);
  }

  /** (2^32)^2 = 2^64: N*N wraps to 0, every estimate reads 0 bits, and the header compiles 0. */
  lemma TwoToTheThirtyTwoSquaredWraps(n: Uint64, exp: Uint64)
    requires n == 0x1_0000_0000 && exp == 2
    ensures Pow(n, exp) >= Uint64Bound
    ensures CalculateIntegerPowerAsWritten(n, exp) == Ok(0)
    ensures CalculateIntegerPower(n, exp) == Err(EstimateTooWide)
  {
    Pow2Literals();
    assert Pow(n, exp) == n * n == Uint64Bound;
    assert Wrap(n * n) == 0;
    assert CalculateIntegerPowerAsWritten(0, 1) == Ok(0);
    BitWidthIs(n * n, 65);
  }

  /** The table of (2^32)^0 .. (2^32)^2 compiles as written, so entry 1 reads 2^32; the corrected table fails. */
  lemma TwoToTheThirtyTwoTable(n: Uint64, maxExp: Uint64, exp: nat)
    requires n == 0x1_0000_0000 && maxExp == 3 && exp == 1
    ensures FastIntegerPowAsWritten(n, maxExp, exp) == Ok(0x1_0000_0000)
    ensures FastIntegerPow.FastIntegerPow(n, maxExp, exp) == Err(EstimateTooWide)
  {
    TwoToTheThirtyTwoSquaredWraps(n, 2);
    ExponentOneAsWritten(n);
    forall i: Uint64 | i < maxExp
      ensures CalculateIntegerPowerAsWritten(n, i).Ok?
    {
      if i == 0 {
        assert CalculateIntegerPowerAsWritten(n, 0) == Ok(1);
      }
    }
    FastIntegerPowAsWrittenValue(n, maxExp, exp);
    assert Pow(n, 1) == n;
    WrapSmall(n);
    SquaredTableFails(n, maxExp);
  }

  /** The corrected table fails where its entry 2 does. */
  lemma SquaredTableFails(n: Uint64, maxExp: Uint64)
    requires maxExp == 3 && CalculateIntegerPower(n, 2) == Err(EstimateTooWide)
    ensures GenerateExpValueList(n, maxExp) == Err(EstimateTooWide)
  {
    var entry := (i: Uint64) => CalculateIntegerPower(n, i);
    assert entry(2) == Err(EstimateTooWide);
  }

  /** As written, every positive power of 0 compiles to 0. */
  lemma {:induction false} ZeroBaseAsWritten(exp: Uint64)
    ensures CalculateIntegerPowerAsWritten(0, exp) == Ok(if exp == 0 then 1 else 0)
    decreases exp
  {
    if exp != 0 {
      assert TotalBitsAsWritten(BitWidth(0), BitWidth(Wrap(0 * 0)), exp) == 0;
      ZeroBaseAsWritten(Half(exp));
      if exp % 2 == 0 {
        assert Half(exp) != 0;
      }
    }
  }

  /**
   * 65536^(2^40): the estimate 33 * 2^39 is a multiple of 2^32, so the int
   * that stores it holds 0 and the check passes; N*N*N*N then wraps to 0, and
   * the header compiles 0. Kept exact, the estimate trips.
   */
  lemma EstimateStoredInInt(n: Uint64, exp: Uint64)
    requires n == 0x1_0000 && exp == 0x100_0000_0000
    ensures CalculateIntegerPowerAsWritten(n, exp) == Ok(0)
    ensures CalculateIntegerPower(n, exp) == Err(EstimateTooWide)
  {
    Pow2Literals();
    var m := n * n;
    assert m == 0x1_0000_0000;
    BitWidthIs(n, 17);
    BitWidthIs(m, 33);
    WrapSmall(m);
    EstimateWraps(BitWidth(n), BitWidth(m), exp);
    SquareLevel(m, Half(exp));
  }

  /** The estimate of the top level: 33 * 2^39 exactly, 0 once stored in an int. */
  lemma EstimateWraps(nBits: nat, n2Bits: nat, exp: Uint64)
    requires nBits == 17 && n2Bits == 33 && exp == 0x100_0000_0000
    ensures TotalBits(nBits, n2Bits, exp) == 33 * 0x80_0000_0000
    ensures TotalBitsAsWritten(nBits, n2Bits, exp) == 0
  {
    assert Wrap(n2Bits * exp) == 33 * 0x100_0000_0000;
  }

  /** (2^32)^(2^39): N*N wraps to 0, so the level reads 0 bits and recurses on 0. */
  lemma SquareLevel(m: Uint64, exp: Uint64)
    requires m == 0x1_0000_0000 && exp == 0x80_0000_0000
    ensures CalculateIntegerPowerAsWritten(m, exp) == Ok(0)
  {
    assert Wrap(m * m) == 0;
    assert TotalBitsAsWritten(BitWidth(m), BitWidth(Wrap(m * m)), exp) == 0;
    ZeroBaseAsWritten(Half(exp));
  }

  // The tables of powers of ten: 10^e compiles for e < 19, 10^19 does not.

  lemma TenToTheEighthLevel(k: Uint64)
    requires k <= 2
    ensures CalculateIntegerPower(100_000_000, k).Ok?
  {
    if k == 2 {
      Pow2Literals();
      BitWidthIs(10_000_000_000_000_000, 54);
      ExponentOne(10_000_000_000_000_000);
    } else if k == 1 {
      ExponentOne(100_000_000);
    }
  }

  lemma TenToTheFourthLevel(k: Uint64)
    requires k <= 4
    ensures CalculateIntegerPower(10_000, k).Ok?
  {
    Pow2Literals();
    BitWidthIs(10_000, 14);
    BitWidthIs(100_000_000, 27);
    TenToTheEighthLevel(Half(k));
  }

  lemma HundredLevel(k: Uint64)
    requires k <= 9
    ensures CalculateIntegerPower(100, k).Ok?
  {
    Pow2Literals();
    BitWidthIs(100, 7);
    BitWidthIs(10_000, 14);
    TenToTheFourthLevel(Half(k));
  }

  /** 10^e compiles for every e < 19: at e = 17 and e = 18 the estimate is 63 bits. */
  lemma PowerOfTenCompiles(e: Uint64)
    requires e < 19
    ensures CalculateIntegerPower(10, e).Ok?
  {
    Pow2Literals();
    BitWidthIs(10, 4);
    BitWidthIs(100, 7);
    HundredLevel(Half(e));
  }

  /** 10^19: the estimate 4 + 7 * 9 = 67 bits trips at the top level. */
  lemma TenToTheNineteenRejected(n: Uint64, exp: Uint64)
    requires n == 10 && exp == 19
    ensures CalculateIntegerPower(n, exp) == Err(EstimateTooWide)
    ensures CalculateIntegerPowerAsWritten(n, exp) == Err(EstimateTooWide)
  {
    Pow2Literals();
    BitWidthIs(n, 4);
    BitWidthIs(n * n, 7);
    assert TotalBits(BitWidth(n), BitWidth(n * n), exp) == 67;
    WrapSmall(n * n);
    TotalBitsExact(BitWidth(n), BitWidth(Wrap(n * n)), exp);
  }

  lemma TenTableCompiles(n: Uint64, maxExp: Uint64)
    requires n == 10 && maxExp <= 19
    ensures GenerateExpValueList(n, maxExp).Ok?
  {
    forall i: Uint64 | i < maxExp
      ensures CalculateIntegerPower(n, i).Ok?
    {
      PowerOfTenCompiles(i);
    }
    ValueListCompiles(n, maxExp);
  }

  /** `FastIntegerPow<10, 19>(exp)`: 10^exp for exp < 19, and 0 from 19 on. */
  lemma PowersOfTenTable(n: Uint64, exp: nat)
    requires n == 10
    ensures exp < 19 ==> FastIntegerPow.FastIntegerPow(n, 19, exp) == Ok(Pow(n, exp))
    ensures exp >= 19 ==> FastIntegerPow.FastIntegerPow(n, 19, exp) == Ok(0)
  {
    TenTableCompiles(n, 19);
    FastIntegerPowValue(n, 19, exp);
  }

  /** `FastIntegerPow<10, 20>` does not compile: its table holds 10^19. */
  lemma TwentyPowersOfTenRejected(n: Uint64, exp: nat)
    requires n == 10
    ensures FastIntegerPow.FastIntegerPow(n, 20, exp).Err?
  {
    TenToTheNineteenRejected(n, 19);
    ValueListCompiles(n, 20);
    FastIntegerPowValue(n, 20, exp);
  }

  lemma NineLevel(n: Uint64, k: Uint64)
    requires n == 9 && k <= 2
    ensures CalculateIntegerPower(n, k).Ok?
  {
    if k == 2 {
      Pow2Literals();
      BitWidthIs(n * n, 7);
      ExponentOne(n * n);
    } else if k == 1 {
      ExponentOne(n);
    }
  }

  lemma PowerOfThreeCompiles(n: Uint64, i: Uint64)
    requires n == 3 && i < 5
    ensures CalculateIntegerPower(n, i).Ok?
  {
    if i >= 2 {
      Pow2Literals();
      BitWidthIs(n, 2);
      BitWidthIs(n * n, 4);
      NineLevel(n * n, Half(i));
    } else if i == 1 {
      ExponentOne(n);
    }
  }

  lemma Lookups(n: Uint64)
    requires n == 10
    ensures FastIntegerPow.FastIntegerPow(3, 5, 4) == Ok(81)
    ensures FastIntegerPow.FastIntegerPow(n, 15, 12) == Ok(1_000_000_000_000)
    ensures FastIntegerPow.FastIntegerPow(n, 10, 10) == Ok(0)
  {
    forall i: Uint64 | i < 5
      ensures CalculateIntegerPower(3, i).Ok?
    {
      PowerOfThreeCompiles(3, i);
    }
    ValueListCompiles(3, 5);
    FastIntegerPowValue(3, 5, 4);
    TenPowers(n);
    TenTableCompiles(n, 15);
    FastIntegerPowValue(n, 15, 12);
    TenTableCompiles(n, 10);
    FastIntegerPowValue(n, 10, 10);
  }
}
