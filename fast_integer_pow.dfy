/**
 * `ies::CalculateIntegerPower<N, Exp>()` (FastIntegerPow.hxx): N^Exp in
 * uint64_t by squaring, where every level of the recursion checks, with a
 * static_assert, that bit_width(N) + bit_width(N*N) * (Exp-1)/2 (odd Exp) or
 * bit_width(N*N) * Exp/2 (even Exp) stays within 64 bits.
 * `FastIntegerPow<N, MaxExp>(exp)` reads a table of N^0 .. N^(MaxExp-1).
 *
 * `CalculateIntegerPowerAsWritten` takes bit_width of the uint64_t product
 * N*N, which wraps for N >= 2^32 (see
 * `FastIntegerPowExamples.TwoToTheThirtyTwoSquaredWraps`);
 * `CalculateIntegerPower` takes it of the exact product and is the one the
 * table uses.
 */
module FastIntegerPow {
  import opened Wrappers
  import opened IntegerPow

  /** `CalculateIntegerPower<N, Exp>()` as the header writes it. */
  function CalculateIntegerPowerAsWritten(n: Uint64, exp: Uint64): Result<Uint64, StaticAssert>
    decreases exp
  {
    var n2Bits := BitWidth(Wrap(n * n));
    if exp % 2 == 1 then
      if TotalBitsAsWritten(BitWidth(n), n2Bits, exp) > MaxBitCount then Err(EstimateTooWide)
      else
        match CalculateIntegerPowerAsWritten(Wrap(n * n), Half(exp))
        case Err(e) => Err(e)
        case Ok(rest) => Ok(Wrap(n * rest))
    else if exp != 0 then
      if TotalBitsAsWritten(BitWidth(n), n2Bits, exp) > MaxBitCount then Err(EstimateTooWide)
      else CalculateIntegerPowerAsWritten(Wrap(n * n), Half(exp))
    else Ok(1)
  }

  /** `CalculateIntegerPower<N, Exp>()` with bit_width taken of the exact N*N and the estimate kept exact. */
  function CalculateIntegerPower(n: Uint64, exp: Uint64): Result<Uint64, StaticAssert>
    decreases exp
  {
    var n2Bits := BitWidth(n * n);
    if exp % 2 == 1 then
      if TotalBits(BitWidth(n), n2Bits, exp) > MaxBitCount then Err(EstimateTooWide)
      else
        match CalculateIntegerPower(Wrap(n * n), Half(exp))
        case Err(e) => Err(e)
        case Ok(rest) => Ok(Wrap(n * rest))
    else if exp != 0 then
      if TotalBits(BitWidth(n), n2Bits, exp) > MaxBitCount then Err(EstimateTooWide)
      else CalculateIntegerPower(Wrap(n * n), Half(exp))
    else Ok(1)
  }

  /** `Detail::GenerateExpValueList<N, MaxExp>`: [N^0, ..., N^(MaxExp-1)]. */
  function GenerateExpValueList(n: Uint64, maxExp: Uint64): Result<seq<Uint64>, StaticAssert>
  {
    PowTable((i: Uint64) => CalculateIntegerPower(n, i), maxExp)
  }

  /** `FastIntegerPow<N, MaxExp>(exp)`: the table entry, or 0 when exp >= MaxExp. */
  function FastIntegerPow(n: Uint64, maxExp: Uint64, exp: nat): Result<Uint64, StaticAssert>
  {
    match GenerateExpValueList(n, maxExp)
    case Err(e) => Err(e)
    case Ok(table) =>
      if exp >= maxExp then Ok(0)
      else (ValueListLength(n, maxExp); Ok(table[exp]))
  }

  /** `Detail::GenerateExpValueList<N, MaxExp>` as the header builds it. */
  function GenerateExpValueListAsWritten(n: Uint64, maxExp: Uint64): Result<seq<Uint64>, StaticAssert>
  {
    PowTable((i: Uint64) => CalculateIntegerPowerAsWritten(n, i), maxExp)
  }

  /** `FastIntegerPow<N, MaxExp>(exp)` as the header builds it. */
  function FastIntegerPowAsWritten(n: Uint64, maxExp: Uint64, exp: nat): Result<Uint64, StaticAssert>
  {
    match GenerateExpValueListAsWritten(n, maxExp)
    case Err(e) => Err(e)
    case Ok(table) =>
      if exp >= maxExp then Ok(0)
      else (ValueListLengthAsWritten(n, maxExp); Ok(table[exp]))
  }

  // Arithmetic of the estimate.

  lemma PowPositive(c: nat, k: nat)
    requires c >= 1
    ensures Pow(c, k) >= 1
  {
    PowBaseMonotone(1, c, k);
    PowOfOne(k);
  }

  lemma MulStrict(a: nat, b: nat, c: nat)
    requires a < b && c >= 1
    ensures a * c < b * c
  {
  }

  lemma {:induction false} PowBaseStrict(a: nat, c: nat, k: nat)
    requires a < c && k >= 1
    ensures Pow(a, k) < Pow(c, k)
    decreases k
  {
    PowPositive(c, k - 1);
    PowBaseMonotone(a, c, k - 1);
    MulMonotone(a, a, Pow(a, k - 1), Pow(c, k - 1));
    MulStrict(a, c, Pow(c, k - 1));
  }

  /** bit_width(N) and bit_width(N*N) bound N^Exp strictly by 2^estimate. */
  lemma LevelBound(n: nat, exp: nat, nBits: nat, n2Bits: nat)
    requires exp >= 1 && n < Pow2(nBits) && n * n < Pow2(n2Bits)
    ensures Pow(n, exp) < Pow2(TotalBits(nBits, n2Bits, exp))
  {
    var k := exp / 2;
    PowSplit(n, exp);
    Pow2Mul(n2Bits, k);
    HalfOfEven(n2Bits, k);
    if exp % 2 == 1 {
      assert exp - 1 == 2 * k;
      PowBaseMonotone(n * n, Pow2(n2Bits), k);
      Pow2Monotone(0, n2Bits * k);
      MulMonotone(n, n, Pow(n * n, k), Pow2(n2Bits * k));
      MulStrict(n, Pow2(nBits), Pow2(n2Bits * k));
      Pow2Add(nBits, n2Bits * k);
    } else {
      assert exp == 2 * k;
      PowBaseStrict(n * n, Pow2(n2Bits), k);
    }
  }

  /** From Exp = 2 on, the estimate counts bit_width(N*N) at least once. */
  lemma EstimateCoversSquare(nBits: nat, n2Bits: nat, exp: nat)
    requires exp >= 2
    ensures n2Bits <= TotalBits(nBits, n2Bits, exp)
  {
    var k := exp / 2;
    HalfOfEven(n2Bits, k);
    MulMonotone(1, k, n2Bits, n2Bits);
    if exp % 2 == 1 {
      assert exp - 1 == 2 * k;
    } else {
      assert exp == 2 * k;
    }
  }

  /** A level within 64 bits of estimate: N^Exp fits. */
  lemma EstimateFits(n: Uint64, exp: Uint64, nBits: nat, n2Bits: nat)
    requires exp >= 1 && nBits == BitWidth(n) && n2Bits == BitWidth(n * n)
    requires TotalBits(nBits, n2Bits, exp) <= MaxBitCount
    ensures Pow(n, exp) < Uint64Bound
  {
    BitWidthBounds(n);
    BitWidthBounds(n * n);
    LevelBound(n, exp, nBits, n2Bits);
    Pow2Monotone(TotalBits(nBits, n2Bits, exp), MaxBitCount);
    PowTwoValues();
  }

  /** A level within 64 bits of estimate that recurses on N*N: N*N fits. */
  lemma EstimateSquareFits(n: Uint64, exp: Uint64, nBits: nat, n2Bits: nat)
    requires exp >= 2 && n2Bits == BitWidth(n * n)
    requires TotalBits(nBits, n2Bits, exp) <= MaxBitCount
    ensures n * n < Uint64Bound
  {
    BitWidthBounds(n * n);
    EstimateCoversSquare(nBits, n2Bits, exp);
    Pow2Monotone(n2Bits, MaxBitCount);
    PowTwoValues();
  }

  // Properties of CalculateIntegerPower.

  /** One level of the header's recursion. */
  lemma AsWrittenStep(n: Uint64, exp: Uint64)
    requires exp >= 1
    requires CalculateIntegerPowerAsWritten(n, exp).Ok?
    ensures CalculateIntegerPowerAsWritten(Wrap(n * n), Half(exp)).Ok?
    ensures exp % 2 == 1 ==>
      CalculateIntegerPowerAsWritten(n, exp).value == Wrap(n * CalculateIntegerPowerAsWritten(Wrap(n * n), Half(exp)).value)
    ensures exp % 2 == 0 ==>
      CalculateIntegerPowerAsWritten(n, exp).value == CalculateIntegerPowerAsWritten(Wrap(n * n), Half(exp)).value
  {
  }

  /** As written, what compiles is N^Exp modulo 2^64. */
  lemma {:induction false} AsWrittenIsModular(n: Uint64, exp: Uint64)
    ensures CalculateIntegerPowerAsWritten(n, exp).Ok? ==> CalculateIntegerPowerAsWritten(n, exp).value == Wrap(Pow(n, exp))
    decreases exp
  {
    if CalculateIntegerPowerAsWritten(n, exp).Ok? && exp >= 1 {
      AsWrittenStep(n, exp);
      AsWrittenIsModular(Wrap(n * n), Half(exp));
      ModularStep(n, exp, CalculateIntegerPowerAsWritten(Wrap(n * n), Half(exp)).value);
    }
  }

  /** One level of the corrected recursion, with the estimate it passed. */
  lemma CorrectedStep(n: Uint64, exp: Uint64)
    requires exp >= 1
    requires CalculateIntegerPower(n, exp).Ok?
    ensures TotalBits(BitWidth(n), BitWidth(n * n), exp) <= MaxBitCount
    ensures CalculateIntegerPower(Wrap(n * n), Half(exp)).Ok?
    ensures exp % 2 == 1 ==>
      CalculateIntegerPower(n, exp).value == Wrap(n * CalculateIntegerPower(Wrap(n * n), Half(exp)).value)
    ensures exp % 2 == 0 ==>
      CalculateIntegerPower(n, exp).value == CalculateIntegerPower(Wrap(n * n), Half(exp)).value
  {
  }

  /** With the estimate passed, the level's result is N^Exp. */
  lemma ExactStep(n: Uint64, exp: Uint64, rest: nat)
    requires exp >= 1 && rest == Pow(Wrap(n * n), Half(exp))
    requires TotalBits(BitWidth(n), BitWidth(n * n), exp) <= MaxBitCount
    ensures exp % 2 == 1 ==> Wrap(n * rest) == Pow(n, exp)
    ensures exp % 2 == 0 ==> rest == Pow(n, exp)
  {
    EstimateFits(n, exp, BitWidth(n), BitWidth(n * n));
    PowSplit(n, exp);
    if exp >= 2 {
      EstimateSquareFits(n, exp, BitWidth(n), BitWidth(n * n));
      WrapSmall(n * n);
    }
    if exp % 2 == 1 {
      assert n * rest == Pow(n, exp);
      WrapSmall(n * rest);
    }
  }

  /** What the corrected CalculateIntegerPower compiles is exactly N^Exp. */
  lemma {:induction false} CalculateIntegerPowerIsExact(n: Uint64, exp: Uint64)
    ensures CalculateIntegerPower(n, exp).Ok? ==> CalculateIntegerPower(n, exp).value == Pow(n, exp)
    decreases exp
  {
    if CalculateIntegerPower(n, exp).Ok? && exp >= 1 {
      CorrectedStep(n, exp);
      CalculateIntegerPowerIsExact(Wrap(n * n), Half(exp));
      ExactStep(n, exp, CalculateIntegerPower(Wrap(n * n), Half(exp)).value);
    }
  }

  /** Where the exact N*N matters, the estimate has already bounded it below 2^64. */
  lemma AsWrittenEstimate(n: Uint64, exp: Uint64)
    requires exp >= 1 && TotalBits(BitWidth(n), BitWidth(n * n), exp) <= MaxBitCount
    ensures TotalBitsAsWritten(BitWidth(n), BitWidth(Wrap(n * n)), exp) == TotalBits(BitWidth(n), BitWidth(n * n), exp)
  {
    if exp >= 2 {
      EstimateSquareFits(n, exp, BitWidth(n), BitWidth(n * n));
      WrapSmall(n * n);
    } else {
      assert exp == 1;
    }
    TotalBitsExact(BitWidth(n), BitWidth(Wrap(n * n)), exp);
  }

  /** A level of the header whose estimate passes and whose next level compiles, compiles. */
  lemma AsWrittenOkStep(n: Uint64, exp: Uint64)
    requires exp >= 1
    requires TotalBitsAsWritten(BitWidth(n), BitWidth(Wrap(n * n)), exp) <= MaxBitCount
    requires CalculateIntegerPowerAsWritten(Wrap(n * n), Half(exp)).Ok?
    ensures CalculateIntegerPowerAsWritten(n, exp).Ok?
  {
  }

  /** Where both compile, they agree: N^Exp fits, so its residue is itself. */
  lemma SameValue(n: Uint64, exp: Uint64)
    requires CalculateIntegerPower(n, exp).Ok? && CalculateIntegerPowerAsWritten(n, exp).Ok?
    ensures CalculateIntegerPowerAsWritten(n, exp) == CalculateIntegerPower(n, exp)
  {
    AsWrittenIsModular(n, exp);
    CalculateIntegerPowerIsExact(n, exp);
    WrapSmall(Pow(n, exp));
  }

  /** The correction only rejects: whatever it compiles, the header compiles to the same value. */
  lemma {:induction false} CorrectionOnlyRejects(n: Uint64, exp: Uint64)
    ensures CalculateIntegerPower(n, exp).Ok? ==> CalculateIntegerPowerAsWritten(n, exp) == CalculateIntegerPower(n, exp)
    decreases exp
  {
    if CalculateIntegerPower(n, exp).Ok? && exp >= 1 {
      CorrectedStep(n, exp);
      CorrectionOnlyRejects(Wrap(n * n), Half(exp));
      AsWrittenEstimate(n, exp);
      AsWrittenOkStep(n, exp);
      SameValue(n, exp);
    }
  }

  lemma BitWidthFits(n: Uint64)
    ensures BitWidth(n) <= MaxBitCount
  {
    PowTwoValues();
    BitWidthIs(Uint64Bound - 1, MaxBitCount);
    BitWidthMonotone(n, Uint64Bound - 1);
  }

  /** Every N fits in 64 bits, so N^1 always compiles, to N. */
  lemma ExponentOne(n: Uint64)
    ensures CalculateIntegerPower(n, 1) == Ok(n)
  {
    BitWidthFits(n);
    assert TotalBits(BitWidth(n), BitWidth(n * n), 1) == BitWidth(n);
    assert CalculateIntegerPower(Wrap(n * n), 0) == Ok(1);
    WrapSmall(n);
  }

  /** As written too, N^1 compiles to N: the estimate is N's own width, which no wrap-around touches. */
  lemma ExponentOneAsWritten(n: Uint64)
    ensures CalculateIntegerPowerAsWritten(n, 1) == Ok(n)
  {
    BitWidthFits(n);
    var sq := Wrap(n * n);
    EstimateOfFirstPower(BitWidth(n), BitWidth(sq));
    assert Half(1) == 0;
    assert CalculateIntegerPowerAsWritten(sq, 0) == Ok(1);
    assert n * 1 == n;
    WrapSmall(n);
  }

  /** For Exp = 1 the estimate is nBits + n2Bits*0/2, nBits itself. */
  lemma EstimateOfFirstPower(nBits: nat, n2Bits: nat)
    requires nBits <= MaxBitCount
    ensures TotalBitsAsWritten(nBits, n2Bits, 1) == nBits
  {
    assert n2Bits * (1 - 1) == 0;
    WrapSmall(nBits);
  }

  // Properties of the table and the lookup.

  lemma ValueListLength(n: Uint64, maxExp: Uint64)
    ensures GenerateExpValueList(n, maxExp).Ok? ==> |GenerateExpValueList(n, maxExp).value| == maxExp
  {
    TableEntries((i: Uint64) => CalculateIntegerPower(n, i), maxExp);
  }

  /** The table compiles exactly when every N^i with i < MaxExp does. */
  lemma ValueListCompiles(n: Uint64, maxExp: Uint64)
    ensures GenerateExpValueList(n, maxExp).Ok? <==> forall i: Uint64 :: i < maxExp ==> CalculateIntegerPower(n, i).Ok?
  {
    var entry := (i: Uint64) => CalculateIntegerPower(n, i);
    TableEntries(entry, maxExp);
    if forall i: Uint64 :: i < maxExp ==> CalculateIntegerPower(n, i).Ok? {
      forall i: Uint64 | i < maxExp
        ensures entry(i).Ok?
      {
        assert entry(i) == CalculateIntegerPower(n, i);
      }
    } else {
      var i: Uint64 :| i < maxExp && !CalculateIntegerPower(n, i).Ok?;
      assert entry(i) == CalculateIntegerPower(n, i);
    }
  }

  /** Entry i of a compiled table is N^i. */
  lemma ValueListEntries(n: Uint64, maxExp: Uint64)
    ensures GenerateExpValueList(n, maxExp).Ok? ==>
      |GenerateExpValueList(n, maxExp).value| == maxExp &&
      forall i: Uint64 :: i < maxExp ==> GenerateExpValueList(n, maxExp).value[i] == Pow(n, i)
  {
    var entry := (i: Uint64) => CalculateIntegerPower(n, i);
    forall i: Uint64 {
      CalculateIntegerPowerIsExact(n, i);
    }
    PowersTable(entry, n, maxExp);
  }

  /** `FastIntegerPow` gives N^exp below MaxExp and 0 from MaxExp on. */
  lemma FastIntegerPowValue(n: Uint64, maxExp: Uint64, exp: nat)
    ensures FastIntegerPow(n, maxExp, exp).Ok? <==> GenerateExpValueList(n, maxExp).Ok?
    ensures FastIntegerPow(n, maxExp, exp).Ok? && exp < maxExp ==> FastIntegerPow(n, maxExp, exp).value == Pow(n, exp)
    ensures FastIntegerPow(n, maxExp, exp).Ok? && exp >= maxExp ==> FastIntegerPow(n, maxExp, exp).value == 0
  {
    ValueListEntries(n, maxExp);
  }

  lemma ValueListLengthAsWritten(n: Uint64, maxExp: Uint64)
    ensures GenerateExpValueListAsWritten(n, maxExp).Ok? ==> |GenerateExpValueListAsWritten(n, maxExp).value| == maxExp
  {
    TableEntries((i: Uint64) => CalculateIntegerPowerAsWritten(n, i), maxExp);
  }

  /**
   * The header's lookup compiles exactly when every entry does; entry exp
   * is N^exp modulo 2^64, and from MaxExp on the lookup gives 0.
   */
  lemma FastIntegerPowAsWrittenValue(n: Uint64, maxExp: Uint64, exp: nat)
    ensures FastIntegerPowAsWritten(n, maxExp, exp).Ok? <==> forall i: Uint64 :: i < maxExp ==> CalculateIntegerPowerAsWritten(n, i).Ok?
    ensures FastIntegerPowAsWritten(n, maxExp, exp).Ok? && exp < maxExp ==> FastIntegerPowAsWritten(n, maxExp, exp).value == Wrap(Pow(n, exp))
    ensures FastIntegerPowAsWritten(n, maxExp, exp).Ok? && exp >= maxExp ==> FastIntegerPowAsWritten(n, maxExp, exp).value == 0
  {
    var entry := (i: Uint64) => CalculateIntegerPowerAsWritten(n, i);
    TableEntries(entry, maxExp);
    if exp < maxExp {
      AsWrittenIsModular(n, exp);
    }
    if forall i: Uint64 :: i < maxExp ==> CalculateIntegerPowerAsWritten(n, i).Ok? {
      forall i: Uint64 | i < maxExp
        ensures entry(i).Ok?
      {
        assert entry(i) == CalculateIntegerPowerAsWritten(n, i);
      }
    } else {
      var i: Uint64 :| i < maxExp && !CalculateIntegerPowerAsWritten(n, i).Ok?;
      assert entry(i) == CalculateIntegerPowerAsWritten(n, i);
    }
  }

  /** Whatever the corrected lookup gives, the header's lookup gives too. */
  lemma FastLookupCorrectionOnlyRejects(n: Uint64, maxExp: Uint64, exp: nat)
    ensures FastIntegerPow(n, maxExp, exp).Ok? ==> FastIntegerPowAsWritten(n, maxExp, exp) == FastIntegerPow(n, maxExp, exp)
  {
    var e1 := (i: Uint64) => CalculateIntegerPower(n, i);
    var e2 := (i: Uint64) => CalculateIntegerPowerAsWritten(n, i);
    forall i: Uint64 | e1(i).Ok?
      ensures e2(i) == e1(i)
    {
      CorrectionOnlyRejects(n, i);
    }
    TableAgrees(e1, e2, maxExp);
  }
}
