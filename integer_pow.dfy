/**
 * `ies::CalculateIntegerPow<N, Exp>()` (IntegerPow.hxx): N^Exp in uint64_t,
 * evaluated when the template is instantiated, by squaring. Levels of the
 * recursion whose N*N is wider than 8 bits carry static_asserts that
 * estimate the bit width of the result; an instantiation that trips one does
 * not compile, which the model returns as `Err`. `LookupIntegerPow<N,
 * MaxExp>(exp)` reads a table of N^0 .. N^(MaxExp-1) built the same way.
 *
 * Template arguments are uint64_t, so every product the recursion forms is
 * taken modulo 2^64 (`Wrap`). `CalculateIntegerPowAsWritten` follows the
 * header exactly; `CalculateIntegerPow` adds the two checks the estimate
 * misses (see `IntegerPowExamples.ElevenToTheNineteenWraps` and
 * `IntegerPowExamples.MaxSquaredWraps`),
 * and is the one the table uses.
 */
module IntegerPow {
  import opened Wrappers

  const Uint64Bound: nat := 0x1_0000_0000_0000_0000
  type Uint64 = x: int | 0 <= x < Uint64Bound

  /** 8*sizeof(uint64_t). */
  const MaxBitCount: nat := 64
  /** Levels whose N*N needs at most this many bits are not checked. */
  const CheckN2BitCount: nat := 8

  /** n^e over the integers. */
  function Pow(n: nat, e: nat): nat
  {
    if e == 0 then 1 else n * Pow(n, e - 1)
  }

  /** What a uint64_t keeps of x: x modulo 2^64. */
  function Wrap(x: int): Uint64
  {
    x % Uint64Bound
  }

  /** 2^e. */
  function Pow2(e: nat): nat
  {
    if e == 0 then 1 else 2 * Pow2(e - 1)
  }

  /** `std::bit_width(x)`: the number of binary digits of x, 0 for 0. */
  function BitWidth(x: nat): nat
  {
    if x == 0 then 0 else 1 + BitWidth(x / 2)
  }

  /** The static_assert an instantiation trips. */
  datatype StaticAssert =
    | ShiftTooWide     // N == 2 and Exp >= 64
    | BaseTooWide      // a checked level with bit_width(N-1) >= 32
    | EstimateTooWide  // a checked level whose bit estimate is >= 64 (> 64 in FastIntegerPow)
    | ProductTooWide   // the corrected check at an unchecked odd level

  /** `1ULL << Exp` for N == 2, which needs Exp < 64. */
  function ShiftLeft(exp: Uint64): (r: Result<Uint64, StaticAssert>)
  {
    if exp < MaxBitCount then
      PowTwoBound(exp);
      Ok(Pow2(exp))
    else Err(ShiftTooWide)
  }

  /** The estimate: bits of N^Exp as bits of N times those of (N*N)^((Exp-1)/2), or of (N*N)^(Exp/2). */
  function TotalBits(nBits: nat, n2Bits: nat, exp: nat): nat
  {
    if exp % 2 == 1 then nBits + n2Bits * (exp - 1) / 2 else n2Bits * exp / 2
  }

  /** `constexpr int` initialised from a uint64_t value: its residue modulo 2^32, read as a signed 32-bit number. */
  function ToInt(x: Uint64): (r: int)
    ensures -0x8000_0000 <= r < 0x8000_0000 && (x - r) % 0x1_0000_0000 == 0
    ensures x < 0x8000_0000 ==> r == x
  {
    var m := x % 0x1_0000_0000;
    if m < 0x8000_0000 then m else m - 0x1_0000_0000
  }

  /**
   * The estimate as the header stores it: `nBits + n2Bits*(Exp-1)/2` or
   * `n2Bits*Exp/2` is formed in uint64_t (Exp is), then kept in an int.
   */
  function TotalBitsAsWritten(nBits: nat, n2Bits: nat, exp: Uint64): int
  {
    if exp % 2 == 1 then ToInt(Wrap(nBits + Wrap(n2Bits * (exp - 1)) / 2)) else ToInt(Wrap(n2Bits * exp) / 2)
  }

  /** The exponent of the recursive instantiation: (Exp-1)/2 for odd Exp, Exp/2 for even. */
  function Half(exp: Uint64): Uint64
  {
    if exp % 2 == 1 then (exp - 1) / 2 else exp / 2
  }

  /** `CalculateIntegerPow<N, Exp>()` as the header writes it. */
  function CalculateIntegerPowAsWritten(n: Uint64, exp: Uint64): Result<Uint64, StaticAssert>
    decreases exp
  {
    if n == 0 && exp == 0 then Ok(1)
    else if n == 0 then Ok(0)
    else if n == 1 || exp == 0 then Ok(1)
    else if exp == 1 then Ok(n)
    else if n == 2 then ShiftLeft(exp)
    else
      var nBits := BitWidth(n - 1);
      var n2Bits := BitWidth(Wrap(Wrap(n * n) - 1));
      if n2Bits > CheckN2BitCount && nBits >= MaxBitCount / 2 then Err(BaseTooWide)
      else if n2Bits > CheckN2BitCount && TotalBitsAsWritten(nBits, n2Bits, exp) >= MaxBitCount then Err(EstimateTooWide)
      else
        match CalculateIntegerPowAsWritten(Wrap(n * n), Half(exp))
        case Err(e) => Err(e)
        case Ok(rest) => Ok(if exp % 2 == 1 then Wrap(n * rest) else rest)
  }

  /**
   * `CalculateIntegerPow<N, Exp>()` with the estimate taken over the exact
   * N*N, and with the product N * (N*N)^((Exp-1)/2) of an unchecked odd
   * level required to fit in 64 bits.
   */
  function CalculateIntegerPow(n: Uint64, exp: Uint64): Result<Uint64, StaticAssert>
    decreases exp
  {
    if n == 0 && exp == 0 then Ok(1)
    else if n == 0 then Ok(0)
    else if n == 1 || exp == 0 then Ok(1)
    else if exp == 1 then Ok(n)
    else if n == 2 then ShiftLeft(exp)
    else
      var nBits := BitWidth(n - 1);
      var n2Bits := BitWidth(n * n - 1);
      if n2Bits > CheckN2BitCount && nBits >= MaxBitCount / 2 then Err(BaseTooWide)
      else if n2Bits > CheckN2BitCount && TotalBits(nBits, n2Bits, exp) >= MaxBitCount then Err(EstimateTooWide)
      else
        match CalculateIntegerPow(Wrap(n * n), Half(exp))
        case Err(e) => Err(e)
        case Ok(rest) =>
          if exp % 2 == 0 then Ok(rest)
          else if n2Bits <= CheckN2BitCount && n * rest >= Uint64Bound then Err(ProductTooWide)
          else Ok(Wrap(n * rest))
  }

  /** `GenerateIntegerPowTable`: [entry(0), ..., entry(size - 1)]; any failing entry fails the table. */
  function PowTable(entry: Uint64 -> Result<Uint64, StaticAssert>, size: Uint64): Result<seq<Uint64>, StaticAssert>
    decreases size
  {
    if size == 0 then Ok([])
    else
      match PowTable(entry, size - 1)
      case Err(e) => Err(e)
      case Ok(table) =>
        match entry(size - 1)
        case Err(e) => Err(e)
        case Ok(v) => Ok(table + [v])
  }

  /** The table of N^0 .. N^(MaxExp-1). */
  function GenerateIntegerPowTable(n: Uint64, maxExp: Uint64): Result<seq<Uint64>, StaticAssert>
  {
    PowTable((i: Uint64) => CalculateIntegerPow(n, i), maxExp)
  }

  /** `LookupIntegerPow<N, MaxExp>(exp)`: the table entry, or 0 when exp is not below MaxExp. */
  function LookupIntegerPow(n: Uint64, maxExp: Uint64, exp: nat): Result<Uint64, StaticAssert>
  {
    match GenerateIntegerPowTable(n, maxExp)
    case Err(e) => Err(e)
    case Ok(table) => if exp >= maxExp then Ok(0) else (TableLength(n, maxExp); Ok(table[exp]))
  }

  /** `GenerateIntegerPowTable` as the header builds it, from the header's `CalculateIntegerPow`. */
  function GenerateIntegerPowTableAsWritten(n: Uint64, maxExp: Uint64): Result<seq<Uint64>, StaticAssert>
  {
    PowTable((i: Uint64) => CalculateIntegerPowAsWritten(n, i), maxExp)
  }

  /** `LookupIntegerPow<N, MaxExp>(exp)` as the header builds it. */
  function LookupIntegerPowAsWritten(n: Uint64, maxExp: Uint64, exp: nat): Result<Uint64, StaticAssert>
  {
    match GenerateIntegerPowTableAsWritten(n, maxExp)
    case Err(e) => Err(e)
    case Ok(table) => if exp >= maxExp then Ok(0) else (TableLengthAsWritten(n, maxExp); Ok(table[exp]))
  }

  // Arithmetic of powers.

  lemma MulAssoc(x: int, y: int, z: int)
    ensures (x * y) * z == x * (y * z)
  {
  }

  lemma {:induction false} PowAdd(x: nat, a: nat, b: nat)
    ensures Pow(x, a) * Pow(x, b) == Pow(x, a + b)
    decreases a
  {
    if a > 0 {
      PowAdd(x, a - 1, b);
      MulAssoc(x, Pow(x, a - 1), Pow(x, b));
    }
  }

  lemma {:induction false} PowMul(x: nat, a: nat, b: nat)
    ensures Pow(Pow(x, a), b) == Pow(x, a * b)
    decreases b
  {
    if b > 0 {
      PowMul(x, a, b - 1);
      PowAdd(x, a, a * (b - 1));
      assert a + a * (b - 1) == a * b;
    }
  }

  lemma PowSquare(n: nat, k: nat)
    ensures Pow(n * n, k) == Pow(n, 2 * k)
  {
    assert Pow(n, 1) == n;
    PowMul(n, 2, k);
  }

  lemma MulMonotone(a: nat, b: nat, c: nat, d: nat)
    requires a <= b && c <= d
    ensures a * c <= b * d
  {
    assert a * c <= b * c;
    assert b * c <= b * d;
  }

  lemma {:induction false} PowBaseMonotone(a: nat, c: nat, k: nat)
    requires a <= c
    ensures Pow(a, k) <= Pow(c, k)
    decreases k
  {
    if k > 0 {
      PowBaseMonotone(a, c, k - 1);
      MulMonotone(a, c, Pow(a, k - 1), Pow(c, k - 1));
    }
  }

  lemma {:induction false} Pow2Monotone(a: nat, b: nat)
    requires a <= b
    ensures Pow2(a) <= Pow2(b)
    decreases b
  {
    if a < b {
      Pow2Monotone(a, b - 1);
    }
  }

  lemma {:induction false} Pow2Add(a: nat, b: nat)
    ensures Pow2(a) * Pow2(b) == Pow2(a + b)
    decreases a
  {
    if a > 0 {
      Pow2Add(a - 1, b);
    }
  }

  lemma {:induction false} Pow2Mul(a: nat, k: nat)
    ensures Pow(Pow2(a), k) == Pow2(a * k)
    decreases k
  {
    if k > 0 {
      Pow2Mul(a, k - 1);
      Pow2Add(a, a * (k - 1));
      assert a + a * (k - 1) == a * k;
    }
  }

  lemma {:induction false} Pow2IsPow(e: nat)
    ensures Pow2(e) == Pow(2, e)
    decreases e
  {
    if e > 0 {
      Pow2IsPow(e - 1);
    }
  }

  /** x needs BitWidth(x) bits: 2^(BitWidth(x) - 1) <= x < 2^BitWidth(x). */
  lemma {:induction false} BitWidthBounds(x: nat)
    ensures x < Pow2(BitWidth(x))
    ensures x > 0 ==> BitWidth(x) >= 1 && Pow2(BitWidth(x) - 1) <= x
  {
    if x > 0 {
      var h := x / 2;
      BitWidthBounds(h);
      var w := BitWidth(h);
      assert BitWidth(x) == w + 1;
      assert Pow2(w + 1) == 2 * Pow2(w);
      assert x == 2 * h || x == 2 * h + 1;
      if h > 0 {
        assert Pow2(w) == 2 * Pow2(w - 1);
      }
    }
  }

  /** The powers of two the bounds use, computed eight doublings at a time. */
  /** A value between 2^(b-1) and 2^b has bit width b. */
  lemma {:induction false} BitWidthIs(x: nat, b: nat)
    requires 1 <= b && Pow2(b - 1) <= x < Pow2(b)
    ensures BitWidth(x) == b
    decreases b
  {
    if b > 1 {
      var p := Pow2(b - 2);
      assert Pow2(b - 1) == 2 * p && Pow2(b) == 2 * (2 * p);
      assert p <= x / 2 < 2 * p;
      BitWidthIs(x / 2, b - 1);
    }
  }

  lemma {:induction false} BitWidthMonotone(x: nat, y: nat)
    requires x <= y
    ensures BitWidth(x) <= BitWidth(y)
    decreases y
  {
    if x > 0 {
      BitWidthMonotone(x / 2, y / 2);
    }
  }

  lemma PowTwoValues()
    ensures Pow2(CheckN2BitCount) == 0x100
    ensures Pow2(31) == 0x8000_0000
    ensures Pow2(63) == 0x8000_0000_0000_0000
    ensures Pow2(MaxBitCount) == Uint64Bound
  {
    assert Pow2(8) == 0x100;
    assert Pow2(16) == 0x1_0000;
    assert Pow2(24) == 0x100_0000;
    assert Pow2(31) == 0x8000_0000;
    assert Pow2(39) == 0x80_0000_0000;
    assert Pow2(47) == 0x8000_0000_0000;
    assert Pow2(55) == 0x80_0000_0000_0000;
    assert Pow2(63) == 0x8000_0000_0000_0000;
  }

  lemma PowTwoBound(e: nat)
    requires e < MaxBitCount
    ensures Pow2(e) < Uint64Bound
  {
    Pow2Monotone(e, MaxBitCount - 1);
    PowTwoValues();
  }

  /** Reducing a factor modulo 2^64 does not change the product's residue. */
  lemma MulModRight(x: int, y: int)
    ensures Wrap(x * Wrap(y)) == Wrap(x * y)
  {
    var m := Uint64Bound;
    var q, r := y / m, y % m;
    assert y == q * m + r;
    assert x * y == (x * q) * m + x * r;
    ModOfMultiple(x * r, x * q);
  }

  lemma ModOfMultiple(r: int, q: int)
    ensures (q * Uint64Bound + r) % Uint64Bound == r % Uint64Bound
  {
  }

  /** Products of congruent factors are congruent modulo 2^64. */
  lemma MulCongruent(w: int, a: int, p: int, q: int)
    requires w == Wrap(a) && Wrap(p) == Wrap(q)
    ensures Wrap(w * p) == Wrap(a * q)
  {
    MulModRight(w, p);
    MulModRight(w, q);
    MulModRight(q, a);
    assert w * q == q * w && a * q == q * a;
  }

  lemma {:induction false} PowMod(a: nat, k: nat)
    ensures Wrap(Pow(Wrap(a), k)) == Wrap(Pow(a, k))
    decreases k
  {
    if k > 0 {
      PowMod(a, k - 1);
      MulCongruent(Wrap(a), a, Pow(Wrap(a), k - 1), Pow(a, k - 1));
    }
  }

  lemma {:induction false} PowOfOne(e: nat)
    ensures Pow(1, e) == 1
    decreases e
  {
    if e > 0 {
      PowOfOne(e - 1);
    }
  }

  /** The branches that return without recursing give N^Exp. */
  lemma SmallCases(n: nat, exp: nat)
    ensures exp == 0 ==> Pow(n, exp) == 1
    ensures exp == 1 ==> Pow(n, exp) == n
    ensures n == 0 && exp > 0 ==> Pow(n, exp) == 0
    ensures n == 1 ==> Pow(n, exp) == 1
  {
    if n == 1 {
      PowOfOne(exp);
    }
  }

  lemma HalfOfEven(c: nat, k: nat)
    ensures c * (2 * k) / 2 == c * k
  {
    assert c * (2 * k) == 2 * (c * k);
  }

  /** The exponent split the recursion makes. */
  lemma PowSplit(n: nat, exp: nat)
    ensures exp % 2 == 1 ==> Pow(n, exp) == n * Pow(n * n, (exp - 1) / 2)
    ensures exp % 2 == 0 ==> Pow(n, exp) == Pow(n * n, exp / 2)
  {
    PowSquare(n, exp / 2);
    if exp % 2 == 1 {
      assert (exp - 1) / 2 == exp / 2 && exp == 2 * (exp / 2) + 1;
    } else {
      assert exp == 2 * (exp / 2);
    }
  }

  // Properties of CalculateIntegerPow.

  /** 0^0 = 1, 0^k = 0, 1^k = 1, N^0 = 1 and N^1 = N, as written and corrected. */
  lemma BoundaryCases(n: Uint64, exp: Uint64)
    ensures n == 0 && exp == 0 ==> CalculateIntegerPowAsWritten(n, exp) == Ok(1) && CalculateIntegerPow(n, exp) == Ok(1)
    ensures n == 0 && exp > 0 ==> CalculateIntegerPowAsWritten(n, exp) == Ok(0) && CalculateIntegerPow(n, exp) == Ok(0)
    ensures n == 1 || exp == 0 ==> CalculateIntegerPowAsWritten(n, exp) == Ok(1) && CalculateIntegerPow(n, exp) == Ok(1)
    ensures exp == 1 ==> CalculateIntegerPowAsWritten(n, exp) == Ok(n) && CalculateIntegerPow(n, exp) == Ok(n)
  {
  }

  /** N = 2 compiles exactly when Exp < 64, and then gives 2^Exp. */
  lemma PowerOfTwo(exp: Uint64)
    requires exp >= 2
    ensures CalculateIntegerPow(2, exp).Ok? <==> exp < MaxBitCount
    ensures CalculateIntegerPow(2, exp).Ok? ==> CalculateIntegerPow(2, exp).value == Pow(2, exp)
    ensures CalculateIntegerPowAsWritten(2, exp) == CalculateIntegerPow(2, exp)
  {
    Pow2IsPow(exp);
  }

  /** One level of the header's recursion: the result is built from the instantiation for N*N. */
  lemma AsWrittenStep(n: Uint64, exp: Uint64)
    requires n >= 3 && exp >= 2
    requires CalculateIntegerPowAsWritten(n, exp).Ok?
    ensures CalculateIntegerPowAsWritten(Wrap(n * n), Half(exp)).Ok?
    ensures exp % 2 == 1 ==>
      CalculateIntegerPowAsWritten(n, exp).value == Wrap(n * CalculateIntegerPowAsWritten(Wrap(n * n), Half(exp)).value)
    ensures exp % 2 == 0 ==>
      CalculateIntegerPowAsWritten(n, exp).value == CalculateIntegerPowAsWritten(Wrap(n * n), Half(exp)).value
  {
  }

  /** The residue the recursion keeps is the residue of N^Exp. */
  lemma ModularStep(n: Uint64, exp: Uint64, rest: int)
    requires rest == Wrap(Pow(Wrap(n * n), Half(exp)))
    ensures exp % 2 == 1 ==> Wrap(n * rest) == Wrap(Pow(n, exp))
    ensures exp % 2 == 0 ==> rest == Wrap(Pow(n, exp))
  {
    var k := Half(exp);
    PowMod(n * n, k);
    PowSplit(n, exp);
    MulModRight(n, Pow(n * n, k));
  }

  /** As written, what compiles is N^Exp modulo 2^64: the squaring recursion is right up to overflow. */
  lemma {:induction false} AsWrittenIsModular(n: Uint64, exp: Uint64)
    ensures CalculateIntegerPowAsWritten(n, exp).Ok? ==> CalculateIntegerPowAsWritten(n, exp).value == Wrap(Pow(n, exp))
    decreases exp
  {
    if CalculateIntegerPowAsWritten(n, exp).Ok? {
      if n >= 3 && exp >= 2 {
        AsWrittenStep(n, exp);
        AsWrittenIsModular(Wrap(n * n), Half(exp));
        ModularStep(n, exp, CalculateIntegerPowAsWritten(Wrap(n * n), Half(exp)).value);
      } else if n == 2 && exp >= 2 {
        Pow2IsPow(exp);
      } else {
        SmallCases(n, exp);
      }
    }
  }

  /** At a checked level, bit_width(N-1) and bit_width(N*N-1) bound N^Exp by 2^estimate. */
  lemma CheckedLevelBound(n: nat, exp: nat, nBits: nat, n2Bits: nat)
    requires 1 <= n && n - 1 < Pow2(nBits) && n * n - 1 < Pow2(n2Bits)
    ensures Pow(n, exp) <= Pow2(TotalBits(nBits, n2Bits, exp))
  {
    var k := exp / 2;
    PowSplit(n, exp);
    PowBaseMonotone(n * n, Pow2(n2Bits), k);
    Pow2Mul(n2Bits, k);
    HalfOfEven(n2Bits, k);
    if exp % 2 == 1 {
      assert exp - 1 == 2 * k;
      MulMonotone(n, Pow2(nBits), Pow(n * n, k), Pow2(n2Bits * k));
      Pow2Add(nBits, n2Bits * k);
    } else {
      assert exp == 2 * k;
    }
  }

  /** Below 64 bits of estimate, the bound 2^estimate fits in a uint64_t. */
  lemma Pow2Fits(t: nat)
    requires t < MaxBitCount
    ensures Pow2(t) < Uint64Bound
  {
    Pow2Monotone(t, MaxBitCount - 1);
    PowTwoValues();
  }

  /** bit_width(N-1) < 32 makes N*N fit in 64 bits. */
  lemma NarrowBaseSquares(n: nat, nBits: nat)
    requires n >= 1 && nBits == BitWidth(n - 1) && nBits < MaxBitCount / 2
    ensures n * n < Uint64Bound
  {
    BitWidthBounds(n - 1);
    Pow2Monotone(nBits, 31);
    PowTwoValues();
    MulMonotone(n, 0x8000_0000, n, 0x8000_0000);
  }

  /** bit_width(x) <= 8 means x < 256. */
  lemma NarrowWidth(x: nat, bits: nat)
    requires bits == BitWidth(x) && bits <= CheckN2BitCount
    ensures x < 0x100
  {
    BitWidthBounds(x);
    Pow2Monotone(bits, CheckN2BitCount);
    PowTwoValues();
  }

  lemma SquarePositive(n: nat)
    requires n >= 1
    ensures n * n >= 1
  {
    MulMonotone(1, n, 1, n);
  }

  /** A level that passes its checks squares N without overflow. */
  lemma SquareFits(n: Uint64, nBits: nat, n2Bits: nat)
    requires n >= 3 && nBits == BitWidth(n - 1) && n2Bits == BitWidth(n * n - 1)
    requires n2Bits > CheckN2BitCount ==> nBits < MaxBitCount / 2
    ensures n * n < Uint64Bound && Wrap(n * n) == n * n
  {
    if n2Bits > CheckN2BitCount {
      NarrowBaseSquares(n, nBits);
    } else {
      SquarePositive(n);
      NarrowWidth(n * n - 1, n2Bits);
    }
  }

  /** A checked odd level that passes its estimate: N * N^(Exp-1) fits in 64 bits. */
  lemma CheckedProductFits(n: Uint64, exp: Uint64, nBits: nat, n2Bits: nat)
    requires n >= 3 && nBits == BitWidth(n - 1) && n2Bits == BitWidth(n * n - 1)
    requires TotalBits(nBits, n2Bits, exp) < MaxBitCount
    ensures Pow(n, exp) < Uint64Bound
  {
    SquarePositive(n);
    BitWidthBounds(n - 1);
    BitWidthBounds(n * n - 1);
    CheckedLevelBound(n, exp, nBits, n2Bits);
    Pow2Fits(TotalBits(nBits, n2Bits, exp));
  }

  /** The checks a level of the correction passes. */
  lemma CorrectedChecks(n: Uint64, exp: Uint64)
    requires n >= 3 && exp >= 2
    requires CalculateIntegerPow(n, exp).Ok?
    ensures BitWidth(n * n - 1) > CheckN2BitCount ==>
      BitWidth(n - 1) < MaxBitCount / 2 && TotalBits(BitWidth(n - 1), BitWidth(n * n - 1), exp) < MaxBitCount
  {
  }

  /** One level of the corrected recursion. */
  lemma CorrectedStep(n: Uint64, exp: Uint64)
    requires n >= 3 && exp >= 2
    requires CalculateIntegerPow(n, exp).Ok?
    ensures CalculateIntegerPow(Wrap(n * n), Half(exp)).Ok?
    ensures exp % 2 == 1 && BitWidth(n * n - 1) <= CheckN2BitCount ==>
      n * CalculateIntegerPow(Wrap(n * n), Half(exp)).value < Uint64Bound
    ensures exp % 2 == 1 ==>
      CalculateIntegerPow(n, exp).value == Wrap(n * CalculateIntegerPow(Wrap(n * n), Half(exp)).value)
    ensures exp % 2 == 0 ==>
      CalculateIntegerPow(n, exp).value == CalculateIntegerPow(Wrap(n * n), Half(exp)).value
  {
  }

  /** With the square exact and the checks passed, the level's result is N^Exp. */
  lemma ExactStep(n: Uint64, exp: Uint64, nBits: nat, n2Bits: nat, rest: nat)
    requires n >= 3 && exp >= 2 && rest == Pow(n * n, Half(exp))
    requires nBits == BitWidth(n - 1) && n2Bits == BitWidth(n * n - 1)
    requires n2Bits > CheckN2BitCount ==> TotalBits(nBits, n2Bits, exp) < MaxBitCount
    requires exp % 2 == 1 && n2Bits <= CheckN2BitCount ==> n * rest < Uint64Bound
    ensures exp % 2 == 1 ==> n * rest < Uint64Bound && Wrap(n * rest) == Pow(n, exp)
    ensures exp % 2 == 0 ==> rest == Pow(n, exp)
  {
    PowSplit(n, exp);
    if exp % 2 == 1 {
      assert Pow(n, exp) == n * rest;
      if n2Bits > CheckN2BitCount {
        CheckedProductFits(n, exp, nBits, n2Bits);
      }
      WrapSmall(n * rest);
    }
  }

  /** What the corrected CalculateIntegerPow compiles is exactly N^Exp: it never overflows. */
  lemma {:induction false} CalculateIntegerPowIsExact(n: Uint64, exp: Uint64)
    ensures CalculateIntegerPow(n, exp).Ok? ==> CalculateIntegerPow(n, exp).value == Pow(n, exp)
    decreases exp
  {
    if CalculateIntegerPow(n, exp).Ok? {
      if n >= 3 && exp >= 2 {
        var nBits, n2Bits := BitWidth(n - 1), BitWidth(n * n - 1);
        CorrectedChecks(n, exp);
        CorrectedStep(n, exp);
        SquareFits(n, nBits, n2Bits);
        CalculateIntegerPowIsExact(n * n, Half(exp));
        ExactStep(n, exp, nBits, n2Bits, CalculateIntegerPow(n * n, Half(exp)).value);
      } else if n == 2 && exp >= 2 {
        Pow2IsPow(exp);
      } else {
        SmallCases(n, exp);
      }
    }
  }

  /** A level of the header whose checks pass and whose next level compiles, compiles. */
  lemma AsWrittenOkStep(n: Uint64, exp: Uint64, nBits: nat, n2Bits: nat)
    requires n >= 3 && exp >= 2
    requires nBits == BitWidth(n - 1) && n2Bits == BitWidth(Wrap(Wrap(n * n) - 1))
    requires n2Bits > CheckN2BitCount ==> nBits < MaxBitCount / 2 && TotalBitsAsWritten(nBits, n2Bits, exp) < MaxBitCount
    requires CalculateIntegerPowAsWritten(Wrap(n * n), Half(exp)).Ok?
    ensures CalculateIntegerPowAsWritten(n, exp).Ok?
  {
  }

  /** A level the correction compiles passes the header's own checks, taken over the wrapped N*N. */
  lemma AsWrittenChecksPass(n: Uint64, exp: Uint64)
    requires n >= 3 && exp >= 2
    requires CalculateIntegerPow(n, exp).Ok?
    ensures BitWidth(Wrap(Wrap(n * n) - 1)) > CheckN2BitCount ==>
      BitWidth(n - 1) < MaxBitCount / 2 && TotalBitsAsWritten(BitWidth(n - 1), BitWidth(Wrap(Wrap(n * n) - 1)), exp) < MaxBitCount
  {
    var m := n * n;
    SquarePositive(n);
    CorrectedChecks(n, exp);
    SquareFits(n, BitWidth(n - 1), BitWidth(m - 1));
    WrapSmall(m);
    WrapSmall(m - 1);
    ChecksOfEqual(Wrap(Wrap(m) - 1), m - 1, BitWidth(n - 1), exp);
  }

  /** The exact checks on N*N - 1 passing, the header's pass on any equal value. */
  lemma ChecksOfEqual(a: nat, b: nat, nBits: nat, exp: Uint64)
    requires a == b
    requires BitWidth(b) > CheckN2BitCount ==> nBits < MaxBitCount / 2 && TotalBits(nBits, BitWidth(b), exp) < MaxBitCount
    ensures BitWidth(a) > CheckN2BitCount ==> nBits < MaxBitCount / 2 && TotalBitsAsWritten(nBits, BitWidth(a), exp) < MaxBitCount
  {
    if BitWidth(a) > CheckN2BitCount {
      TotalBitsExact(nBits, BitWidth(a), exp);
    }
  }

  /** An estimate below 2^31 is stored exactly: neither the uint64_t product nor the int conversion wraps. */
  lemma TotalBitsExact(nBits: nat, n2Bits: nat, exp: Uint64)
    requires TotalBits(nBits, n2Bits, exp) < 0x8000_0000
    ensures TotalBitsAsWritten(nBits, n2Bits, exp) == TotalBits(nBits, n2Bits, exp)
  {
    if exp % 2 == 1 {
      var p := n2Bits * (exp - 1);
      assert TotalBits(nBits, n2Bits, exp) == nBits + p / 2;
      WrapSmall(p);
      WrapSmall(nBits + p / 2);
    } else {
      var p := n2Bits * exp;
      assert TotalBits(nBits, n2Bits, exp) == p / 2;
      WrapSmall(p);
    }
  }

  /** Where both compile, they compile to the same value: N^Exp fits, so its residue is itself. */
  lemma SameValue(n: Uint64, exp: Uint64)
    requires CalculateIntegerPow(n, exp).Ok? && CalculateIntegerPowAsWritten(n, exp).Ok?
    ensures CalculateIntegerPowAsWritten(n, exp) == CalculateIntegerPow(n, exp)
  {
    AsWrittenIsModular(n, exp);
    CalculateIntegerPowIsExact(n, exp);
    WrapSmall(Pow(n, exp));
  }

  /** The corrections only reject: whatever the corrected version compiles, the header compiles to the same value. */
  lemma {:induction false} CorrectionOnlyRejects(n: Uint64, exp: Uint64)
    ensures CalculateIntegerPow(n, exp).Ok? ==> CalculateIntegerPowAsWritten(n, exp) == CalculateIntegerPow(n, exp)
    decreases exp
  {
    if CalculateIntegerPow(n, exp).Ok? && n >= 3 && exp >= 2 {
      CorrectedStep(n, exp);
      CorrectionOnlyRejects(Wrap(n * n), Half(exp));
      AsWrittenChecksPass(n, exp);
      AsWrittenOkStep(n, exp, BitWidth(n - 1), BitWidth(Wrap(Wrap(n * n) - 1)));
      SameValue(n, exp);
    }
  }

  lemma WrapSmall(x: int)
    requires 0 <= x < Uint64Bound
    ensures Wrap(x) == x
  {
  }

  // Properties of the table and the lookup.

  lemma {:induction false} TableEntries(entry: Uint64 -> Result<Uint64, StaticAssert>, size: Uint64)
    ensures PowTable(entry, size).Ok? <==> forall i: Uint64 :: i < size ==> entry(i).Ok?
    ensures PowTable(entry, size).Ok? ==> |PowTable(entry, size).value| == size
    ensures PowTable(entry, size).Ok? ==> forall i: Uint64 :: i < size ==> entry(i) == Ok(PowTable(entry, size).value[i])
    decreases size
  {
    if size > 0 {
      TableEntries(entry, size - 1);
    }
  }

  lemma TableLength(n: Uint64, maxExp: Uint64)
    ensures GenerateIntegerPowTable(n, maxExp).Ok? ==> |GenerateIntegerPowTable(n, maxExp).value| == maxExp
  {
    TableEntries((i: Uint64) => CalculateIntegerPow(n, i), maxExp);
  }

  /** A table of entries that are powers of n holds n^0, n^1, ... */
  lemma PowersTable(entry: Uint64 -> Result<Uint64, StaticAssert>, n: nat, size: Uint64)
    requires forall i: Uint64 :: entry(i).Ok? ==> entry(i).value == Pow(n, i)
    ensures PowTable(entry, size).Ok? <==> forall i: Uint64 :: i < size ==> entry(i).Ok?
    ensures PowTable(entry, size).Ok? ==>
      |PowTable(entry, size).value| == size &&
      forall i: Uint64 :: i < size ==> PowTable(entry, size).value[i] == Pow(n, i)
  {
    TableEntries(entry, size);
  }

  /** The table compiles exactly when every N^i with i < MaxExp does. */
  lemma IntegerPowTableCompiles(n: Uint64, maxExp: Uint64)
    ensures GenerateIntegerPowTable(n, maxExp).Ok? <==> forall i: Uint64 :: i < maxExp ==> CalculateIntegerPow(n, i).Ok?
  {
    var entry := (i: Uint64) => CalculateIntegerPow(n, i);
    TableEntries(entry, maxExp);
    if forall i: Uint64 :: i < maxExp ==> CalculateIntegerPow(n, i).Ok? {
      forall i: Uint64 | i < maxExp
        ensures entry(i).Ok?
      {
        assert entry(i) == CalculateIntegerPow(n, i);
      }
    } else {
      var i: Uint64 :| i < maxExp && !CalculateIntegerPow(n, i).Ok?;
      assert entry(i) == CalculateIntegerPow(n, i);
    }
  }

  /** Entry i of a compiled table is N^i. */
  lemma IntegerPowTable(n: Uint64, maxExp: Uint64)
    ensures GenerateIntegerPowTable(n, maxExp).Ok? ==>
      |GenerateIntegerPowTable(n, maxExp).value| == maxExp &&
      forall i: Uint64 :: i < maxExp ==> GenerateIntegerPowTable(n, maxExp).value[i] == Pow(n, i)
  {
    var entry := (i: Uint64) => CalculateIntegerPow(n, i);
    forall i: Uint64 {
      CalculateIntegerPowIsExact(n, i);
    }
    PowersTable(entry, n, maxExp);
  }

  /** `LookupIntegerPow` gives N^exp below MaxExp and 0 from MaxExp on. */
  lemma LookupIntegerPowValue(n: Uint64, maxExp: Uint64, exp: nat)
    ensures LookupIntegerPow(n, maxExp, exp).Ok? <==> GenerateIntegerPowTable(n, maxExp).Ok?
    ensures LookupIntegerPow(n, maxExp, exp).Ok? && exp < maxExp ==> LookupIntegerPow(n, maxExp, exp).value == Pow(n, exp)
    ensures LookupIntegerPow(n, maxExp, exp).Ok? && exp >= maxExp ==> LookupIntegerPow(n, maxExp, exp).value == 0
  {
    IntegerPowTable(n, maxExp);
  }

  lemma TableLengthAsWritten(n: Uint64, maxExp: Uint64)
    ensures GenerateIntegerPowTableAsWritten(n, maxExp).Ok? ==> |GenerateIntegerPowTableAsWritten(n, maxExp).value| == maxExp
  {
    TableEntries((i: Uint64) => CalculateIntegerPowAsWritten(n, i), maxExp);
  }

  /** Two entry functions that agree wherever the first compiles build the same table wherever the first's compiles. */
  lemma {:induction false} TableAgrees(e1: Uint64 -> Result<Uint64, StaticAssert>, e2: Uint64 -> Result<Uint64, StaticAssert>, size: Uint64)
    requires forall i: Uint64 :: e1(i).Ok? ==> e2(i) == e1(i)
    ensures PowTable(e1, size).Ok? ==> PowTable(e2, size) == PowTable(e1, size)
    decreases size
  {
    if size > 0 {
      TableAgrees(e1, e2, size - 1);
    }
  }

  /**
   * The header's lookup compiles exactly when every entry does; entry exp
   * is N^exp modulo 2^64, and from MaxExp on the lookup gives 0.
   */
  lemma LookupIntegerPowAsWrittenValue(n: Uint64, maxExp: Uint64, exp: nat)
    ensures LookupIntegerPowAsWritten(n, maxExp, exp).Ok? <==> forall i: Uint64 :: i < maxExp ==> CalculateIntegerPowAsWritten(n, i).Ok?
    ensures LookupIntegerPowAsWritten(n, maxExp, exp).Ok? && exp < maxExp ==> LookupIntegerPowAsWritten(n, maxExp, exp).value == Wrap(Pow(n, exp))
    ensures LookupIntegerPowAsWritten(n, maxExp, exp).Ok? && exp >= maxExp ==> LookupIntegerPowAsWritten(n, maxExp, exp).value == 0
  {
    var entry := (i: Uint64) => CalculateIntegerPowAsWritten(n, i);
    TableEntries(entry, maxExp);
    if exp < maxExp {
      AsWrittenIsModular(n, exp);
    }
    if forall i: Uint64 :: i < maxExp ==> CalculateIntegerPowAsWritten(n, i).Ok? {
      forall i: Uint64 | i < maxExp
        ensures entry(i).Ok?
      {
        assert entry(i) == CalculateIntegerPowAsWritten(n, i);
      }
    } else {
      var i: Uint64 :| i < maxExp && !CalculateIntegerPowAsWritten(n, i).Ok?;
      assert entry(i) == CalculateIntegerPowAsWritten(n, i);
    }
  }

  /** Whatever the corrected lookup gives, the header's lookup gives too. */
  lemma LookupCorrectionOnlyRejects(n: Uint64, maxExp: Uint64, exp: nat)
    ensures LookupIntegerPow(n, maxExp, exp).Ok? ==> LookupIntegerPowAsWritten(n, maxExp, exp) == LookupIntegerPow(n, maxExp, exp)
  {
    var e1 := (i: Uint64) => CalculateIntegerPow(n, i);
    var e2 := (i: Uint64) => CalculateIntegerPowAsWritten(n, i);
    forall i: Uint64 | e1(i).Ok?
      ensures e2(i) == e1(i)
    {
      CorrectionOnlyRejects(n, i);
    }
    TableAgrees(e1, e2, maxExp);
  }
}
