/**
 * `ies::IntegralRange`: the half-open integer interval [begin, end), its
 * construction policy, forward and reverse iteration, and its queries.
 * Integers are mathematical; the element type of the template is not modelled.
 */
module IntegralRange {
  import opened Wrappers
  import NumberText

  datatype EmptyPolicy = NotAllow | Allow
  datatype Direction = Forward | Reverse
  datatype RangeSide = Begin | End
  datatype Extremum = Min | Max

  datatype RangeError =
    | InvalidRange     // begin > end, or begin == end under NotAllow
    | EmptyHasNoMax    // GetMax of an empty range
    | EmptyCannotShift // Shift of an empty range

  datatype Bounds = Bounds(begin: int, end: int)

  /** Every range the constructor accepts has begin <= end. */
  type Range = r: Bounds | r.begin <= r.end witness Bounds(0, 0)

  /** The constructor: rejects begin > end, and begin == end unless the policy allows it. */
  function Make(b: int, e: int, policy: EmptyPolicy): (res: Result<Range, RangeError>)
    ensures res.Ok? <==> (b < e || (b == e && policy.Allow?))
    ensures res.Ok? ==> res.value.begin == b && res.value.end == e
  {
    if b > e || (policy.NotAllow? && b == e) then Err(InvalidRange) else Ok(Bounds(b, e))
  }

  function Size(r: Range): nat { r.end - r.begin }

  predicate IsEmpty(r: Range) { Size(r) == 0 }

  /** b <= n < e */
  predicate IsInRange(r: Range, n: int) { r.begin <= n && n < r.end }

  /** b <= n <= e */
  predicate IsInRangeOrEnd(r: Range, n: int) { r.begin <= n && n <= r.end }

  /** `begin()`: the reverse iterator starts at end - 1. */
  function BeginIterator(r: Range, dir: Direction): int
  {
    if dir == Reverse then r.end - 1 else r.begin
  }

  /** `end()`: the reverse sentinel is begin - 1. */
  function EndIterator(r: Range, dir: Direction): int
  {
    if dir == Reverse then r.begin - 1 else r.end
  }

  /** `operator++` of the forward and of the reverse iterator. */
  function Advance(dir: Direction, current: int): int
  {
    if dir == Forward then current + 1 else current - 1
  }

  /**
   * A range-based for loop over the range: forward visits begin..end-1
   * ascending, reverse visits end-1..begin, covering the same interval.
   */
  method Iterate(r: Range, dir: Direction) returns (visited: seq<int>)
    ensures |visited| == Size(r)
    ensures dir == Forward ==> forall k :: 0 <= k < |visited| ==> visited[k] == r.begin + k
    ensures dir == Reverse ==> forall k :: 0 <= k < |visited| ==> visited[k] == r.end - 1 - k
    ensures forall n :: n in visited <==> IsInRange(r, n)
  {
    visited := [];
    var current := BeginIterator(r, dir);
    while current != EndIterator(r, dir)
      invariant |visited| <= Size(r)
      invariant current == (if dir == Forward then r.begin + |visited| else r.end - 1 - |visited|)
      invariant dir == Forward ==> forall k :: 0 <= k < |visited| ==> visited[k] == r.begin + k
      invariant dir == Reverse ==> forall k :: 0 <= k < |visited| ==> visited[k] == r.end - 1 - k
      decreases Size(r) - |visited|
    {
      visited := visited + [current];
      current := Advance(dir, current);
    }
    forall n | IsInRange(r, n) ensures n in visited {
      var k := if dir == Forward then n - r.begin else r.end - 1 - n;
      assert visited[k] == n;
    }
  }

  /** The largest element, which an empty range does not have. */
  function GetMax(r: Range): (res: Result<int, RangeError>)
    ensures res.Ok? <==> !IsEmpty(r)
    ensures res.Ok? ==> IsInRange(r, res.value)
    ensures res.Ok? ==> forall n :: IsInRange(r, n) ==> n <= res.value
  {
    if IsEmpty(r) then Err(EmptyHasNoMax) else Ok(r.end - 1)
  }

  /** The smallest element: the begin value, also for an empty range. */
  function GetMin(r: Range): (m: int)
    ensures forall n :: IsInRange(r, n) ==> m <= n
    ensures !IsEmpty(r) ==> IsInRange(r, m)
  {
    r.begin
  }

  function GetSide(r: Range, side: RangeSide): int
  {
    if side == Begin then r.begin else r.end
  }

  function GetExtremum(r: Range, extremum: Extremum): (res: Result<int, RangeError>)
    ensures extremum == Min ==> res == Ok(GetMin(r))
    ensures extremum == Max ==> res == GetMax(r)
  {
    if extremum == Min then Ok(GetMin(r)) else GetMax(r)
  }

  function Abs(x: int): nat { if x < 0 then -x else x }

  /** The value of [begin, end] nearest to n. */
  function FindClosest(r: Range, n: int): (c: int)
    ensures IsInRangeOrEnd(r, c)
    ensures IsInRangeOrEnd(r, n) ==> c == n
    ensures forall m :: IsInRangeOrEnd(r, m) ==> Abs(c - n) <= Abs(m - n)
  {
    if n < r.begin then r.begin else if n > r.end then r.end else n
  }

  /** The distance from n to [begin, end]. */
  function FindDistance(r: Range, n: int): (d: nat)
    ensures d == Abs(FindClosest(r, n) - n)
    ensures d == 0 <==> IsInRangeOrEnd(r, n)
    ensures forall m :: IsInRangeOrEnd(r, m) ==> d <= Abs(m - n)
  {
    Abs(FindClosest(r, n) - n)
  }

  predicate Contains(r: Range, other: Range)
  {
    IsInRange(r, other.begin) && IsInRangeOrEnd(r, other.end)
  }

  predicate Overlaps(r: Range, other: Range)
  {
    !(r.end <= other.begin || other.end <= r.begin)
  }

  /** For a non-empty range `other`, Contains is the subset relation on elements. */
  lemma ContainsIsSubset(r: Range, other: Range)
    requires !IsEmpty(other)
    ensures Contains(r, other) <==> forall x :: IsInRange(other, x) ==> IsInRange(r, x)
  {
    if forall x :: IsInRange(other, x) ==> IsInRange(r, x) {
      assert IsInRange(other, other.begin);
      assert IsInRange(other, other.end - 1);
    }
  }

  /** For non-empty ranges, Overlaps means that they share an element; it is symmetric. */
  lemma OverlapsIsSharedElement(r: Range, other: Range)
    requires !IsEmpty(r) && !IsEmpty(other)
    ensures Overlaps(r, other) <==> exists x :: IsInRange(r, x) && IsInRange(other, x)
    ensures Overlaps(r, other) <==> Overlaps(other, r)
  {
    if Overlaps(r, other) {
      var x := if r.begin < other.begin then other.begin else r.begin;
      assert IsInRange(r, x) && IsInRange(other, x);
    }
  }

  /** A new range moved by n; the source refuses to shift an empty range. */
  function Shift(r: Range, n: int): (res: Result<Range, RangeError>)
    ensures res.Ok? <==> !IsEmpty(r)
    ensures res.Ok? ==> Size(res.value) == Size(r) && Make(res.value.begin, res.value.end, NotAllow).Ok?
    ensures res.Ok? ==> forall x :: IsInRange(res.value, x + n) <==> IsInRange(r, x)
  {
    if IsEmpty(r) then Err(EmptyCannotShift) else Ok(Bounds(r.begin + n, r.end + n))
  }

  /** "[b, e)" */
  function ToString(r: Range): string
  {
    "[" + NumberText.IntToString(r.begin) + ", " + NumberText.IntToString(r.end) + ")"
  }

  /** The two numbers of the text read back as the range's bounds. */
  lemma ToStringReadsBack(r: Range)
    ensures var b, e := NumberText.IntToString(r.begin), NumberText.IntToString(r.end);
      ToString(r) == "[" + b + ", " + e + ")"
      && |b| >= 1 && |e| >= 1
      && (b[0] == '-' ==> NumberText.IsDigitString(b[1..], 10)) && (b[0] != '-' ==> NumberText.IsDigitString(b, 10))
      && (e[0] == '-' ==> NumberText.IsDigitString(e[1..], 10)) && (e[0] != '-' ==> NumberText.IsDigitString(e, 10))
      && NumberText.ParseInt(b) == r.begin && NumberText.ParseInt(e) == r.end
  {
    NumberText.IntToStringRoundTrip(r.begin);
    NumberText.IntToStringRoundTrip(r.end);
  }
}
