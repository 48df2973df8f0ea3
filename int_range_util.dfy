/** `ies::IntRangeUtil`: intersection of two ranges by clamping, and the overlap portion's operands. */
module IntRangeUtil {
  import opened Wrappers
  import opened IntegralRange

  function Max(a: int, b: int): int { if a < b then b else a }
  function Min(a: int, b: int): int { if a < b then a else b }

  /**
   * Both ends of range2 clamped into range1, built under the Allow policy.
   * The result lies inside range1 and holds exactly the common elements.
   */
  function FindOverlappingRange(range1: Range, range2: Range): (res: Range)
    ensures Make(FindClosest(range1, range2.begin), FindClosest(range1, range2.end), Allow).Ok?
    ensures range1.begin <= res.begin <= res.end <= range1.end
    ensures forall x :: IsInRange(res, x) <==> IsInRange(range1, x) && IsInRange(range2, x)
  {
    var b := FindClosest(range1, range2.begin);
    var e := FindClosest(range1, range2.end);
    Bounds(b, e)
  }

  /** Overlapping non-empty ranges intersect in [max(b1, b2), min(e1, e2)). */
  lemma OverlappingRangeIsIntersection(range1: Range, range2: Range)
    requires !IsEmpty(range1) && !IsEmpty(range2) && Overlaps(range1, range2)
    ensures FindOverlappingRange(range1, range2)
      == Bounds(Max(range1.begin, range2.begin), Min(range1.end, range2.end))
    ensures !IsEmpty(FindOverlappingRange(range1, range2))
  {
  }

  /** Disjoint non-empty ranges give an empty range at range1's endpoint nearest range2. */
  lemma DisjointRangeIsEmptyAtNearestEnd(range1: Range, range2: Range)
    requires !IsEmpty(range1) && !IsEmpty(range2) && !Overlaps(range1, range2)
    ensures range2.end <= range1.begin ==> FindOverlappingRange(range1, range2) == Bounds(range1.begin, range1.begin)
    ensures range1.end <= range2.begin ==> FindOverlappingRange(range1, range2) == Bounds(range1.end, range1.end)
  {
  }

  datatype PortionError = EmptySubject

  /**
   * `FindOverlappingPortion` without its floating-point division: the
   * overlap size and the subject size, whose quotient the source returns.
   */
  function FindOverlappingPortion(subject: Range, target: Range): (res: Result<(nat, nat), PortionError>)
    ensures res.Err? <==> IsEmpty(subject)
    ensures res.Ok? ==> res.value.1 == Size(subject) > 0 && res.value.0 <= res.value.1
    ensures res.Ok? ==> (res.value.0 == res.value.1 <==> forall x :: IsInRange(subject, x) ==> IsInRange(target, x))
    ensures res.Ok? ==> (res.value.0 == 0 <==> !Overlaps(subject, target) || IsEmpty(target))
  {
    if IsEmpty(subject) then Err(EmptySubject)
    else
      var overlap := FindOverlappingRange(subject, target);
      PortionBounds(subject, target);
      Ok((Size(overlap), Size(subject)))
  }

  lemma PortionBounds(subject: Range, target: Range)
    requires !IsEmpty(subject)
    ensures var o := FindOverlappingRange(subject, target);
      (Size(o) == Size(subject) <==> forall x :: IsInRange(subject, x) ==> IsInRange(target, x))
      && (Size(o) == 0 <==> !Overlaps(subject, target) || IsEmpty(target))
  {
    var o := FindOverlappingRange(subject, target);
    if Size(o) == Size(subject) {
      assert o == subject;
    }
    if forall x :: IsInRange(subject, x) ==> IsInRange(target, x) {
      assert IsInRange(target, subject.begin) && IsInRange(target, subject.end - 1);
    }
  }
}
