/**
 * `ies::MakeAdjacentVectorRange(container, size)`: the run-time-sized
 * counterpart of `MakeAdjacentArrayRange`. Its iterator keeps the same state
 * (first, next, last and the window of positions) and advances the same
 * way, so it is modelled by `AdjacentArrayRange.AdjacentArrayIterator`; what
 * differs is that equality also compares the window size, that the range
 * rejects sizes below 2, and that `ToValueVector` rejects an empty window.
 */
module AdjacentVectorRange {
  import opened Wrappers
  import IntegralRange
  import opened AdjacentArrayRange

  datatype VectorRangeError = SizeTooSmall

  /** `operator==` of the vector iterator: start, next position and window size agree. */
  predicate IteratorsEqual(a: AdjacentArrayIterator, b: AdjacentArrayIterator)
    reads a, b
  {
    a.first == b.first && a.next == b.next && a.size == b.size
  }

  /**
   * A range-based for loop over `MakeAdjacentVectorRange(container, size)`
   * for a container of the given length, collecting each window. The range
   * throws on a size of 0 or 1.
   */
  method IterateVectorRange(length: nat, size: nat) returns (r: Result<seq<seq<nat>>, VectorRangeError>)
    ensures size <= 1 ==> r == Err(SizeTooSmall)
    ensures 1 < size ==> r == Ok(PositionWindows(length, size))
  {
    if size <= 1 {
      return Err(SizeTooSmall);
    }
    var it := new AdjacentArrayIterator(0, length, size);
    var end := new AdjacentArrayIterator(length, length, size);
    var windows: seq<seq<nat>> := [];
    while !IteratorsEqual(it, end)
      invariant it.Valid() && it.size == size && it.last == length
      invariant end.first == length && end.next == length && end.size == size
      invariant it.first < length ==> it.first + size <= length && windows == PositionWindows(length, size)[..it.first]
      invariant it.first == length ==> windows == PositionWindows(length, size)
      decreases length - it.first
    {
      assert it.elements == Window(it.first, size);
      windows := windows + [it.elements];
      var outcome := it.Increment();
    }
    return Ok(windows);
  }

  /**
   * `ToValueVector`: copy the values a window points to. Its loop runs over
   * the index range [0, |window|), which may not be empty, so an empty
   * window is rejected.
   */
  method ToValueVector<T>(container: seq<T>, window: seq<nat>)
    returns (r: Result<seq<T>, IntegralRange.RangeError>)
    requires forall i :: 0 <= i < |window| ==> window[i] < |container|
    ensures window == [] ==> r == Err(IntegralRange.InvalidRange)
    ensures window != [] ==> r.Ok? && |r.value| == |window|
    ensures r.Ok? ==> forall i :: 0 <= i < |r.value| ==> r.value[i] == container[window[i]]
  {
    var indices := IntegralRange.Make(0, |window|, IntegralRange.NotAllow);
    if indices.Err? {
      return Err(indices.error);
    }
    var values := [];
    for i := 0 to |window|
      invariant |values| == i
      invariant forall k :: 0 <= k < i ==> values[k] == container[window[k]]
    {
      values := values + [container[window[i]]];
    }
    return Ok(values);
  }

  /** `ToValueVector` of a map: copy the mapped values; an empty window is rejected. */
  method ToValueVectorOfMap<K, V>(entries: seq<(K, V)>, window: seq<nat>)
    returns (r: Result<seq<V>, IntegralRange.RangeError>)
    requires forall i :: 0 <= i < |window| ==> window[i] < |entries|
    ensures window == [] ==> r == Err(IntegralRange.InvalidRange)
    ensures window != [] ==> r.Ok? && |r.value| == |window|
    ensures r.Ok? ==> forall i :: 0 <= i < |r.value| ==> r.value[i] == entries[window[i]].1
  {
    var indices := IntegralRange.Make(0, |window|, IntegralRange.NotAllow);
    if indices.Err? {
      return Err(indices.error);
    }
    var values := [];
    for i := 0 to |window|
      invariant |values| == i
      invariant forall k :: 0 <= k < i ==> values[k] == entries[window[k]].1
    {
      values := values + [entries[window[i]].1];
    }
    return Ok(values);
  }

  /** Over six elements, window sizes 2 to 6 give 5, 4, 3, 2 and 1 windows. */
  method WindowCountExample() returns (counts: seq<nat>)
    ensures counts == [5, 4, 3, 2, 1]
  {
    counts := [];
    for size := 2 to 7
      invariant |counts| == size - 2
      invariant forall j :: 0 <= j < size - 2 ==> counts[j] == 5 - j
    {
      var r := IterateVectorRange(6, size);
      counts := counts + [|r.value|];
    }
  }

  /** A size of 1 is rejected even though a window of one would be well defined. */
  method SizeOneExample() returns (r: Result<seq<seq<nat>>, VectorRangeError>)
    ensures r == Err(SizeTooSmall)
  {
    r := IterateVectorRange(3, 1);
  }
}
