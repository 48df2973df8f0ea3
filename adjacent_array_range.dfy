/**
 * `ies::MakeAdjacentArrayRange<N>`: a range whose elements are the windows of
 * N consecutive iterators into a container, advanced one position at a
 * time. Iterators are modelled as positions 0..|container|, the container's
 * end being |container|; a map is iterated as its (key, value) entries in
 * key order.
 */
module AdjacentArrayRange {
  import opened Wrappers
  import IntegralRange

  datatype IteratorError = IncrementEnd

  /** The n consecutive positions starting at start. */
  function Window(start: nat, n: nat): (w: seq<nat>)
    ensures |w| == n && forall i :: 0 <= i < n ==> w[i] == start + i
  {
    seq(n, i requires 0 <= i < n => start + i)
  }

  /**
   * The windows a range of size n over a container of the given length
   * yields: one per start position 0..length - n, none when the container is
   * shorter than n.
   */
  function PositionWindows(length: nat, n: nat): (ws: seq<seq<nat>>)
  {
    if length < n then [] else seq(length - n + 1, k requires 0 <= k <= length - n => Window(k, n))
  }

  /**
   * The iterator state: `first` is the window's first position, `next` the
   * position after it and `last` the container's end; the end iterator has
   * first == next == last.
   */
  class AdjacentArrayIterator {
    const size: nat
    const last: nat
    var first: nat
    var next: nat
    var elements: seq<nat>

    ghost predicate Valid()
      reads this
    {
      |elements| == size && 0 < size && first <= last && next <= last
      && (first == last ==> next == last)
      && (first < last ==> next == first + size && forall i :: 0 <= i < size ==> elements[i] == first + i)
    }

    /**
     * Fill the window from first0 on; when the container ends before the
     * window is full, become the end iterator (last0, last0).
     */
    constructor (first0: nat, last0: nat, n: nat)
      requires first0 <= last0 && 0 < n
      ensures Valid() && size == n && last == last0
      ensures first0 + n <= last0 ==> first == first0 && next == first0 + n
      ensures last0 < first0 + n ==> first == last0 && next == last0
    {
      size, last := n, last0;
      first, next := first0, first0;
      elements := seq(n, _ => 0);
      new;
      for i := 0 to size
        invariant |elements| == size && first == first0 && next == first0
        invariant forall k :: 0 <= k < i ==> elements[k] == last
      {
        elements := elements[i := last];
      }
      if first != last {
        var i := 0;
        while i < size
          invariant i <= size && |elements| == size
          invariant first == first0 && next == first0 + i
          invariant i < size ==> next < last
          invariant next <= last
          invariant forall k :: 0 <= k < i ==> elements[k] == first0 + k
        {
          elements := elements[i := next];
          next := next + 1;
          if next == last && i != size - 1 {
            first := last;
            break;
          }
          i := i + 1;
        }
      }
    }

    /** `operator==`: the window's start and the position after it agree. */
    predicate Equals(other: AdjacentArrayIterator)
      reads this, other
    {
      first == other.first && next == other.next
    }

    /**
     * `operator++`: shift the window by one position, or become the end
     * iterator when the window already reaches the container's end.
     * Incrementing the end iterator fails and changes nothing.
     */
    method Increment() returns (outcome: Outcome<IteratorError>)
      requires Valid()
      modifies this
      ensures Valid()
      ensures old(first) == last ==> outcome == Fail(IncrementEnd) && first == old(first) && next == old(next)
      ensures old(first) < last && old(next) == last ==>
        outcome.Pass? && first == last && next == last && forall i :: 0 <= i < size ==> elements[i] == last
      ensures old(first) < last && old(next) < last ==>
        outcome.Pass? && first == old(first) + 1 && next == old(next) + 1
    {
      if first == last {
        return Fail(IncrementEnd);
      }
      first := first + 1;
      if next == last {
        for i := 0 to size
          invariant |elements| == size && next == last
          invariant forall k :: 0 <= k < i ==> elements[k] == last
        {
          elements := elements[i := last];
        }
        first := last;
      } else {
        ghost var before := elements;
        for i := 0 to size
          invariant |elements| == size && first == old(first) + 1 && next == old(next)
          invariant forall k :: 0 <= k < i ==> elements[k] == before[k] + 1
          invariant forall k :: i <= k < size ==> elements[k] == before[k]
        {
          elements := elements[i := elements[i] + 1];
        }
        next := next + 1;
      }
      return Pass;
    }
  }

  /**
   * A range-based for loop over `MakeAdjacentArrayRange<n>` of a container
   * of the given length, collecting each window. n = 0 is rejected, because
   * the iterator's index range [0, n) may not be empty.
   */
  method IterateRange(length: nat, n: nat) returns (r: Result<seq<seq<nat>>, IntegralRange.RangeError>)
    ensures n == 0 ==> r == Err(IntegralRange.InvalidRange)
    ensures 0 < n ==> r == Ok(PositionWindows(length, n))
  {
    var indices := IntegralRange.Make(0, n, IntegralRange.NotAllow);
    if indices.Err? {
      return Err(indices.error);
    }
    var it := new AdjacentArrayIterator(0, length, n);
    var end := new AdjacentArrayIterator(length, length, n);
    var windows: seq<seq<nat>> := [];
    while !it.Equals(end)
      invariant it.Valid() && it.size == n && it.last == length
      invariant end.first == length && end.next == length
      invariant it.first < length ==> it.first + n <= length && windows == PositionWindows(length, n)[..it.first]
      invariant it.first == length ==> windows == PositionWindows(length, n)
      decreases length - it.first
    {
      assert it.elements == Window(it.first, n);
      windows := windows + [it.elements];
      var outcome := it.Increment();
    }
    return Ok(windows);
  }

  /** The container's values at the given positions. */
  function ValuesAt<T>(container: seq<T>, positions: seq<nat>): (values: seq<T>)
    requires forall i :: 0 <= i < |positions| ==> positions[i] < |container|
  {
    seq(|positions|, i requires 0 <= i < |positions| => container[positions[i]])
  }

  /** `ToValueArray`: copy the values a window points to. */
  method ToValueArray<T>(container: seq<T>, window: seq<nat>) returns (values: seq<T>)
    requires forall i :: 0 <= i < |window| ==> window[i] < |container|
    ensures |values| == |window|
    ensures forall i :: 0 <= i < |window| ==> values[i] == container[window[i]]
  {
    values := [];
    for i := 0 to |window|
      invariant values == ValuesAt(container, window[..i])
    {
      values := values + [container[window[i]]];
    }
  }

  /** `ToValueArray` of a map: copy the mapped values of the entries a window points to. */
  method ToValueArrayOfMap<K, V>(entries: seq<(K, V)>, window: seq<nat>) returns (values: seq<V>)
    requires forall i :: 0 <= i < |window| ==> window[i] < |entries|
    ensures |values| == |window|
    ensures forall i :: 0 <= i < |window| ==> values[i] == entries[window[i]].1
  {
    values := [];
    for i := 0 to |window|
      invariant |values| == i
      invariant forall k :: 0 <= k < i ==> values[k] == entries[window[k]].1
    {
      values := values + [entries[window[i]].1];
    }
  }

  /**
   * The windows are exactly the runs of n consecutive positions inside the
   * container, in increasing order of their start, |container| - n + 1 of
   * them; the values of window k are container[k..k + n].
   */
  lemma PositionWindowsAreRuns<T>(container: seq<T>, n: nat)
    requires 0 < n <= |container|
    ensures |PositionWindows(|container|, n)| == |container| - n + 1
    ensures forall k :: 0 <= k <= |container| - n ==>
      PositionWindows(|container|, n)[k] == Window(k, n)
      && ValuesAt(container, PositionWindows(|container|, n)[k]) == container[k..k + n]
  {
    forall k | 0 <= k <= |container| - n
      ensures ValuesAt(container, Window(k, n)) == container[k..k + n]
    {
      assert |ValuesAt(container, Window(k, n))| == n;
    }
  }

  /** A container shorter than n yields no window. */
  lemma ShortContainerHasNoWindows(length: nat, n: nat)
    requires length < n
    ensures PositionWindows(length, n) == []
  {
  }

  /** With n = 1 every element is its own window, in order. */
  lemma SingletonWindows(length: nat)
    ensures |PositionWindows(length, 1)| == length
    ensures forall k :: 0 <= k < length ==> PositionWindows(length, 1)[k] == [k]
  {
  }

  /** Consecutive windows overlap in all but one position. */
  lemma WindowsSlideByOne(length: nat, n: nat, k: nat)
    requires 0 < n && k + n < length
    ensures PositionWindows(length, n)[k][1..] == PositionWindows(length, n)[k + 1][..n - 1]
  {
  }

  /** Windows of three over {1, 2, 3, 4, 5}: {1, 2, 3}, {2, 3, 4}, {3, 4, 5}. */
  method ThreeWindowsExample() returns (values: seq<seq<int>>)
    ensures values == [[1, 2, 3], [2, 3, 4], [3, 4, 5]]
  {
    var container := [1, 2, 3, 4, 5];
    var r := IterateRange(|container|, 3);
    PositionWindowsAreRuns(container, 3);
    var windows := r.value;
    values := [];
    for k := 0 to |windows|
      invariant values == seq(k, j requires 0 <= j < k => container[j..j + 3])
    {
      var v := ToValueArray(container, windows[k]);
      assert v == container[k..k + 3];
      values := values + [v];
    }
    assert |values| == 3;
    assert values[0] == container[0..3] == [1, 2, 3];
    assert values[1] == container[1..4] == [2, 3, 4];
    assert values[2] == container[2..5] == [3, 4, 5];
  }

  /** Windows of two over the map {a:1, b:2, c:3, d:4}, as mapped values: {1, 2}, {2, 3}, {3, 4}. */
  method MapWindowsExample() returns (values: seq<seq<int>>)
    ensures values == [[1, 2], [2, 3], [3, 4]]
  {
    var entries := [("a", 1), ("b", 2), ("c", 3), ("d", 4)];
    var r := IterateRange(|entries|, 2);
    var windows := r.value;
    assert |windows| == 3;
    values := [];
    for k := 0 to |windows|
      invariant |values| == k
      invariant forall j :: 0 <= j < k ==> values[j] == [entries[j].1, entries[j + 1].1]
    {
      assert windows[k] == Window(k, 2);
      var v := ToValueArrayOfMap(entries, windows[k]);
      values := values + [v];
    }
    assert values[0] == [entries[0].1, entries[1].1] == [1, 2];
    assert values[1] == [entries[1].1, entries[2].1] == [2, 3];
    assert values[2] == [entries[2].1, entries[3].1] == [3, 4];
  }

  /** Windows of three over a two-element container: none; windows of size 0: rejected. */
  method DegenerateExample() returns (short: Result<seq<seq<nat>>, IntegralRange.RangeError>, zero: Result<seq<seq<nat>>, IntegralRange.RangeError>)
    ensures short == Ok([]) && zero.Err?
  {
    short := IterateRange(2, 3);
    zero := IterateRange(4, 0);
  }
}
