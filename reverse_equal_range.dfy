/**
 * `ies::ReverseLowerBound`, `ReverseUpperBound` and `ReverseEqualRange`:
 * binary searches over an ascending container traversed from its back.
 *
 * A reverse iterator is modelled by the index of the element it points at:
 * `|s| - 1` is `crbegin()` (for a non-empty container) and `-1` is `crend()`.
 * The forward `LowerBound`/`UpperBound` are `std::lower_bound`/`std::upper_bound`
 * (and `std::map::lower_bound`/`upper_bound`), an index in 0..|s|.
 */
module ReverseEqualRange {
  predicate Ascending(s: seq<int>)
  {
    forall i, j :: 0 <= i < j < |s| ==> s[i] <= s[j]
  }

  /** The last element that is <= v, or crend when every element is > v. */
  function ReverseLowerBound(s: seq<int>, v: int): (p: int)
    requires Ascending(s)
    ensures -1 <= p < |s|
    ensures forall k :: 0 <= k <= p ==> s[k] <= v
    ensures forall k :: p < k < |s| ==> v < s[k]
    decreases |s|
  {
    if s == [] then -1
    else if s[|s| - 1] <= v then |s| - 1
    else ReverseLowerBound(s[..|s| - 1], v)
  }

  /** The last element that is < v, or crend when every element is >= v. */
  function ReverseUpperBound(s: seq<int>, v: int): (p: int)
    requires Ascending(s)
    ensures -1 <= p < |s|
    ensures forall k :: 0 <= k <= p ==> s[k] < v
    ensures forall k :: p < k < |s| ==> v <= s[k]
    decreases |s|
  {
    if s == [] then -1
    else if s[|s| - 1] < v then |s| - 1
    else ReverseUpperBound(s[..|s| - 1], v)
  }

  /** The pair (ReverseLowerBound, ReverseUpperBound). */
  function ReverseEqualRange(s: seq<int>, v: int): (r: (int, int))
    requires Ascending(s)
    ensures r.1 <= r.0
    ensures forall k :: 0 <= k < |s| ==> (r.1 < k <= r.0 <==> s[k] == v)
  {
    var lower, upper := ReverseLowerBound(s, v), ReverseUpperBound(s, v);
    assert upper == -1 || s[upper] < v;
    (lower, upper)
  }

  /** `std::lower_bound`: the first index whose element is >= v. */
  function LowerBound(s: seq<int>, v: int): (i: nat)
    requires Ascending(s)
    ensures i <= |s|
    ensures forall k :: 0 <= k < i ==> s[k] < v
    ensures forall k :: i <= k < |s| ==> v <= s[k]
  {
    ReverseUpperBound(s, v) + 1
  }

  /** `std::upper_bound`: the first index whose element is > v. */
  function UpperBound(s: seq<int>, v: int): (i: nat)
    requires Ascending(s)
    ensures i <= |s|
    ensures forall k :: 0 <= k < i ==> s[k] <= v
    ensures forall k :: i <= k < |s| ==> v < s[k]
  {
    ReverseLowerBound(s, v) + 1
  }

  /** The elements a reverse traversal from it to the end visits. */
  function ReverseSpan(s: seq<int>, from: int, to: int): (r: seq<int>)
    requires -1 <= to <= from < |s|
  {
    seq(from - to, i requires 0 <= i < from - to => s[from - i])
  }

  /**
   * The reverse equal range visits exactly the elements that `std::equal_range`
   * spans: its bounds are the forward bounds shifted by one, and both hold only v.
   */
  lemma ReverseEqualRangeMatchesEqualRange(s: seq<int>, v: int)
    requires Ascending(s)
    ensures var (rlb, rub) := ReverseEqualRange(s, v);
      LowerBound(s, v) == rub + 1 && UpperBound(s, v) == rlb + 1
      && ReverseSpan(s, rlb, rub) == s[LowerBound(s, v)..UpperBound(s, v)]
  {
    var (rlb, rub) := ReverseEqualRange(s, v);
    var forward := s[rub + 1..rlb + 1];
    var backward := ReverseSpan(s, rlb, rub);
    assert |forward| == |backward|;
    forall i | 0 <= i < |forward| ensures forward[i] == backward[i] {
      assert forward[i] == s[rub + 1 + i] == v;
      assert backward[i] == s[rlb - i] == v;
    }
  }

  /** A value above every element gives crbegin for both bounds. */
  lemma AboveEverythingGivesBegin(s: seq<int>, v: int)
    requires Ascending(s) && |s| > 0 && s[|s| - 1] < v
    ensures ReverseLowerBound(s, v) == |s| - 1 && ReverseUpperBound(s, v) == |s| - 1
  {
  }

  /** The keys of an ordered map, in iteration order. */
  function Keys<V>(m: seq<(int, V)>): (ks: seq<int>)
    ensures |ks| == |m| && forall k :: 0 <= k < |m| ==> ks[k] == m[k].0
  {
    seq(|m|, i requires 0 <= i < |m| => m[i].0)
  }

  /** A `std::map` iterated in order: strictly ascending keys. */
  predicate KeysAscending<V>(m: seq<(int, V)>)
  {
    forall i, j :: 0 <= i < j < |m| ==> m[i].0 < m[j].0
  }

  /** The map overload of ReverseLowerBound: keys are compared, values ignored. */
  function MapReverseLowerBound<V>(m: seq<(int, V)>, key: int): (p: int)
    requires KeysAscending(m)
    ensures -1 <= p < |m|
    ensures forall k :: 0 <= k <= p ==> m[k].0 <= key
    ensures forall k :: p < k < |m| ==> key < m[k].0
  {
    ReverseLowerBound(Keys(m), key)
  }

  /** The map overload of ReverseUpperBound: keys are compared, values ignored. */
  function MapReverseUpperBound<V>(m: seq<(int, V)>, key: int): (p: int)
    requires KeysAscending(m)
    ensures -1 <= p < |m|
    ensures forall k :: 0 <= k <= p ==> m[k].0 < key
    ensures forall k :: p < k < |m| ==> key <= m[k].0
  {
    ReverseUpperBound(Keys(m), key)
  }

  /** In a map at most one entry has the key: the map equal range has length 0 or 1. */
  lemma MapEqualRangeAtMostOne<V>(m: seq<(int, V)>, key: int)
    requires KeysAscending(m)
    ensures MapReverseLowerBound(m, key) - MapReverseUpperBound(m, key) <= 1
    ensures MapReverseLowerBound(m, key) - MapReverseUpperBound(m, key) == 1
      <==> exists k :: 0 <= k < |m| && m[k].0 == key
  {
    var rlb, rub := MapReverseLowerBound(m, key), MapReverseUpperBound(m, key);
    if rlb >= 1 {
      assert m[rlb - 1].0 < m[rlb].0;
    }
    if exists k :: 0 <= k < |m| && m[k].0 == key {
      var k :| 0 <= k < |m| && m[k].0 == key;
      assert rub < k <= rlb;
    }
    if rlb - rub == 1 {
      assert m[rlb].0 == key;
    }
  }

  /** The equal range of 4 in {0, 1, 2, 2, 2, 3, 4, 4, 4, 5, 7}. */
  lemma EqualRangeExample()
    ensures var v := [0, 1, 2, 2, 2, 3, 4, 4, 4, 5, 7];
      Ascending(v) && LowerBound(v, 4) == 6 && UpperBound(v, 4) == 9
      && ReverseEqualRange(v, 4) == (8, 5)
  {
    var v := [0, 1, 2, 2, 2, 3, 4, 4, 4, 5, 7];
    assert Ascending(v);
    var rlb, rub := ReverseLowerBound(v, 4), ReverseUpperBound(v, 4);
    assert v[8] <= 4 < v[9];
    assert v[5] < 4 <= v[6];
    assert rlb == 8 && rub == 5;
  }
}
