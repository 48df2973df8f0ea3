/**
 * `ies::EraseIf`: erase every element of an associative container that
 * satisfies a predicate, walking the container once and either erasing the
 * current element or stepping past it. Sets and maps are modelled as Dafny
 * `set` and `map`; which element the walk visits next does not affect the
 * result, so the model picks any element not yet visited.
 */
module EraseIf {
  /** The elements of s for which the predicate is false. */
  function Kept<T>(s: set<T>, shouldErase: T -> bool): set<T>
  {
    set x | x in s && !shouldErase(x)
  }

  /** The set overload: exactly the elements with a false predicate remain. */
  method EraseIfSet<T(==)>(s: set<T>, shouldErase: T -> bool) returns (r: set<T>)
    ensures r == Kept(s, shouldErase)
    ensures forall x :: x in r <==> x in s && !shouldErase(x)
  {
    r := s;
    var unvisited := s;
    while unvisited != {}
      invariant unvisited <= s
      invariant forall x :: x in r <==> x in s && (x in unvisited || !shouldErase(x))
      decreases |unvisited|
    {
      var x :| x in unvisited;
      if shouldErase(x) {
        r := r - {x};
      }
      unvisited := unvisited - {x};
    }
  }

  /**
   * The map overload, whose predicate sees the (key, value) pair: exactly
   * the entries with a false predicate remain, with their values unchanged.
   */
  method EraseIfMap<K(==), V>(m: map<K, V>, shouldErase: (K, V) -> bool) returns (r: map<K, V>)
    ensures forall k :: k in r <==> k in m && !shouldErase(k, m[k])
    ensures forall k :: k in r ==> r[k] == m[k]
  {
    r := m;
    var unvisited := m.Keys;
    while unvisited != {}
      invariant unvisited <= m.Keys
      invariant forall k :: k in r <==> k in m && (k in unvisited || !shouldErase(k, m[k]))
      invariant forall k :: k in r ==> r[k] == m[k]
      decreases |unvisited|
    {
      var k :| k in unvisited;
      if shouldErase(k, r[k]) {
        r := r - {k};
      }
      unvisited := unvisited - {k};
    }
  }

  /** Erasing the odd elements of {1, 2, 3} leaves {2}. */
  method EraseOddExample() returns (r: set<int>)
    ensures r == {2}
  {
    r := EraseIfSet({1, 2, 3}, x => x % 2 == 1);
    assert 1 !in r && 3 !in r && 2 in r;
  }

  /**
   * Erasing the entries whose key starts with 'a' and whose value is 1
   * modulo 3 from {a:1, b:2, ab:3, abc:4} leaves {b:2, ab:3}.
   */
  method EraseEntriesExample() returns (r: map<string, int>)
    ensures r == map["b" := 2, "ab" := 3]
  {
    var m := map["a" := 1, "b" := 2, "ab" := 3, "abc" := 4];
    r := EraseIfMap(m, (k: string, v: int) => |k| > 0 && k[0] == 'a' && v % 3 == 1);
    assert "a" !in r && "abc" !in r && "b" in r && "ab" in r;
    assert r.Keys == {"b", "ab"};
  }
}
