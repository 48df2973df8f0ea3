/**
 * `ies::AdditionOrderedPtrHashSet` and `ies::AdditionOrderedPtrHashMap`: a
 * hash container kept in lockstep with a vector that records the keys in
 * the order they were first added. Key pointers are modelled as values of
 * an equality type; the value pointer the map's vector holds is modelled as
 * a lookup of the key in the map.
 */
module AdditionOrdered {
  /** No element occurs twice in xs. */
  predicate NoDuplicates<K(==)>(xs: seq<K>)
  {
    forall i, j :: 0 <= i < j < |xs| ==> xs[i] != xs[j]
  }

  /** A sequence without duplicates has exactly as many distinct elements as entries. */
  lemma {:induction false} DistinctCount<K>(xs: seq<K>, s: set<K>)
    requires NoDuplicates(xs)
    requires forall x :: x in s <==> x in xs
    ensures |s| == |xs|
    decreases |xs|
  {
    if xs != [] {
      var last := xs[|xs| - 1];
      var init := xs[..|xs| - 1];
      assert forall x :: x in s - {last} <==> x in init by {
        forall x
          ensures x in s - {last} <==> x in init
        {
          if x in init {
            var i :| 0 <= i < |init| && init[i] == x;
            assert xs[i] == x;
          }
          if x in xs && x != last {
            var i :| 0 <= i < |xs| && xs[i] == x;
            assert i < |xs| - 1 && init[i] == x;
          }
        }
      }
      DistinctCount(init, s - {last});
    }
  }

  /** The set: `Emplace` adds a new key to both containers, and `Clear` empties both. */
  class AdditionOrderedSet<K(==,!new)> {
    var unorderedSet: set<K>
    var additionOrderedVector: seq<K>

    /** The vector lists exactly the set's keys, each once. */
    ghost predicate Valid()
      reads this
    {
      (forall k :: k in unorderedSet <==> k in additionOrderedVector)
      && NoDuplicates(additionOrderedVector)
    }

    /** The reserve hint only preallocates, so it is not modelled. */
    constructor ()
      ensures Valid()
      ensures unorderedSet == {} && additionOrderedVector == []
    {
      unorderedSet := {};
      additionOrderedVector := [];
    }

    /** Both containers hold the same number of keys. */
    lemma SizesAgree()
      requires Valid()
      ensures |unorderedSet| == |additionOrderedVector|
    {
      DistinctCount(additionOrderedVector, unorderedSet);
    }

    /** Add the key if absent; a new key goes to the back of the vector. */
    method Emplace(key: K) returns (isEmplaced: bool)
      requires Valid()
      modifies this
      ensures Valid()
      ensures isEmplaced <==> key !in old(unorderedSet)
      ensures unorderedSet == old(unorderedSet) + {key}
      ensures additionOrderedVector == if isEmplaced then old(additionOrderedVector) + [key] else old(additionOrderedVector)
    {
      isEmplaced := key !in unorderedSet;
      if isEmplaced {
        unorderedSet := unorderedSet + {key};
        additionOrderedVector := additionOrderedVector + [key];
      }
    }

    method Clear()
      modifies this
      ensures Valid()
      ensures unorderedSet == {} && additionOrderedVector == []
    {
      unorderedSet := {};
      additionOrderedVector := [];
    }
  }

  /** The map: `TryEmplace` adds a new key with its value; an existing key keeps its value. */
  class AdditionOrderedMap<K(==,!new), T> {
    var unorderedMap: map<K, T>
    var additionOrderedKeys: seq<K>

    /** The vector lists exactly the map's keys, each once. */
    ghost predicate Valid()
      reads this
    {
      (forall k :: k in unorderedMap <==> k in additionOrderedKeys)
      && NoDuplicates(additionOrderedKeys)
    }

    constructor ()
      ensures Valid()
      ensures unorderedMap == map[] && additionOrderedKeys == []
    {
      unorderedMap := map[];
      additionOrderedKeys := [];
    }

    /** The vector of (key, value) pairs, in addition order. */
    function AdditionOrderedVector(): (entries: seq<(K, T)>)
      requires Valid()
      reads this
      ensures |entries| == |additionOrderedKeys|
      ensures forall i :: 0 <= i < |entries| ==>
        entries[i].0 == additionOrderedKeys[i] && entries[i].1 == unorderedMap[additionOrderedKeys[i]]
    {
      var keys, values := additionOrderedKeys, unorderedMap;
      seq(|keys|, i requires 0 <= i < |keys| && keys[i] in values => (keys[i], values[keys[i]]))
    }

    /** Both containers hold the same number of keys. */
    lemma SizesAgree()
      requires Valid()
      ensures |unorderedMap| == |additionOrderedKeys|
    {
      DistinctCount(additionOrderedKeys, unorderedMap.Keys);
    }

    /**
     * `try_emplace`: insert (key, value) only when key is absent. The result
     * is the value now stored for key and whether the insertion took place.
     */
    method TryEmplace(key: K, value: T) returns (stored: T, isEmplaced: bool)
      requires Valid()
      modifies this
      ensures Valid()
      ensures isEmplaced <==> key !in old(unorderedMap)
      ensures unorderedMap == if isEmplaced then old(unorderedMap)[key := value] else old(unorderedMap)
      ensures additionOrderedKeys == if isEmplaced then old(additionOrderedKeys) + [key] else old(additionOrderedKeys)
      ensures key in unorderedMap && stored == unorderedMap[key]
    {
      isEmplaced := key !in unorderedMap;
      if isEmplaced {
        unorderedMap := unorderedMap[key := value];
        additionOrderedKeys := additionOrderedKeys + [key];
      }
      stored := unorderedMap[key];
    }

    method Clear()
      modifies this
      ensures Valid()
      ensures unorderedMap == map[] && additionOrderedKeys == []
    {
      unorderedMap := map[];
      additionOrderedKeys := [];
    }
  }

  /** Adding c, b, a and b again: the repeat is refused and the vector is c, b, a. */
  method SetAdditionOrderExample() returns (order: seq<char>, again: bool, size: nat)
    ensures order == ['c', 'b', 'a'] && !again && size == 3
  {
    var ptrSet := new AdditionOrderedSet<char>();
    var added := ptrSet.Emplace('c');
    added := ptrSet.Emplace('b');
    added := ptrSet.Emplace('a');
    assert ptrSet.additionOrderedVector == ['c', 'b', 'a'];
    assert 'b' in ptrSet.unorderedSet;
    again := ptrSet.Emplace('b');
    order := ptrSet.additionOrderedVector;
    ptrSet.SizesAgree();
    size := |ptrSet.unorderedSet|;
  }

  /**
   * Adding c:"cc", b:"bb", a:"aa", then b:"dd": the repeat keeps "bb", and
   * the vector pairs each key with its value in addition order.
   */
  method MapAdditionOrderExample() returns (entries: seq<(char, string)>, kept: string, again: bool)
    ensures |entries| == 3
    ensures entries[0] == ('c', "cc") && entries[1] == ('b', "bb") && entries[2] == ('a', "aa")
    ensures kept == "bb" && !again
  {
    var ptrMap := new AdditionOrderedMap<char, string>();
    var stored, added := ptrMap.TryEmplace('c', "cc");
    stored, added := ptrMap.TryEmplace('b', "bb");
    stored, added := ptrMap.TryEmplace('a', "aa");
    assert ptrMap.additionOrderedKeys == ['c', 'b', 'a'];
    kept, again := ptrMap.TryEmplace('b', "dd");
    entries := ptrMap.AdditionOrderedVector();
  }
}
