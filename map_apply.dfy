/**
 * `ies::MapApplyWithInit` and the helpers built on it: update one key of a
 * map in place, inserting an initial value first when the key is absent.
 * The map passed by reference is modelled as the map before the call and
 * the map returned; the returned reference to the value is its new value.
 */
module MapApply {
  /**
   * `try_emplace(key, initialValue)` followed by `operation(value)`: the key
   * ends up present, its value is the operation applied to the old value (or
   * to the initial value when it was absent), and the other keys keep their
   * entries.
   */
  method MapApplyWithInit<K(==), V>(m: map<K, V>, key: K, initialValue: V, operation: V -> V)
    returns (updated: map<K, V>, value: V)
    ensures updated.Keys == m.Keys + {key}
    ensures key in m ==> updated[key] == operation(m[key])
    ensures key !in m ==> updated[key] == operation(initialValue)
    ensures forall k :: k in m && k != key ==> updated[k] == m[k]
    ensures value == updated[key]
  {
    updated := m;
    if key !in updated {
      updated := updated[key := initialValue];
    }
    value := operation(updated[key]);
    updated := updated[key := value];
  }

  /** `MapApply`: `MapApplyWithInit` with initial value 0. */
  method MapApply<K(==)>(m: map<K, int>, key: K, operation: int -> int)
    returns (updated: map<K, int>, value: int)
    ensures updated.Keys == m.Keys + {key}
    ensures updated[key] == operation(if key in m then m[key] else 0)
    ensures forall k :: k in m && k != key ==> updated[k] == m[k]
    ensures value == updated[key]
  {
    updated, value := MapApplyWithInit(m, key, 0, operation);
  }

  /** `MapIncrementWithInit`: an absent key becomes initialValue + 1, a present one grows by 1. */
  method MapIncrementWithInit<K(==)>(m: map<K, int>, key: K, initialValue: int)
    returns (updated: map<K, int>, value: int)
    ensures updated.Keys == m.Keys + {key}
    ensures updated[key] == (if key in m then m[key] else initialValue) + 1
    ensures forall k :: k in m && k != key ==> updated[k] == m[k]
    ensures value == updated[key]
  {
    updated, value := MapApplyWithInit(m, key, initialValue, x => x + 1);
  }

  /** `MapIncrementCount`: count one more occurrence of key, starting from 0. */
  method MapIncrementCount<K(==)>(m: map<K, int>, key: K)
    returns (updated: map<K, int>, value: int)
    ensures updated.Keys == m.Keys + {key}
    ensures key in m ==> updated[key] == m[key] + 1
    ensures key !in m ==> updated[key] == 1
    ensures forall k :: k in m && k != key ==> updated[k] == m[k]
    ensures value == updated[key]
  {
    updated, value := MapIncrementWithInit(m, key, 0);
  }

  /** `MapAddCount`: add addingValue to key's count, starting from 0. */
  method MapAddCount<K(==)>(m: map<K, int>, key: K, addingValue: int)
    returns (updated: map<K, int>, value: int)
    ensures updated.Keys == m.Keys + {key}
    ensures key in m ==> updated[key] == m[key] + addingValue
    ensures key !in m ==> updated[key] == addingValue
    ensures forall k :: k in m && k != key ==> updated[k] == m[k]
    ensures value == updated[key]
  {
    updated, value := MapApplyWithInit(m, key, 0, x => x + addingValue);
  }

  /**
   * Doubling keys 1, 3 and 5 of {0:0, 1:1, 2:3, 3:5, 4:7}: the absent key 5
   * starts at 0 and stays 0.
   */
  method DoubleApplyExample() returns (m: map<int, int>)
    ensures m == map[0 := 0, 1 := 2, 2 := 3, 3 := 10, 4 := 7, 5 := 0]
  {
    m := map[0 := 0, 1 := 1, 2 := 3, 3 := 5, 4 := 7];
    var v;
    m, v := MapApply(m, 1, x => x * 2);
    m, v := MapApply(m, 3, x => x * 2);
    m, v := MapApply(m, 5, x => x * 2);
  }

  /** Adding 0, -2, 3 and 4 to keys 1, 2, 3 and the absent key 5. */
  method AddCountExample() returns (m: map<int, int>)
    ensures m == map[0 := 0, 1 := 1, 2 := 1, 3 := 8, 4 := 7, 5 := 4]
  {
    m := map[0 := 0, 1 := 1, 2 := 3, 3 := 5, 4 := 7];
    var v;
    m, v := MapAddCount(m, 1, 0);
    m, v := MapAddCount(m, 2, -2);
    m, v := MapAddCount(m, 3, 3);
    m, v := MapAddCount(m, 5, 4);
  }

  /** Incrementing the present key 2 (from 3) and the absent key 1 (from 0). */
  method IncrementWithInitExample() returns (m: map<int, int>)
    ensures m == map[2 := 4, 1 := 1]
  {
    m := map[2 := 3];
    var v;
    m, v := MapIncrementWithInit(m, 2, 1);
    m, v := MapIncrementWithInit(m, 1, 0);
  }
}
