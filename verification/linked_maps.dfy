/**
 * Insertion-ordered maps, the model of `java.util.LinkedHashMap` as the
 * chromosome uses it: `put` of a new key appends it to the iteration order,
 * `put` of a present key replaces the value and keeps the key's position,
 * and `values()`/`keySet()` iterate in that order.
 */
module LinkedMaps {

  datatype LinkedMap<K, +V> = LinkedMap(keys: seq<K>, entries: map<K, V>)

  /** The iteration order lists every key of the map exactly once. */
  ghost predicate WellFormed<K(!new), V>(m: LinkedMap<K, V>) {
    && (forall i, j :: 0 <= i < j < |m.keys| ==> m.keys[i] != m.keys[j])
    && (forall k :: k in m.entries <==> k in m.keys)
  }

  function Empty<K(!new), V>(): (m: LinkedMap<K, V>)
    ensures WellFormed(m)
    ensures m.keys == [] && m.entries == map[]
  {
    LinkedMap([], map[])
  }

  /** The iteration order after a `put` of `k`: unchanged for a present key, `k` appended for a new one. */
  function KeysAfterPut<K, V>(m: LinkedMap<K, V>, k: K): (keys: seq<K>) {
    if k in m.entries then m.keys else m.keys + [k]
  }

  /** `LinkedHashMap.put` */
  function Put<K(!new), V>(m: LinkedMap<K, V>, k: K, v: V): (r: LinkedMap<K, V>)
    requires WellFormed(m)
    ensures WellFormed(r)
    ensures r.entries == m.entries[k := v]
    ensures k in m.entries ==> r.keys == m.keys
    ensures k !in m.entries ==> r.keys == m.keys + [k]
    ensures r.keys == KeysAfterPut(m, k)
  {
    if k in m.entries then
      LinkedMap(m.keys, m.entries[k := v])
    else
      var r := LinkedMap(m.keys + [k], m.entries[k := v]);
      assert forall x :: x in r.keys <==> x in m.keys || x == k;
      r
  }

  /** `LinkedHashMap.getOrDefault` */
  function GetOrDefault<K, V>(m: LinkedMap<K, V>, k: K, default: V): (v: V) {
    if k in m.entries then m.entries[k] else default
  }

  /**
   * The position of the first key of `keys` that satisfies `p`, or `|keys|`
   * when none does: `stream().filter(p).findFirst()` over an iteration order.
   */
  function FirstIndex<K>(keys: seq<K>, p: K -> bool): (i: nat)
    ensures i <= |keys|
    ensures i < |keys| ==> p(keys[i])
    ensures forall j :: 0 <= j < i ==> !p(keys[j])
  {
    if |keys| == 0 then 0
    else if p(keys[0]) then 0
    else 1 + FirstIndex(keys[1..], p)
  }

  /** Sum of the values of `m` at `keys`, in iteration order (`mapToDouble(..).sum()`). */
  function Sum<K>(keys: seq<K>, m: map<K, real>): (sum: real)
    requires forall k :: k in keys ==> k in m
  {
    if |keys| == 0 then 0.0 else Sum(keys[..|keys| - 1], m) + m[keys[|keys| - 1]]
  }

  /** Sum of the integer values of `m` at `keys`, as a mathematical integer. */
  function SumInt<K>(keys: seq<K>, m: map<K, int>): (sum: int)
    requires forall k :: k in keys ==> k in m
  {
    if |keys| == 0 then 0 else SumInt(keys[..|keys| - 1], m) + m[keys[|keys| - 1]]
  }

  /** Sum of all values of a real-valued linked map. */
  function Total<K(!new)>(m: LinkedMap<K, real>): (total: real)
    requires WellFormed(m)
  {
    Sum(m.keys, m.entries)
  }

  /** Sum of all values of an integer-valued linked map. */
  function TotalInt<K(!new)>(m: LinkedMap<K, int>): (total: int)
    requires WellFormed(m)
  {
    SumInt(m.keys, m.entries)
  }

  /** Changing the value of a key that is not summed over leaves the sum alone. */
  lemma {:induction false} SumFrame<K>(keys: seq<K>, m: map<K, real>, k: K, v: real)
    requires forall x :: x in keys ==> x in m
    requires k !in keys
    ensures Sum(keys, m[k := v]) == Sum(keys, m)
  {
    if |keys| > 0 {
      var init := keys[..|keys| - 1];
      assert forall x :: x in init ==> x in keys;
      SumFrame(init, m, k, v);
    }
  }

  /** Replacing the value of a summed key changes the sum by the difference. */
  lemma {:induction false} SumUpdate<K>(keys: seq<K>, m: map<K, real>, k: K, v: real)
    requires forall x :: x in keys ==> x in m
    requires forall i, j :: 0 <= i < j < |keys| ==> keys[i] != keys[j]
    requires k in keys
    ensures Sum(keys, m[k := v]) == Sum(keys, m) - m[k] + v
  {
    var n := |keys| - 1;
    var init := keys[..n];
    assert forall x :: x in init ==> x in keys;
    if keys[n] == k {
      assert k !in init;
      SumFrame(init, m, k, v);
    } else {
      assert k in init by {
        var i :| 0 <= i < |keys| && keys[i] == k;
        assert i < n;
        assert init[i] == k;
      }
      SumUpdate(init, m, k, v);
    }
  }

  /** Putting `v` at `k` changes the total by `v` minus the value it replaces (if any). */
  lemma TotalAfterPut<K(!new)>(m: LinkedMap<K, real>, k: K, v: real)
    requires WellFormed(m)
    ensures Total(Put(m, k, v)) == Total(m) - GetOrDefault(m, k, 0.0) + v
  {
    var r := Put(m, k, v);
    if k in m.entries {
      SumUpdate(m.keys, m.entries, k, v);
    } else {
      assert r.keys[..|r.keys| - 1] == m.keys;
      SumFrame(m.keys, m.entries, k, v);
    }
  }

  /*
   * The integer lemmas below repeat the real-valued ones above step for step:
   * `real` and `int` share no numeric type Dafny can abstract `Sum` over.
   */

  lemma {:induction false} SumIntFrame<K>(keys: seq<K>, m: map<K, int>, k: K, v: int)
    requires forall x :: x in keys ==> x in m
    requires k !in keys
    ensures SumInt(keys, m[k := v]) == SumInt(keys, m)
  {
    if |keys| > 0 {
      var init := keys[..|keys| - 1];
      assert forall x :: x in init ==> x in keys;
      SumIntFrame(init, m, k, v);
    }
  }

  lemma {:induction false} SumIntUpdate<K>(keys: seq<K>, m: map<K, int>, k: K, v: int)
    requires forall x :: x in keys ==> x in m
    requires forall i, j :: 0 <= i < j < |keys| ==> keys[i] != keys[j]
    requires k in keys
    ensures SumInt(keys, m[k := v]) == SumInt(keys, m) - m[k] + v
  {
    var n := |keys| - 1;
    var init := keys[..n];
    assert forall x :: x in init ==> x in keys;
    if keys[n] == k {
      assert k !in init;
      SumIntFrame(init, m, k, v);
    } else {
      assert k in init by {
        var i :| 0 <= i < |keys| && keys[i] == k;
        assert i < n;
        assert init[i] == k;
      }
      SumIntUpdate(init, m, k, v);
    }
  }

  /** The integer counterpart of `TotalAfterPut`. */
  lemma TotalIntAfterPut<K(!new)>(m: LinkedMap<K, int>, k: K, v: int)
    requires WellFormed(m)
    ensures TotalInt(Put(m, k, v)) == TotalInt(m) - GetOrDefault(m, k, 0) + v
  {
    var r := Put(m, k, v);
    if k in m.entries {
      SumIntUpdate(m.keys, m.entries, k, v);
    } else {
      assert r.keys[..|r.keys| - 1] == m.keys;
      SumIntFrame(m.keys, m.entries, k, v);
    }
  }

  /** A sum of values that all lie in [0, 1] lies in [0, |keys|]. */
  lemma {:induction false} SumOfUnitValues<K>(keys: seq<K>, m: map<K, real>)
    requires forall x :: x in keys ==> x in m
    requires forall x :: x in keys ==> 0.0 <= m[x] <= 1.0
    ensures 0.0 <= Sum(keys, m) <= |keys| as real
  {
    if |keys| > 0 {
      var init := keys[..|keys| - 1];
      assert forall x :: x in init ==> x in keys;
      SumOfUnitValues(init, m);
    }
  }

  /** A sum of non-negative values is non-negative. */
  lemma {:induction false} SumNonNegative<K>(keys: seq<K>, m: map<K, real>)
    requires forall x :: x in keys ==> x in m
    ensures (forall x :: x in keys ==> m[x] >= 0.0) ==> Sum(keys, m) >= 0.0
  {
    if |keys| > 0 {
      var init := keys[..|keys| - 1];
      assert forall x :: x in init ==> x in keys;
      SumNonNegative(init, m);
    }
  }
}
