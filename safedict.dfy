/**
 * `ThreadSafeDict`: a dictionary whose operations each run under one re-entrant lock. The
 * lock only serialises the calls, so the model is the sequential dictionary. `compute` and
 * `compute_if_absent` follow Python truthiness: a falsy value is never stored by them.
 */
module Concurrent {
  import opened Wrappers

  /** A Python value seen through a truthiness test, with None (an absent value) falsy. */
  predicate Truthy<V>(truthy: V -> bool, v: Option<V>) {
    v.Some? && truthy(v.value)
  }

  /** `dict.get(key)`: the stored value, or None. */
  function Lookup<K, V>(m: map<K, V>, key: K): (r: Option<V>)
    ensures r.Some? <==> key in m
    ensures r.Some? ==> r.value == m[key]
  {
    if key in m then Some(m[key]) else None
  }

  /**
   * The dictionary after `compute` stores `newVal`: a truthy value replaces the entry; a
   * falsy one removes the entry only when the old value was truthy.
   */
  function ComputedMap<K, V>(truthy: V -> bool, m: map<K, V>, key: K, newVal: Option<V>): (r: map<K, V>)
    ensures r.Keys - {key} == m.Keys - {key}
    ensures forall k :: k in r && k != key ==> k in m && r[k] == m[k]
    ensures Truthy(truthy, newVal) ==> key in r && r[key] == newVal.value
    ensures !Truthy(truthy, newVal) ==> (key in r <==> key in m && !truthy(m[key]))
    ensures !Truthy(truthy, newVal) && key in r ==> r[key] == m[key]
  {
    if Truthy(truthy, newVal) then m[key := newVal.value]
    else if Truthy(truthy, Lookup(m, key)) then m - {key}
    else m
  }

  /**
   * The dictionary after `compute_if_absent` whose factory yields `made`: changed only when
   * the old value is falsy or absent and `made` is truthy.
   */
  function FilledMap<K, V>(truthy: V -> bool, m: map<K, V>, key: K, made: Option<V>): (r: map<K, V>)
    ensures r.Keys - {key} == m.Keys - {key}
    ensures forall k :: k in r && k != key ==> k in m && r[k] == m[k]
    ensures Truthy(truthy, Lookup(m, key)) || !Truthy(truthy, made) ==> r == m
    ensures !Truthy(truthy, Lookup(m, key)) && Truthy(truthy, made) ==> key in r && r[key] == made.value
  {
    if !Truthy(truthy, Lookup(m, key)) && Truthy(truthy, made) then m[key := made.value] else m
  }

  /** What `compute_if_absent` returns: the stored value after the call when one is truthy, else the old value. */
  function FilledValue<K, V>(truthy: V -> bool, m: map<K, V>, key: K, made: Option<V>): (r: Option<V>)
    ensures Truthy(truthy, Lookup(m, key)) ==> r == Lookup(m, key)
    ensures !Truthy(truthy, Lookup(m, key)) && Truthy(truthy, made) ==> r == made
    ensures !Truthy(truthy, Lookup(m, key)) && !Truthy(truthy, made) ==> r == Lookup(m, key)
  {
    if !Truthy(truthy, Lookup(m, key)) && Truthy(truthy, made) then made else Lookup(m, key)
  }

  /** Whenever `compute_if_absent` returns a truthy value, that value is what the key now holds. */
  lemma FilledValueIsStored<K, V>(truthy: V -> bool, m: map<K, V>, key: K, made: Option<V>)
    requires Truthy(truthy, FilledValue(truthy, m, key, made))
    ensures Lookup(FilledMap(truthy, m, key, made), key) == FilledValue(truthy, m, key, made)
  {
  }

  /**
   * A second `compute_if_absent` on a key the first one filled (or found truthy) returns the
   * same value, changes nothing and does not need its factory, whatever the factory makes.
   */
  lemma FillIsIdempotent<K, V>(truthy: V -> bool, m: map<K, V>, key: K, made: Option<V>, again: Option<V>)
    requires Truthy(truthy, Lookup(m, key)) || Truthy(truthy, made)
    ensures var m1 := FilledMap(truthy, m, key, made);
            && Truthy(truthy, Lookup(m1, key))
            && FilledMap(truthy, m1, key, again) == m1
            && FilledValue(truthy, m1, key, again) == FilledValue(truthy, m, key, made)
  {
  }

  /** `compute` then `get`: the truthy new value, or else whatever falsy entry was kept, or None. */
  lemma ComputeThenLookup<K, V>(truthy: V -> bool, m: map<K, V>, key: K, newVal: Option<V>)
    ensures var after := Lookup(ComputedMap(truthy, m, key, newVal), key);
            && (Truthy(truthy, newVal) ==> after == newVal)
            && (!Truthy(truthy, newVal) ==> after == (if Truthy(truthy, Lookup(m, key)) then None else Lookup(m, key)))
  {
  }

  /**
   * The two ways `compute` can leave a key holding nothing truthy agree with
   * `compute_if_absent`: after a falsy `compute`, a filling call with a truthy factory stores it.
   */
  lemma ComputeFalsyThenFill<K, V>(truthy: V -> bool, m: map<K, V>, key: K, newVal: Option<V>, made: Option<V>)
    requires !Truthy(truthy, newVal) && Truthy(truthy, made)
    ensures var m1 := ComputedMap(truthy, m, key, newVal);
            Lookup(FilledMap(truthy, m1, key, made), key) == made
  {
  }

  /**
   * The shared dictionary. Python truthiness belongs to the stored values, so the two
   * operations that test it take it as `truthy`.
   */
  class ThreadSafeDict<K(==), V> {
    var data: map<K, V>

    constructor ()
      ensures data == map[]
    {
      data := map[];
    }

    /** `__len__` */
    method Len() returns (n: nat)
      ensures n == |data|
    {
      n := |data|;
    }

    /** `get(key, default)` */
    method Get(key: K, default: Option<V>) returns (r: Option<V>)
      ensures key in data ==> r == Some(data[key])
      ensures key !in data ==> r == default
    {
      r := if key in data then Some(data[key]) else default;
    }

    /** `__contains__` */
    method Contains(key: K) returns (b: bool)
      ensures b <==> key in data
    {
      b := key in data;
    }

    /** `__setitem__` */
    method SetItem(key: K, value: V)
      modifies this
      ensures data == old(data)[key := value]
    {
      data := data[key := value];
    }

    /** `__delitem__`: KeyError when the key is absent. */
    method DelItem(key: K) returns (r: Result<()>)
      modifies this
      ensures key in old(data) ==> r == Ok(()) && data == old(data) - {key}
      ensures key !in old(data) ==> r == Err(KeyError) && data == old(data)
    {
      if key !in data {
        return Err(KeyError);
      }
      data := data - {key};
      return Ok(());
    }

    /** `pop(key, default)`: the removed value, or the default with nothing removed. */
    method Pop(key: K, default: Option<V>) returns (r: Option<V>)
      modifies this
      ensures key in old(data) ==> r == Some(old(data)[key]) && data == old(data) - {key}
      ensures key !in old(data) ==> r == default && data == old(data)
    {
      r := Lookup(data, key);
      if r.None? {
        r := default;
      } else {
        data := data - {key};
      }
    }

    /** `setdefault(key, default)`: the first value put under a key wins. */
    method SetDefault(key: K, default: V) returns (r: V)
      modifies this
      ensures key in old(data) ==> r == old(data)[key] && data == old(data)
      ensures key !in old(data) ==> r == default && data == old(data)[key := default]
    {
      if key in data {
        r := data[key];
      } else {
        data := data[key := default];
        r := default;
      }
    }

    /**
     * `compute(key, func)`: `func` sees the key and its old value; a truthy result is stored
     * and returned, a falsy one removes a truthy entry and None is returned.
     */
    method Compute(key: K, func: (K, Option<V>) -> Option<V>, truthy: V -> bool) returns (r: Option<V>)
      modifies this
      ensures var newVal := func(key, Lookup(old(data), key));
              && data == ComputedMap(truthy, old(data), key, newVal)
              && r == (if Truthy(truthy, newVal) then newVal else None)
    {
      var oldVal := Lookup(data, key);
      var newVal := func(key, oldVal);
      if newVal.Some? && truthy(newVal.value) {
        data := data[key := newVal.value];
        return newVal;
      }
      if oldVal.Some? && truthy(oldVal.value) {
        data := data - {key};
      }
      return None;
    }

    /**
     * `compute_if_absent(key, func)`: the factory runs (`called`) only when the old value is
     * falsy or absent; a truthy result is stored and returned, otherwise the old value is.
     */
    method ComputeIfAbsent(key: K, func: () -> Option<V>, truthy: V -> bool) returns (r: Option<V>, called: bool)
      modifies this
      ensures called <==> !Truthy(truthy, Lookup(old(data), key))
      ensures data == FilledMap(truthy, old(data), key, func())
      ensures r == FilledValue(truthy, old(data), key, func())
    {
      var oldVal := Lookup(data, key);
      called := false;
      if !(oldVal.Some? && truthy(oldVal.value)) {
        called := true;
        var newVal := func();
        if newVal.Some? && truthy(newVal.value) {
          data := data[key := newVal.value];
          return newVal, called;
        }
      }
      return oldVal, called;
    }
  }
}
