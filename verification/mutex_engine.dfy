/**
 * The exclusive-lock engine (package internal/mutex): one Go map guarded by a
 * reader-writer lock. Every method is modelled as one atomic sequential step
 * on the `data` field; the lock itself is not modelled.
 */
module MutexEngine {
  import opened Iteration

  /** The loop in New: copy `m` entry by entry into a fresh map, in the runtime's order. */
  method CopyEntries<K, V>(m: map<K, V>) returns (c: map<K, V>)
    ensures c == m
  {
    c := map[];
    var rest := m.Keys;
    while rest != {}
      invariant rest <= m.Keys
      invariant c.Keys == m.Keys - rest
      invariant forall k :: k in c ==> c[k] == m[k]
      decreases rest
    {
      var k :| k in rest;
      c := c[k := m[k]];
      rest := rest - {k};
    }
  }

  class TypedMap<K(==), V(==)> {
    /** The entries. */
    var data: map<K, V>
    /** Whether V supports equality; when false, CompareAndSwap and CompareAndDelete always fail. */
    const valueComparable: bool
    /** Go's zero value of V, which lookups of an absent key return. */
    const zero: V

    /**
     * New: the container starts with a copy of `m` (a nil Go map is the empty
     * map here). `valueComparable` stands for the comparability probe on V.
     */
    constructor New(m: map<K, V>, valueComparable: bool, zero: V)
      ensures data == m
      ensures this.valueComparable == valueComparable && this.zero == zero
    {
      var copy := CopyEntries(m);
      data := copy;
      this.valueComparable := valueComparable;
      this.zero := zero;
    }

    /** Load: the stored value and true, or the zero value and false. */
    method Load(key: K) returns (v: V, ok: bool)
      ensures ok <==> key in data
      ensures ok ==> v == data[key]
      ensures !ok ==> v == zero
    {
      ok := key in data;
      v := if ok then data[key] else zero;
    }

    /** Store: Swap with its result dropped. */
    method Store(key: K, value: V)
      modifies this
      ensures data == old(data)[key := value]
    {
      var previous, loaded := Swap(key, value);
    }

    /** LoadOrStore: an existing value is returned and never overwritten; otherwise `value` is inserted. */
    method LoadOrStore(key: K, value: V) returns (actual: V, loaded: bool)
      modifies this
      ensures loaded <==> key in old(data)
      ensures loaded ==> actual == old(data)[key] && data == old(data)
      ensures !loaded ==> actual == value && data == old(data)[key := value]
    {
      loaded := key in data;
      if loaded {
        actual := data[key];
        return;
      }
      data := data[key := value];
      actual := value;
    }

    /** LoadAndDelete: report the previous value (or zero) and presence; afterwards `key` is absent. */
    method LoadAndDelete(key: K) returns (value: V, loaded: bool)
      modifies this
      ensures loaded <==> key in old(data)
      ensures value == if loaded then old(data)[key] else zero
      ensures data == old(data) - {key}
    {
      loaded := key in data;
      value := if loaded then data[key] else zero;
      if loaded {
        data := data - {key};
      } else {
        assert data == data - {key};
      }
    }

    /** Delete: LoadAndDelete with its result dropped. */
    method Delete(key: K)
      modifies this
      ensures data == old(data) - {key}
    {
      var value, loaded := LoadAndDelete(key);
    }

    /** Swap: report the previous value (or zero) and presence, then store `value`. */
    method Swap(key: K, value: V) returns (previous: V, loaded: bool)
      modifies this
      ensures loaded <==> key in old(data)
      ensures previous == if loaded then old(data)[key] else zero
      ensures data == old(data)[key := value]
    {
      loaded := key in data;
      previous := if loaded then data[key] else zero;
      data := data[key := value];
    }

    /**
     * CompareAndSwap: succeeds exactly when values are comparable, `key` is
     * present and holds `expected`; only then is `replacement` stored.
     */
    method CompareAndSwap(key: K, expected: V, replacement: V) returns (swapped: bool)
      modifies this
      ensures swapped <==> valueComparable && key in old(data) && old(data)[key] == expected
      ensures swapped ==> data == old(data)[key := replacement]
      ensures !swapped ==> data == old(data)
    {
      if !valueComparable {
        return false;
      }
      if key !in data || data[key] != expected {
        return false;
      }
      data := data[key := replacement];
      swapped := true;
    }

    /**
     * CompareAndDelete: succeeds exactly when values are comparable, `key` is
     * present and holds `expected` (an absent key never matches, not even the
     * zero value); only then is `key` removed.
     */
    method CompareAndDelete(key: K, expected: V) returns (deleted: bool)
      modifies this
      ensures deleted <==> valueComparable && key in old(data) && old(data)[key] == expected
      ensures deleted ==> data == old(data) - {key}
      ensures !deleted ==> data == old(data)
    {
      if !valueComparable {
        return false;
      }
      if key !in data || data[key] != expected {
        return false;
      }
      data := data - {key};
      deleted := true;
    }

    /**
     * Range: hand the entries to `f` in the runtime's order and stop after the
     * first false. `visited` is the sequence of keys `f` was called with.
     */
    method Range(f: (K, V) -> bool) returns (visited: seq<K>)
      ensures IsRangeTrace(data, f, visited)
    {
      visited := RangeUntilFalse(data, f);
    }

    /** Clear: the container becomes empty. */
    method Clear()
      modifies this
      ensures data == map[]
    {
      data := map[];
    }

    /** Has: whether `key` is present, by way of Load. */
    method Has(key: K) returns (present: bool)
      ensures present <==> key in data
    {
      var v, ok := Load(key);
      present := ok;
    }

    /**
     * Update: `f` receives the stored value (or zero) and the presence flag,
     * and its answer is stored under `key`; no other key changes.
     */
    method Update(key: K, f: (V, bool) -> V)
      modifies this
      ensures key in data
      ensures key in old(data) ==> data[key] == f(old(data)[key], true)
      ensures key !in old(data) ==> data[key] == f(zero, false)
      ensures data - {key} == old(data) - {key}
    {
      var v := if key in data then data[key] else zero;
      var ok := key in data;
      data := data[key := f(v, ok)];
    }

    /**
     * UpdateRange: like Range, but each visited entry on which `f` says
     * "continue" gets `f`'s new value; the entry on which `f` says "stop" is
     * not written. `visited` is the sequence of keys `f` was called with.
     */
    method UpdateRange(f: (K, V) -> (V, bool)) returns (visited: seq<K>)
      modifies this
      ensures IsUpdateRangeResult(old(data), f, visited, data)
      ensures |data| == |old(data)|
    {
      ghost var before := data;
      visited := [];
      var rest := data.Keys;
      while rest != {}
        invariant data.Keys == before.Keys
        invariant rest <= data.Keys
        invariant NoDuplicates(visited)
        invariant forall i :: 0 <= i < |visited| ==> visited[i] in data && visited[i] !in rest
        invariant forall k :: k in data && k !in rest ==> k in visited
        invariant forall i :: 0 <= i < |visited| ==> f(visited[i], before[visited[i]]).1
        invariant forall k :: k in data ==> data[k] == if k in visited then f(k, before[k]).0 else before[k]
        decreases rest
      {
        var key :| key in rest;
        var newValue, ok := f(key, data[key]).0, f(key, data[key]).1;
        visited := visited + [key];
        rest := rest - {key};
        if !ok {
          assert IsRangeTrace(before, Continues(f), visited);
          UpdateRangeKeepsLength(before, f, visited, data);
          return;
        }
        data := data[key := newValue];
      }
      DistinctBound(visited, data.Keys);
      CoverBound(visited, data.Keys);
      UpdateRangeKeepsLength(before, f, visited, data);
    }

    /** Exclusive: `f` gets the whole map and its result becomes the new contents. */
    method Exclusive(f: map<K, V> -> map<K, V>)
      modifies this
      ensures data == f(old(data))
    {
      data := f(data);
    }

    /** Len: the number of entries. */
    method Len() returns (n: int)
      ensures n == |data|
    {
      n := |data|;
    }

    /** Keys: every key once, in the runtime's order; empty on an empty map. */
    method Keys() returns (keys: seq<K>)
      ensures Enumerates(keys, data)
      ensures |keys| == |data|
    {
      var max := |data|;
      if max == 0 {
        return [];
      }
      keys := [];
      var rest := data.Keys;
      while rest != {}
        invariant rest <= data.Keys
        invariant NoDuplicates(keys)
        invariant forall i :: 0 <= i < |keys| ==> keys[i] in data && keys[i] !in rest
        invariant forall k :: k in data && k !in rest ==> k in keys
        invariant |keys| + |rest| == max
        decreases rest
      {
        var key :| key in rest;
        keys := keys + [key];
        assert rest == (rest - {key}) + {key};
        rest := rest - {key};
        if |keys| >= max {
          assert rest == {};
          break;
        }
      }
      EnumerationLength(keys, data);
    }

    /** Values: one value per entry, in the runtime's order (`order` is that order). */
    method Values() returns (values: seq<V>, ghost order: seq<K>)
      ensures |values| == |data|
      ensures Enumerates(order, data) && |order| == |values|
      ensures forall i :: 0 <= i < |values| ==> values[i] == data[order[i]]
    {
      var max := |data|;
      order := [];
      if max == 0 {
        return [], order;
      }
      values := [];
      var rest := data.Keys;
      while rest != {}
        invariant rest <= data.Keys
        invariant NoDuplicates(order)
        invariant forall i :: 0 <= i < |order| ==> order[i] in data && order[i] !in rest
        invariant forall k :: k in data && k !in rest ==> k in order
        invariant |order| + |rest| == max
        invariant |values| == |order|
        invariant forall i :: 0 <= i < |values| ==> values[i] == data[order[i]]
        decreases rest
      {
        var key :| key in rest;
        order := order + [key];
        values := values + [data[key]];
        assert rest == (rest - {key}) + {key};
        rest := rest - {key};
        if |values| >= max {
          assert rest == {};
          break;
        }
      }
      EnumerationLength(order, data);
    }

    /** Entries: keys and values side by side, `values[i]` stored under `keys[i]`. */
    method Entries() returns (keys: seq<K>, values: seq<V>)
      ensures Enumerates(keys, data)
      ensures |values| == |keys| == |data|
      ensures forall i :: 0 <= i < |keys| ==> values[i] == data[keys[i]]
    {
      var max := |data|;
      if max == 0 {
        return [], [];
      }
      keys, values := [], [];
      var rest := data.Keys;
      while rest != {}
        invariant rest <= data.Keys
        invariant NoDuplicates(keys)
        invariant forall i :: 0 <= i < |keys| ==> keys[i] in data && keys[i] !in rest
        invariant forall k :: k in data && k !in rest ==> k in keys
        invariant |keys| + |rest| == max
        invariant |values| == |keys|
        invariant forall i :: 0 <= i < |keys| ==> values[i] == data[keys[i]]
        decreases rest
      {
        var key :| key in rest;
        keys := keys + [key];
        values := values + [data[key]];
        assert rest == (rest - {key}) + {key};
        rest := rest - {key};
        if |keys| >= max {
          assert rest == {};
          break;
        }
      }
      EnumerationLength(keys, data);
    }
  }
}
