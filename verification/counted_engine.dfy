/**
 * The older engine in typedmap.go: a store of entries (a sync.Map there) with
 * a separate counter of entries beside it. Its object invariant is that the
 * counter equals the number of entries. Each method is one sequential step;
 * the mutex and the atomic counter's memory ordering are not modelled.
 */
module CountedEngine {
  import opened Iteration

  /** The smaller of `a` and `b`. */
  function Min(a: int, b: int): (r: int)
    ensures r <= a && r <= b && (r == a || r == b)
  {
    if a <= b then a else b
  }

  class TypedMap<K(==), V> {
    /** The entries. */
    var data: map<K, V>
    /** The separately kept number of entries. */
    var count: int
    /** Go's zero value of V, which Get returns for an absent key. */
    const zero: V

    /** The counter agrees with the store. */
    ghost predicate Valid()
      reads this
    {
      count == |data|
    }

    /** New: the zero-valued struct, an empty store and a zero counter. */
    constructor New(zero: V)
      ensures Valid()
      ensures data == map[] && count == 0 && this.zero == zero
    {
      data := map[];
      count := 0;
      this.zero := zero;
    }

    /** Get: the stored value and true, or the zero value and false. */
    method Get(key: K) returns (v: V, ok: bool)
      ensures ok <==> key in data
      ensures ok ==> v == data[key]
      ensures !ok ==> v == zero
    {
      ok := key in data;
      v := if ok then data[key] else zero;
    }

    /** Has: whether `key` is present. */
    method Has(key: K) returns (present: bool)
      ensures present <==> key in data
    {
      present := key in data;
    }

    /** Len: the counter, not the store's size; the two agree while Valid() holds. */
    method Len() returns (n: int)
      ensures n == count
      ensures Valid() ==> n == |data|
    {
      n := count;
    }

    /** unsafeSet: count a key that is new, then store the value; keeps the invariant. */
    method UnsafeSet(key: K, value: V)
      modifies this
      ensures data == old(data)[key := value]
      ensures count == if key in old(data) then old(count) else old(count) + 1
      ensures old(Valid()) ==> Valid()
    {
      var present := Has(key);
      if !present {
        count := count + 1;
      }
      data := data[key := value];
    }

    /** Set: unsafeSet under the lock. */
    method Set(key: K, value: V)
      modifies this
      ensures data == old(data)[key := value]
      ensures count == if key in old(data) then old(count) else old(count) + 1
      ensures old(Valid()) ==> Valid()
    {
      UnsafeSet(key, value);
    }

    /** Update: store `f` of what Get reports for `key`. */
    method Update(key: K, f: (V, bool) -> V)
      modifies this
      ensures key in old(data) ==> data == old(data)[key := f(old(data)[key], true)]
      ensures key !in old(data) ==> data == old(data)[key := f(zero, false)]
      ensures count == if key in old(data) then old(count) else old(count) + 1
      ensures old(Valid()) ==> Valid()
    {
      var v, ok := Get(key);
      UnsafeSet(key, f(v, ok));
    }

    /** Clear: an empty store and a zero counter, whatever the state before. */
    method Clear()
      modifies this
      ensures data == map[] && count == 0
      ensures Valid()
    {
      data := map[];
      count := 0;
    }

    /** Delete: on a present key remove it and decrement the counter; otherwise change nothing. */
    method Delete(key: K)
      modifies this
      ensures data == old(data) - {key}
      ensures count == if key in old(data) then old(count) - 1 else old(count)
      ensures old(Valid()) ==> Valid()
    {
      var present := Has(key);
      if present {
        assert (data - {key}).Keys == data.Keys - {key};
        data := data - {key};
        count := count - 1;
      } else {
        assert data == data - {key};
      }
    }

    /**
     * Keys: empty when Len reports zero; otherwise distinct keys of the store,
     * collected while no more than Len() of them are held, so at most Len() + 1.
     * While Valid() holds that is every key. A negative Len() makes the slice
     * allocation fail in Go, hence the requires.
     */
    method Keys() returns (keys: seq<K>)
      requires count >= 0
      ensures count == 0 ==> keys == []
      ensures NoDuplicates(keys) && forall i :: 0 <= i < |keys| ==> keys[i] in data
      ensures count > 0 ==> |keys| == Min(|data|, count + 1)
      ensures Valid() ==> Enumerates(keys, data)
    {
      var max := Len();
      if max == 0 {
        return [];
      }
      keys := [];
      var rest := data.Keys;
      var going := true;
      while going && rest != {}
        invariant rest <= data.Keys
        invariant NoDuplicates(keys)
        invariant forall i :: 0 <= i < |keys| ==> keys[i] in data && keys[i] !in rest
        invariant forall k :: k in data && k !in rest ==> k in keys
        invariant |keys| + |rest| == |data|
        invariant going ==> |keys| <= max
        invariant !going ==> |keys| == max + 1
        decreases rest
      {
        var key :| key in rest;
        keys := keys + [key];
        assert rest == (rest - {key}) + {key};
        rest := rest - {key};
        going := |keys| <= max;
      }
      if Valid() {
        EnumerationLength(keys, data) by {
          assert going;
        }
      }
    }

    /**
     * Values: empty when Len reports zero; otherwise the values of distinct
     * keys (`order`), at most Len() + 1 of them. While Valid() holds that is
     * one value per entry.
     */
    method Values() returns (values: seq<V>, ghost order: seq<K>)
      requires count >= 0
      ensures count == 0 ==> values == []
      ensures NoDuplicates(order) && forall i :: 0 <= i < |order| ==> order[i] in data
      ensures |values| == |order|
      ensures forall i :: 0 <= i < |values| ==> values[i] == data[order[i]]
      ensures count > 0 ==> |values| == Min(|data|, count + 1)
      ensures Valid() ==> Enumerates(order, data)
    {
      var max := Len();
      order := [];
      if max == 0 {
        return [], order;
      }
      values := [];
      var rest := data.Keys;
      var going := true;
      while going && rest != {}
        invariant rest <= data.Keys
        invariant NoDuplicates(order)
        invariant forall i :: 0 <= i < |order| ==> order[i] in data && order[i] !in rest
        invariant forall k :: k in data && k !in rest ==> k in order
        invariant |order| + |rest| == |data|
        invariant |values| == |order|
        invariant forall i :: 0 <= i < |values| ==> values[i] == data[order[i]]
        invariant going ==> |values| <= max
        invariant !going ==> |values| == max + 1
        decreases rest
      {
        var key :| key in rest;
        order := order + [key];
        values := values + [data[key]];
        assert rest == (rest - {key}) + {key};
        rest := rest - {key};
        going := |values| <= max;
      }
      if Valid() {
        EnumerationLength(order, data) by {
          assert going;
        }
      }
    }

    /**
     * Entries: keys and values side by side, `values[i]` stored under
     * `keys[i]`; same bounds as Keys.
     */
    method Entries() returns (keys: seq<K>, values: seq<V>)
      requires count >= 0
      ensures count == 0 ==> keys == [] && values == []
      ensures NoDuplicates(keys) && forall i :: 0 <= i < |keys| ==> keys[i] in data
      ensures |values| == |keys|
      ensures forall i :: 0 <= i < |keys| ==> values[i] == data[keys[i]]
      ensures count > 0 ==> |keys| == Min(|data|, count + 1)
      ensures Valid() ==> Enumerates(keys, data)
    {
      var max := Len();
      if max == 0 {
        return [], [];
      }
      keys, values := [], [];
      var rest := data.Keys;
      var going := true;
      while going && rest != {}
        invariant rest <= data.Keys
        invariant NoDuplicates(keys)
        invariant forall i :: 0 <= i < |keys| ==> keys[i] in data && keys[i] !in rest
        invariant forall k :: k in data && k !in rest ==> k in keys
        invariant |keys| + |rest| == |data|
        invariant |values| == |keys|
        invariant forall i :: 0 <= i < |keys| ==> values[i] == data[keys[i]]
        invariant going ==> |keys| <= max
        invariant !going ==> |keys| == max + 1
        decreases rest
      {
        var key :| key in rest;
        keys := keys + [key];
        values := values + [data[key]];
        assert rest == (rest - {key}) + {key};
        rest := rest - {key};
        going := |keys| <= max;
      }
      if Valid() {
        EnumerationLength(keys, data) by {
          assert going;
        }
      }
    }

    /** Range: hand the entries to `f` and stop after the first false; `visited` is what `f` was called with. */
    method Range(f: (K, V) -> bool) returns (visited: seq<K>)
      ensures IsRangeTrace(data, f, visited)
    {
      visited := RangeUntilFalse(data, f);
    }

    /**
     * UpdateRange: like Range, but each entry on which `f` says "continue" is
     * rewritten through unsafeSet; the entry on which `f` says "stop" is not.
     * Only existing keys are written, so the counter does not move.
     */
    method UpdateRange(f: (K, V) -> (V, bool)) returns (visited: seq<K>)
      modifies this
      ensures IsUpdateRangeResult(old(data), f, visited, data)
      ensures count == old(count)
      ensures old(Valid()) ==> Valid()
    {
      ghost var before := data;
      visited := [];
      var rest := data.Keys;
      while rest != {}
        invariant data.Keys == before.Keys
        invariant count == old(count)
        invariant rest <= data.Keys
        invariant NoDuplicates(visited)
        invariant forall i :: 0 <= i < |visited| ==> visited[i] in data && visited[i] !in rest
        invariant forall k :: k in data && k !in rest ==> k in visited
        invariant forall i :: 0 <= i < |visited| ==> f(visited[i], before[visited[i]]).1
        invariant forall k :: k in data ==> data[k] == if k in visited then f(k, before[k]).0 else before[k]
        decreases rest
      {
        var key :| key in rest;
        var newValue, ok := f(key, data[key]).0, f(key, data[key]).1;
        visited := visited + [key];
        rest := rest - {key};
        if !ok {
          assert IsRangeTrace(before, Continues(f), visited);
          return;
        }
        UnsafeSet(key, newValue);
      }
      DistinctBound(visited, data.Keys);
      CoverBound(visited, data.Keys);
    }
  }
}
