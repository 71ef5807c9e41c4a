/**
 * What a Go `for key, value := range m` loop over a map guarantees when it runs
 * without interference: every key is handed out at most once, in an order the
 * runtime chooses. Both engines build their Range, UpdateRange, Keys, Values and
 * Entries on these definitions.
 */
module Iteration {

  /** No element occurs twice in `s`. */
  ghost predicate NoDuplicates<T>(s: seq<T>) {
    forall i, j :: 0 <= i < j < |s| ==> s[i] != s[j]
  }

  /** `ks` lists every key of `m` exactly once, in some order. */
  ghost predicate Enumerates<K, V>(ks: seq<K>, m: map<K, V>) {
    && NoDuplicates(ks)
    && (forall i :: 0 <= i < |ks| ==> ks[i] in m)
    && (forall k :: k in m ==> k in ks)
  }

  /** A duplicate-free sequence drawn from `keys` is no longer than `keys`, and covers it when it is as long. */
  lemma {:induction false} DistinctBound<T>(s: seq<T>, keys: set<T>)
    requires NoDuplicates(s)
    requires forall x :: x in s ==> x in keys
    ensures |s| <= |keys|
    ensures |s| == |keys| ==> forall x :: x in keys ==> x in s
  {
    if s != [] {
      var x, init := s[|s| - 1], s[..|s| - 1];
      assert s == init + [x];
      forall y | y in init ensures y in keys - {x} {
        var i :| 0 <= i < |init| && init[i] == y;
        assert s[i] != s[|s| - 1];
      }
      DistinctBound(init, keys - {x});
    }
  }

  /** A sequence that contains every element of `keys` is at least as long as `keys`. */
  lemma {:induction false} CoverBound<T>(s: seq<T>, keys: set<T>)
    requires forall x :: x in keys ==> x in s
    ensures |keys| <= |s|
  {
    if s != [] {
      var x, init := s[|s| - 1], s[..|s| - 1];
      assert s == init + [x];
      CoverBound(init, keys - {x});
    }
  }

  /** An enumeration of `m` has exactly one element per entry. */
  lemma EnumerationLength<K, V>(ks: seq<K>, m: map<K, V>)
    requires Enumerates(ks, m)
    ensures |ks| == |m|
  {
    DistinctBound(ks, m.Keys);
    CoverBound(ks, m.Keys);
  }

  /** The last element of a non-empty sequence. */
  function Last<T>(s: seq<T>): (r: T)
    requires s != []
  {
    s[|s| - 1]
  }

  /**
   * `t` is the sequence of keys that a range loop over `m` hands to `f`, where
   * the loop breaks as soon as `f` returns false: no key twice, only keys of `m`,
   * `f` said "continue" to every key but the last, and either every key was
   * visited or `f` said "stop" to the last one.
   */
  ghost predicate IsRangeTrace<K, V>(m: map<K, V>, f: (K, V) -> bool, t: seq<K>) {
    && NoDuplicates(t)
    && (forall i :: 0 <= i < |t| ==> t[i] in m)
    && (forall i :: 0 <= i < |t| - 1 ==> f(t[i], m[t[i]]))
    && (|t| == |m| || (t != [] && !f(Last(t), m[Last(t)])))
  }

  /**
   * The runtime's `for key, value := range m` loop that breaks as soon as `f`
   * returns false. `visited` is the sequence of keys `f` was called with.
   */
  method RangeUntilFalse<K, V>(m: map<K, V>, f: (K, V) -> bool) returns (visited: seq<K>)
    ensures IsRangeTrace(m, f, visited)
  {
    visited := [];
    var rest := m.Keys;
    var going := true;
    while going && rest != {}
      invariant rest <= m.Keys
      invariant NoDuplicates(visited)
      invariant forall i :: 0 <= i < |visited| ==> visited[i] in m && visited[i] !in rest
      invariant forall k :: k in m && k !in rest ==> k in visited
      invariant forall i :: 0 <= i < |visited| - 1 ==> f(visited[i], m[visited[i]])
      invariant going ==> forall i :: 0 <= i < |visited| ==> f(visited[i], m[visited[i]])
      invariant !going ==> visited != [] && !f(Last(visited), m[Last(visited)])
      decreases rest
    {
      var key :| key in rest;
      visited := visited + [key];
      rest := rest - {key};
      going := f(key, m[key]);
    }
    if going {
      DistinctBound(visited, m.Keys);
      CoverBound(visited, m.Keys);
    }
  }

  /** A range loop calls its callback at most once per entry. */
  lemma RangeAtMostOnce<K, V>(m: map<K, V>, f: (K, V) -> bool, t: seq<K>)
    requires IsRangeTrace(m, f, t)
    ensures |t| <= |m|
  {
    DistinctBound(t, m.Keys);
  }

  /** When the callback never says stop, a range loop visits every entry exactly once. */
  lemma RangeVisitsAll<K, V>(m: map<K, V>, f: (K, V) -> bool, t: seq<K>)
    requires IsRangeTrace(m, f, t)
    requires forall k :: k in m ==> f(k, m[k])
    ensures Enumerates(t, m) && |t| == |m|
  {
    DistinctBound(t, m.Keys);
  }

  /** On a non-empty map the callback runs at least once, and only once when it says stop at once. */
  lemma RangeStopsAtFirstFalse<K, V>(m: map<K, V>, f: (K, V) -> bool, t: seq<K>)
    requires IsRangeTrace(m, f, t)
    requires |m| > 0
    ensures t != []
    ensures !f(t[0], m[t[0]]) ==> |t| == 1
  {
  }

  /** The "continue" half of an UpdateRange callback. */
  function Continues<K, V>(f: (K, V) -> (V, bool)): (g: (K, V) -> bool) {
    (k: K, v: V) => f(k, v).1
  }

  /**
   * `m'` is what UpdateRange leaves behind when its loop over `m` handed the
   * keys `t` to `f`: the same keys; each visited key on which `f` said
   * "continue" holds `f`'s new value; the key on which `f` said "stop" and
   * every unvisited key keep their old value.
   */
  ghost predicate IsUpdateRangeResult<K, V>(m: map<K, V>, f: (K, V) -> (V, bool), t: seq<K>, m': map<K, V>) {
    && IsRangeTrace(m, Continues(f), t)
    && m'.Keys == m.Keys
    && forall k :: k in m ==> m'[k] == if k in t && f(k, m[k]).1 then f(k, m[k]).0 else m[k]
  }

  /** UpdateRange neither adds nor removes keys, so the length is unchanged. */
  lemma UpdateRangeKeepsLength<K, V>(m: map<K, V>, f: (K, V) -> (V, bool), t: seq<K>, m': map<K, V>)
    requires IsUpdateRangeResult(m, f, t, m')
    ensures |m'| == |m|
  {
  }

  /** When the callback says stop on every entry, UpdateRange calls it once (if at all) and changes nothing. */
  lemma UpdateRangeStopAtOnce<K, V>(m: map<K, V>, f: (K, V) -> (V, bool), t: seq<K>, m': map<K, V>)
    requires IsUpdateRangeResult(m, f, t, m')
    requires forall k :: k in m ==> !f(k, m[k]).1
    ensures m' == m
    ensures |t| == if |m| == 0 then 0 else 1
  {
    if |m| > 0 {
      RangeStopsAtFirstFalse(m, Continues(f), t);
    } else {
      RangeAtMostOnce(m, Continues(f), t);
    }
  }

  /** When the callback never says stop, UpdateRange replaces every value with the callback's new one. */
  lemma UpdateRangeWritesAll<K, V>(m: map<K, V>, f: (K, V) -> (V, bool), t: seq<K>, m': map<K, V>)
    requires IsUpdateRangeResult(m, f, t, m')
    requires forall k :: k in m ==> f(k, m[k]).1
    ensures m' == map k | k in m :: f(k, m[k]).0
  {
    RangeVisitsAll(m, Continues(f), t);
  }
}
