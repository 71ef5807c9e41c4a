/**
 * The sequential assertions of the repository's tests, written as client code
 * that knows the engines only through their contracts. Concrete keys and
 * values of the tests become parameters, so each scenario holds for all of them.
 * A few further client-level properties of the engines that no test states
 * (SwapUndone, CompareAndDeleteLeavesOthers, CounterFollowsStore) live here too.
 */
module Scenarios {
  import opened Iteration
  import MutexEngine
  import CountedEngine

  /** TestNew: a container built from a nil (empty) map has length 0. */
  method NewIsEmpty<K(==), V(==)>(zero: V) returns (n: int)
    ensures n == 0
  {
    var m := new MutexEngine.TypedMap<K, V>.New(map[], true, zero);
    n := m.Len();
  }

  /** TestNewWithMap: every entry of the initial map can be loaded, and nothing else. */
  method NewWithMapLoads<K(==), V(==)>(init: map<K, V>, key: K, zero: V) returns (v: V, ok: bool, n: int)
    ensures ok <==> key in init
    ensures ok ==> v == init[key]
    ensures n == |init|
  {
    var m := new MutexEngine.TypedMap.New(init, true, zero);
    v, ok := m.Load(key);
    n := m.Len();
  }

  /** TestStore, TestLoad: a stored value is loaded back. */
  method StoreThenLoad<K(==), V(==)>(init: map<K, V>, key: K, value: V, zero: V) returns (v: V, ok: bool)
    ensures ok && v == value
  {
    var m := new MutexEngine.TypedMap.New(init, true, zero);
    m.Store(key, value);
    v, ok := m.Load(key);
  }

  /** TestLoadOrStore: the first call stores, the second loads the first value and does not overwrite it. */
  method LoadOrStoreTwice<K(==), V(==)>(key: K, first: V, second: V, zero: V)
    returns (actual1: V, loaded1: bool, actual2: V, loaded2: bool, v: V)
    ensures actual1 == first && !loaded1
    ensures actual2 == first && loaded2
    ensures v == first
  {
    var m := new MutexEngine.TypedMap<K, V>.New(map[], true, zero);
    actual1, loaded1 := m.LoadOrStore(key, first);
    actual2, loaded2 := m.LoadOrStore(key, second);
    var ok;
    v, ok := m.Load(key);
  }

  /** TestLoadAndDelete: the stored value is returned and the key is gone afterwards. */
  method LoadAndDeleteThenLoad<K(==), V(==)>(key: K, value: V, zero: V)
    returns (v: V, deleted: bool, ok: bool)
    ensures v == value && deleted && !ok
  {
    var m := new MutexEngine.TypedMap<K, V>.New(map[], true, zero);
    m.Store(key, value);
    v, deleted := m.LoadAndDelete(key);
    var w;
    w, ok := m.Load(key);
  }

  /** TestSwap: on an empty map Swap reports (zero, false), then the previous value and true. */
  method SwapTwice<K(==), V(==)>(key: K, first: V, second: V, zero: V)
    returns (previous1: V, loaded1: bool, previous2: V, loaded2: bool, v: V)
    ensures previous1 == zero && !loaded1
    ensures previous2 == first && loaded2
    ensures v == second
  {
    var m := new MutexEngine.TypedMap<K, V>.New(map[], true, zero);
    previous1, loaded1 := m.Swap(key, first);
    previous2, loaded2 := m.Swap(key, second);
    var ok;
    v, ok := m.Load(key);
  }

  /** Swap is undone by swapping the previous value back, or deleting the key when there was none. */
  method SwapUndone<K(==), V(==)>(m: MutexEngine.TypedMap<K, V>, key: K, value: V)
    modifies m
    ensures m.data == old(m.data)
  {
    var previous, loaded := m.Swap(key, value);
    if loaded {
      var p, l := m.Swap(key, previous);
      assert m.data == old(m.data)[key := previous];
    } else {
      m.Delete(key);
      assert m.data == old(m.data)[key := value] - {key};
    }
  }

  /** TestCompareAndSwap: comparing against the stored value succeeds and stores the new one. */
  method CompareAndSwapStored<K(==), V(==)>(key: K, current: V, replacement: V, zero: V)
    returns (swapped: bool, v: V)
    ensures swapped && v == replacement
  {
    var m := new MutexEngine.TypedMap<K, V>.New(map[], true, zero);
    m.Store(key, current);
    swapped := m.CompareAndSwap(key, current, replacement);
    var ok;
    v, ok := m.Load(key);
  }

  /**
   * TestCompareAndDelete: a mismatching value does not delete, the stored one
   * does, and afterwards Load reports (zero, false).
   */
  method CompareAndDeleteStored<K(==), V(==)>(key: K, value: V, other: V, zero: V)
    returns (deleted1: bool, deleted2: bool, v: V, ok: bool)
    requires other != value
    ensures !deleted1 && deleted2
    ensures v == zero && !ok
  {
    var m := new MutexEngine.TypedMap<K, V>.New(map[], true, zero);
    m.Store(key, value);
    deleted1 := m.CompareAndDelete(key, other);
    deleted2 := m.CompareAndDelete(key, value);
    v, ok := m.Load(key);
  }

  /** A successful CompareAndDelete removes its key only: another key keeps its value. */
  method CompareAndDeleteLeavesOthers<K(==), V(==)>(a: K, b: K, va: V, vb: V, zero: V)
    returns (deleted: bool, okA: bool, v: V, okB: bool)
    requires a != b
    ensures deleted && !okA
    ensures okB && v == vb
  {
    var m := new MutexEngine.TypedMap<K, V>.New(map[], true, zero);
    m.Store(a, va);
    m.Store(b, vb);
    deleted := m.CompareAndDelete(a, va);
    var w;
    w, okA := m.Load(a);
    v, okB := m.Load(b);
  }

  /** TestNotComparableType: without comparable values both compare operations fail and change nothing. */
  method NotComparableFails<K(==), V(==)>(key: K, value: V, replacement: V, zero: V)
    returns (deleted: bool, swapped: bool, v: V, ok: bool)
    ensures !deleted && !swapped
    ensures ok && v == value
  {
    var m := new MutexEngine.TypedMap<K, V>.New(map[], false, zero);
    m.Store(key, value);
    deleted := m.CompareAndDelete(key, value);
    swapped := m.CompareAndSwap(key, value, replacement);
    v, ok := m.Load(key);
  }

  /** TestComparableType: delete on a match, swap on a match, no swap on a mismatch. */
  method ComparableSucceeds<K(==), V(==)>(key: K, one: V, two: V, three: V, four: V, zero: V)
    returns (deleted: bool, swapped: bool, swappedAgain: bool)
    requires three != two
    ensures deleted && swapped && !swappedAgain
  {
    var m := new MutexEngine.TypedMap<K, V>.New(map[], true, zero);
    m.Store(key, one);
    deleted := m.CompareAndDelete(key, one);
    m.Store(key, one);
    swapped := m.CompareAndSwap(key, one, two);
    swappedAgain := m.CompareAndSwap(key, three, four);
  }

  /** TestLen: two stores under different keys give length 2. */
  method LenAfterTwoStores<K(==), V(==)>(k1: K, k2: K, value: V, zero: V) returns (before: int, after: int)
    requires k1 != k2
    ensures before == 0 && after == 2
  {
    var m := new MutexEngine.TypedMap<K, V>.New(map[], true, zero);
    before := m.Len();
    m.Store(k1, value);
    m.Store(k2, value);
    after := m.Len();
  }

  /** TestClear: Len is 0 after Clear, whatever the size before. */
  method ClearEmpties<K(==), V(==)>(init: map<K, V>, zero: V) returns (before: int, after: int)
    ensures before == |init| && after == 0
  {
    var m := new MutexEngine.TypedMap.New(init, true, zero);
    before := m.Len();
    m.Clear();
    after := m.Len();
  }

  /**
   * TestUpdate, run without concurrency: `n` increments through Update,
   * starting from a stored 0, leave exactly `n`.
   */
  method UpdateIncrements<K(==)>(key: K, n: nat) returns (v: int, ok: bool)
    ensures ok && v == n
  {
    var m := new MutexEngine.TypedMap<K, int>.New(map[], true, 0);
    m.Store(key, 0);
    var i := 0;
    while i < n
      invariant 0 <= i <= n
      invariant key in m.data && m.data[key] == i
    {
      m.Update(key, (value: int, present: bool) => value + 1);
      i := i + 1;
    }
    v, ok := m.Load(key);
  }

  /** TestRange: one call per entry when the callback never stops, a single call when it stops at once. */
  method RangeCalls<K(==), V(==)>(init: map<K, V>, zero: V) returns (all: nat, first: nat)
    ensures all == |init|
    ensures first == CountedEngine.Min(|init|, 1)
  {
    var m := new MutexEngine.TypedMap.New(init, true, zero);
    var t1 := m.Range((k: K, v: V) => true);
    RangeVisitsAll(m.data, (k: K, v: V) => true, t1);
    all := |t1|;
    var t2 := m.Range((k: K, v: V) => false);
    if |init| > 0 {
      RangeStopsAtFirstFalse(m.data, (k: K, v: V) => false, t2);
    } else {
      RangeAtMostOnce(m.data, (k: K, v: V) => false, t2);
    }
    first := |t2|;
  }

  /**
   * TestUpdateRange, run without concurrency: writing 2 everywhere calls the
   * callback once per entry; a callback that stops at once is called once and
   * its value is not stored, so every entry still holds 2.
   */
  method UpdateRangeStopKeepsValue<K(==)>(init: map<K, int>) returns (calls1: nat, calls2: nat, after: map<K, int>)
    ensures calls1 == |init| && calls2 == CountedEngine.Min(|init|, 1)
    ensures after.Keys == init.Keys
    ensures forall k :: k in after ==> after[k] == 2
  {
    var m := new MutexEngine.TypedMap.New(init, true, 0);
    var writeTwo := (k: K, v: int) => (2, true);
    var t1 := m.UpdateRange(writeTwo);
    UpdateRangeWritesAll(init, writeTwo, t1, m.data);
    RangeVisitsAll(init, Continues(writeTwo), t1);
    calls1 := |t1|;
    ghost var twos := m.data;
    var stop := (k: K, v: int) => (0, false);
    var t2 := m.UpdateRange(stop);
    UpdateRangeStopAtOnce(twos, stop, t2, m.data);
    calls2 := |t2|;
    after := m.data;
  }

  /** The sum of a sequence of integers. */
  function Sum(s: seq<int>): (r: int) {
    if s == [] then 0 else Sum(s[..|s| - 1]) + s[|s| - 1]
  }

  lemma {:induction false} SumConcat(a: seq<int>, b: seq<int>)
    ensures Sum(a + b) == Sum(a) + Sum(b)
  {
    if b != [] {
      assert (a + b)[..|a + b| - 1] == a + b[..|b| - 1];
      SumConcat(a, b[..|b| - 1]);
    } else {
      assert a + b == a;
    }
  }

  /** Removing one element takes exactly that element off the sum. */
  lemma SumWithout(s: seq<int>, j: int)
    requires 0 <= j < |s|
    ensures Sum(s) == Sum(s[..j] + s[j + 1..]) + s[j]
  {
    assert s == s[..j] + [s[j]] + s[j + 1..];
    SumConcat(s[..j] + [s[j]], s[j + 1..]);
    SumConcat(s[..j], [s[j]]);
    SumConcat(s[..j], s[j + 1..]);
    assert [s[j]][..0] == [];
  }

  /** A listing of 0, ..., n-1 without its entry n-1 lists 0, ..., n-2. */
  lemma ListingWithoutLast(s: seq<int>, n: nat, j: int, t: seq<int>)
    requires NoDuplicates(s)
    requires forall i :: 0 <= i < |s| ==> 0 <= s[i] < n
    requires forall x :: 0 <= x < n ==> x in s
    requires 0 <= j < |s| && s[j] == n - 1
    requires t == s[..j] + s[j + 1..]
    ensures NoDuplicates(t)
    ensures forall i :: 0 <= i < |t| ==> 0 <= t[i] < n - 1
    ensures forall x :: 0 <= x < n - 1 ==> x in t
  {
    assert |t| == |s| - 1;
    forall i | 0 <= i < |t| ensures t[i] == s[if i < j then i else i + 1] { }
    forall x | 0 <= x < n - 1 ensures x in t {
      assert x in s;
      var i :| 0 <= i < |s| && s[i] == x;
      assert t[if i < j then i else i - 1] == x;
    }
  }

  /** Listing 0, 1, ..., n-1 once each, in any order, sums to n(n-1)/2. */
  lemma {:induction false} SumOfFirstNaturals(s: seq<int>, n: nat)
    requires NoDuplicates(s)
    requires forall i :: 0 <= i < |s| ==> 0 <= s[i] < n
    requires forall x :: 0 <= x < n ==> x in s
    ensures 2 * Sum(s) == n * (n - 1)
  {
    if n > 0 {
      assert n - 1 in s;
      var j :| 0 <= j < |s| && s[j] == n - 1;
      var t := s[..j] + s[j + 1..];
      SumWithout(s, j);
      ListingWithoutLast(s, n, j, t);
      SumOfFirstNaturals(t, n - 1);
      assert (n - 1) * (n - 2) + 2 * (n - 1) == n * (n - 1);
    }
  }

  /**
   * TestKeysValues and TestEntries, for any n (the tests use 100, whose sum is
   * 4950): after storing i -> i for i in [0, n), Keys, Values and Entries each
   * sum to n(n-1)/2, whatever order the runtime hands them out in.
   */
  method SnapshotSums(n: nat) returns (keySum: int, valueSum: int, entryKeySum: int, entryValueSum: int)
    ensures keySum == valueSum == entryKeySum == entryValueSum
    ensures 2 * keySum == n * (n - 1)
  {
    var m := new MutexEngine.TypedMap<int, int>.New(map[], true, 0);
    var i := 0;
    while i < n
      invariant 0 <= i <= n
      invariant forall x :: x in m.data <==> 0 <= x < i
      invariant forall x :: x in m.data ==> m.data[x] == x
    {
      m.Store(i, i);
      i := i + 1;
    }
    var keys := m.Keys();
    SumOfFirstNaturals(keys, n);
    keySum := Sum(keys);

    var values, order := m.Values();
    assert values == order;
    SumOfFirstNaturals(order, n);
    valueSum := Sum(values);

    var eKeys, eValues := m.Entries();
    assert eValues == eKeys;
    SumOfFirstNaturals(eKeys, n);
    entryKeySum, entryValueSum := Sum(eKeys), Sum(eValues);
  }

  /**
   * typedmap.go: the counter follows the store through repeated and missing
   * keys. Setting a key twice counts it once; deleting it twice uncounts it once.
   */
  method CounterFollowsStore<K(==), V>(k1: K, k2: K, v1: V, v2: V, zero: V) returns (n: int, keys: seq<K>)
    requires k1 != k2
    ensures n == 1 && keys == [k2]
  {
    var m := new CountedEngine.TypedMap<K, V>.New(zero);
    m.Set(k1, v1);
    m.Set(k1, v2);
    m.Update(k2, (v: V, present: bool) => v1);
    m.Delete(k1);
    m.Delete(k1);
    n := m.Len();
    keys := m.Keys();
    assert k2 in keys;
    EnumerationLength(keys, m.data);
    assert |keys| == 1;
  }
}
