/**
  The scenarios of the cache's unit tests. Each is stated about the
  node-level model with integer keys and values; its proof first works the
  scenario out on the abstract cache of LruSpec and then carries every
  answer over through the refinement lemmas. The tests' concrete keys stand
  for any distinct keys, and their values for any values.
 */
module LruScenarios {
  import opened Wrappers
  import S = LruSpec
  import opened LruLinked
  import P = LruProperties

  // ---------------------------------------------------------------------
  // Reading answers off the abstract list.

  /** A key held at position `i` is found, with its value. */
  lemma SpecHas<K, V>(a: S.Cache<K, V>, i: int)
    requires S.Valid(a) && 0 <= i < |a.entries|
    ensures S.Contains(a, a.entries[i].0)
    ensures S.Get(a, a.entries[i].0) == Success(a.entries[i].1)
    ensures S.Remove(a, a.entries[i].0).Success?
  {
    assert a.entries[i].0 in a.index;
  }

  /** A key held nowhere in the list is refused by `get` and `remove`. */
  lemma SpecLacks<K, V>(a: S.Cache<K, V>, k: K)
    requires S.Valid(a)
    requires forall i :: 0 <= i < |a.entries| ==> a.entries[i].0 != k
    ensures !S.Contains(a, k)
    ensures S.Get(a, k) == Failure(S.KeyNotFound)
    ensures S.Remove(a, k) == Failure(S.KeyNotFound)
  {
    assert k !in S.KeySet(a.entries);
  }

  /** The node-level answers for a represented cache are the abstract ones. */
  lemma Transfer<K, V>(c: Linked<K, V>, refs: seq<Ref>, a: S.Cache<K, V>, k: K)
    requires Valid(c) && Repr(c, refs) && Abs(c, refs) == a
    ensures S.Valid(a)
    ensures Contains(c, k) == S.Contains(a, k)
    ensures Get(c, k) == S.Get(a, k)
    ensures Remove(c, k).Failure? == S.Remove(a, k).Failure?
  {
    ContainsRefines(c, refs, k);
    GetRefines(c, refs, k);
    var _ := RemoveRefines(c, refs, k);
  }

  /** A key at position `i` of the abstract list is in the node-level
      cache, with its value, and can be removed. */
  lemma HeldAt<K, V>(c: Linked<K, V>, refs: seq<Ref>, a: S.Cache<K, V>, i: int)
    requires Valid(c) && Repr(c, refs) && Abs(c, refs) == a && 0 <= i < |a.entries|
    ensures Contains(c, a.entries[i].0) && Get(c, a.entries[i].0) == Success(a.entries[i].1)
    ensures Remove(c, a.entries[i].0).Success?
  {
    Transfer(c, refs, a, a.entries[i].0);
    SpecHas(a, i);
  }

  /** A key missing from a list of at most two entries is not in the
      node-level cache. */
  lemma NotHeld<K, V>(c: Linked<K, V>, refs: seq<Ref>, a: S.Cache<K, V>, k: K)
    requires Valid(c) && Repr(c, refs) && Abs(c, refs) == a && |a.entries| <= 2
    requires |a.entries| > 0 ==> a.entries[0].0 != k
    requires |a.entries| > 1 ==> a.entries[1].0 != k
    ensures !Contains(c, k) && Get(c, k) == Failure(S.KeyNotFound) && Remove(c, k) == Failure(S.KeyNotFound)
  {
    Transfer(c, refs, a, k);
    SpecLacks(a, k);
  }

  // ---------------------------------------------------------------------
  // Single steps on short abstract lists.

  /** Adding to an empty cache. */
  lemma AddToEmpty<K, V>(a: S.Cache<K, V>, k: K, v: V)
    requires S.Valid(a) && a.entries == []
    ensures S.Add(a, k, v).entries == [(k, v)]
  {
    S.AddFresh(a, k, v);
  }

  /** Adding a new key to a one-entry cache with room for two or more. */
  lemma AddToOne<K, V>(a: S.Cache<K, V>, k: K, v: V, x: (K, V))
    requires S.Valid(a) && a.entries == [x] && x.0 != k && 1 < a.capacity
    ensures S.Add(a, k, v).entries == [(k, v), x]
  {
    assert k !in S.KeySet(a.entries);
    S.AddFresh(a, k, v);
  }

  /** Adding a new key to a full one-entry cache replaces the entry. */
  lemma AddToFullOne<K, V>(a: S.Cache<K, V>, k: K, v: V, x: (K, V))
    requires S.Valid(a) && a.entries == [x] && x.0 != k && a.capacity == 1
    ensures S.Add(a, k, v).entries == [(k, v)]
  {
    assert k !in S.KeySet(a.entries);
    S.AddEvicting(a, k, v);
  }

  /** Adding a new key to a full two-entry cache drops the older entry. */
  lemma AddToFullTwo<K, V>(a: S.Cache<K, V>, k: K, v: V, x: (K, V), y: (K, V))
    requires S.Valid(a) && a.entries == [x, y] && x.0 != k && y.0 != k && a.capacity == 2
    ensures S.Add(a, k, v).entries == [(k, v), x]
  {
    assert k !in S.KeySet(a.entries);
    S.AddEvicting(a, k, v);
  }

  /** Adding again the older key of a two-entry cache swaps the two. */
  lemma AddOlderOfTwo<K, V>(a: S.Cache<K, V>, v: V, x: (K, V), y: (K, V))
    requires S.Valid(a) && a.entries == [x, y]
    ensures S.Add(a, y.0, v).entries == [(y.0, v), x]
  {
    S.AddExisting(a, y.0, v, 1);
  }

  /** Removing the newer key of a two-entry cache. */
  lemma RemoveNewerOfTwo<K, V>(a: S.Cache<K, V>, x: (K, V), y: (K, V))
    requires S.Valid(a) && a.entries == [x, y]
    ensures S.Remove(a, x.0).Success? && S.Remove(a, x.0).value.entries == [y]
  {
    SpecHas(a, 0);
    assert S.Delete(a, x.0).entries == a.entries[..0] + a.entries[1..];
  }

  /** Removing the only key. */
  lemma RemoveOnly<K, V>(a: S.Cache<K, V>, x: (K, V))
    requires S.Valid(a) && a.entries == [x]
    ensures S.Remove(a, x.0).Success? && S.Remove(a, x.0).value.entries == []
  {
    SpecHas(a, 0);
  }

  // ---------------------------------------------------------------------
  // testCacheSizeIsMoreThanZero, testSimpleEmptyGet

  /** Capacities 0 and -5 are refused; capacity 5 is accepted with an
      empty cache. */
  lemma CacheSizeIsMoreThanZero()
    ensures New<int, int>(0) == Failure(S.InvalidCapacity)
    ensures New<int, int>(-5) == Failure(S.InvalidCapacity)
    ensures New<int, int>(5).Success? && |New<int, int>(5).value.cache| == 0
  {
  }

  /** An empty cache holds nothing: `get` and `remove` both fail. */
  lemma SimpleEmptyGet(k: int)
    ensures var c := New<int, int>(1).value;
            && !Contains(c, k) && Get(c, k).Failure? && Remove(c, k).Failure?
  {
  }

  // ---------------------------------------------------------------------
  // testSimpleAdd, testSimpleDoubleRemove

  /** The first key added to a new cache is its only entry. */
  lemma FirstAdd<K, V>(n: int, k: K, v: V) returns (refs: seq<Ref>)
    requires 0 < n
    ensures New<K, V>(n).Success? && S.New<K, V>(n).Success?
    ensures Repr(Add(New<K, V>(n).value, k, v), refs)
    ensures Abs(Add(New<K, V>(n).value, k, v), refs) == S.Add(S.New<K, V>(n).value, k, v)
    ensures S.Add(S.New<K, V>(n).value, k, v).entries == [(k, v)]
  {
    NewRefines<K, V>(n);
    var c0 := New<K, V>(n).value;
    refs := AddRefines(c0, [], k, v);
    S.AddFresh(Abs(c0, []), k, v);
  }

  /** Adding one key to a new cache (the test's has capacity ten): it is
      present, another key is not, `get` and `remove` of the other key fail,
      removing the key succeeds. */
  lemma SimpleAdd(n: int, k1: int, k2: int, v1: int)
    requires 0 < n && k1 != k2
    ensures New<int, int>(n).Success?
    ensures var c := Add(New<int, int>(n).value, k1, v1);
            && Contains(c, k1) && !Contains(c, k2)
            && Get(c, k2).Failure? && Remove(c, k2).Failure? && Remove(c, k1).Success?
  {
    var refs := FirstAdd(n, k1, v1);
    var c := Add(New<int, int>(n).value, k1, v1);
    var a := S.Add(S.New<int, int>(n).value, k1, v1);
    HeldAt(c, refs, a, 0);
    NotHeld(c, refs, a, k2);
  }

  /** The first removal of a key succeeds; the second one fails. */
  lemma SimpleDoubleRemove(k: int, v: int)
    ensures New<int, int>(1).Success?
    ensures var c := Add(New<int, int>(1).value, k, v);
            && Contains(c, k) && Remove(c, k).Success? && Remove(Remove(c, k).value, k).Failure?
  {
    var refs := FirstAdd(1, k, v);
    var c := Add(New<int, int>(1).value, k, v);
    var a := S.Add(S.New<int, int>(1).value, k, v);
    HeldAt(c, refs, a, 0);
    var refs' := RemoveRefines(c, refs, k);
    RemoveOnly(a, (k, v));
    NotHeld(Remove(c, k).value, refs', S.Remove(a, k).value, k);
  }

  // ---------------------------------------------------------------------
  // testSimpleOverflow, testSimpleGoodValues

  /** Capacity one, abstractly: the second key replaces the first. */
  lemma SpecOverflow(k1: int, k2: int, v1: int, v2: int)
    requires k1 != k2
    ensures S.New<int, int>(1).Success?
    ensures var a := S.Add(S.Add(S.New<int, int>(1).value, k1, v1), k2, v2);
            && a.entries == [(k2, v2)]
            && S.Remove(a, k2).Success? && |S.Remove(a, k2).value.entries| == 0
  {
    var a0 := S.New<int, int>(1).value;
    AddToEmpty(a0, k1, v1);
    var a1 := S.Add(a0, k1, v1);
    AddToFullOne(a1, k2, v2, (k1, v1));
    RemoveOnly(S.Add(a1, k2, v2), (k2, v2));
  }

  /** Capacity one: the second key evicts the first, which can then not be
      removed; removing the second leaves neither. */
  lemma SimpleOverflow(k1: int, k2: int, v1: int, v2: int)
    requires k1 != k2
    ensures New<int, int>(1).Success?
    ensures var c := Add(Add(New<int, int>(1).value, k1, v1), k2, v2);
            && Contains(c, k2) && !Contains(c, k1) && Get(c, k2) == Success(v2)
            && Remove(c, k1).Failure? && Remove(c, k2).Success?
            && !Contains(Remove(c, k2).value, k2) && !Contains(Remove(c, k2).value, k1)
  {
    SpecOverflow(k1, k2, v1, v2);
    var refs1 := FirstAdd(1, k1, v1);
    var c1 := Add(New<int, int>(1).value, k1, v1);
    var a1 := S.Add(S.New<int, int>(1).value, k1, v1);
    var c2 := Add(c1, k2, v2);
    var refs2 := AddRefines(c1, refs1, k2, v2);
    var a2 := S.Add(a1, k2, v2);
    HeldAt(c2, refs2, a2, 0);
    NotHeld(c2, refs2, a2, k1);
    var refs3 := RemoveRefines(c2, refs2, k2);
    var c3 := Remove(c2, k2).value;
    var a3 := S.Remove(a2, k2).value;
    NotHeld(c3, refs3, a3, k1);
    NotHeld(c3, refs3, a3, k2);
  }

  /** Values come back as stored, and capacity one keeps only the newer key. */
  lemma SimpleGoodValues(k1: int, k2: int, v1: int, v2: int)
    requires k1 != k2
    ensures New<int, int>(1).Success?
    ensures var c1 := Add(New<int, int>(1).value, k1, v1);
            var c2 := Add(c1, k2, v2);
            && Contains(c1, k1) && Get(c1, k1) == Success(v1)
            && Contains(c2, k2) && !Contains(c2, k1) && Get(c2, k2) == Success(v2)
  {
    var refs1 := FirstAdd(1, k1, v1);
    HeldAt(Add(New<int, int>(1).value, k1, v1), refs1, S.Add(S.New<int, int>(1).value, k1, v1), 0);
    SimpleOverflow(k1, k2, v1, v2);
  }

  // ---------------------------------------------------------------------
  // testSimpleLogic

  /** The capacity-two walk-through, abstractly. The test's comments
      expect `[(5, 50), (2, 20)]` after `add(2, 20)`; the list actually
      holds `[(2, 20), (1, 10)]`, since 5 was removed just before. */
  lemma SpecLogic(k1: int, k5: int, k2: int, k3: int, k4: int, v1: int, v5: int, v2: int, v3: int, v4: int)
    requires k1 != k5 && k1 != k2 && k1 != k3 && k1 != k4 && k5 != k2 && k5 != k3 && k5 != k4
    requires k2 != k3 && k2 != k4 && k3 != k4
    ensures S.New<int, int>(2).Success?
    ensures var a1 := S.Add(S.New<int, int>(2).value, k1, v1);
            var a2 := S.Add(a1, k5, v5);
            && a1.entries == [(k1, v1)]
            && a2.entries == [(k5, v5), (k1, v1)]
            && S.Remove(a2, k5).Success?
            && var a3 := S.Remove(a2, k5).value;
               var a4 := S.Add(a3, k2, v2);
               var a5 := S.Add(a4, k3, v3);
               var a6 := S.Add(a5, k2, v2);
               var a7 := S.Add(a6, k4, v4);
               && a3.entries == [(k1, v1)]
               && a5.entries == [(k3, v3), (k2, v2)]
               && a7.entries == [(k4, v4), (k2, v2)]
  {
    var a0 := S.New<int, int>(2).value;
    AddToEmpty(a0, k1, v1);
    var a1 := S.Add(a0, k1, v1);
    AddToOne(a1, k5, v5, (k1, v1));
    var a2 := S.Add(a1, k5, v5);
    RemoveNewerOfTwo(a2, (k5, v5), (k1, v1));
    var a3 := S.Remove(a2, k5).value;
    AddToOne(a3, k2, v2, (k1, v1));
    var a4 := S.Add(a3, k2, v2);
    AddToFullTwo(a4, k3, v3, (k2, v2), (k1, v1));
    var a5 := S.Add(a4, k3, v3);
    AddOlderOfTwo(a5, v2, (k3, v3), (k2, v2));
    var a6 := S.Add(a5, k2, v2);
    AddToFullTwo(a6, k4, v4, (k2, v2), (k3, v3));
  }

  /** The refinement chain of the walk-through: each node-level cache
      stands for the abstract cache of the same step. */
  lemma LogicChain(k1: int, k5: int, k2: int, k3: int, k4: int, v1: int, v5: int, v2: int, v3: int, v4: int)
    returns (refs5: seq<Ref>, refs7: seq<Ref>)
    requires k1 != k5 && k1 != k2 && k1 != k3 && k1 != k4 && k5 != k2 && k5 != k3 && k5 != k4
    requires k2 != k3 && k2 != k4 && k3 != k4
    ensures New<int, int>(2).Success? && S.New<int, int>(2).Success?
    ensures var c2 := Add(Add(New<int, int>(2).value, k1, v1), k5, v5);
            var a2 := S.Add(S.Add(S.New<int, int>(2).value, k1, v1), k5, v5);
            && Remove(c2, k5).Success? && S.Remove(a2, k5).Success?
            && var c5 := Add(Add(Remove(c2, k5).value, k2, v2), k3, v3);
               var a5 := S.Add(S.Add(S.Remove(a2, k5).value, k2, v2), k3, v3);
               var c7 := Add(Add(c5, k2, v2), k4, v4);
               var a7 := S.Add(S.Add(a5, k2, v2), k4, v4);
               && Valid(c5) && Repr(c5, refs5) && Abs(c5, refs5) == a5
               && Valid(c7) && Repr(c7, refs7) && Abs(c7, refs7) == a7
  {
    SpecLogic(k1, k5, k2, k3, k4, v1, v5, v2, v3, v4);
    var refs1 := FirstAdd(2, k1, v1);
    var c1 := Add(New<int, int>(2).value, k1, v1);
    var c2 := Add(c1, k5, v5);
    var refs2 := AddRefines(c1, refs1, k5, v5);
    var refs3 := RemoveRefines(c2, refs2, k5);
    var c3 := Remove(c2, k5).value;
    var c4 := Add(c3, k2, v2);
    var refs4 := AddRefines(c3, refs3, k2, v2);
    var c5 := Add(c4, k3, v3);
    refs5 := AddRefines(c4, refs4, k3, v3);
    var c6 := Add(c5, k2, v2);
    var refs6 := AddRefines(c5, refs5, k2, v2);
    refs7 := AddRefines(c6, refs6, k4, v4);
  }

  /** The opening of the walk-through: after `add(k1, v1)` the cache holds
      `k1` with its value and refuses `k5`; after `add(k5, v5)` it holds
      `k5` with its value, and `k5` can be removed. */
  lemma LogicOpening(k1: int, k5: int, v1: int, v5: int)
    requires k1 != k5
    ensures New<int, int>(2).Success?
    ensures var c1 := Add(New<int, int>(2).value, k1, v1);
            var c2 := Add(c1, k5, v5);
            && Contains(c1, k1) && Get(c1, k1) == Success(v1)
            && Get(c1, k5).Failure? && Remove(c1, k5).Failure?
            && Get(c2, k5) == Success(v5) && Remove(c2, k5).Success?
  {
    var refs1 := FirstAdd(2, k1, v1);
    var c1 := Add(New<int, int>(2).value, k1, v1);
    var a1 := S.Add(S.New<int, int>(2).value, k1, v1);
    HeldAt(c1, refs1, a1, 0);
    NotHeld(c1, refs1, a1, k5);
    var refs2 := AddRefines(c1, refs1, k5, v5);
    AddToOne(a1, k5, v5, (k1, v1));
    HeldAt(Add(c1, k5, v5), refs2, S.Add(a1, k5, v5), 0);
  }

  /** The capacity-two walk-through of the unit tests: `k1` is found with
      its value and `k5` refused; after adding `k5` it is found with its
      value and removed; adding `k2` and `k3` then evicts `k1`; adding
      `k2` again makes `k3` the oldest, so adding `k4` evicts `k3`. */
  lemma SimpleLogic(k1: int, k5: int, k2: int, k3: int, k4: int, v1: int, v5: int, v2: int, v3: int, v4: int)
    requires k1 != k5 && k1 != k2 && k1 != k3 && k1 != k4 && k5 != k2 && k5 != k3 && k5 != k4
    requires k2 != k3 && k2 != k4 && k3 != k4
    ensures New<int, int>(2).Success?
    ensures var c1 := Add(New<int, int>(2).value, k1, v1);
            && Contains(c1, k1) && Get(c1, k1) == Success(v1)
            && Get(c1, k5).Failure? && Remove(c1, k5).Failure?
            && Get(Add(c1, k5, v5), k5) == Success(v5)
    ensures var c2 := Add(Add(New<int, int>(2).value, k1, v1), k5, v5);
            && Remove(c2, k5).Success?
            && var c5 := Add(Add(Remove(c2, k5).value, k2, v2), k3, v3);
               var c7 := Add(Add(c5, k2, v2), k4, v4);
               && !Contains(c5, k1) && Get(c5, k1).Failure? && Contains(c5, k2) && Contains(c5, k3)
               && Contains(c7, k2) && Contains(c7, k4) && !Contains(c7, k3)
  {
    LogicOpening(k1, k5, v1, v5);
    SpecLogic(k1, k5, k2, k3, k4, v1, v5, v2, v3, v4);
    var refs5, refs7 := LogicChain(k1, k5, k2, k3, k4, v1, v5, v2, v3, v4);
    var a2 := S.Add(S.Add(S.New<int, int>(2).value, k1, v1), k5, v5);
    var c2 := Add(Add(New<int, int>(2).value, k1, v1), k5, v5);
    var a5 := S.Add(S.Add(S.Remove(a2, k5).value, k2, v2), k3, v3);
    var c5 := Add(Add(Remove(c2, k5).value, k2, v2), k3, v3);
    var a7 := S.Add(S.Add(a5, k2, v2), k4, v4);
    var c7 := Add(Add(c5, k2, v2), k4, v4);
    NotHeld(c5, refs5, a5, k1);
    HeldAt(c5, refs5, a5, 0);
    HeldAt(c5, refs5, a5, 1);
    HeldAt(c7, refs7, a7, 0);
    HeldAt(c7, refs7, a7, 1);
    NotHeld(c7, refs7, a7, k3);
  }

  // ---------------------------------------------------------------------
  // `get` leaves the recency order alone

  /** `get` does not refresh a key: with capacity two, adding `k1` and
      `k2`, reading `k1`, then adding `k3` still evicts `k1`. */
  lemma GetDoesNotPromote(k1: int, k2: int, k3: int, v1: int, v2: int, v3: int)
    requires k1 != k2 && k1 != k3 && k2 != k3
    ensures New<int, int>(2).Success?
    ensures var c2 := Add(Add(New<int, int>(2).value, k1, v1), k2, v2);
            && Get(c2, k1) == Success(v1)
            && !Contains(Add(c2, k3, v3), k1) && Contains(Add(c2, k3, v3), k2)
  {
    SpecPromote(k1, k2, k3, v1, v2, v3);
    var refs1 := FirstAdd(2, k1, v1);
    var c1 := Add(New<int, int>(2).value, k1, v1);
    var a1 := S.Add(S.New<int, int>(2).value, k1, v1);
    var c2 := Add(c1, k2, v2);
    var refs2 := AddRefines(c1, refs1, k2, v2);
    var a2 := S.Add(a1, k2, v2);
    var refs3 := AddRefines(c2, refs2, k3, v3);
    var a3 := S.Add(a2, k3, v3);
    HeldAt(c2, refs2, a2, 1);
    NotHeld(Add(c2, k3, v3), refs3, a3, k1);
    HeldAt(Add(c2, k3, v3), refs3, a3, 1);
  }

  /** The abstract lists of the `get` scenario. */
  lemma SpecPromote(k1: int, k2: int, k3: int, v1: int, v2: int, v3: int)
    requires k1 != k2 && k1 != k3 && k2 != k3
    ensures S.New<int, int>(2).Success?
    ensures var a2 := S.Add(S.Add(S.New<int, int>(2).value, k1, v1), k2, v2);
            && a2.entries == [(k2, v2), (k1, v1)]
            && S.Add(a2, k3, v3).entries == [(k3, v3), (k2, v2)]
  {
    var a0 := S.New<int, int>(2).value;
    AddToEmpty(a0, k1, v1);
    var a1 := S.Add(a0, k1, v1);
    AddToOne(a1, k2, v2, (k1, v1));
    AddToFullTwo(S.Add(a1, k2, v2), k3, v3, (k2, v2), (k1, v1));
  }

  // ---------------------------------------------------------------------
  // The tests' loops: testAddAndRemove, testCacheSize, testClearAndUpdate

  /** The loop `for (...) cache.add(k, v)`: adds the pairs oldest first. */
  function AddEach<K, V>(c: Linked<K, V>, pairs: seq<(K, V)>): (r: Linked<K, V>)
    requires Valid(c)
    ensures Valid(r) && r.maxSize == c.maxSize
    decreases |pairs|
  {
    if |pairs| == 0 then c
    else
      var last := pairs[|pairs| - 1];
      Add(AddEach(c, pairs[..|pairs| - 1]), last.0, last.1)
  }

  /** The loop `for (...) cache.remove(k)`: stops at the first refusal. */
  function RemoveEach<K, V>(c: Linked<K, V>, keys: seq<K>): (r: Result<Linked<K, V>, S.CacheError>)
    requires Valid(c)
    ensures r.Success? ==> Valid(r.value) && r.value.maxSize == c.maxSize
    decreases |keys|
  {
    if |keys| == 0 then Success(c)
    else
      match Remove(c, keys[0])
      case Failure(e) => Failure(e)
      case Success(d) => RemoveEach(d, keys[1..])
  }

  /** Adding pairs one by one on the nodes is `AddAll` on the abstract cache. */
  lemma {:induction false} AddEachRefines<K, V>(c: Linked<K, V>, refs: seq<Ref>, pairs: seq<(K, V)>)
    returns (refs': seq<Ref>)
    requires Valid(c) && Repr(c, refs)
    ensures S.Valid(Abs(c, refs))
    ensures Repr(AddEach(c, pairs), refs')
    ensures Abs(AddEach(c, pairs), refs') == S.AddAll(Abs(c, refs), pairs)
    decreases |pairs|
  {
    AbsValid(c, refs);
    if |pairs| == 0 {
      refs' := refs;
    } else {
      var front := pairs[..|pairs| - 1];
      var last := pairs[|pairs| - 1];
      var mid := AddEachRefines(c, refs, front);
      refs' := AddRefines(AddEach(c, front), mid, last.0, last.1);
    }
  }

  /** Removing keys one by one on the nodes is `RemoveAll` on the abstract
      cache: both refuse together, and otherwise end in matching states. */
  lemma {:induction false} RemoveEachRefines<K, V>(c: Linked<K, V>, refs: seq<Ref>, keys: seq<K>)
    returns (refs': seq<Ref>)
    requires Valid(c) && Repr(c, refs)
    ensures S.Valid(Abs(c, refs))
    ensures RemoveEach(c, keys).Success? <==> S.RemoveAll(Abs(c, refs), keys).Success?
    ensures RemoveEach(c, keys).Success? ==>
              Repr(RemoveEach(c, keys).value, refs') &&
              Abs(RemoveEach(c, keys).value, refs') == S.RemoveAll(Abs(c, refs), keys).value
    decreases |keys|
  {
    AbsValid(c, refs);
    refs' := refs;
    if |keys| > 0 {
      var r := RemoveRefines(c, refs, keys[0]);
      if Remove(c, keys[0]).Success? {
        refs' := RemoveEachRefines(Remove(c, keys[0]).value, r, keys[1..]);
      }
    }
  }

  /** Membership on the nodes is membership in the abstract index. */
  lemma InIndex<K, V>(c: Linked<K, V>, refs: seq<Ref>, a: S.Cache<K, V>, k: K)
    requires Valid(c) && Repr(c, refs) && Abs(c, refs) == a
    ensures Contains(c, k) <==> k in a.index
    ensures k in a.index ==> Get(c, k) == Success(a.index[k])
  {
    Transfer(c, refs, a, k);
  }

  /** `c` is a valid node-level cache whose abstraction is `a`. */
  ghost predicate Models<K, V>(c: Linked<K, V>, a: S.Cache<K, V>)
  {
    Valid(c) && exists refs :: Repr(c, refs) && Abs(c, refs) == a
  }

  /** `InIndex` for a cache known only to model `a`. */
  lemma ModelIndex<K, V>(c: Linked<K, V>, a: S.Cache<K, V>, k: K)
    requires Models(c, a)
    ensures Contains(c, k) <==> k in a.index
    ensures k in a.index ==> Get(c, k) == Success(a.index[k])
  {
    var refs :| Repr(c, refs) && Abs(c, refs) == a;
    InIndex(c, refs, a, k);
  }

  /** `ModelIndex` for every key at once. */
  lemma ModelKeys<K, V>(c: Linked<K, V>, a: S.Cache<K, V>)
    requires Models(c, a)
    ensures forall k :: Contains(c, k) <==> k in a.index
    ensures forall k :: k in a.index ==> Get(c, k) == Success(a.index[k])
  {
    forall k ensures Contains(c, k) <==> k in a.index
      ensures k in a.index ==> Get(c, k) == Success(a.index[k])
    {
      ModelIndex(c, a, k);
    }
  }

  /** The loop of adds from a new cache models `AddAll` from an empty one. */
  lemma AddEachModels<K, V>(n: int, pairs: seq<(K, V)>)
    requires 0 < n
    ensures New<K, V>(n).Success?
    ensures Models(AddEach(New<K, V>(n).value, pairs), S.AddAll(S.Empty<K, V>(n), pairs))
  {
    NewRefines<K, V>(n);
    var c0 := New<K, V>(n).value;
    var refs := AddEachRefines(c0, [], pairs);
    assert Abs(c0, []) == S.Empty<K, V>(n);
  }

  /** Adding pairs one by one keeps a node-level cache modelling the
      abstract one. */
  lemma AddEachFrom<K, V>(c: Linked<K, V>, a: S.Cache<K, V>, pairs: seq<(K, V)>)
    requires Models(c, a)
    ensures S.Valid(a)
    ensures Models(AddEach(c, pairs), S.AddAll(a, pairs))
  {
    var refs :| Repr(c, refs) && Abs(c, refs) == a;
    var refs' := AddEachRefines(c, refs, pairs);
  }

  /** Removing keys one by one keeps a node-level cache modelling the
      abstract one, and both refuse together. */
  lemma RemoveEachFrom<K, V>(c: Linked<K, V>, a: S.Cache<K, V>, keys: seq<K>)
    requires Models(c, a)
    ensures S.Valid(a)
    ensures RemoveEach(c, keys).Success? <==> S.RemoveAll(a, keys).Success?
    ensures RemoveEach(c, keys).Success? ==> Models(RemoveEach(c, keys).value, S.RemoveAll(a, keys).value)
  {
    var refs :| Repr(c, refs) && Abs(c, refs) == a;
    var refs' := RemoveEachRefines(c, refs, keys);
  }

  /** The pairs `(0, 0), (1, 1), ..., (n - 1, n - 1)` the tests add. */
  function Identity(n: nat): (pairs: seq<(int, int)>)
    ensures |pairs| == n && forall i :: 0 <= i < n ==> pairs[i] == (i, i)
  {
    seq(n, i => (i, i))
  }

  lemma IdentityDistinct(n: nat)
    ensures S.DistinctKeys(Identity(n))
  {
  }

  /** testCacheSize on the abstract cache, for one key. */
  lemma SpecCacheSize(n: int, pairs: seq<(int, int)>, i: int)
    requires 0 < n && pairs == Identity(2 * n) && 0 <= i < 2 * n
    ensures i in S.AddAll(S.Empty<int, int>(n), pairs).index <==> n <= i
    ensures n <= i ==> S.AddAll(S.Empty<int, int>(n), pairs).index[i] == i
  {
    IdentityDistinct(2 * n);
    P.OnlyNewestSurvive(n, pairs);
    assert pairs[i] == (i, i);
  }

  /** testCacheSize: adding `(i, i)` for `i` below `2n` to a new cache of
      capacity `n` (the test's `n` is 1000) leaves exactly the keys from
      `n` on. */
  lemma CacheSize(n: int)
    requires 0 < n
    ensures New<int, int>(n).Success?
    ensures var c := AddEach(New<int, int>(n).value, Identity(2 * n));
            && (forall i :: 0 <= i < n ==> !Contains(c, i))
            && (forall i :: n <= i < 2 * n ==> Contains(c, i) && Get(c, i) == Success(i))
  {
    AddEachModels<int, int>(n, Identity(2 * n));
    Survivors(AddEach(New<int, int>(n).value, Identity(2 * n)), n);
  }

  /** Any cache standing for `(i, i)` added for `i` below `2n` at capacity
      `n` holds exactly the keys from `n` on, each with itself as value. */
  lemma Survivors(c: Linked<int, int>, n: int)
    requires 0 < n && Models(c, S.AddAll(S.Empty<int, int>(n), Identity(2 * n)))
    ensures Valid(c)
    ensures forall i :: 0 <= i < n ==> !Contains(c, i)
    ensures forall i :: n <= i < 2 * n ==> Contains(c, i) && Get(c, i) == Success(i)
  {
    var a := S.AddAll(S.Empty<int, int>(n), Identity(2 * n));
    forall i | 0 <= i < 2 * n
      ensures Contains(c, i) <==> n <= i
      ensures n <= i ==> Get(c, i) == Success(i)
    {
      SpecCacheSize(n, Identity(2 * n), i);
      ModelIndex(c, a, i);
    }
  }

  /** testClearAndUpdate on the abstract cache, for one key. */
  lemma SpecClearAndUpdate(n: int, pairs: seq<(int, int)>, i: int)
    requires 0 < n && pairs == Identity(n) && 0 <= i < n
    ensures S.RemoveAll(S.AddAll(S.Empty<int, int>(n), pairs), P.KeysOf(pairs)).Success?
    ensures var cleared := S.RemoveAll(S.AddAll(S.Empty<int, int>(n), pairs), P.KeysOf(pairs)).value;
            && i !in cleared.index
            && i in S.AddAll(cleared, pairs).index && S.AddAll(cleared, pairs).index[i] == i
  {
    IdentityDistinct(n);
    P.ClearAndRefill(n, pairs);
    assert pairs[i] == (i, i);
  }

  /** testClearAndUpdate: fill a new cache of capacity `n` with `(i, i)`
      for `i` below `n`, remove the keys `0, 1, ..., n - 1` in that order
      (every removal succeeds), and none is left; add the pairs again and
      every key is back with its value. */
  lemma ClearAndUpdate(n: int)
    requires 0 < n
    ensures New<int, int>(n).Success?
    ensures var full := AddEach(New<int, int>(n).value, Identity(n));
            && RemoveEach(full, P.KeysOf(Identity(n))).Success?
            && var cleared := RemoveEach(full, P.KeysOf(Identity(n))).value;
               && (forall i :: 0 <= i < n ==> !Contains(cleared, i))
               && (forall i :: 0 <= i < n ==>
                     Contains(AddEach(cleared, Identity(n)), i) && Get(AddEach(cleared, Identity(n)), i) == Success(i))
  {
    var pairs := Identity(n);
    AddEachModels<int, int>(n, pairs);
    var full := AddEach(New<int, int>(n).value, pairs);
    var a := S.AddAll(S.Empty<int, int>(n), pairs);
    SpecClearAndUpdate(n, pairs, 0);
    RemoveEachFrom(full, a, P.KeysOf(pairs));
    var cleared := RemoveEach(full, P.KeysOf(pairs)).value;
    var b := S.RemoveAll(a, P.KeysOf(pairs)).value;
    assert b == Cleared(n);
    AddEachFrom(cleared, b, pairs);
    ClearedLacks(cleared, n);
    RefilledHolds(AddEach(cleared, pairs), n);
  }

  /** The abstract cache testClearAndUpdate empties. */
  function Cleared(n: int): (b: S.Cache<int, int>)
    requires 0 < n
    ensures S.Valid(b) && forall i :: 0 <= i < n ==> i !in b.index
  {
    SpecClearAndUpdate(n, Identity(n), 0);
    var cleared := S.RemoveAll(S.AddAll(S.Empty<int, int>(n), Identity(n)), P.KeysOf(Identity(n))).value;
    assert forall i :: 0 <= i < n ==> i !in cleared.index by {
      forall i | 0 <= i < n ensures i !in cleared.index {
        SpecClearAndUpdate(n, Identity(n), i);
      }
    }
    cleared
  }

  /** Any cache standing for the cleared abstract cache lacks every key
      below `n`. */
  lemma ClearedLacks(c: Linked<int, int>, n: int)
    requires 0 < n && Models(c, Cleared(n))
    ensures forall i :: 0 <= i < n ==> !Contains(c, i)
  {
    ModelKeys(c, Cleared(n));
  }

  /** Any cache standing for the refilled abstract cache holds every key
      below `n` with itself as value. */
  lemma RefilledHolds(c: Linked<int, int>, n: int)
    requires 0 < n && Models(c, S.AddAll(Cleared(n), Identity(n)))
    ensures forall i :: 0 <= i < n ==> Contains(c, i) && Get(c, i) == Success(i)
  {
    forall i | 0 <= i < n ensures Contains(c, i) && Get(c, i) == Success(i) {
      SpecClearAndUpdate(n, Identity(n), i);
      ModelIndex(c, S.AddAll(Cleared(n), Identity(n)), i);
    }
  }

  /** The keys `n - 1, n - 2, ..., 0`, in the order testAddAndRemove
      removes them. */
  function Countdown(n: nat): (keys: seq<int>)
    ensures |keys| == n && forall t :: 0 <= t < n ==> keys[t] == n - 1 - t
  {
    seq(n, t => n - 1 - t)
  }

  /** Adding `(i, i)` for `i` below `n` to an empty cache of capacity `n`
      keeps every pair. */
  lemma FilledWithIdentity(n: int)
    requires 0 < n
    ensures forall k :: 0 <= k < n ==>
              k in S.AddAll(S.Empty<int, int>(n), Identity(n)).index &&
              S.AddAll(S.Empty<int, int>(n), Identity(n)).index[k] == k
  {
    var pairs := Identity(n);
    IdentityDistinct(n);
    P.FillEmpty(S.Empty<int, int>(n), pairs);
    forall k | 0 <= k < n
      ensures k in S.AddAll(S.Empty<int, int>(n), pairs).index
      ensures S.AddAll(S.Empty<int, int>(n), pairs).index[k] == k
    {
      assert pairs[k] == (k, k);
    }
  }

  /** testAddAndRemove on the abstract cache: after the first `m` removals
      from the top, exactly the keys below `n - m` are left, with their
      values. */
  lemma SpecDrain(n: int, m: int)
    requires 0 < n && 0 <= m <= n
    ensures S.RemoveAll(S.AddAll(S.Empty<int, int>(n), Identity(n)), Countdown(n)[..m]).Success?
    ensures var b := S.RemoveAll(S.AddAll(S.Empty<int, int>(n), Identity(n)), Countdown(n)[..m]).value;
            && (forall k :: 0 <= k < n - m ==> k in b.index && b.index[k] == k)
            && (forall k :: n - m <= k < n ==> k !in b.index)
  {
    FilledWithIdentity(n);
    DrainFrom(S.AddAll(S.Empty<int, int>(n), Identity(n)), n, m);
  }

  /** `SpecDrain` for any cache holding `(k, k)` for every `k` below `n`. */
  lemma DrainFrom(full: S.Cache<int, int>, n: int, m: int)
    requires 0 <= m <= n && S.Valid(full)
    requires forall k :: 0 <= k < n ==> k in full.index && full.index[k] == k
    ensures S.RemoveAll(full, Countdown(n)[..m]).Success?
    ensures var b := S.RemoveAll(full, Countdown(n)[..m]).value;
            && (forall k :: 0 <= k < n - m ==> k in b.index && b.index[k] == k)
            && (forall k :: n - m <= k < n ==> k !in b.index)
  {
    var keys := Countdown(n);
    P.PrefixKeys(full, keys, m);
    P.RemoveKeysExactly(full, keys[..m]);
    CountdownPrefix(n, m);
  }

  /** The first `m` keys of the countdown are the top `m` keys below `n`. */
  lemma CountdownPrefix(n: int, m: int)
    requires 0 <= m <= n
    ensures forall k :: k in P.Elements(Countdown(n)[..m]) <==> n - m <= k < n
  {
    var keys := Countdown(n)[..m];
    forall k | n - m <= k < n ensures k in P.Elements(keys) {
      assert keys[n - 1 - k] == k;
    }
  }

  /** testAddAndRemove, step by step as the test is written: fill a new cache of
      capacity `n` with `(i, i)` for `i` below `n`, then for `i` from `n - 1`
      down read `i`, remove it and look for it again. `found` lists what
      each `get` returned, in order; every `get` succeeds with the key's own
      value, every key is gone right after its removal, and the cache ends
      empty. */
  method AddAndRemove(n: int) returns (found: seq<int>, final: Linked<int, int>)
    requires 0 < n
    ensures |found| == n && forall t :: 0 <= t < n ==> found[t] == n - 1 - t
    ensures Valid(final) && |final.cache| == 0
    ensures forall k :: !Contains(final, k)
  {
    var c, a := FillIdentity(n);
    var r := DrainDown(c, a, n);
    found, final := r.0, r.1;
  }

  /** The abstract cache holds exactly the keys below `m`, each mapped to
      itself. */
  ghost predicate IdentityBelow(a: S.Cache<int, int>, m: int)
  {
    && S.Valid(a)
    && (forall k :: k in a.index <==> 0 <= k < m)
    && (forall k :: k in a.index ==> a.index[k] == k)
  }

  /** The first loop of testAddAndRemove: `add(i, i)` for `i` from 0 below
      `n`, into a new cache of capacity `n`. */
  method FillIdentity(n: int) returns (c: Linked<int, int>, ghost a: S.Cache<int, int>)
    requires 0 < n
    ensures Models(c, a) && IdentityBelow(a, n)
  {
    c := New<int, int>(n).value;
    a := S.Empty<int, int>(n);
    NewModels<int, int>(n);
    var i := 0;
    while i < n
      invariant 0 <= i <= n
      invariant Models(c, a) && IdentityBelow(a, i) && a.capacity == n && |a.entries| == i
    {
      AddModels(c, a, i, i);
      FillStep(a, i);
      c, a := Add(c, i, i), S.Add(a, i, i);
      i := i + 1;
    }
  }

  /** One pass of the first loop: `i` is fresh and there is room, so nothing
      is evicted. */
  lemma FillStep(a: S.Cache<int, int>, i: int)
    requires IdentityBelow(a, i) && 0 <= i < a.capacity && |a.entries| == i
    ensures IdentityBelow(S.Add(a, i, i), i + 1)
    ensures S.Add(a, i, i).capacity == a.capacity && |S.Add(a, i, i).entries| == i + 1
  {
    assert S.Add(a, i, i).index == a.index[i := i];
  }

  /** The second loop of testAddAndRemove, from `m - 1` down: `get(i)`, then
      `remove(i)`. The result lists what the reads returned, in order, and
      the cache left at the end. */
  function DrainDown(c: Linked<int, int>, ghost a: S.Cache<int, int>, m: int): (r: (seq<int>, Linked<int, int>))
    requires 0 <= m && Models(c, a) && IdentityBelow(a, m)
    ensures r.0 == Countdown(m)
    ensures Valid(r.1) && |r.1.cache| == 0
    ensures forall k :: !Contains(r.1, k)
    decreases m
  {
    if m == 0 then
      DrainedEmpty(c, a);
      ([], c)
    else
      var got := ReadTop(c, a, m);
      var rest := DrainDown(DropTop(c, a, m), S.Remove(a, m - 1).value, m - 1);
      CountdownCons(m);
      ([got] + rest.0, rest.1)
  }

  /** Counting down from `m - 1` starts with `m - 1`. */
  lemma CountdownCons(m: nat)
    requires 0 < m
    ensures Countdown(m) == [m - 1] + Countdown(m - 1)
  {
  }

  /** `get(m - 1)` in the second loop: the largest key reads back as itself. */
  function ReadTop(c: Linked<int, int>, ghost a: S.Cache<int, int>, m: int): (v: int)
    requires 0 < m && Models(c, a) && IdentityBelow(a, m)
    ensures v == m - 1
  {
    DrainStep(c, a, m);
    Get(c, m - 1).value
  }

  /** `remove(m - 1)` in the second loop: it succeeds, the key is gone and the
      rest stay. */
  function DropTop(c: Linked<int, int>, ghost a: S.Cache<int, int>, m: int): (d: Linked<int, int>)
    requires 0 < m && Models(c, a) && IdentityBelow(a, m)
    ensures S.Remove(a, m - 1).Success? && IdentityBelow(S.Remove(a, m - 1).value, m - 1)
    ensures Models(d, S.Remove(a, m - 1).value) && !Contains(d, m - 1)
  {
    DrainStep(c, a, m);
    Remove(c, m - 1).value
  }

  /** One pass of the second loop: the largest key reads back as itself,
      its removal succeeds, afterwards it is gone and the rest stay. */
  lemma DrainStep(c: Linked<int, int>, a: S.Cache<int, int>, m: int)
    requires 0 < m && Models(c, a) && IdentityBelow(a, m)
    ensures Valid(c) && Get(c, m - 1) == Success(m - 1)
    ensures Remove(c, m - 1).Success? && S.Remove(a, m - 1).Success?
    ensures Models(Remove(c, m - 1).value, S.Remove(a, m - 1).value)
    ensures IdentityBelow(S.Remove(a, m - 1).value, m - 1)
    ensures !Contains(Remove(c, m - 1).value, m - 1)
  {
    var k := m - 1;
    ModelIndex(c, a, k);
    RemoveModels(c, a, k);
    SpecDrainStep(a, k);
    ModelIndex(Remove(c, k).value, S.Remove(a, k).value, k);
  }

  /** The abstract side of one pass of the second loop: the largest key is
      removed and the rest stay. */
  lemma SpecDrainStep(a: S.Cache<int, int>, k: int)
    requires 0 <= k && IdentityBelow(a, k + 1)
    ensures S.Remove(a, k).Success? && IdentityBelow(S.Remove(a, k).value, k)
  {
  }

  /** With no key left, the node-level cache is empty. */
  lemma DrainedEmpty(c: Linked<int, int>, a: S.Cache<int, int>)
    requires Models(c, a) && IdentityBelow(a, 0)
    ensures Valid(c) && |c.cache| == 0
    ensures forall k :: !Contains(c, k)
  {
    ModelKeys(c, a);
    forall k | k in c.cache
      ensures false
    {
      assert Contains(c, k);
    }
    assert c.cache.Keys == {};
  }

  /** A new node-level cache stands for the empty abstract one. */
  lemma NewModels<K, V>(n: int)
    requires 0 < n
    ensures New<K, V>(n).Success? && Models(New<K, V>(n).value, S.Empty<K, V>(n))
  {
    AddEachModels<K, V>(n, []);
  }

  /** One `add` on the nodes is one `Add` on the abstract cache. */
  lemma AddModels<K, V>(c: Linked<K, V>, a: S.Cache<K, V>, k: K, v: V)
    requires Models(c, a)
    ensures S.Valid(a)
    ensures Models(Add(c, k, v), S.Add(a, k, v))
  {
    var refs :| Repr(c, refs) && Abs(c, refs) == a;
    var refs' := AddRefines(c, refs, k, v);
  }

  /** One `remove` on the nodes is one `Remove` on the abstract cache. */
  lemma RemoveModels<K, V>(c: Linked<K, V>, a: S.Cache<K, V>, k: K)
    requires Models(c, a)
    ensures S.Valid(a)
    ensures Remove(c, k).Success? <==> S.Remove(a, k).Success?
    ensures Remove(c, k).Success? ==> Models(Remove(c, k).value, S.Remove(a, k).value)
  {
    var refs :| Repr(c, refs) && Abs(c, refs) == a;
    var refs' := RemoveRefines(c, refs, k);
  }
}
