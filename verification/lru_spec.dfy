/**
  Abstract model of the LRU cache: the recency list as a sequence of
  (key, value) pairs ordered newest first (index 0 is the head, the last
  element is the tail), together with the key index that the cache keeps
  beside it. Every operation is a pure function on this state.
 */
module LruSpec {
  import opened Wrappers

  /** The two contract violations a caller can commit. */
  datatype CacheError = InvalidCapacity | KeyNotFound

  /** `entries` is the recency list, newest first; `index` is the key map. */
  datatype Cache<K, V> = Cache(capacity: int, entries: seq<(K, V)>, index: map<K, V>)

  /** The keys that occur in a list of entries. */
  function KeySet<K(==), V(==)>(entries: seq<(K, V)>): set<K>
  {
    set i | 0 <= i < |entries| :: entries[i].0
  }

  /** No key occurs twice in the list. */
  predicate DistinctKeys<K(==), V(==)>(entries: seq<(K, V)>)
  {
    forall i, j :: 0 <= i < j < |entries| ==> entries[i].0 != entries[j].0
  }

  /** The index and the recency list describe the same entries. */
  predicate Consistent<K(==), V(==)>(c: Cache<K, V>)
  {
    && DistinctKeys(c.entries)
    && c.index.Keys == KeySet(c.entries)
    && forall i :: 0 <= i < |c.entries| ==> c.entries[i].0 in c.index && c.index[c.entries[i].0] == c.entries[i].1
  }

  /** The invariant every reachable cache satisfies. */
  predicate Valid<K(==), V(==)>(c: Cache<K, V>)
  {
    && 0 < c.capacity
    && |c.entries| <= c.capacity
    && Consistent(c)
  }

  /** The position of a key in the list; `k` is known to occur. */
  function Position<K(==), V(==)>(entries: seq<(K, V)>, k: K): (i: nat)
    requires k in KeySet(entries)
    ensures i < |entries| && entries[i].0 == k
    ensures forall j :: 0 <= j < i ==> entries[j].0 != k
  {
    if entries[0].0 == k then 0
    else
      assert k in KeySet(entries[1..]) by {
        var j :| 0 <= j < |entries| && entries[j].0 == k;
        assert entries[1..][j - 1].0 == k;
      }
      1 + Position(entries[1..], k)
  }

  /** The list with every entry for key `k` dropped, the others in order. */
  function Without<K(==), V(==)>(entries: seq<(K, V)>, k: K): seq<(K, V)>
  {
    if |entries| == 0 then []
    else if entries[0].0 == k then Without(entries[1..], k)
    else [entries[0]] + Without(entries[1..], k)
  }

  lemma {:induction false} WithoutAbsent<K, V>(entries: seq<(K, V)>, k: K)
    requires forall j :: 0 <= j < |entries| ==> entries[j].0 != k
    ensures Without(entries, k) == entries
  {
    if |entries| > 0 {
      WithoutAbsent(entries[1..], k);
      assert [entries[0]] + entries[1..] == entries;
    }
  }

  /** With distinct keys, dropping `k` splices out exactly its one position. */
  lemma {:induction false} WithoutSplice<K, V>(entries: seq<(K, V)>, k: K, i: int)
    requires DistinctKeys(entries)
    requires 0 <= i < |entries| && entries[i].0 == k
    ensures Without(entries, k) == entries[..i] + entries[i + 1..]
  {
    if i == 0 {
      WithoutAbsent(entries[1..], k);
    } else {
      var tl := entries[1..];
      assert DistinctKeys(tl);
      assert tl[i - 1].0 == k;
      WithoutSplice(tl, k, i - 1);
      assert entries[0].0 != k;
      assert entries[..i] + entries[i + 1..] == [entries[0]] + (tl[..i - 1] + tl[i..]);
    }
  }

  /** The keys of a non-empty list: its first key and those of its tail. */
  lemma KeySetCons<K, V>(entries: seq<(K, V)>)
    requires |entries| > 0
    ensures KeySet(entries) == {entries[0].0} + KeySet(entries[1..])
  {
    var tl := entries[1..];
    forall x | x in KeySet(entries) ensures x in {entries[0].0} + KeySet(tl) {
      var j :| 0 <= j < |entries| && entries[j].0 == x;
      if j > 0 { assert tl[j - 1].0 == x; }
    }
    forall x | x in KeySet(tl) ensures x in KeySet(entries) {
      var j :| 0 <= j < |tl| && tl[j].0 == x;
      assert entries[j + 1].0 == x;
    }
  }

  /** The tail of a list with distinct keys has distinct keys, none of
      them the first key. */
  lemma DistinctTail<K, V>(entries: seq<(K, V)>)
    requires DistinctKeys(entries) && |entries| > 0
    ensures DistinctKeys(entries[1..])
    ensures entries[0].0 !in KeySet(entries[1..])
  {
    var tl := entries[1..];
    forall i, j | 0 <= i < j < |tl| ensures tl[i].0 != tl[j].0 {
      assert tl[i] == entries[i + 1] && tl[j] == entries[j + 1];
    }
    forall j | 0 <= j < |tl| ensures tl[j].0 != entries[0].0 {
      assert tl[j] == entries[j + 1];
    }
  }

  /** A list with distinct keys has as many keys as entries. */
  lemma {:induction false} KeySetSize<K, V>(entries: seq<(K, V)>)
    requires DistinctKeys(entries)
    ensures |KeySet(entries)| == |entries|
  {
    if |entries| > 0 {
      DistinctTail(entries);
      KeySetSize(entries[1..]);
      KeySetCons(entries);
    }
  }

  /** The index holds exactly as many keys as the list holds entries. */
  lemma SizeAgrees<K, V>(c: Cache<K, V>)
    requires Consistent(c)
    ensures |c.index| == |c.entries|
  {
    KeySetSize(c.entries);
    assert |c.index| == |c.index.Keys|;
  }

  /** The empty cache of the given capacity. */
  function Empty<K(==), V(==)>(capacity: int): (c: Cache<K, V>)
    requires 0 < capacity
    ensures Valid(c) && c.capacity == capacity
    ensures |c.entries| == 0 && |c.index| == 0
  {
    Cache(capacity, [], map[])
  }

  /** Construction: refuses a capacity below one. */
  function New<K(==), V(==)>(capacity: int): (r: Result<Cache<K, V>, CacheError>)
    ensures r.Failure? <==> capacity <= 0
    ensures r.Failure? ==> r.error == InvalidCapacity
    ensures r.Success? ==> Valid(r.value) && r.value.capacity == capacity && |r.value.entries| == 0
  {
    if capacity <= 0 then Failure(InvalidCapacity) else Success(Empty(capacity))
  }

  /** Membership: answers from the index, and that agrees with the list. */
  function Contains<K(==), V(==)>(c: Cache<K, V>, k: K): (b: bool)
    requires Valid(c)
    ensures b <==> exists i :: 0 <= i < |c.entries| && c.entries[i].0 == k
  {
    assert k in c.index ==> k in KeySet(c.entries);
    if k in c.index then
      assert c.entries[Position(c.entries, k)].0 == k;
      true
    else
      false
  }

  /** Lookup: the value stored with `k` in the recency list; no promotion. */
  function Get<K(==), V(==)>(c: Cache<K, V>, k: K): (r: Result<V, CacheError>)
    requires Valid(c)
    ensures r.Failure? <==> k !in c.index
    ensures r.Failure? ==> r.error == KeyNotFound
    ensures r.Success? ==> exists i :: 0 <= i < |c.entries| && c.entries[i] == (k, r.value)
  {
    if k in c.index then
      assert c.entries[Position(c.entries, k)].0 == k;
      Success(c.index[k])
    else
      Failure(KeyNotFound)
  }

  /** Unlinks the entry for a present key; the others keep their order. */
  function Delete<K(==), V(==)>(c: Cache<K, V>, k: K): (r: Cache<K, V>)
    requires Valid(c) && k in c.index
    ensures Valid(r) && r.capacity == c.capacity
    ensures k !in r.index
    ensures |r.entries| == |c.entries| - 1
    ensures forall i :: 0 <= i < |c.entries| && c.entries[i].0 == k ==> r.entries == c.entries[..i] + c.entries[i + 1..]
    ensures forall k' :: k' in c.index && k' != k ==> k' in r.index
    ensures forall k' :: k' in r.index ==> k' in c.index && r.index[k'] == c.index[k']
  {
    var r := Cache(c.capacity, Without(c.entries, k), c.index - {k});
    var p := Position(c.entries, k);
    WithoutSplice(c.entries, k, p);
    SpliceConsistent(c, p);
    assert forall i :: 0 <= i < |c.entries| && c.entries[i].0 == k ==> i == p;
    r
  }

  /** Splicing out position `p` of a consistent cache, and dropping its key
      from the index, leaves a consistent cache. */
  lemma SpliceConsistent<K, V>(c: Cache<K, V>, p: int)
    requires Valid(c) && 0 <= p < |c.entries|
    ensures Valid(Cache(c.capacity, c.entries[..p] + c.entries[p + 1..], c.index - {c.entries[p].0}))
  {
    var k := c.entries[p].0;
    var s := c.entries[..p] + c.entries[p + 1..];
    var d := Cache(c.capacity, s, c.index - {k});
    SpliceDistinct(c.entries, p);
    SpliceKeySet(c.entries, p);
    forall i | 0 <= i < |s| ensures s[i].0 in d.index && d.index[s[i].0] == s[i].1 {
      var i' := if i < p then i else i + 1;
      assert s[i] == c.entries[i'];
    }
  }

  /** Splicing out one position keeps the keys distinct. */
  lemma SpliceDistinct<K, V>(entries: seq<(K, V)>, p: int)
    requires DistinctKeys(entries) && 0 <= p < |entries|
    ensures DistinctKeys(entries[..p] + entries[p + 1..])
  {
    var s := entries[..p] + entries[p + 1..];
    forall i, j | 0 <= i < j < |s| ensures s[i].0 != s[j].0 {
      var i' := if i < p then i else i + 1;
      var j' := if j < p then j else j + 1;
      assert s[i] == entries[i'] && s[j] == entries[j'];
    }
  }

  /** Splicing out one position of a list with distinct keys removes
      exactly that position's key. */
  lemma SpliceKeySet<K, V>(entries: seq<(K, V)>, p: int)
    requires DistinctKeys(entries) && 0 <= p < |entries|
    ensures KeySet(entries[..p] + entries[p + 1..]) == KeySet(entries) - {entries[p].0}
  {
    var k := entries[p].0;
    var s := entries[..p] + entries[p + 1..];
    forall x | x in KeySet(entries) - {k} ensures x in KeySet(s) {
      var j :| 0 <= j < |entries| && entries[j].0 == x;
      if j < p { assert s[j] == entries[j]; } else { assert s[j - 1] == entries[j]; }
    }
    forall x | x in KeySet(s) ensures x in KeySet(entries) - {k} {
      var j :| 0 <= j < |s| && s[j].0 == x;
      var j' := if j < p then j else j + 1;
      assert s[j] == entries[j'];
    }
  }

  /** `remove`: refuses an absent key, otherwise deletes it. */
  function Remove<K(==), V(==)>(c: Cache<K, V>, k: K): (r: Result<Cache<K, V>, CacheError>)
    requires Valid(c)
    ensures r.Failure? <==> k !in c.index
    ensures r.Failure? ==> r.error == KeyNotFound
    ensures r.Success? ==> Valid(r.value) && r.value.capacity == c.capacity
    ensures r.Success? ==> k !in r.value.index && |r.value.index| == |c.index| - 1
  {
    if k !in c.index then Failure(KeyNotFound)
    else
      var d := Delete(c, k);
      SizeAgrees(c);
      SizeAgrees(d);
      Success(d)
  }

  /** `add`: drop an existing entry for `k`, else evict the tail of a full
      cache, then put (k, v) at the head. Which entries the result holds in
      each of the three cases is stated by `AddExisting`, `AddEvicting` and
      `AddFresh`. */
  function Add<K(==), V(==)>(c: Cache<K, V>, k: K, v: V): (r: Cache<K, V>)
    requires Valid(c)
    ensures Valid(r) && r.capacity == c.capacity
    ensures k in r.index && r.index[k] == v
    ensures |r.entries| > 0 && r.entries[0] == (k, v)
    ensures forall k' :: k' in r.index && k' != k ==> k' in c.index && r.index[k'] == c.index[k']
  {
    var c1 := if k in c.index then Delete(c, k) else c;
    var c2 := if |c1.entries| == c1.capacity then Delete(c1, c1.entries[|c1.entries| - 1].0) else c1;
    PrependValid(c2, k, v);
    Cache(c.capacity, [(k, v)] + c2.entries, c2.index[k := v])
  }

  /** Re-adding a present key moves it to the head with its new value; the
      others keep their order and the size does not change. */
  lemma AddExisting<K, V>(c: Cache<K, V>, k: K, v: V, i: int)
    requires Valid(c) && 0 <= i < |c.entries| && c.entries[i].0 == k
    ensures Add(c, k, v).entries == [(k, v)] + c.entries[..i] + c.entries[i + 1..]
    ensures |Add(c, k, v).entries| == |c.entries|
  {
    assert k in KeySet(c.entries);
    var d := Delete(c, k);
    assert d.entries == c.entries[..i] + c.entries[i + 1..];
  }

  /** Adding a fresh key to a full cache evicts exactly the tail. */
  lemma AddEvicting<K, V>(c: Cache<K, V>, k: K, v: V)
    requires Valid(c) && k !in c.index && |c.entries| == c.capacity
    ensures Add(c, k, v).entries == [(k, v)] + c.entries[..|c.entries| - 1]
    ensures c.entries[|c.entries| - 1].0 !in Add(c, k, v).index
  {
    var last := |c.entries| - 1;
    var d := Delete(c, c.entries[last].0);
    assert c.entries[last].0 in KeySet(c.entries);
    assert d.entries == c.entries[..last] + c.entries[last + 1..];
    assert c.entries[last + 1..] == [];
    assert c.entries[..last] + [] == c.entries[..last];
  }

  /** Adding a fresh key to a cache with room keeps every entry. */
  lemma AddFresh<K, V>(c: Cache<K, V>, k: K, v: V)
    requires Valid(c) && k !in c.index && |c.entries| < c.capacity
    ensures Add(c, k, v).entries == [(k, v)] + c.entries
  {
  }

  /** Putting a fresh key at the head of a cache with a free slot keeps it valid. */
  lemma PrependValid<K, V>(c: Cache<K, V>, k: K, v: V)
    requires Valid(c) && k !in c.index && |c.entries| < c.capacity
    ensures Valid(Cache(c.capacity, [(k, v)] + c.entries, c.index[k := v]))
  {
    var r := Cache(c.capacity, [(k, v)] + c.entries, c.index[k := v]);
    assert forall i :: 0 < i < |r.entries| ==> r.entries[i] == c.entries[i - 1];
    forall i, j | 0 <= i < j < |r.entries| ensures r.entries[i].0 != r.entries[j].0 {
      if i == 0 {
        assert c.entries[j - 1].0 in KeySet(c.entries);
      }
    }
    assert r.entries[0].0 == k;
    forall x | x in KeySet(c.entries) ensures x in KeySet(r.entries) {
      var j :| 0 <= j < |c.entries| && c.entries[j].0 == x;
      assert r.entries[j + 1].0 == x;
    }
    forall x | x in KeySet(r.entries) ensures x in KeySet(c.entries) + {k} {
      var j :| 0 <= j < |r.entries| && r.entries[j].0 == x;
      if j > 0 { assert c.entries[j - 1].0 == x; }
    }
    forall i | 0 <= i < |r.entries| ensures r.entries[i].0 in r.index && r.index[r.entries[i].0] == r.entries[i].1 {
      if i > 0 {
        assert c.entries[i - 1].0 in KeySet(c.entries);
      }
    }
  }

  /** Adds the pairs one after another, oldest first. */
  function AddAll<K(==), V(==)>(c: Cache<K, V>, pairs: seq<(K, V)>): (r: Cache<K, V>)
    requires Valid(c)
    ensures Valid(r) && r.capacity == c.capacity
    decreases |pairs|
  {
    if |pairs| == 0 then c
    else
      var last := pairs[|pairs| - 1];
      Add(AddAll(c, pairs[..|pairs| - 1]), last.0, last.1)
  }

  /** Removes the keys one after another; fails at the first absent key. */
  function RemoveAll<K(==), V(==)>(c: Cache<K, V>, keys: seq<K>): (r: Result<Cache<K, V>, CacheError>)
    requires Valid(c)
    ensures r.Success? ==> Valid(r.value) && r.value.capacity == c.capacity
    decreases |keys|
  {
    if |keys| == 0 then Success(c)
    else
      match Remove(c, keys[0])
      case Failure(e) => Failure(e)
      case Success(d) => RemoveAll(d, keys[1..])
  }
}
