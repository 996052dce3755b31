/**
  Properties of whole operation sequences on the abstract cache: filling a
  cache keeps only the newest `capacity` keys, and removing every key then
  adding them again restores full membership.
 */
module LruProperties {
  import opened Wrappers
  import opened LruSpec

  /** The list reversed: the last element comes first. */
  function Reverse<T>(s: seq<T>): (r: seq<T>)
    ensures |r| == |s|
  {
    if |s| == 0 then [] else [s[|s| - 1]] + Reverse(s[..|s| - 1])
  }

  /** At most the first `n` elements. */
  function Take<T>(s: seq<T>, n: nat): (r: seq<T>)
    ensures |r| <= n && |r| <= |s| && (|r| == n || |r| == |s|)
    ensures forall j :: 0 <= j < |r| ==> r[j] == s[j]
  {
    if |s| <= n then s else s[..n]
  }

  /** The elements of a sequence, as a set. */
  function Elements<T>(s: seq<T>): set<T>
  {
    set i | 0 <= i < |s| :: s[i]
  }

  /** The keys of a list of pairs, in the same order. */
  function KeysOf<K, V>(pairs: seq<(K, V)>): (keys: seq<K>)
    ensures |keys| == |pairs|
    ensures forall i :: 0 <= i < |pairs| ==> keys[i] == pairs[i].0
  {
    seq(|pairs|, i requires 0 <= i < |pairs| => pairs[i].0)
  }

  lemma ConsAppend<T>(x: T, a: seq<T>, b: seq<T>)
    ensures [x] + a + b == [x] + (a + b)
  {
  }

  lemma {:induction false} ReverseIndex<T>(s: seq<T>)
    ensures forall i :: 0 <= i < |s| ==> Reverse(s)[i] == s[|s| - 1 - i]
  {
    if |s| > 0 {
      ReverseIndex(s[..|s| - 1]);
    }
  }

  /** One step of filling: a new key goes in front of a truncated list. */
  lemma AddFreshStep<K, V>(c: Cache<K, V>, k: K, v: V, all: seq<(K, V)>)
    requires Valid(c) && c.entries == Take(all, c.capacity)
    requires forall j :: 0 <= j < |all| ==> all[j].0 != k
    ensures Add(c, k, v).entries == Take([(k, v)] + all, c.capacity)
  {
    assert k !in c.index;
    if |c.entries| == c.capacity {
      AddEvicting(c, k, v);
      assert c.entries == all[..c.capacity];
    } else {
      AddFresh(c, k, v);
    }
  }

  /** The last key of a distinct, all-new list occurs neither earlier in the
      list nor in the cache. */
  lemma NewestIsFresh<K, V>(c: Cache<K, V>, pairs: seq<(K, V)>, all: seq<(K, V)>)
    requires Valid(c) && DistinctKeys(pairs) && |pairs| > 0
    requires forall i :: 0 <= i < |pairs| ==> pairs[i].0 !in c.index
    requires all == Reverse(pairs[..|pairs| - 1]) + c.entries
    ensures forall j :: 0 <= j < |all| ==> all[j].0 != pairs[|pairs| - 1].0
  {
    var front := pairs[..|pairs| - 1];
    var k := pairs[|pairs| - 1].0;
    ReverseIndex(front);
    forall j | 0 <= j < |front| ensures Reverse(front)[j].0 != k {
      assert Reverse(front)[j] == pairs[|pairs| - 2 - j];
    }
    forall j | 0 <= j < |c.entries| ensures c.entries[j].0 != k {
      assert c.entries[j].0 in c.index;
    }
  }

  /** Adding keys that are all new prepends them, newest first, and the
      cache keeps only its `capacity` newest entries: the tail is what goes. */
  lemma {:induction false} AddFreshKeys<K, V>(c: Cache<K, V>, pairs: seq<(K, V)>)
    requires Valid(c) && DistinctKeys(pairs)
    requires forall i :: 0 <= i < |pairs| ==> pairs[i].0 !in c.index
    ensures AddAll(c, pairs).entries == Take(Reverse(pairs) + c.entries, c.capacity)
  {
    if |pairs| > 0 {
      var n := |pairs|;
      var front := pairs[..n - 1];
      var p := pairs[n - 1];
      assert DistinctKeys(front);
      AddFreshKeys(c, front);
      var all := Reverse(front) + c.entries;
      NewestIsFresh(c, pairs, all);
      var c' := AddAll(c, front);
      assert AddAll(c, pairs) == Add(c', p.0, p.1);
      AddFreshStep(c', p.0, p.1, all);
      assert Reverse(pairs) == [p] + Reverse(front);
      ConsAppend(p, Reverse(front), c.entries);
    }
  }

  /** Filling an empty cache with distinct keys keeps exactly the last
      `capacity` of them, each with the value it was added with. */
  lemma FillEmpty<K, V>(c: Cache<K, V>, pairs: seq<(K, V)>)
    requires Valid(c) && |c.entries| == 0 && DistinctKeys(pairs)
    ensures forall i :: 0 <= i < |pairs| ==> (pairs[i].0 in AddAll(c, pairs).index <==> |pairs| - c.capacity <= i)
    ensures forall i :: 0 <= i < |pairs| && |pairs| - c.capacity <= i ==> AddAll(c, pairs).index[pairs[i].0] == pairs[i].1
    ensures forall x :: x in AddAll(c, pairs).index ==> x in Elements(KeysOf(pairs))
  {
    SizeAgrees(c);
    AddFreshKeys(c, pairs);
    assert Reverse(pairs) + c.entries == Reverse(pairs);
    TakeReverse(pairs, c.capacity);
    NewestMembers(AddAll(c, pairs), pairs);
    NewestKeysFromPairs(AddAll(c, pairs), pairs);
  }

  /** Inserting distinct keys into an empty cache of capacity `n` leaves
      exactly the last `n` of them, each with the value it was added with. */
  lemma OnlyNewestSurvive<K, V>(n: int, pairs: seq<(K, V)>)
    requires 0 < n && DistinctKeys(pairs)
    ensures forall i :: 0 <= i < |pairs| ==> (pairs[i].0 in AddAll(Empty(n), pairs).index <==> |pairs| - n <= i)
    ensures forall i :: 0 <= i < |pairs| && |pairs| - n <= i ==> AddAll(Empty(n), pairs).index[pairs[i].0] == pairs[i].1
  {
    FillEmpty(Empty<K, V>(n), pairs);
  }

  /** `entries` lists the newest `n` of `pairs`, newest first. */
  predicate HoldsNewest<T(==)>(entries: seq<T>, pairs: seq<T>, n: int)
  {
    && |entries| == (if |pairs| <= n then |pairs| else n)
    && forall j :: 0 <= j < |entries| ==> entries[j] == pairs[|pairs| - 1 - j]
  }

  /** The newest `n` of `pairs`, newest first, are a prefix of the reversal. */
  lemma TakeReverse<T>(pairs: seq<T>, n: nat)
    ensures HoldsNewest(Take(Reverse(pairs), n), pairs, n)
  {
    ReverseIndex(pairs);
  }

  lemma NewestKeysFromPairs<K, V>(c: Cache<K, V>, pairs: seq<(K, V)>)
    requires Consistent(c) && HoldsNewest(c.entries, pairs, c.capacity)
    ensures forall x :: x in c.index ==> x in Elements(KeysOf(pairs))
  {
    var keys := KeysOf(pairs);
    forall x | x in c.index ensures x in Elements(keys) {
      assert x in KeySet(c.entries);
      var j :| 0 <= j < |c.entries| && c.entries[j].0 == x;
      var i := |pairs| - 1 - j;
      assert c.entries[j] == pairs[i];
      assert keys[i] == x;
    }
  }

  /** A pair among the newest `capacity` is in the cache with its value. */
  lemma NewerPresent<K, V>(c: Cache<K, V>, pairs: seq<(K, V)>, i: int)
    requires Consistent(c) && HoldsNewest(c.entries, pairs, c.capacity)
    requires 0 <= i < |pairs| && |pairs| - c.capacity <= i
    ensures pairs[i].0 in c.index && c.index[pairs[i].0] == pairs[i].1
  {
    var j := |pairs| - 1 - i;
    assert c.entries[j] == pairs[i];
  }

  /** A pair older than the newest `capacity` is not in the cache. */
  lemma OlderAbsent<K, V>(c: Cache<K, V>, pairs: seq<(K, V)>, i: int)
    requires Consistent(c) && DistinctKeys(pairs) && HoldsNewest(c.entries, pairs, c.capacity)
    requires 0 <= i < |pairs| - c.capacity
    ensures pairs[i].0 !in c.index
  {
    forall j | 0 <= j < |c.entries| ensures c.entries[j].0 != pairs[i].0 {
      assert c.entries[j] == pairs[|pairs| - 1 - j];
    }
  }

  /** A consistent cache holding the newest `capacity` of a distinct list of
      pairs holds exactly the keys from the end of that list. */
  lemma NewestMembers<K, V>(c: Cache<K, V>, pairs: seq<(K, V)>)
    requires Consistent(c) && DistinctKeys(pairs) && HoldsNewest(c.entries, pairs, c.capacity)
    ensures forall i :: 0 <= i < |pairs| ==> (pairs[i].0 in c.index <==> |pairs| - c.capacity <= i)
    ensures forall i :: 0 <= i < |pairs| && |pairs| - c.capacity <= i ==> c.index[pairs[i].0] == pairs[i].1
  {
    forall i | 0 <= i < |pairs|
      ensures pairs[i].0 in c.index <==> |pairs| - c.capacity <= i
      ensures |pairs| - c.capacity <= i ==> c.index[pairs[i].0] == pairs[i].1
    {
      if |pairs| - c.capacity <= i {
        NewerPresent(c, pairs, i);
      } else {
        OlderAbsent(c, pairs, i);
      }
    }
  }

  /** Removing distinct present keys one by one succeeds and drops exactly them. */
  lemma {:induction false} RemovePresentKeys<K, V>(c: Cache<K, V>, keys: seq<K>)
    requires Valid(c)
    requires forall i, j :: 0 <= i < j < |keys| ==> keys[i] != keys[j]
    requires forall i :: 0 <= i < |keys| ==> keys[i] in c.index
    ensures RemoveAll(c, keys).Success?
    ensures RemoveAll(c, keys).value.index.Keys == c.index.Keys - Elements(keys)
    decreases |keys|
  {
    if |keys| > 0 {
      var d := Remove(c, keys[0]).value;
      var rest := keys[1..];
      assert d.index.Keys == c.index.Keys - {keys[0]};
      forall i | 0 <= i < |rest| ensures rest[i] in d.index {
        assert rest[i] == keys[i + 1] != keys[0];
      }
      forall i, j | 0 <= i < j < |rest| ensures rest[i] != rest[j] {
        assert rest[i] == keys[i + 1] && rest[j] == keys[j + 1];
      }
      RemovePresentKeys(d, rest);
      assert RemoveAll(c, keys) == RemoveAll(d, rest);
      ElementsCons(keys);
    }
  }

  /** Successful removals keep every surviving key's value. */
  lemma {:induction false} RemoveAllKeepsValues<K, V>(c: Cache<K, V>, keys: seq<K>)
    requires Valid(c) && RemoveAll(c, keys).Success?
    ensures forall k :: k in RemoveAll(c, keys).value.index ==>
              k in c.index && RemoveAll(c, keys).value.index[k] == c.index[k]
    decreases |keys|
  {
    if |keys| > 0 {
      var d := Remove(c, keys[0]).value;
      assert RemoveAll(c, keys) == RemoveAll(d, keys[1..]);
      RemoveAllKeepsValues(d, keys[1..]);
    }
  }

  /** Removing distinct present keys in order: before the `j`-th removal
      its key is still there with its original value, right after it the
      key is gone. */
  lemma RemoveInOrder<K, V>(c: Cache<K, V>, keys: seq<K>, j: int)
    requires Valid(c)
    requires forall i, j :: 0 <= i < j < |keys| ==> keys[i] != keys[j]
    requires forall i :: 0 <= i < |keys| ==> keys[i] in c.index
    requires 0 <= j < |keys|
    ensures RemoveAll(c, keys[..j]).Success?
    ensures keys[j] in RemoveAll(c, keys[..j]).value.index
    ensures RemoveAll(c, keys[..j]).value.index[keys[j]] == c.index[keys[j]]
    ensures RemoveAll(c, keys[..j + 1]).Success?
    ensures keys[j] !in RemoveAll(c, keys[..j + 1]).value.index
  {
    PrefixKeys(c, keys, j);
    PrefixKeys(c, keys, j + 1);
    RemovePresentKeys(c, keys[..j]);
    RemovePresentKeys(c, keys[..j + 1]);
    assert keys[..j + 1][j] == keys[j];
    RemoveAllKeepsValues(c, keys[..j]);
  }

  /** Removing distinct present keys one by one drops exactly them and
      keeps every other key's value. */
  lemma RemoveKeysExactly<K, V>(c: Cache<K, V>, keys: seq<K>)
    requires Valid(c)
    requires forall i, j :: 0 <= i < j < |keys| ==> keys[i] != keys[j]
    requires forall i :: 0 <= i < |keys| ==> keys[i] in c.index
    ensures RemoveAll(c, keys).Success?
    ensures forall k :: k in Elements(keys) ==> k !in RemoveAll(c, keys).value.index
    ensures forall k :: k in c.index && k !in Elements(keys) ==>
              k in RemoveAll(c, keys).value.index && RemoveAll(c, keys).value.index[k] == c.index[k]
  {
    RemovePresentKeys(c, keys);
    RemoveAllKeepsValues(c, keys);
  }

  /** A prefix of distinct present keys is again distinct and present. */
  lemma PrefixKeys<K, V>(c: Cache<K, V>, keys: seq<K>, m: int)
    requires forall i, j :: 0 <= i < j < |keys| ==> keys[i] != keys[j]
    requires forall i :: 0 <= i < |keys| ==> keys[i] in c.index
    requires 0 <= m <= |keys|
    ensures forall i, j :: 0 <= i < j < m ==> keys[..m][i] != keys[..m][j]
    ensures forall i :: 0 <= i < m ==> keys[..m][i] in c.index
  {
  }

  lemma ElementsCons<T>(s: seq<T>)
    requires |s| > 0
    ensures Elements(s) == {s[0]} + Elements(s[1..])
  {
    forall x | x in Elements(s) ensures x in {s[0]} + Elements(s[1..]) {
      var j :| 0 <= j < |s| && s[j] == x;
      if j > 0 { assert s[1..][j - 1] == x; }
    }
  }

  /** Filling a cache, removing every key, and adding them all again leaves
      every key present with its value. */
  lemma ClearAndRefill<K, V>(n: int, pairs: seq<(K, V)>)
    requires 0 < n && |pairs| <= n && DistinctKeys(pairs)
    ensures RemoveAll(AddAll(Empty(n), pairs), KeysOf(pairs)).Success?
    ensures var cleared := RemoveAll(AddAll(Empty(n), pairs), KeysOf(pairs)).value;
            && |cleared.entries| == 0
            && (forall i :: 0 <= i < |pairs| ==> pairs[i].0 !in cleared.index)
            && (forall i :: 0 <= i < |pairs| ==>
                  pairs[i].0 in AddAll(cleared, pairs).index && AddAll(cleared, pairs).index[pairs[i].0] == pairs[i].1)
  {
    var full := AddAll(Empty<K, V>(n), pairs);
    var keys := KeysOf(pairs);
    FillEmpty(Empty<K, V>(n), pairs);
    forall i, j | 0 <= i < j < |keys| ensures keys[i] != keys[j] {
      assert keys[i] == pairs[i].0 && keys[j] == pairs[j].0;
    }
    RemovePresentKeys(full, keys);
    var cleared := RemoveAll(full, keys).value;
    assert cleared.index.Keys == {};
    SizeAgrees(cleared);
    FillEmpty(cleared, pairs);
  }
}
