/**
  `doRemove` as LRUCache.java writes it compares keys with `==`, which on
  objects is reference equality: `key == head.key` and `key == tail.key`
  (lines 49 and 52). The hash map, by contrast, compares keys with
  `equals`. For `Integer` keys boxed independently, as `cache.add(i, i)`
  and `cache.remove(i)` box them, two equal keys are the same object only
  inside the small-integer cache of `Integer.valueOf`, -128 to 127 on a
  default JVM.
  Outside it, removing the newest or the oldest key leaves `head` or
  `tail` on the unlinked node while the hash map no longer lists it.

  `LruLinked.DoRemove` is the corrected removal (value equality) that the
  rest of the model uses; this module models the code as written for
  `Integer` keys and exhibits the discrepancy.
 */
module LruFindings {
  import opened LruLinked

  /** `a == b` on two `Integer` objects that autoboxing created separately:
      the same object exactly when the values are equal and lie in the
      cache of `Integer.valueOf`. That cache is -128 to 127 on a default
      JVM; `-XX:AutoBoxCacheMax` can raise its upper bound, which this
      predicate does not model. */
  predicate SameBoxed(a: int, b: int)
  {
    a == b && -128 <= a <= 127
  }

  /** `doRemove` as written, for `Integer` keys boxed apart from the stored
      ones: the end pointers move only when the reference test succeeds.
      The hash map and the links change exactly as in the corrected
      removal; inside the small-integer cache the two agree entirely, and
      outside it the end pointers never move. */
  function DoRemoveBoxed<V>(c: Linked<int, V>, key: int): (r: Linked<int, V>)
    requires Closed(c) && key in c.cache
    ensures r.cache == DoRemove(c, key).cache && r.heap == DoRemove(c, key).heap
    ensures r.maxSize == c.maxSize && r.free == c.free
    ensures -128 <= key <= 127 ==> r == DoRemove(c, key)
    ensures !(-128 <= key <= 127) ==> r.head == c.head && r.tail == c.tail
  {
    var head := if c.head.Some? && SameBoxed(key, c.heap[c.head.value].key) then c.heap[c.head.value].prev else c.head;
    var tail := if c.tail.Some? && SameBoxed(key, c.heap[c.tail.value].key) then c.heap[c.tail.value].next else c.tail;
    assert LinksIn(c.heap, c.cache[key]);
    c.(cache := c.cache - {key}, head := head, tail := tail, heap := Unlink(c.heap, c.cache[key]))
  }

  /** The counterexample: in a cache of capacity 1, `add(200, v)` then
      `remove(200)`. As written, the hash map is empty but `head` and
      `tail` still point at the unlinked node, which no valid cache
      allows; the corrected removal leaves a valid, empty cache. */
  lemma StaleEnds<V>(v: V)
    ensures New<int, V>(1).Success?
    ensures var c := Add(New<int, V>(1).value, 200, v);
            && 200 in c.cache && Closed(c)
            && |DoRemoveBoxed(c, 200).cache| == 0
            && DoRemoveBoxed(c, 200).head.Some? && DoRemoveBoxed(c, 200).tail.Some?
            && !Valid(DoRemoveBoxed(c, 200))
            && Valid(DoRemove(c, 200)) && DoRemove(c, 200).head.None? && DoRemove(c, 200).tail.None?
  {
    var c := Add(New<int, V>(1).value, 200, v);
    var refs :| Repr(c, refs);
    AbsValid(c, refs);
    assert |c.cache| == 1;
    assert c.tail.Some?;
    DoRemoveValid(c, 200);
    var r := DoRemoveBoxed(c, 200);
    EmptyEnds(DoRemove(c, 200));
    if Valid(r) {
      EmptyEnds(r);
    }
  }
}
