/**
  Node-level model of LRUCache.java. The cache object is a value of
  `Linked`: the hash map from key to node reference, the `head` (newest)
  and `tail` (oldest) references, and a heap holding every node ever
  allocated. A node's `prev` points to the next older node and its `next`
  to the next newer one, as the constructor call in `doAdd` sets them up.
  Allocation hands out `free` and then bumps it, so a new node never
  aliases an old one.

  `Repr(c, refs)` says that `refs` lists the live nodes newest first and
  that the links, the two end pointers and the hash map all agree with
  that list; `Abs` reads the abstract cache of LruSpec off such a list.
 */
module LruLinked {
  import opened Wrappers
  import S = LruSpec

  type Ref = nat

  datatype Node<K, V> = Node(prev: Option<Ref>, next: Option<Ref>, key: K, value: V)

  datatype Linked<K, V> = Linked(
    maxSize: int,
    cache: map<K, Ref>,
    head: Option<Ref>,
    tail: Option<Ref>,
    heap: map<Ref, Node<K, V>>,
    free: Ref)

  /** A reference that is null or points into the heap. */
  predicate InHeap<K, V>(heap: map<Ref, Node<K, V>>, o: Option<Ref>)
  {
    o.None? || o.value in heap
  }

  /** Both links of node `r` are null or point into the heap. */
  predicate LinksIn<K, V>(heap: map<Ref, Node<K, V>>, r: Ref)
    requires r in heap
  {
    InHeap(heap, heap[r].prev) && InHeap(heap, heap[r].next)
  }

  /** No reference held by the cache or by a node dangles, and `free` is
      beyond every allocated node. */
  predicate Closed<K, V>(c: Linked<K, V>)
  {
    && InHeap(c.heap, c.head)
    && InHeap(c.heap, c.tail)
    && (forall k :: k in c.cache ==> c.cache[k] in c.heap)
    && (forall r {:trigger LinksIn(c.heap, r)} :: r in c.heap ==> LinksIn(c.heap, r))
    && (forall r :: r in c.heap ==> r < c.free)
  }

  /** The link a node at position `i` of the newest-first list must hold
      towards older entries. */
  function PrevOf(refs: seq<Ref>, i: int): Option<Ref>
  {
    if 0 <= i && i + 1 < |refs| then Some(refs[i + 1]) else None
  }

  /** The link towards newer entries. */
  function NextOf(refs: seq<Ref>, i: int): Option<Ref>
  {
    if 0 < i <= |refs| then Some(refs[i - 1]) else None
  }

  /** The first element of a list of references, or null. */
  function First(refs: seq<Ref>): Option<Ref>
  {
    if |refs| == 0 then None else Some(refs[0])
  }

  /** The last element of a list of references, or null. */
  function Last(refs: seq<Ref>): Option<Ref>
  {
    if |refs| == 0 then None else Some(refs[|refs| - 1])
  }

  /** `refs` is a doubly-linked chain of heap nodes, each node's links
      pointing at its list neighbours (the nodes are then distinct, see
      `Differ`). */
  ghost predicate Chain<K, V>(heap: map<Ref, Node<K, V>>, refs: seq<Ref>)
  {
    && (forall i :: 0 <= i < |refs| ==> refs[i] in heap)
    && (|refs| > 0 ==> heap[refs[0]].next.None? && heap[refs[|refs| - 1]].prev.None?)
    && (forall i, j :: 0 <= i && j == i + 1 && j < |refs| ==>
          heap[refs[i]].prev == Some(refs[j]) && heap[refs[j]].next == Some(refs[i]))
  }

  /** The links of the node at position `i` of a chain. */
  lemma LinkAt<K, V>(heap: map<Ref, Node<K, V>>, refs: seq<Ref>, i: int)
    requires Chain(heap, refs) && 0 <= i < |refs|
    ensures heap[refs[i]].prev == PrevOf(refs, i) && heap[refs[i]].next == NextOf(refs, i)
  {
    if i + 1 < |refs| { assert heap[refs[i]].prev == Some(refs[i + 1]); }
    if 0 < i { assert heap[refs[i]].next == Some(refs[i - 1]); }
  }

  /** A list whose every node holds the links of its position is a chain. */
  lemma ChainIntro<K, V>(heap: map<Ref, Node<K, V>>, refs: seq<Ref>)
    requires forall i :: 0 <= i < |refs| ==> refs[i] in heap
    requires forall i :: 0 <= i < |refs| ==> heap[refs[i]].prev == PrevOf(refs, i) && heap[refs[i]].next == NextOf(refs, i)
    ensures Chain(heap, refs)
  {
    if |refs| > 0 {
      assert heap[refs[0]].next == NextOf(refs, 0);
      assert heap[refs[|refs| - 1]].prev == PrevOf(refs, |refs| - 1);
    }
    forall i, j | 0 <= i && j == i + 1 && j < |refs|
      ensures heap[refs[i]].prev == Some(refs[j]) && heap[refs[j]].next == Some(refs[i])
    {
      assert heap[refs[i]].prev == PrevOf(refs, i);
      assert heap[refs[j]].next == NextOf(refs, j);
    }
  }

  /** The references in a list. */
  function Members(refs: seq<Ref>): set<Ref>
  {
    set i | 0 <= i < |refs| :: refs[i]
  }

  /** The hash map maps the key of each listed node to that node, and
      maps nothing else. */
  ghost predicate IndexAgrees<K, V>(cache: map<K, Ref>, heap: map<Ref, Node<K, V>>, refs: seq<Ref>)
  {
    && (forall i {:trigger heap[refs[i]]} :: 0 <= i < |refs| ==>
          refs[i] in heap && heap[refs[i]].key in cache && cache[heap[refs[i]].key] == refs[i])
    && (forall k :: k in cache ==> cache[k] in Members(refs) && cache[k] in heap && heap[cache[k]].key == k)
  }

  /** `refs` lists the live nodes of `c` newest first. */
  ghost predicate Repr<K, V>(c: Linked<K, V>, refs: seq<Ref>)
  {
    && Chain(c.heap, refs)
    && c.head == First(refs)
    && c.tail == Last(refs)
    && IndexAgrees(c.cache, c.heap, refs)
  }

  /** The invariant of every reachable cache object. */
  ghost predicate Valid<K, V>(c: Linked<K, V>)
  {
    && Closed(c)
    && 0 < c.maxSize
    && |c.cache| <= c.maxSize
    && exists refs :: Repr(c, refs)
  }

  /** The (key, value) pairs stored along a chain. */
  function Entries<K, V>(heap: map<Ref, Node<K, V>>, refs: seq<Ref>): (e: seq<(K, V)>)
    requires forall i :: 0 <= i < |refs| ==> refs[i] in heap
    ensures |e| == |refs|
    ensures forall i {:trigger e[i]} :: 0 <= i < |refs| ==> e[i] == (heap[refs[i]].key, heap[refs[i]].value)
  {
    seq(|refs|, i requires 0 <= i < |refs| => (heap[refs[i]].key, heap[refs[i]].value))
  }

  /** The hash map read as a map from key to stored value. */
  function Index<K, V>(c: Linked<K, V>): map<K, V>
  {
    map k | k in c.cache && c.cache[k] in c.heap :: c.heap[c.cache[k]].value
  }

  /** The abstract cache a represented cache object stands for. */
  ghost function Abs<K, V>(c: Linked<K, V>, refs: seq<Ref>): S.Cache<K, V>
    requires Repr(c, refs)
  {
    S.Cache(c.maxSize, Entries(c.heap, refs), Index(c))
  }

  /** The list `refs` without position `p`. */
  function Splice<T>(s: seq<T>, p: int): seq<T>
    requires 0 <= p < |s|
  {
    s[..p] + s[p + 1..]
  }

  /** A chain never repeats a node: were positions `i < j` the same node,
      their older neighbours would be the same node too, up to the tail,
      whose `prev` is null while the other's is not. */
  lemma {:induction false} NoRepeat<K, V>(heap: map<Ref, Node<K, V>>, refs: seq<Ref>, i: int, j: int)
    requires Chain(heap, refs) && 0 <= i < j < |refs|
    ensures refs[i] != refs[j]
    decreases |refs| - j
  {
    if refs[i] == refs[j] {
      LinkAt(heap, refs, i);
      LinkAt(heap, refs, j);
      if j + 1 < |refs| {
        NoRepeat(heap, refs, i + 1, j + 1);
      }
    }
  }

  /** Two positions of a chain hold the same node only if they are equal. */
  lemma Differ<K, V>(heap: map<Ref, Node<K, V>>, refs: seq<Ref>, i: int, j: int)
    requires Chain(heap, refs) && 0 <= i < |refs| && 0 <= j < |refs|
    ensures refs[i] == refs[j] <==> i == j
  {
    if i < j { NoRepeat(heap, refs, i, j); }
    if j < i { NoRepeat(heap, refs, j, i); }
  }

  // ---------------------------------------------------------------------
  // Node

  /** `new Node(prev, next, key, value)` allocated at `r`: the node takes
      the given links, and each non-null neighbour is pointed back at it. */
  function NewNode<K, V>(heap: map<Ref, Node<K, V>>, r: Ref, prev: Option<Ref>, next: Option<Ref>, key: K, value: V)
    : (h: map<Ref, Node<K, V>>)
    requires r !in heap && InHeap(heap, prev) && InHeap(heap, next)
    ensures h.Keys == heap.Keys + {r}
    ensures h[r] == Node(prev, next, key, value)
    ensures next.Some? ==> h[next.value].prev == Some(r)
    ensures prev.Some? ==> h[prev.value].next == Some(r)
    ensures forall q :: q in heap ==> h[q].key == heap[q].key && h[q].value == heap[q].value
    ensures forall q :: q in heap && Some(q) != prev && Some(q) != next ==> h[q] == heap[q]
    ensures forall q :: q in heap && Some(q) == prev && Some(q) != next ==> h[q] == heap[q].(next := Some(r))
  {
    var h0 := heap[r := Node(None, None, key, value)];
    var h1 := h0[r := h0[r].(next := next)];
    var h2 := if next.Some? then h1[next.value := h1[next.value].(prev := Some(r))] else h1;
    var h3 := h2[r := h2[r].(prev := prev)];
    if prev.Some? then h3[prev.value := h3[prev.value].(next := Some(r))] else h3
  }

  /** `Node.remove`: the newer neighbour's `prev` and the older
      neighbour's `next` skip over node `r`; `r` itself keeps its links. */
  function Unlink<K, V>(heap: map<Ref, Node<K, V>>, r: Ref): (h: map<Ref, Node<K, V>>)
    requires r in heap && InHeap(heap, heap[r].prev) && InHeap(heap, heap[r].next)
    ensures h.Keys == heap.Keys
    ensures forall q :: q in heap ==> h[q].key == heap[q].key && h[q].value == heap[q].value
  {
    var n := heap[r];
    var h1 := if n.next.Some? then heap[n.next.value := heap[n.next.value].(prev := n.prev)] else heap;
    var m := h1[r];
    if m.prev.Some? then h1[m.prev.value := h1[m.prev.value].(next := m.next)] else h1
  }

  /** When a node is not linked to itself and its two neighbours differ,
      unlinking it changes exactly the two neighbours' facing links. */
  lemma UnlinkEffect<K, V>(heap: map<Ref, Node<K, V>>, r: Ref)
    requires r in heap && InHeap(heap, heap[r].prev) && InHeap(heap, heap[r].next)
    requires heap[r].prev != Some(r) && heap[r].next != Some(r)
    requires heap[r].prev.None? || heap[r].prev != heap[r].next
    ensures heap[r].next.Some? ==>
              Unlink(heap, r)[heap[r].next.value] == heap[heap[r].next.value].(prev := heap[r].prev)
    ensures heap[r].prev.Some? ==>
              Unlink(heap, r)[heap[r].prev.value] == heap[heap[r].prev.value].(next := heap[r].next)
    ensures forall q :: q in heap && Some(q) != heap[r].prev && Some(q) != heap[r].next ==> Unlink(heap, r)[q] == heap[q]
  {
  }

  /** Unlinking position `p` of a chain leaves a chain of the others. */
  lemma UnlinkChain<K, V>(heap: map<Ref, Node<K, V>>, refs: seq<Ref>, p: int)
    requires Chain(heap, refs) && 0 <= p < |refs|
    ensures InHeap(heap, heap[refs[p]].prev) && InHeap(heap, heap[refs[p]].next)
    ensures Chain(Unlink(heap, refs[p]), Splice(refs, p))
  {
    var r := refs[p];
    var n := heap[r];
    LinkAt(heap, refs, p);
    if p > 0 { Differ(heap, refs, p - 1, p); }
    if p + 1 < |refs| { Differ(heap, refs, p + 1, p); }
    if p > 0 && p + 1 < |refs| { Differ(heap, refs, p - 1, p + 1); }
    UnlinkEffect(heap, r);
    var h := Unlink(heap, r);
    var s := Splice(refs, p);
    forall j | 0 <= j < |s|
      ensures s[j] in h && h[s[j]].prev == PrevOf(s, j) && h[s[j]].next == NextOf(s, j)
    {
      var i := if j < p then j else j + 1;
      assert s[j] == refs[i];
      LinkAt(heap, refs, i);
      if i == p - 1 {
        assert h[s[j]] == heap[refs[i]].(prev := n.prev);
      } else if i == p + 1 {
        assert h[s[j]] == heap[refs[i]].(next := n.next);
      } else {
        if p > 0 { Differ(heap, refs, i, p - 1); }
        if p + 1 < |refs| { Differ(heap, refs, i, p + 1); }
        assert h[s[j]] == heap[refs[i]];
      }
    }
    ChainIntro(h, s);
  }

  // ---------------------------------------------------------------------
  // LRUCache

  /** The constructor: refuses a size below one, else an empty cache. */
  function New<K, V>(maxSize: int): (r: Result<Linked<K, V>, S.CacheError>)
    ensures r.Failure? <==> maxSize <= 0
    ensures r.Failure? ==> r.error == S.InvalidCapacity
    ensures r.Success? ==> Valid(r.value) && r.value.maxSize == maxSize
    ensures r.Success? ==> r.value.head.None? && r.value.tail.None? && |r.value.cache| == 0
  {
    if maxSize <= 0 then Failure(S.InvalidCapacity)
    else
      var c := Linked(maxSize, map[], None, None, map[], 0);
      assert Repr(c, []);
      Success(c)
  }

  /** `doRemove`: move `head`/`tail` off the node if it sits at an end,
      unlink it, and drop the key from the hash map. */
  function DoRemove<K, V>(c: Linked<K, V>, key: K): (r: Linked<K, V>)
    requires Closed(c) && key in c.cache
    ensures Closed(r)
    ensures key !in r.cache && |r.cache| == |c.cache| - 1
    ensures forall k :: k in r.cache ==> k in c.cache && r.cache[k] == c.cache[k]
    ensures r.maxSize == c.maxSize && r.free == c.free && r.heap.Keys == c.heap.Keys
    ensures forall q :: q in c.heap ==> r.heap[q].key == c.heap[q].key && r.heap[q].value == c.heap[q].value
  {
    var head := if c.head.Some? && key == c.heap[c.head.value].key then c.heap[c.head.value].prev else c.head;
    var tail := if c.tail.Some? && key == c.heap[c.tail.value].key then c.heap[c.tail.value].next else c.tail;
    assert LinksIn(c.heap, c.cache[key]);
    var heap := Unlink(c.heap, c.cache[key]);
    var r := c.(cache := c.cache - {key}, head := head, tail := tail, heap := heap);
    assert Closed(r) by {
      if c.head.Some? { assert LinksIn(c.heap, c.head.value); }
      if c.tail.Some? { assert LinksIn(c.heap, c.tail.value); }
      UnlinkLinks(c.heap, c.cache[key]);
    }
    r
  }

  /** Unlinking a node of a heap without dangling links leaves none. */
  lemma UnlinkLinks<K, V>(heap: map<Ref, Node<K, V>>, r: Ref)
    requires r in heap && InHeap(heap, heap[r].prev) && InHeap(heap, heap[r].next)
    requires forall q {:trigger LinksIn(heap, q)} :: q in heap ==> LinksIn(heap, q)
    ensures forall q {:trigger LinksIn(Unlink(heap, r), q)} :: q in heap ==> LinksIn(Unlink(heap, r), q)
  {
    var h := Unlink(heap, r);
    var n := heap[r];
    forall q | q in heap ensures LinksIn(h, q) {
      assert LinksIn(heap, q);
      assert h[q].prev == heap[q].prev || h[q].prev == n.prev;
      assert h[q].next == heap[q].next || h[q].next == n.next;
    }
  }

  /** A key is stored at position `p` exactly when the hash map points there. */
  lemma KeyAt<K, V>(c: Linked<K, V>, refs: seq<Ref>, key: K, p: int, i: int)
    requires Repr(c, refs) && key in c.cache
    requires 0 <= p < |refs| && refs[p] == c.cache[key] && 0 <= i < |refs|
    ensures c.heap[refs[i]].key == key <==> i == p
  {
    if c.heap[refs[i]].key == key {
      assert c.cache[c.heap[refs[i]].key] == refs[i];
      Differ(c.heap, refs, i, p);
    }
  }

  /** The ends of a list with position `p` spliced out. */
  lemma SpliceEnds(refs: seq<Ref>, p: int)
    requires 0 <= p < |refs|
    ensures First(Splice(refs, p)) == if p == 0 then PrevOf(refs, 0) else First(refs)
    ensures Last(Splice(refs, p)) == if p == |refs| - 1 then NextOf(refs, p) else Last(refs)
  {
    var s := Splice(refs, p);
    if p > 0 { assert s[0] == refs[0]; } else if |s| > 0 { assert s[0] == refs[1]; }
    if p < |refs| - 1 { assert s[|s| - 1] == refs[|refs| - 1]; } else if |s| > 0 { assert s[|s| - 1] == refs[p - 1]; }
  }

  /** `doRemove` moves `head` and `tail` exactly onto the ends of the
      remaining list. */
  lemma DoRemoveEnds<K, V>(c: Linked<K, V>, refs: seq<Ref>, key: K, p: int)
    requires Closed(c) && Repr(c, refs) && key in c.cache
    requires 0 <= p < |refs| && refs[p] == c.cache[key]
    ensures DoRemove(c, key).head == First(Splice(refs, p))
    ensures DoRemove(c, key).tail == Last(Splice(refs, p))
  {
    DoRemoveHead(c, refs, key, p);
    DoRemoveTail(c, refs, key, p);
    SpliceEnds(refs, p);
  }

  lemma DoRemoveHead<K, V>(c: Linked<K, V>, refs: seq<Ref>, key: K, p: int)
    requires Closed(c) && Repr(c, refs) && key in c.cache
    requires 0 <= p < |refs| && refs[p] == c.cache[key]
    ensures DoRemove(c, key).head == if p == 0 then PrevOf(refs, 0) else First(refs)
  {
    KeyAt(c, refs, key, p, 0);
    LinkAt(c.heap, refs, 0);
  }

  lemma DoRemoveTail<K, V>(c: Linked<K, V>, refs: seq<Ref>, key: K, p: int)
    requires Closed(c) && Repr(c, refs) && key in c.cache
    requires 0 <= p < |refs| && refs[p] == c.cache[key]
    ensures DoRemove(c, key).tail == if p == |refs| - 1 then NextOf(refs, p) else Last(refs)
  {
    KeyAt(c, refs, key, p, |refs| - 1);
    LinkAt(c.heap, refs, |refs| - 1);
  }

  /** Dropping the key of position `p` from the hash map, with the nodes'
      keys untouched, leaves a hash map that agrees with the list without
      `p`. */
  lemma DropIndex<K, V>(cache: map<K, Ref>, heap: map<Ref, Node<K, V>>, refs: seq<Ref>, key: K, p: int,
                        heap': map<Ref, Node<K, V>>)
    requires Chain(heap, refs) && IndexAgrees(cache, heap, refs)
    requires key in cache && 0 <= p < |refs| && refs[p] == cache[key]
    requires heap'.Keys == heap.Keys
    requires forall q :: q in heap ==> heap'[q].key == heap[q].key
    ensures IndexAgrees(cache - {key}, heap', Splice(refs, p))
  {
    var s := Splice(refs, p);
    forall j | 0 <= j < |s| ensures s[j] in heap' && heap'[s[j]].key in cache - {key} && (cache - {key})[heap'[s[j]].key] == s[j] {
      DropIndexAt(cache, heap, refs, key, p, heap', j);
    }
    forall k | k in cache - {key} ensures (cache - {key})[k] in Members(s) && (cache - {key})[k] in heap' && heap'[(cache - {key})[k]].key == k {
      DropIndexKey(cache, heap, refs, key, p, heap', k);
    }
  }

  /** `DropIndex` for one remaining position. */
  lemma DropIndexAt<K, V>(cache: map<K, Ref>, heap: map<Ref, Node<K, V>>, refs: seq<Ref>, key: K, p: int,
                          heap': map<Ref, Node<K, V>>, j: int)
    requires Chain(heap, refs) && IndexAgrees(cache, heap, refs)
    requires key in cache && 0 <= p < |refs| && refs[p] == cache[key]
    requires heap'.Keys == heap.Keys
    requires forall q :: q in heap ==> heap'[q].key == heap[q].key
    requires 0 <= j < |refs| - 1
    ensures Splice(refs, p)[j] in heap'
    ensures heap'[Splice(refs, p)[j]].key in cache - {key}
    ensures (cache - {key})[heap'[Splice(refs, p)[j]].key] == Splice(refs, p)[j]
  {
    var i := if j < p then j else j + 1;
    var q := refs[i];
    assert Splice(refs, p)[j] == q;
    assert heap[q].key in cache && cache[heap[q].key] == q;
    Differ(heap, refs, i, p);
    assert heap'[q].key == heap[q].key;
  }

  /** `DropIndex` for one remaining key. */
  lemma DropIndexKey<K, V>(cache: map<K, Ref>, heap: map<Ref, Node<K, V>>, refs: seq<Ref>, key: K, p: int,
                           heap': map<Ref, Node<K, V>>, k: K)
    requires IndexAgrees(cache, heap, refs)
    requires key in cache && 0 <= p < |refs| && refs[p] == cache[key]
    requires heap'.Keys == heap.Keys
    requires forall q :: q in heap ==> heap'[q].key == heap[q].key
    requires k in cache && k != key
    ensures cache[k] in Members(Splice(refs, p)) && cache[k] in heap' && heap'[cache[k]].key == k
  {
    assert cache[k] in Members(refs);
    var i :| 0 <= i < |refs| && refs[i] == cache[k];
    assert heap[cache[key]].key == key;
    var j := if i < p then i else i - 1;
    assert Splice(refs, p)[j] == refs[i];
  }

  /** The pairs along a chain without position `p`, read in a heap that
      keeps every key and value, are the old pairs without `p`. */
  lemma EntriesSplice<K, V>(heap: map<Ref, Node<K, V>>, refs: seq<Ref>, p: int, heap': map<Ref, Node<K, V>>)
    requires forall i :: 0 <= i < |refs| ==> refs[i] in heap
    requires 0 <= p < |refs| && heap'.Keys == heap.Keys
    requires forall q :: q in heap ==> heap'[q].key == heap[q].key && heap'[q].value == heap[q].value
    ensures forall j :: 0 <= j < |Splice(refs, p)| ==> Splice(refs, p)[j] in heap'
    ensures Entries(heap', Splice(refs, p)) == Splice(Entries(heap, refs), p)
  {
    var s := Splice(refs, p);
    var e := Entries(heap, refs);
    forall j | 0 <= j < |s| ensures s[j] in heap' && Splice(e, p)[j] == (heap'[s[j]].key, heap'[s[j]].value) {
      var i := if j < p then j else j + 1;
      assert s[j] == refs[i];
      assert Splice(e, p)[j] == e[i];
    }
  }

  /** The key/value map of a cache object whose hash map lost `key` while
      every node kept its key and value. */
  lemma IndexWithout<K, V>(c: Linked<K, V>, r: Linked<K, V>, key: K)
    requires Closed(c) && r.cache == c.cache - {key} && r.heap.Keys == c.heap.Keys
    requires forall q :: q in c.heap ==> r.heap[q].key == c.heap[q].key && r.heap[q].value == c.heap[q].value
    ensures Index(r) == Index(c) - {key}
  {
    var m := Index(c) - {key};
    forall k | k in r.cache ensures k in Index(r) && k in m && Index(r)[k] == m[k] {
      assert r.cache[k] == c.cache[k] && c.cache[k] in c.heap;
    }
    assert Index(r).Keys == m.Keys;
  }

  /** Removing the node at position `p` of the live list keeps the cache
      represented by the list without `p`; the pairs and the index lose
      exactly that entry. */
  lemma DoRemoveRepr<K, V>(c: Linked<K, V>, refs: seq<Ref>, key: K, p: int)
    requires Closed(c) && Repr(c, refs) && key in c.cache
    requires 0 <= p < |refs| && refs[p] == c.cache[key]
    ensures Repr(DoRemove(c, key), Splice(refs, p))
    ensures Entries(DoRemove(c, key).heap, Splice(refs, p)) == Splice(Entries(c.heap, refs), p)
    ensures Index(DoRemove(c, key)) == Index(c) - {key}
  {
    var r := DoRemove(c, key);
    UnlinkChain(c.heap, refs, p);
    DoRemoveEnds(c, refs, key, p);
    DropIndex(c.cache, c.heap, refs, key, p, r.heap);
    EntriesSplice(c.heap, refs, p, r.heap);
    IndexWithout(c, r, key);
  }

  /** `doRemove` keeps the invariant. */
  lemma DoRemoveValid<K, V>(c: Linked<K, V>, key: K)
    requires Valid(c) && key in c.cache
    ensures Valid(DoRemove(c, key))
  {
    var refs :| Repr(c, refs);
    assert c.cache[key] in Members(refs);
    var p :| 0 <= p < |refs| && refs[p] == c.cache[key];
    DoRemoveRepr(c, refs, key, p);
  }

  /** `remove`: refuses an absent key, otherwise `doRemove`. */
  function Remove<K, V>(c: Linked<K, V>, key: K): (r: Result<Linked<K, V>, S.CacheError>)
    requires Valid(c)
    ensures r.Failure? <==> key !in c.cache
    ensures r.Failure? ==> r.error == S.KeyNotFound
    ensures r.Success? ==> Valid(r.value) && r.value.maxSize == c.maxSize
    ensures r.Success? ==> key !in r.value.cache && |r.value.cache| == |c.cache| - 1
  {
    if key !in c.cache then Failure(S.KeyNotFound)
    else
      var d := DoRemove(c, key);
      DoRemoveValid(c, key);
      Success(d)
  }

  /** Lines `head = new Node(head, null, key, value)`, `if (tail == null)
      tail = head` and `cache.put(key, head)`: the new node becomes the head. */
  function Push<K, V>(c: Linked<K, V>, key: K, value: V): (r: Linked<K, V>)
    requires Closed(c)
    ensures Closed(r)
    ensures key in r.cache && r.cache[key] in r.heap && r.heap[r.cache[key]].value == value
    ensures r.head == Some(r.cache[key])
  {
    var node := c.free;
    var heap := NewNode(c.heap, node, c.head, None, key, value);
    var tail := if c.tail.None? then Some(node) else c.tail;
    var r := Linked(c.maxSize, c.cache[key := node], Some(node), tail, heap, node + 1);
    assert Closed(r) by {
      forall q | q in heap ensures LinksIn(heap, q) {
        if q in c.heap { assert LinksIn(c.heap, q); }
        if q != node && Some(q) != c.head {
          assert heap[q] == c.heap[q];
        }
      }
    }
    r
  }

  /** A node allocated in front of a chain, linked to the chain's first
      node, extends the chain. */
  lemma PushChain<K, V>(heap: map<Ref, Node<K, V>>, refs: seq<Ref>, node: Ref, key: K, value: V)
    requires Chain(heap, refs) && node !in heap
    ensures InHeap(heap, First(refs))
    ensures Chain(NewNode(heap, node, First(refs), None, key, value), [node] + refs)
  {
    var h := NewNode(heap, node, First(refs), None, key, value);
    var s := [node] + refs;
    forall i | 0 <= i < |s| ensures s[i] in h && h[s[i]].prev == PrevOf(s, i) && h[s[i]].next == NextOf(s, i) {
      if i > 0 {
        var q := refs[i - 1];
        assert s[i] == q;
        LinkAt(heap, refs, i - 1);
        assert PrevOf(s, i) == PrevOf(refs, i - 1);
        if i > 1 {
          Differ(heap, refs, i - 1, 0);
          assert NextOf(s, i) == NextOf(refs, i - 1);
        }
      }
    }
    ChainIntro(h, s);
  }

  /** After a push of a fresh key the hash map agrees with the list that
      has the new node in front. */
  lemma PushIndex<K, V>(c: Linked<K, V>, refs: seq<Ref>, key: K, value: V)
    requires Closed(c) && Repr(c, refs) && key !in c.cache
    ensures IndexAgrees(Push(c, key, value).cache, Push(c, key, value).heap, [c.free] + refs)
  {
    var r := Push(c, key, value);
    var s := [c.free] + refs;
    forall i | 0 <= i < |s| ensures s[i] in r.heap && r.heap[s[i]].key in r.cache && r.cache[r.heap[s[i]].key] == s[i] {
      if i > 0 {
        assert s[i] == refs[i - 1];
        assert c.heap[refs[i - 1]].key in c.cache;
      }
    }
    forall k | k in r.cache ensures r.cache[k] in Members(s) && r.cache[k] in r.heap && r.heap[r.cache[k]].key == k {
      if k == key {
        assert s[0] == c.free;
      } else {
        var i :| 0 <= i < |refs| && refs[i] == c.cache[k];
        assert s[i + 1] == refs[i];
      }
    }
  }

  /** A push puts one pair in front and maps the key to the value. */
  lemma PushContents<K, V>(c: Linked<K, V>, refs: seq<Ref>, key: K, value: V)
    requires Closed(c) && Repr(c, refs) && key !in c.cache
    ensures forall i :: 0 <= i < |refs| ==> refs[i] in Push(c, key, value).heap
    ensures Entries(Push(c, key, value).heap, [c.free] + refs) == [(key, value)] + Entries(c.heap, refs)
  {
    var r := Push(c, key, value);
    var s := [c.free] + refs;
    assert Entries(r.heap, s) == [(key, value)] + Entries(c.heap, refs);
  }

  /** Pushing a fresh key adds exactly that key, with its value, to the index. */
  lemma PushIndexMap<K, V>(c: Linked<K, V>, key: K, value: V)
    requires Closed(c) && key !in c.cache
    ensures Index(Push(c, key, value)) == Index(c)[key := value]
  {
    var r := Push(c, key, value);
    var m := Index(c)[key := value];
    forall k | k in r.cache ensures k in Index(r) && k in m && Index(r)[k] == m[k] {
      if k != key {
        assert r.cache[k] == c.cache[k] && c.cache[k] in c.heap;
      }
    }
    assert Index(r).Keys == m.Keys;
  }

  /** A fresh key pushed onto a represented cache is its new head. */
  lemma PushRepr<K, V>(c: Linked<K, V>, refs: seq<Ref>, key: K, value: V)
    requires Closed(c) && Repr(c, refs) && key !in c.cache
    ensures Repr(Push(c, key, value), [c.free] + refs)
    ensures Entries(Push(c, key, value).heap, [c.free] + refs) == [(key, value)] + Entries(c.heap, refs)
    ensures Index(Push(c, key, value)) == Index(c)[key := value]
  {
    PushChain(c.heap, refs, c.free, key, value);
    PushIndex(c, refs, key, value);
    PushContents(c, refs, key, value);
    PushIndexMap(c, key, value);
    assert Last([c.free] + refs) == if |refs| == 0 then Some(c.free) else Last(refs);
  }

  /** `add`/`doAdd`: drop an existing entry for `key` through `remove`,
      else evict the tail of a full cache through `remove(tail.key)`, then
      put the new node at the head. The checks `add` makes before and after
      hold: the size never exceeds `maxSize`, and `key` maps to `value`. */
  function Add<K, V>(c: Linked<K, V>, key: K, value: V): (r: Linked<K, V>)
    requires Valid(c)
    ensures Valid(r) && r.maxSize == c.maxSize
    ensures key in r.cache && r.heap[r.cache[key]].value == value
    ensures r.head == Some(r.cache[key])
  {
    var c1 := if key in c.cache then Remove(c, key).value else c;
    assert |c1.cache| == c1.maxSize ==> c1.tail.Some? && c1.tail.value in c1.heap && c1.heap[c1.tail.value].key in c1.cache
      by { if |c1.cache| == c1.maxSize { FullTail(c1); } }
    var c2 := if |c1.cache| == c1.maxSize then Remove(c1, c1.heap[c1.tail.value].key).value else c1;
    PushValid(c2, key, value);
    Push(c2, key, value)
  }

  /** A full cache has a tail node whose key is in the hash map. */
  lemma FullTail<K, V>(c: Linked<K, V>)
    requires Valid(c) && |c.cache| == c.maxSize
    ensures c.tail.Some? && c.tail.value in c.heap && c.heap[c.tail.value].key in c.cache
  {
    var refs :| Repr(c, refs);
    var k :| k in c.cache;
    assert c.cache[k] in Members(refs);
  }

  /** Pushing a fresh key onto a cache with room keeps the invariant. */
  lemma PushValid<K, V>(c: Linked<K, V>, key: K, value: V)
    requires Valid(c) && key !in c.cache && |c.cache| < c.maxSize
    ensures Valid(Push(c, key, value))
  {
    var refs :| Repr(c, refs);
    PushRepr(c, refs, key, value);
  }

  /** Along any chain that represents `c`, a key is in the hash map
      exactly when some listed node carries it, and the map points at that
      node. */
  lemma ChainKey<K, V>(c: Linked<K, V>, key: K)
    ensures forall refs :: Repr(c, refs) ==>
              (key in c.cache <==> exists i :: 0 <= i < |refs| && c.heap[refs[i]].key == key)
    ensures forall refs :: Repr(c, refs) && key in c.cache ==>
              exists i :: 0 <= i < |refs| && refs[i] == c.cache[key]
  {
    forall refs | Repr(c, refs) && key in c.cache
      ensures exists i :: 0 <= i < |refs| && refs[i] == c.cache[key]
    {
      assert c.cache[key] in Members(refs);
    }
  }

  /** `contains`/`doContains`: membership in the hash map, which is
      membership of a node carrying the key in the list. */
  function Contains<K, V>(c: Linked<K, V>, key: K): (b: bool)
    requires Valid(c)
    ensures b <==> key in c.cache
    ensures forall refs :: Repr(c, refs) ==>
              (b <==> exists i :: 0 <= i < |refs| && c.heap[refs[i]].key == key)
  {
    ChainKey(c, key);
    key in c.cache
  }

  /** `get`/`doGet`: refuses an absent key, otherwise the value of the node
      the hash map points at. Nothing is relinked. */
  function Get<K, V>(c: Linked<K, V>, key: K): (r: Result<V, S.CacheError>)
    requires Valid(c)
    ensures r.Failure? <==> key !in c.cache
    ensures r.Failure? ==> r.error == S.KeyNotFound
    ensures forall refs :: Repr(c, refs) && r.Success? ==>
              exists i :: 0 <= i < |refs| && c.heap[refs[i]].key == key && c.heap[refs[i]].value == r.value
  {
    ChainKey(c, key);
    if key in c.cache then Success(c.heap[c.cache[key]].value) else Failure(S.KeyNotFound)
  }

  // ---------------------------------------------------------------------
  // Refinement: every operation on the node structure does what the
  // abstract cache of LruSpec does.

  /** A represented cache has as many keys in its hash map as live nodes,
      and its abstract view keeps the abstract invariant. */
  lemma AbsValid<K, V>(c: Linked<K, V>, refs: seq<Ref>)
    requires Closed(c) && 0 < c.maxSize && |c.cache| <= c.maxSize && Repr(c, refs)
    ensures |c.cache| == |refs|
    ensures S.Valid(Abs(c, refs))
  {
    var a := Abs(c, refs);
    AbsDistinct(c, refs);
    AbsKeys(c, refs);
    forall i | 0 <= i < |a.entries| ensures a.entries[i].0 in a.index && a.index[a.entries[i].0] == a.entries[i].1 {
      assert c.cache[c.heap[refs[i]].key] == refs[i];
    }
    S.SizeAgrees(a);
    assert |a.index| == |c.cache| by {
      assert |a.index| == |a.index.Keys|;
    }
  }

  /** `head` is null exactly when `tail` is, which is exactly when the hash
      map is empty. */
  lemma EmptyEnds<K, V>(c: Linked<K, V>)
    requires Valid(c)
    ensures c.head.None? <==> c.tail.None?
    ensures c.head.None? <==> |c.cache| == 0
  {
    var refs :| Repr(c, refs);
    AbsValid(c, refs);
  }

  /** The keys along a represented chain are distinct. */
  lemma AbsDistinct<K, V>(c: Linked<K, V>, refs: seq<Ref>)
    requires Repr(c, refs)
    ensures S.DistinctKeys(Abs(c, refs).entries)
  {
    var e := Abs(c, refs).entries;
    forall i, j | 0 <= i < j < |e| ensures e[i].0 != e[j].0 {
      assert c.cache[e[i].0] == refs[i] && c.cache[e[j].0] == refs[j];
      Differ(c.heap, refs, i, j);
    }
  }

  /** The keys along a represented chain are the hash map's keys. */
  lemma AbsKeys<K, V>(c: Linked<K, V>, refs: seq<Ref>)
    requires Closed(c) && Repr(c, refs)
    ensures Abs(c, refs).index.Keys == S.KeySet(Abs(c, refs).entries) == c.cache.Keys
  {
    var a := Abs(c, refs);
    var e := a.entries;
    forall k | k in a.index ensures k in S.KeySet(e) {
      assert c.cache[k] in Members(refs);
      var i :| 0 <= i < |refs| && refs[i] == c.cache[k];
      assert e[i].0 == k;
    }
    forall k | k in S.KeySet(e) ensures k in a.index {
      var i :| 0 <= i < |e| && e[i].0 == k;
    }
    assert a.index.Keys == c.cache.Keys;
  }

  /** Construction agrees with the abstract constructor. */
  lemma NewRefines<K, V>(maxSize: int)
    ensures New<K, V>(maxSize).Failure? <==> S.New<K, V>(maxSize).Failure?
    ensures New<K, V>(maxSize).Success? ==>
              Repr(New<K, V>(maxSize).value, []) && Abs(New<K, V>(maxSize).value, []) == S.New<K, V>(maxSize).value
  {
  }

  /** `contains` answers as the abstract membership test does. */
  lemma ContainsRefines<K, V>(c: Linked<K, V>, refs: seq<Ref>, key: K)
    requires Valid(c) && Repr(c, refs)
    ensures S.Valid(Abs(c, refs))
    ensures Contains(c, key) == S.Contains(Abs(c, refs), key)
  {
    AbsValid(c, refs);
  }

  /** `get` answers as the abstract lookup does. */
  lemma GetRefines<K, V>(c: Linked<K, V>, refs: seq<Ref>, key: K)
    requires Valid(c) && Repr(c, refs)
    ensures S.Valid(Abs(c, refs))
    ensures Get(c, key) == S.Get(Abs(c, refs), key)
  {
    AbsValid(c, refs);
  }

  /** `doRemove` on the nodes is `Delete` on the abstract cache. */
  lemma DoRemoveRefines<K, V>(c: Linked<K, V>, refs: seq<Ref>, key: K) returns (refs': seq<Ref>)
    requires Valid(c) && Repr(c, refs) && key in c.cache
    ensures S.Valid(Abs(c, refs)) && key in Abs(c, refs).index
    ensures Repr(DoRemove(c, key), refs')
    ensures Abs(DoRemove(c, key), refs') == S.Delete(Abs(c, refs), key)
  {
    AbsValid(c, refs);
    var p :| 0 <= p < |refs| && refs[p] == c.cache[key];
    DoRemoveRepr(c, refs, key, p);
    refs' := Splice(refs, p);
    var a := Abs(c, refs);
    assert a.entries[p].0 == key;
    assert Abs(DoRemove(c, key), refs').entries == S.Delete(a, key).entries;
  }

  /** `remove` on the nodes is `Remove` on the abstract cache. */
  lemma RemoveRefines<K, V>(c: Linked<K, V>, refs: seq<Ref>, key: K) returns (refs': seq<Ref>)
    requires Valid(c) && Repr(c, refs)
    ensures S.Valid(Abs(c, refs))
    ensures Remove(c, key).Failure? <==> S.Remove(Abs(c, refs), key).Failure?
    ensures Remove(c, key).Success? ==>
              Repr(Remove(c, key).value, refs') && Abs(Remove(c, key).value, refs') == S.Remove(Abs(c, refs), key).value
  {
    AbsValid(c, refs);
    refs' := refs;
    if key in c.cache {
      refs' := DoRemoveRefines(c, refs, key);
    }
  }

  /** `add` on the nodes is `Add` on the abstract cache. */
  lemma AddRefines<K, V>(c: Linked<K, V>, refs: seq<Ref>, key: K, value: V) returns (refs': seq<Ref>)
    requires Valid(c) && Repr(c, refs)
    ensures S.Valid(Abs(c, refs))
    ensures Repr(Add(c, key, value), refs')
    ensures Abs(Add(c, key, value), refs') == S.Add(Abs(c, refs), key, value)
  {
    AbsValid(c, refs);
    var a := Abs(c, refs);
    var c1, refs1 := c, refs;
    if key in c.cache {
      c1 := Remove(c, key).value;
      refs1 := DoRemoveRefines(c, refs, key);
    }
    var a1 := if key in a.index then S.Delete(a, key) else a;
    assert Abs(c1, refs1) == a1;
    AbsValid(c1, refs1);
    var c2, refs2 := c1, refs1;
    if |c1.cache| == c1.maxSize {
      c2 := Remove(c1, c1.heap[c1.tail.value].key).value;
      refs2 := EvictRefines(c1, refs1);
    }
    var a2 := if |a1.entries| == a1.capacity then S.Delete(a1, a1.entries[|a1.entries| - 1].0) else a1;
    assert Abs(c2, refs2) == a2;
    PushRepr(c2, refs2, key, value);
    refs' := [c2.free] + refs2;
  }

  /** Evicting the tail of a full cache deletes the abstract list's last key. */
  lemma EvictRefines<K, V>(c: Linked<K, V>, refs: seq<Ref>) returns (refs': seq<Ref>)
    requires Valid(c) && Repr(c, refs) && |c.cache| == c.maxSize
    ensures S.Valid(Abs(c, refs)) && |Abs(c, refs).entries| > 0
    ensures c.tail.Some? && c.tail.value in c.heap && c.heap[c.tail.value].key in c.cache
    ensures Repr(Remove(c, c.heap[c.tail.value].key).value, refs')
    ensures Abs(Remove(c, c.heap[c.tail.value].key).value, refs') ==
            S.Delete(Abs(c, refs), Abs(c, refs).entries[|Abs(c, refs).entries| - 1].0)
  {
    AbsValid(c, refs);
    FullTail(c);
    var a := Abs(c, refs);
    assert c.tail.value == refs[|refs| - 1];
    refs' := DoRemoveRefines(c, refs, c.heap[c.tail.value].key);
  }
}
