# LRU cache — a Dafny model

This project models `LRUCache<K, V>`, a fixed-capacity key/value cache.
The cache keeps its entries in a doubly linked list of `Node`s ordered by
recency, together with a `HashMap` from each key to its node.

- `add` drops any existing entry for the key. If the cache is then full, it
  evicts the least recently added entry, the list's `tail`. It then pushes
  the new node at `head`.
- `remove` unlinks a key's node and forgets the key.
- `contains` and `get` only consult the hash map.

`get` does **not** move the key to the front. Recency is recency of `add`
only. A description of the cache as "least recently used" would suggest
otherwise, but the code never touches the list in `get`. The model follows
the code, and `LruScenarios.GetDoesNotPromote` proves the consequence: after
`get(k1)`, a full cache still evicts `k1` first.

The model has two layers and a refinement between them:

- `LruSpec` is the abstract cache: a capacity, the entries newest-first as
  a sequence of pairs, and the key-to-value map. Each operation is a pure
  function whose contract states the LRU behaviour: what is evicted, what
  moves to the front, and what stays.
- `LruLinked` mirrors the Java class field by field:
  - the hash map becomes `cache: map<K, Ref>`;
  - the nodes live in a heap `map<Ref, Node>`, with `prev` pointing at the
    older neighbour and `next` at the newer one, as in the code;
  - `head` and `tail` are optional references;
  - `free` is the next unused reference, standing for `new`.

  `Valid` is the class invariant:
  - the nodes reachable from `tail` to `head` form a well-linked chain;
  - the hash map's domain is exactly that chain's keys, with no key twice;
  - `head` is null exactly when `tail` is, and exactly when the map is empty;
  - the size never exceeds `maxSize`.

  The refinement lemmas (`…Refines`) prove that each node-level operation
  computes exactly the abstract operation on the list the chain spells out.
- `LruProperties` proves properties of sequences of operations on the
  abstract cache.
- `LruScenarios` restates each unit test of `LRUTest.java` as a lemma about
  the node-level cache, with the test's literals generalised to parameters
  wherever the test does not depend on them.
- `LruFindings` models the key comparison in `doRemove` as written (see
  Findings).
- `Wrappers` holds `Option` and `Result`.

The Java `assert`s in the public methods become `Result` failures:
- `InvalidCapacity` for `maxSize <= 0`;
- `KeyNotFound` for `remove` and `get` of an absent key.

The `cache.size() <= maxSize` assertions are part of `Valid`, which every
operation is proved to preserve.

## Model

| member | source | states |
|---|---|---|
| LruSpec.New | src/main/java/LRUCache.java:9-15 | a cache is refused with `InvalidCapacity` exactly when the capacity is not positive; otherwise it is valid and empty with that capacity |
| LruSpec.Contains | src/main/java/LRUCache.java:33-38 | true exactly when some entry of the recency list carries the key |
| LruSpec.Get | src/main/java/LRUCache.java:40-46 | fails with `KeyNotFound` exactly when the key is absent; otherwise returns the value paired with the key in the recency list |
| LruSpec.Delete | src/main/java/LRUCache.java:48-57 | removing a present key takes exactly its entry out of the list, keeps the others in order with their values, and shrinks the size by one |
| LruSpec.Remove | src/main/java/LRUCache.java:17-24 | fails exactly when the key is absent; otherwise the key is gone, the size drops by one, and the cache stays valid |
| LruSpec.Add | src/main/java/LRUCache.java:26-31 | afterwards the key maps to the new value and heads the list; every other key present was present before with the same value |
| LruSpec.AddExisting | src/main/java/LRUCache.java:59-62 | re-adding a present key moves it to the front with the new value; the others keep their order and the size is unchanged |
| LruSpec.AddEvicting | src/main/java/LRUCache.java:63-65 | adding a fresh key to a full cache evicts exactly the oldest entry |
| LruSpec.AddFresh | src/main/java/LRUCache.java:66-70 | adding a fresh key with room to spare keeps every entry and prepends the new one |
| LruLinked.NewNode | src/main/java/LRUCache.java:90-101 | the new node gets the given links, key and value; its `next` neighbour's `prev` and its `prev` neighbour's `next` now point at it; every other node is unchanged |
| LruLinked.Unlink | src/main/java/LRUCache.java:103-110 | unlinking keeps every node's key and value |
| LruLinked.UnlinkEffect | src/main/java/LRUCache.java:103-110 | unlinking a node redirects its newer neighbour's `prev` and its older neighbour's `next` past it and changes no other node |
| LruLinked.UnlinkChain | src/main/java/LRUCache.java:103-110 | unlinking the node at any position of a well-linked chain leaves a well-linked chain of the others |
| LruLinked.New | src/main/java/LRUCache.java:9-15 | refused exactly when `maxSize <= 0`; otherwise valid, with null `head` and `tail` and an empty map |
| LruLinked.DoRemove | src/main/java/LRUCache.java:48-57 | the key leaves the map, the size drops by one, every other mapping and every node's key and value are unchanged |
| LruLinked.DoRemoveEnds | src/main/java/LRUCache.java:49-54 | `head` and `tail` move exactly onto the ends of the list with the removed node spliced out |
| LruLinked.DoRemoveRepr | src/main/java/LRUCache.java:48-57 | the result is the chain with the removed position spliced out; its entries are the old entries without that position, and its index loses exactly the key |
| LruLinked.DoRemoveValid | src/main/java/LRUCache.java:48-57 | removing a present key preserves the class invariant |
| LruLinked.Remove | src/main/java/LRUCache.java:17-24 | fails exactly when the key is absent; otherwise valid, the key is gone and the size drops by one, as the method's asserts demand |
| LruLinked.Push | src/main/java/LRUCache.java:66-70 | the pushed key maps to a node carrying the value, and that node becomes `head` |
| LruLinked.PushRepr | src/main/java/LRUCache.java:66-70 | pushing a fresh key puts exactly one pair at the front of the list and adds exactly that key to the index |
| LruLinked.PushValid | src/main/java/LRUCache.java:66-70 | pushing a fresh key onto a cache with room preserves the class invariant, including setting `tail` when the cache was empty |
| LruLinked.FullTail | src/main/java/LRUCache.java:63-64 | a full cache has a non-null `tail` whose key is in the map, so the eviction's `remove(tail.key)` is legal |
| LruLinked.Add | src/main/java/LRUCache.java:26-31 | the cache stays valid, the key maps to a node holding the value, and that node is `head` |
| LruLinked.ChainKey | src/main/java/LRUCache.java:5 | along any chain that represents the cache, a key is in the hash map exactly when a listed node carries it, and the map points at that node |
| LruLinked.Contains | src/main/java/LRUCache.java:73-75 | true exactly when some node of the list the chain spells carries the key |
| LruLinked.Get | src/main/java/LRUCache.java:77-83 | fails with `KeyNotFound` exactly when the key is absent; otherwise returns the value of a listed node carrying the key |
| LruLinked.AbsValid | src/main/java/LRUCache.java:4-7 | the map's size equals the chain's length, and the chain read as a list is a valid abstract cache |
| LruLinked.EmptyEnds | src/main/java/LRUCache.java:6-7 | in a valid cache `head` is null exactly when `tail` is, and exactly when the map is empty |
| LruLinked.AbsDistinct | src/main/java/LRUCache.java:5 | no key appears twice in the chain |
| LruLinked.AbsKeys | src/main/java/LRUCache.java:5 | the map's keys are exactly the chain's keys |
| LruLinked.NewRefines | src/main/java/LRUCache.java:9-15 | the node-level constructor fails exactly when the abstract one does, and otherwise builds the empty abstract cache |
| LruLinked.ContainsRefines | src/main/java/LRUCache.java:33-38 | node-level `contains` equals abstract `Contains` on the list the chain spells |
| LruLinked.GetRefines | src/main/java/LRUCache.java:40-46 | node-level `get` equals abstract `Get`, failures included |
| LruLinked.DoRemoveRefines | src/main/java/LRUCache.java:48-57 | `doRemove` on the nodes is abstract `Delete` on the list |
| LruLinked.RemoveRefines | src/main/java/LRUCache.java:17-24 | `remove` fails exactly when the abstract one does, and otherwise computes the abstract result |
| LruLinked.AddRefines | src/main/java/LRUCache.java:59-71 | `add` on the nodes computes abstract `Add` on the list: re-add, eviction and push included |
| LruLinked.EvictRefines | src/main/java/LRUCache.java:63-64 | on a full cache, removing `tail.key` drops exactly the last entry of the abstract list |
| LruProperties.AddFreshKeys | src/main/java/LRUCache.java:59-71 | adding distinct fresh pairs leaves exactly the first `capacity` entries of the pairs, newest first, followed by the old list |
| LruProperties.FillEmpty | src/main/java/LRUCache.java:63-70 | from an empty cache, pair `i` of distinct pairs survives exactly when it is among the last `capacity` added, with its own value |
| LruProperties.OnlyNewestSurvive | src/main/java/LRUCache.java:63-70 | adding distinct pairs to an empty cache of capacity `n` keeps exactly the last `n`, each with its value |
| LruProperties.RemovePresentKeys | src/main/java/LRUCache.java:17-24 | removing distinct present keys one by one succeeds and removes exactly those keys |
| LruProperties.RemoveAllKeepsValues | src/main/java/LRUCache.java:48-57 | removals never change the value of a key that stays |
| LruProperties.RemoveInOrder | src/main/java/LRUCache.java:17-24 | while removing distinct present keys, each key is still present with its value just before its own removal and absent just after it |
| LruProperties.RemoveKeysExactly | src/main/java/LRUCache.java:17-24 | removing distinct present keys leaves every other key with its old value and none of the removed ones |
| LruProperties.ClearAndRefill | src/test/java/LRUTest.java:164-182 | removing every added key empties the cache; adding the same pairs again restores each key with its value |
| LruScenarios.CacheSizeIsMoreThanZero | src/test/java/LRUTest.java:9-20 | capacities 0 and -5 are refused; capacity 5 gives an empty cache |
| LruScenarios.SimpleAdd | src/test/java/LRUTest.java:22-37 | after one add, that key is present and removable, while any other key is absent and neither gettable nor removable |
| LruScenarios.SimpleOverflow | src/test/java/LRUTest.java:39-54 | with capacity one, the second key evicts the first; removing the second then leaves neither |
| LruScenarios.SpecOverflow | src/test/java/LRUTest.java:39-54 | with capacity one, the abstract list after two adds is just the second pair |
| LruScenarios.SimpleEmptyGet | src/test/java/LRUTest.java:56-66 | a new cache holds nothing: `contains` is false, and `get` and `remove` fail |
| LruScenarios.SimpleDoubleRemove | src/test/java/LRUTest.java:68-79 | the first removal of an added key succeeds and the second fails |
| LruScenarios.SimpleGoodValues | src/test/java/LRUTest.java:81-91 | `get` returns the stored values, and capacity one keeps only the newer key |
| LruScenarios.SpecLogic | src/test/java/LRUTest.java:93-135 | the exact abstract list after each step of the capacity-two walk-through |
| LruScenarios.LogicOpening | src/test/java/LRUTest.java:96-112 | after the first add the key is found with its value and another key is refused by `get` and `remove`; after the second add that key is found with its value and can be removed |
| LruScenarios.SimpleLogic | src/test/java/LRUTest.java:93-135 | every assertion of the walk-through: the first key is found and a missing key refused, the second key is found and removed, the oldest key is then evicted, and re-adding a key saves it so that the other is evicted next |
| LruScenarios.GetDoesNotPromote | src/main/java/LRUCache.java:77-83 | a `get` of the older key does not save it from the next eviction |
| LruScenarios.AddEachRefines | src/test/java/LRUTest.java:140-142 | the node-level loop of adds computes abstract `AddAll` |
| LruScenarios.RemoveEachRefines | src/test/java/LRUTest.java:170-172 | the node-level loop of removes fails exactly when abstract `RemoveAll` does, and otherwise computes it |
| LruScenarios.SpecCacheSize | src/test/java/LRUTest.java:150-162 | after adding `(i, i)` for `i < 2n` at capacity `n`, key `i` is present exactly when `n <= i`, with value `i` |
| LruScenarios.CacheSize | src/test/java/LRUTest.java:150-162 | the same on the nodes: keys below `n` are gone, and keys from `n` to `2n-1` are present with their values |
| LruScenarios.SpecClearAndUpdate | src/test/java/LRUTest.java:164-182 | abstractly, clearing a full cache key by key removes every key, and refilling restores each one |
| LruScenarios.ClearAndUpdate | src/test/java/LRUTest.java:164-182 | the same on the nodes |
| LruScenarios.SpecDrain | src/test/java/LRUTest.java:137-148 | abstractly, after removing the top `m` keys newest first, the keys below `n - m` remain with their values and the rest are gone |
| LruScenarios.AddAndRemove | src/test/java/LRUTest.java:137-148 | filling a cache of capacity `n` with `(i, i)`, then getting and removing `i` from `n-1` down to `0`, reads `n-1, …, 0` and ends empty |
| LruScenarios.DrainDown | src/test/java/LRUTest.java:143-147 | the removal loop from any cache holding `(k, k)` for `k < m` reads exactly `m-1, …, 0` and leaves a valid, empty cache |
| LruScenarios.DropTop | src/test/java/LRUTest.java:145-146 | removing the top key `m-1` leaves a cache that lacks it and still holds `(k, k)` for each `k < m-1` |
| LruFindings.DoRemoveBoxed | src/main/java/LRUCache.java:48-57 | `doRemove` with `Integer` reference comparison: it agrees with `DoRemove` inside the small-integer cache, and outside it never moves `head` or `tail` |
| LruFindings.StaleEnds | src/main/java/LRUCache.java:49-54 | capacity one, `add(200, v)`, `remove(200)`: as written, the map is empty but `head` and `tail` still point at the unlinked node, which violates the invariant; the corrected removal leaves a valid empty cache |

## Left out

- Java `assert` and the `-ea` switch: the asserts are modelled as `Result` failures, or as the proved invariant `Valid`. A run without `-ea` would skip those checks.
- The assertion `cache.get(key).value == value` in `add` (line 30) compares references. The model proves value equality of the stored value, which is the same object the caller passed.
- `HashMap` hashing and its O(1) cost: the hash map is a Dafny `map`.
- `doGet`'s `null` for an absent key (line 81): `get` asserts the key's presence first, so the model returns `KeyNotFound` instead.
- The public `doAdd`, `doContains` and `doGet`, which skip the public methods' asserts. They are modelled through `Add`, `Contains` and `Get`, which require `Valid`; `Valid` holds for every cache the constructor and the operations produce.
- `maxSize` is a Java `int`; the model uses unbounded integers. No operation does arithmetic on it beyond comparison.
- Test literals are generalised to parameters, and `ELEMENTS_COUNT` (1000) is the parameter `n`. JUnit's `assertThrows` is modelled by the `Failure` result.
- Garbage collection and the removed node's own stale `prev`/`next` fields: a removed node stays in the heap map but is unreachable from `head`, `tail` and the hash map.
- LruLinked.Unlink: its own contract states only that keys and values are kept; `LruLinked.UnlinkEffect` and `LruLinked.UnlinkChain` state how the links change.
- The `Integer` cache bound: `LruFindings` fixes it at -128..127, the default; a JVM started with `-XX:AutoBoxCacheMax` keeps a larger range, and there the counterexample needs a larger key.
- Key equality: the main model compares keys by value, as the hash map does. `doRemove`'s `==` on objects is covered only for `Integer` keys, in `LruFindings` (see Findings).

## Findings

| source | as written | input that shows it | evidently intended | confidence | as-written member | corrected member |
|---|---|---|---|---|---|---|
| src/main/java/LRUCache.java:49-54 | `doRemove` tests `key == head.key` and `key == tail.key`, which compare object references, while the hash map finds the key by `equals` | capacity 1, `add(200, v)`, then `remove(200)` with each `Integer` boxed separately, on a default JVM whose `Integer` cache ends at 127: the map ends empty but `head` and `tail` still point at the removed node (the model stops there; a later eviction would call `remove(tail.key)` on a key the map lacks) | compare keys with `equals`, as the hash map does, so that `head` and `tail` follow the removal | not executed; follows from Java's `==` on boxed `Integer` outside the `Integer` cache, which is -128..127 unless `-XX:AutoBoxCacheMax` raises its upper bound | LruFindings.StaleEnds | LruLinked.DoRemoveValid |
