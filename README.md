# LRU cache (`lrucache.py`) in Dafny

The model covers the fixed-capacity LRU cache `LRUCache`. The cache has two parts:

- a dictionary `hash` from an `int` key to a list node;
- a doubly-linked recency list between the sentinels `head` and `tail`.

`head.next` is the most recently used entry and `tail.prev` the least recently used one.

The project has two modules:

- `LruSpec` (`lru_spec.dfy`) is the abstract view. The live entries form a sequence of `(key, value)` pairs, most recently used first. `get`, `put` and the helpers `add` and `delete` are functions on that sequence, and the properties the cache promises are lemmas about them. These properties are:
  - keys stay distinct;
  - `get` moves the entry it hits to the front and keeps the order of the rest;
  - `put` on a new key evicts exactly the previous last entry;
  - the size stays within the capacity;
  - a `get` right after a `put` returns the value just put;
  - the capacity-2 run gives the expected results.
- `LruCache` (`lru_cache.dfy`) is the imperative structure itself: heap `Node` objects with `prev`/`next` links, and the class `LRUCache` with `head`, `tail`, `capacity` and `hash`. Ghost fields tie the structure to the abstract view:
  - `nodes` lists the list from `head` to `tail`;
  - `contents` is the abstract sequence;
  - `Repr` holds the nodes.

  `Valid()` states the invariants:
  - neighbouring nodes point at each other both ways;
  - no node occurs twice;
  - `contents` lists the inner nodes' entries;
  - keys are distinct;
  - `hash` maps exactly those keys to their nodes.

  `Add`, `Delete`, `Get` and `Put` keep `Valid()` and are proved to change `contents` exactly as the `LruSpec` function of the same name does. The constructor and `Reset` establish `Valid()` with empty `contents`.

`NoKeyException` is modelled as the result `Err(NoKeyException)`. `delete`, and therefore `get`, report a missing key this way.

## Model

| member | source | states |
|---|---|---|
| LruCache.Node.constructor | lrucache.py:4-9 | a new node holds the given key and value, and both of its links are unset |
| LruCache.LRUCache.constructor | lrucache.py:11-18 | a new cache is valid and empty: `head.next == tail`, `tail.prev == head`, `hash` is empty and the capacity is the one given |
| LruCache.LRUCache.Add | lrucache.py:58-67 | a fresh node for the key is spliced in right after `head` and `hash[key]` points at it. The abstract view gains `(key, value)` at the front and the rest of the list keeps its order. The cache stays valid |
| LruCache.LRUCache.Delete | lrucache.py:69-80 | on a present key, the node is unlinked by joining its neighbours and the key leaves `hash`; the abstract view loses exactly that entry. On an absent key it returns `Err(NoKeyException)` and changes nothing |
| LruCache.LRUCache.Get | lrucache.py:20-37 | on a hit it returns the stored value and the entry becomes the front; on a miss it returns `Err(NoKeyException)` and changes nothing. The key set is unchanged and the cache stays valid |
| LruCache.LRUCache.Put | lrucache.py:39-56 | the abstract view becomes abstract `put`: a present key is moved to the front with the new value; a new key is added at the front and, if the size then exceeds the capacity, the entry at `tail.prev` is evicted. A cache within its capacity stays within it |
| LruCache.LRUCache.Reset | lrucache.py:83-91 | afterwards the cache is valid and empty, `head.next == tail`, `tail.prev == head` and the capacity is unchanged: the same state as a new cache of that capacity |
| LruCache.LRUCache.SizeIsLength | lrucache.py:54 | `len(hash)` equals the number of entries in the list |
| LruCache.LRUCache.NodeOf | lrucache.py:71-72 | the node `hash[key]` of a present key sits in the list at the position of that key's entry and carries that key |
| LruCache.LRUCache.Spliced | lrucache.py:60-67 | rewiring `head`, the new node and the old `head.next`, and adding the key to `hash`, takes a valid cache to a valid cache |
| LruCache.LRUCache.Unlinked | lrucache.py:72-78 | joining the neighbours of a node and deleting its key from `hash` takes a valid cache to a valid cache whose view is the abstract `delete` |
| LruCache.Push | lrucache.py:60-61 | inserting a new node after the first one keeps the nodes distinct and keeps `hash` indexing exactly the keys, with the new entry at the front of the abstract view |
| LruCache.Drop | lrucache.py:72-78 | removing an inner node keeps the nodes distinct and keeps `hash` indexing exactly the remaining keys; the result is the abstract `delete` of its key |
| LruCache.LinkedPush | lrucache.py:63-67 | the four link assignments of `add` leave every pair of neighbours pointing at each other |
| LruCache.LinkedDrop | lrucache.py:73-77 | the two link assignments of `delete` leave every pair of neighbours pointing at each other |
| LruSpec.IndexOf | lrucache.py:31-32 | the position of a present key's entry: that entry has the key and no earlier entry does |
| LruSpec.RemoveKeys | lrucache.py:78 | deleting a key takes exactly that key out of the key set |
| LruSpec.UniqueKeysCard | lrucache.py:54 | with distinct keys the number of keys equals the number of entries |
| LruSpec.RemoveAt | lrucache.py:72-77 | deleting the key at position i leaves exactly the other entries, in their order |
| LruSpec.DropKeepsUnique | lrucache.py:72-78 | dropping one entry keeps keys distinct |
| LruSpec.DeletePresent | lrucache.py:69-78 | abstract `delete` of a present key succeeds and removes exactly its entry; keys stay distinct and the key set loses just that key |
| LruSpec.AddKeepsUnique | lrucache.py:58-61 | adding a key that is not present keeps keys distinct |
| LruSpec.MoveToFrontPermutes | lrucache.py:33-34 | moving an entry to the front gains, loses or changes no entry |
| LruSpec.GetHit | lrucache.py:31-35 | `get` on a present key returns its value and moves its entry to the front. The others keep their relative order, and the entries as a multiset are unchanged |
| LruSpec.GetKeepsInvariant | lrucache.py:31-37 | `get` keeps keys distinct, the key set and the size |
| LruSpec.PutPresent | lrucache.py:49-51 | `put` on a present key gives it the new value and moves it to the front, keeping the others in order and the size unchanged |
| LruSpec.PutAbsent | lrucache.py:52-56 | `put` on a new key inserts it at the front. If the size then exceeds the capacity, exactly the previous last entry leaves; on an empty cache that is the new entry itself |
| LruSpec.PutFront | lrucache.py:39-56 | with capacity at least one, `put` leaves `(key, value)` at the front and keys distinct |
| LruSpec.PutKeepsInvariant | lrucache.py:52-56 | `put` keeps keys distinct and never takes a cache above `max(capacity, 0)` entries; with capacity below one the cache stays empty |
| LruSpec.PutThenGet | lrucache.py:31-56 | with capacity at least one, a `get` right after `put(k, v)` returns `v` and leaves the cache as the `put` left it |
| LruSpec.CapacityTwoRun | lrucache.py:20-56 | with capacity 2: `put(1,1)`, `put(2,2)`, `get(1)` returns 1, `put(3,3)` evicts key 2, `get(2)` fails, `put(4,4)` evicts key 1, `get(1)` fails, and `get(3)` and `get(4)` return 3 and 4 |
| LruSpec.SecondHit | lrucache.py:31-35 | `get` of the second of two entries returns its value and swaps the two |

## Left out

- `NoKeyException` is not raised as a Python exception. `Delete` and `Get` return `Err(NoKeyException)` instead, and `Put` ignores the result of the inner `delete` calls, which cannot fail there.
- The O(1) running-time claims (lrucache.py:23, lrucache.py:44) are timing statements, not functional ones.
- `dict` hashing is not modelled: `hash` is a Dafny `map<int, Node>`.
- Python's unbounded `int` keys and values are Dafny `int`, so there is no overflow to model.
- Memory reclamation is not modelled. `Reset` allocates two fresh sentinels as the source does; the old nodes simply leave `Repr`.
- `Node.key` and `Node.val` are constants, because the source never assigns them after construction. The sentinels' key and value of 0 carry no meaning.
- LruCache.LRUCache.Add: requires the key to be absent from `hash`. The source calls `add` only after checking for the key or deleting it (lrucache.py:49-53, lrucache.py:33-34). Called on a present key, the source would leave the old node in the list, out of `hash`.
- Capacity zero or below is not excluded. The code adds the new node and then evicts `tail.prev`, which is that node, so the cache stays empty. The size bound is therefore stated as `max(capacity, 0)` and holds for every capacity.
- The docstrings of `get` and `put` (lrucache.py:21, lrucache.py:40) are indented one column deeper than the statements of their bodies (lrucache.py:31, lrucache.py:49). Python's tokenizer rejects this with an `IndentationError`, so the file as written does not load. The model follows the evident intent: the bodies are read as the methods' statements.
- The capacity-2 run is proved on the abstract functions (`LruSpec.CapacityTwoRun`). The class methods are proved to refine those functions, but the run itself is not replayed on an `LRUCache` object.
