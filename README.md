# Splay-tree memo and LRU range-sum cache, in Dafny

This project models the two data structures of the caching benchmark and proves what they
promise:

- **`fibonacci_comparison.py`** — a splay tree keyed by integers, and `fibonacci_splay`, which
  memoises Fibonacci numbers in it.
  - `splay_tree.dfy` (module `SplayTrees`) holds the rotations, `_splay`, and the `SplayTree`
    class with `insert` and `search`.
  - A tree is a value (`Tree<V>`). Its abstract view is its in-order sequence of (key, value)
    pairs.
  - Every rotation and every splay keeps that sequence exactly. After a splay, the root holds
    the accessed key when it is stored, and otherwise a nearest neighbour of it.
  - `insert` adds exactly one pair or nothing ("first value wins"). `search` finds exactly the
    stored keys.
  - `fibonacci.dfy` (module `Fibonacci`) holds `fibonacci_lru` (the plain recursive
    definition) and `fibonacci_splay`. It proves that `fibonacci_splay` returns
    `fibonacci_lru(n)` and that the memo only ever holds Fibonacci numbers.
- **`lru_cache.py`** — the `LRUCache` class (an `OrderedDict` with `get`, `put` and
  `invalidate`), and the range-sum helpers with and without the cache.
  - `ordered_dict.dfy` (module `OrderedDicts`) models the `OrderedDict` operations the cache
    uses. A dictionary is a sequence of (key, value) entries, oldest first.
  - `lru_cache.dfy` (module `LruCache`) holds the cache class and the helpers.
  - The main result: when every cached interval sum is correct for the array, it stays correct
    after `range_sum_with_cache` and after `update_with_cache`. Such a cache answers every
    query with the same value as `range_sum_no_cache`.
  - For negative indices, and for queries whose upper bound R is below -1, the code as written
    lets a cached sum go stale. For those inputs only, `range_sum_with_cache` and
    `update_with_cache` follow the corrected behaviour described under "## Findings". For every
    other input they do what the code does.
- `wrappers.dfy` holds the `Option` type that stands for Python's `None` returns.

## Model

| member | source | states |
|---|---|---|
| SplayTrees.RightRotate | fibonacci_comparison.py:29-33 | the former left child becomes the root and the old root becomes its right child; the in-order pairs and the key set are unchanged |
| SplayTrees.LeftRotate | fibonacci_comparison.py:35-39 | the former right child becomes the root and the old root becomes its left child; the in-order pairs and the key set are unchanged |
| SplayTrees.RotationsInverse | fibonacci_comparison.py:29-39 | a left rotation undoes a right rotation |
| SplayTrees.Splay | fibonacci_comparison.py:41-66 | splaying keeps the in-order pairs and the key set; an empty tree stays empty and a non-empty one stays non-empty |
| SplayTrees.SplayKeepsSearchTree | fibonacci_comparison.py:41-66 | splaying a binary search tree gives a binary search tree |
| SplayTrees.SplayBringsKeyToRoot | fibonacci_comparison.py:41-66 | after splaying a non-empty search tree, a stored key is at the root; otherwise no stored key lies strictly between the key and the new root (the root is a nearest neighbour) |
| SplayTrees.SplayLeftSteps | fibonacci_comparison.py:45-55 | the same root property when the key is smaller than the root's |
| SplayTrees.LeftZigZig | fibonacci_comparison.py:48-50 | the same root property for the zig-zig step into the left-left grandchild |
| SplayTrees.LeftZigZag | fibonacci_comparison.py:51-54 | the same root property for the zig-zag step into the left-right grandchild |
| SplayTrees.SplayRightSteps | fibonacci_comparison.py:56-66 | the same root property when the key is larger than the root's |
| SplayTrees.RightZigZig | fibonacci_comparison.py:59-61 | the same root property for the zig-zig step into the right-right grandchild |
| SplayTrees.RightZigZag | fibonacci_comparison.py:62-65 | the same root property for the zig-zag step into the right-left grandchild |
| SplayTrees.SearchTreeKeysUnique | fibonacci_comparison.py:86-90 | a search tree holds at most one value per key, so the value `search` returns is determined by the key |
| SplayTrees.JoinLeft | fibonacci_comparison.py:75-79 | hanging the splayed root to the right of a new smaller key gives a search tree that holds exactly the old pairs plus (key, value) |
| SplayTrees.JoinRight | fibonacci_comparison.py:80-83 | the mirror image, for a new larger key |
| SplayTrees.SplayTree.constructor | fibonacci_comparison.py:26-27 | a new tree is empty and valid |
| SplayTrees.SplayTree.Insert | fibonacci_comparison.py:68-84 | the tree stays a search tree with `key` at the root and `key` added to the keys; a present key leaves the pairs unchanged (first value wins); an absent key adds exactly (key, value) |
| SplayTrees.SplayTree.Search | fibonacci_comparison.py:86-90 | returns a value exactly when `key` is stored, and that value is the stored one; the pairs are unchanged and a stored key ends at the root; on a miss in a non-empty tree the new root is a nearest neighbour of `key` (no stored key lies strictly between them) |
| Fibonacci.FibonacciLru | fibonacci_comparison.py:9-13 | the reference definition, without a contract of its own: n itself below 2 (negative n included), otherwise the sum of the two before; `FibonacciSplay` is proved equal to it |
| Fibonacci.FibonacciSplay | fibonacci_comparison.py:96-105 | with a memo that holds only Fibonacci numbers, the result is `fibonacci_lru(n)`; the memo keeps that property, now holds (n, result), and loses no key; every subresult stays cached: each newly stored key k >= 2 comes with k - 1 and k - 2 (`GrowsClosed`), so from an empty tree every key 0..n is stored afterwards (n >= 2) |
| Fibonacci.SubresultsCached | fibonacci_comparison.py:100-104 | after the calls for n - 1 and n - 2 and the insert of n, each newly stored key k >= 2 comes with k - 1 and k - 2; from an empty memo, every key 0..n is stored |
| Fibonacci.StoredFromZero | fibonacci_comparison.py:100-104 | a key set holding n >= 2 in which every key k >= 2 brings k - 1 and k - 2 holds every key 0..n |
| Fibonacci.MemoKeptByInsert | fibonacci_comparison.py:100-104 | inserting (n, fibonacci_lru(n)) keeps the memo holding only Fibonacci numbers |
| OrderedDicts.HasKey | lru_cache.py:17 | `key in d` (also at line 23), without a contract of its own; `HasKeyIffEntry` characterises it |
| OrderedDicts.HasKeyIffEntry | lru_cache.py:17 | `key in d` holds exactly when some entry (key, v) is stored |
| OrderedDicts.IndexOf | lru_cache.py:19 | the position behind `d[key]` (and behind `d[key] = value` at line 25) is the first occurrence of the present key |
| OrderedDicts.Lookup | lru_cache.py:19 | `d[key]` is a value stored under `key`, and the only one when keys are distinct |
| OrderedDicts.WithoutOne | lru_cache.py:32 | removing a present key from a dictionary drops exactly one entry, the one holding `key` |
| OrderedDicts.Delete | lru_cache.py:32 | `del d[key]` removes exactly the entry holding `key`: the length drops by one, the key is gone, every other entry stays |
| OrderedDicts.MoveToEnd | lru_cache.py:18 | `move_to_end` makes the entry of `key` the newest and otherwise only reorders (a permutation); the other entries keep their order |
| OrderedDicts.Assign | lru_cache.py:25 | `d[key] = value` overwrites a present key in place and appends an absent one; afterwards `d[key]` is `value` and no other entry changed |
| OrderedDicts.DropOldest | lru_cache.py:27 | `popitem(last=False)` keeps keys distinct and adds nothing |
| LruCache.Covers | lru_cache.py:30 | the test `k[0] <= index <= k[1]`, without a contract of its own; `CacheKey` relates it to the cells a slice selects |
| LruCache.CoveringKeys | lru_cache.py:30 | `keys_to_delete` holds exactly the stored intervals that contain `index`, each once |
| LruCache.Uncovered | lru_cache.py:29-32 | the entries left after invalidation are exactly those whose interval does not contain `index` |
| LruCache.MoveToEndThenAssign | lru_cache.py:23-25 | moving a present key to the end and then assigning it (or assigning an absent one) leaves the other entries in order with (key, value) as the newest |
| LruCache.Refreshed | lru_cache.py:22-25 | before eviction, the entries after `put` have distinct keys, at most one more entry, and (key, value) as the newest |
| LruCache.LRUCache.constructor | lru_cache.py:12-14 | a new cache is empty and has the given capacity |
| LruCache.LRUCache.Get | lru_cache.py:16-20 | a hit exactly when the key is cached; a hit returns the cached value and makes its entry the most recently used; a miss changes nothing |
| LruCache.LRUCache.Put | lru_cache.py:22-27 | (key, value) becomes the newest entry and replaces any old value; the oldest entry is evicted when the capacity is exceeded; a cache within capacity stays within it; no entry other than (key, value) appears |
| LruCache.LRUCache.Invalidate | lru_cache.py:29-32 | removes exactly the entries whose interval contains `index`; the others keep their values and order |
| LruCache.DeleteOneMore | lru_cache.py:31-32 | each step of the `del` loop finds its key still present and extends the set of removed keys by one |
| LruCache.AllCoveringKeysDeleted | lru_cache.py:30-32 | after the loop, exactly the covering entries are gone |
| LruCache.SliceBound | lru_cache.py:36 | Python's slice bound lies in 0..len: a non-negative bound is clipped to the length, and a negative one within range counts from the end |
| LruCache.Slice | lru_cache.py:36 | `array[lo:hi]` (also at line 49) holds exactly the cells from Python's lower slice bound up to its upper one, none when the lower is not below the upper |
| LruCache.Sum | lru_cache.py:36 | Python's `sum` of a list (also at line 49) is the index-wise sum of all its cells |
| LruCache.SumOfSlice | lru_cache.py:36 | the sum of a slice is the sum of the cells it covers |
| LruCache.RangeSumNoCache | lru_cache.py:35-36 | for any bounds, the result is the sum of the cells between the slice bounds Python derives from L and R + 1 |
| LruCache.RangeSumUnaffected | lru_cache.py:53-55 | for R >= -1 (any L, negative included), writing a cell outside [L, R] does not change the range sum over [L, R] |
| LruCache.RangeSumAffected | lru_cache.py:53-55 | for L >= 0, writing a cell inside [L, R] changes that range sum by the change of the cell, which is why such entries must be invalidated |
| LruCache.InvalidateRestoresConsistency | lru_cache.py:53-55 | after a write, the entries that invalidation keeps are still correct for the new array |
| LruCache.ListIndex | lru_cache.py:39 | a subscript within range denotes a cell: a non-negative index itself, a negative one counted from the end |
| LruCache.UpdateNoCache | lru_cache.py:38-39 | exactly the cell `array[index]` denotes changes, to `value`, negative indices included |
| LruCache.CacheKey | lru_cache.py:45 | the cache key is the source's (L, R) whenever R >= -1; for R < -1 it is the bounds of the cells the slice selects; either way its upper bound is at least -1, it gives the same slice bounds as (L, R), and it covers every cell the query's slice selects |
| LruCache.CacheKeySameSum | lru_cache.py:45-50 | the sum under the cache key equals the sum of the query it was made from |
| LruCache.NegativeIndexLeavesStaleEntry | lru_cache.py:53-55 | as written, a negative index writes a cell from the end but invalidation compares the raw index, so a cached sum goes stale |
| LruCache.NegativeBoundsLeaveStaleEntry | lru_cache.py:44-50 | as written, a query with R < -1 is cached under its raw bounds, which invalidation never matches, so the cached sum goes stale |
| LruCache.RangeSumWithCache | lru_cache.py:44-51 | with a correct cache, the result equals `range_sum_no_cache` for any bounds; a hit moves the entry to the newest place, a miss puts (key, result) with eviction, exactly as `get`/`put` do; the capacity is unchanged; the cache stays correct; the key is the source's (L, R) whenever R >= -1 |
| LruCache.UpdateWithCache | lru_cache.py:53-55 | the cell `array[index]` denotes is written, exactly the intervals covering that cell are dropped, and the cache stays correct for the new array |

## Left out

- Nodes are modelled as immutable tree values, not as linked heap objects. The model does not
  capture in-place relinking of `left`/`right` fields or aliasing between nodes. The
  "detach before reattach" step of `insert` is kept: the old root loses the subtree the new
  node takes.
- Keys of the splay tree are Python `int`s. Other comparable key types are not modelled.
- Duplicate `insert`: the code still splays the tree before it finds the key. The model
  follows the code, so the shape may change while the pairs stay the same. It is not a no-op
  on the tree's shape.
- `fibonacci_lru`'s `functools.lru_cache` decorator is left out. It memoises but does not
  change results, so `FibonacciLru` is the plain recursion.
- Timing, plotting, printing, the random workload and the benchmark loops of both files are
  left out: they are I/O, clocks and randomness, outside the data structures.
- Amortised running-time bounds of splaying and the cost of invalidation are not stated:
  Dafny proves functional properties here, not cost.
- The module-level `lru_cache` object is passed explicitly as a parameter to the helpers
  instead of being a global.
- `OrderedDict` is modelled by its observable entry sequence, not its hash-table-plus-list
  internals.
- LruCache.UpdateNoCache: requires `-len(array) <= index < len(array)`. The model does not
  capture the `IndexError` Python raises for an index outside that range.
- LruCache.UpdateWithCache: the same index bound as `UpdateNoCache`.
- `LRUCache` is fixed to interval keys and integer values, the only ones this program stores.
  The Python class accepts any hashable keys and any values.
- Integer overflow does not arise: Python integers and Dafny `int`s are both unbounded.

## Findings

| source | as written | input that shows it | evidently intended | confidence | as-written member | corrected member |
|---|---|---|---|---|---|---|
| lru_cache.py:53-55 | `array[index] = value` writes cell len + index for a negative index, but `invalidate(index)` drops only the intervals that contain the raw negative index | array [1, 2] with ((0, 1), 3) cached; `update_with_cache(array, -1, 10)` keeps that entry, while the sum is now 11 | for a negative index, invalidate the intervals that contain the cell actually written; a non-negative index is used as written | not executed; no call in the file passes a negative index | LruCache.NegativeIndexLeavesStaleEntry | LruCache.UpdateWithCache |
| lru_cache.py:44-50 | the sum of `array[L:R+1]` is cached under the raw (L, R); slicing counts negative bounds from the end, but `invalidate` compares indices with the raw bounds; with R < -1 the raw interval holds no index the cell can have | array [1, 2]; `range_sum_with_cache(array, -2, -2)` caches ((-2, -2), 1); `update_with_cache(array, 0, 10)` keeps it, while the slice now sums to 10 | for R < -1, key the cached sum by the bounds of the cells it covers (`CacheKey`); any R >= -1 keeps the raw (L, R), which already covers every selected cell | not executed; every query in the file has 0 <= L <= R < N | LruCache.NegativeBoundsLeaveStaleEntry | LruCache.RangeSumWithCache |
