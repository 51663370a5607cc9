/**
 * lru_cache.py: an LRU cache of range sums over an integer array, and the four query and update
 * helpers that use it. The cache maps an interval (L, R) to the sum of the array cells L..R;
 * writing a cell invalidates every cached interval that contains it.
 */
module LruCache {
  import opened Wrappers
  import opened OrderedDicts

  /** The key of a cached range sum: its bounds (L, R). */
  type Interval = (int, int)

  /** `k[0] <= index <= k[1]`: the interval `k` contains `index`. */
  predicate Covers(k: Interval, index: int)
  {
    k.0 <= index <= k.1
  }

  /** The keys of `s` whose interval contains `index`, oldest first (`keys_to_delete`). */
  function CoveringKeys(s: seq<(Interval, int)>, index: int): (ks: seq<Interval>)
    ensures forall k :: k in ks <==> HasKey(s, k) && Covers(k, index)
    ensures DistinctKeys(s) ==> forall i, j :: 0 <= i < j < |ks| ==> ks[i] != ks[j]
  {
    if s == [] then []
    else
      var rest := CoveringKeys(s[1..], index);
      HasKeyCons(s);
      assert DistinctKeys(s) ==> !HasKey(s[1..], s[0].0) && DistinctKeys(s[1..]) by {
        if DistinctKeys(s) {
          DistinctTail(s);
        }
      }
      (if Covers(s[0].0, index) then [s[0].0] else []) + rest
  }

  /** The entries of `s` whose interval does not contain `index`, in their original order. */
  ghost function Uncovered(s: seq<(Interval, int)>, index: int): (r: seq<(Interval, int)>)
    ensures forall p :: p in r <==> p in s && !Covers(p.0, index)
  {
    if s == [] then []
    else (if Covers(s[0].0, index) then [] else [s[0]]) + Uncovered(s[1..], index)
  }

  /** Filtering out a key set that holds exactly the covering keys of `s` leaves the uncovered entries. */
  lemma {:induction false} WithoutCoveringKeys(s: seq<(Interval, int)>, ks: set<Interval>, index: int)
    requires forall p :: p in s ==> (p.0 in ks <==> Covers(p.0, index))
    ensures Without(s, ks) == Uncovered(s, index)
  {
    if s != [] {
      assert s[0] in s;
      assert forall p :: p in s[1..] ==> p in s;
      WithoutCoveringKeys(s[1..], ks, index);
    }
  }

  /** Invalidation keeps keys distinct. */
  lemma UncoveredDistinct(s: seq<(Interval, int)>, index: int)
    requires DistinctKeys(s)
    ensures DistinctKeys(Uncovered(s, index))
  {
    var ks := set k | k in CoveringKeys(s, index);
    forall p | p in s
      ensures p.0 in ks <==> Covers(p.0, index)
    {
      var i :| 0 <= i < |s| && s[i] == p;
      assert HasKey(s, p.0);
    }
    WithoutCoveringKeys(s, ks, index);
    WithoutDistinct(s, ks);
  }

  /**
   * `move_to_end` of a present key followed by `d[key] = value` (or the assignment alone for an
   * absent key) leaves the other entries in order and (key, value) as the newest entry.
   */
  lemma MoveToEndThenAssign(s: seq<(Interval, int)>, key: Interval, value: int)
    requires DistinctKeys(s)
    ensures HasKey(s, key) ==> Assign(MoveToEnd(s, key), key, value) == Without(s, {key}) + [(key, value)]
    ensures !HasKey(s, key) ==> Assign(s, key, value) == Without(s, {key}) + [(key, value)]
  {
    if HasKey(s, key) {
      var moved := MoveToEnd(s, key);
      var rest := Without(s, {key});
      assert moved[|rest|].0 == key;
      assert forall i :: 0 <= i < |rest| ==> moved[i].0 != key by {
        forall i | 0 <= i < |rest| ensures moved[i].0 != key {
          assert moved[i] == rest[i] && rest[i] in rest;
        }
      }
      var r := Assign(moved, key, value);
      assert r == rest + [(key, value)];
    } else {
      WithoutNothing(s, {key});
    }
  }

  /** The entries after `put` and before any eviction: a dictionary with (key, value) newest. */
  lemma Refreshed(s: seq<(Interval, int)>, key: Interval, value: int)
    requires DistinctKeys(s)
    ensures var added := Without(s, {key}) + [(key, value)];
      DistinctKeys(added) && |added| <= |s| + 1 && added[|added| - 1] == (key, value) &&
      forall p :: p in added ==> p in s || p == (key, value)
  {
    var rest := Without(s, {key});
    WithoutMembers(s, {key});
    WithoutDistinct(s, {key});
    assert !HasKey(rest, key) by {
      forall j | 0 <= j < |rest|
        ensures rest[j].0 != key
      {
        assert rest[j] in rest;
      }
    }
    AppendFreshKey(rest, key, value);
  }

  // ---------------------------------------------------------------------------------------
  // The cache object (`LRUCache`)
  // ---------------------------------------------------------------------------------------

  class LRUCache {
    /** The OrderedDict: (key, value) entries, least recently used first. */
    var cache: seq<(Interval, int)>
    var capacity: int

    ghost predicate Valid()
      reads this
    {
      DistinctKeys(cache)
    }

    constructor (capacity: int)
      ensures Valid() && cache == [] && this.capacity == capacity
    {
      cache := [];
      this.capacity := capacity;
    }

    /**
     * A hit returns the stored value and makes `key` the most recently used entry; a miss
     * returns `None` and changes nothing.
     */
    method Get(key: Interval) returns (r: Option<int>)
      requires Valid()
      modifies this`cache
      ensures Valid()
      ensures r.Some? <==> HasKey(old(cache), key)
      ensures r.Some? ==> (key, r.value) in old(cache) && cache == Without(old(cache), {key}) + [(key, r.value)]
      ensures r.None? ==> cache == old(cache)
    {
      if HasKey(cache, key) {
        cache := MoveToEnd(cache, key);
        assert cache[|cache| - 1].0 == key;
        r := Some(Lookup(cache, key));
      } else {
        r := None;
      }
    }

    /**
     * Stores `value` under `key` (overwriting an old value) as the most recently used entry,
     * then, if the cache has grown beyond `capacity`, drops the least recently used entry.
     */
    method Put(key: Interval, value: int)
      requires Valid()
      modifies this`cache
      ensures Valid()
      ensures var added := Without(old(cache), {key}) + [(key, value)];
        cache == if |added| > capacity then added[1..] else added
      ensures |old(cache)| <= capacity ==> |cache| <= capacity
      ensures capacity >= 1 ==> |cache| > 0 && cache[|cache| - 1] == (key, value)
      ensures forall p :: p in cache ==> p in old(cache) || p == (key, value)
    {
      ghost var added := Without(cache, {key}) + [(key, value)];
      MoveToEndThenAssign(cache, key, value);
      Refreshed(cache, key, value);
      if HasKey(cache, key) {
        cache := MoveToEnd(cache, key);
      }
      cache := Assign(cache, key, value);
      assert cache == added;
      if |cache| > capacity {
        // popitem(last=False): the least recently used entry goes
        DropOldest(cache);
        cache := cache[1..];
      }
    }

    /** Removes exactly the entries whose interval contains `index`; the rest keep their values and order. */
    method Invalidate(index: int)
      requires Valid()
      modifies this`cache
      ensures Valid()
      ensures cache == Uncovered(old(cache), index)
    {
      var keysToDelete := CoveringKeys(cache, index);
      ghost var deleted: set<Interval> := {};
      WithoutNothing(cache, deleted);
      for j := 0 to |keysToDelete|
        invariant forall m :: 0 <= m < |keysToDelete| ==> (keysToDelete[m] in deleted <==> m < j)
        invariant forall k :: k in deleted ==> k in keysToDelete
        invariant cache == Without(old(cache), deleted)
      {
        var k := keysToDelete[j];
        DeleteOneMore(old(cache), deleted, k);
        cache := Delete(cache, k);
        deleted := deleted + {k};
      }
      AllCoveringKeysDeleted(old(cache), keysToDelete, deleted, index);
      UncoveredDistinct(old(cache), index);
    }
  }

  /** One step of the `del` loop: the next key is still present and deleting it extends the filter. */
  lemma DeleteOneMore(s: seq<(Interval, int)>, deleted: set<Interval>, k: Interval)
    requires DistinctKeys(s) && HasKey(s, k) && k !in deleted
    ensures HasKey(Without(s, deleted), k) && DistinctKeys(Without(s, deleted))
    ensures Delete(Without(s, deleted), k) == Without(s, deleted + {k})
  {
    HasKeyWithout(s, deleted, k);
    WithoutDistinct(s, deleted);
    WithoutWithout(s, deleted, {k});
  }

  /** After the `del` loop, exactly the covering entries are gone. */
  lemma AllCoveringKeysDeleted(s: seq<(Interval, int)>, ks: seq<Interval>, deleted: set<Interval>, index: int)
    requires ks == CoveringKeys(s, index)
    requires forall m :: 0 <= m < |ks| ==> ks[m] in deleted
    requires forall k :: k in deleted ==> k in ks
    ensures Without(s, deleted) == Uncovered(s, index)
  {
    forall p | p in s
      ensures p.0 in deleted <==> Covers(p.0, index)
    {
      var i :| 0 <= i < |s| && s[i] == p;
      assert HasKey(s, p.0);
    }
    WithoutCoveringKeys(s, deleted, index);
  }

  // ---------------------------------------------------------------------------------------
  // Range sums and updates
  // ---------------------------------------------------------------------------------------

  /** Python's `sum` of a list. */
  function Sum(s: seq<int>): (r: int)
    ensures r == SumBetween(s, 0, |s|)
  {
    if s == [] then 0
    else
      SumBetweenPrefix(s, |s| - 1);
      Sum(s[..|s| - 1]) + s[|s| - 1]
  }

  /** a[lo] + ... + a[hi - 1], by index. */
  function SumBetween(a: seq<int>, lo: int, hi: int): int
    requires 0 <= lo && hi <= |a|
    decreases hi - lo
  {
    if lo >= hi then 0 else SumBetween(a, lo, hi - 1) + a[hi - 1]
  }

  /** The sum over [0, hi) only reads the cells before `hi`. */
  lemma {:induction false} SumBetweenPrefix(a: seq<int>, hi: int)
    requires 0 <= hi <= |a|
    ensures SumBetween(a[..hi], 0, hi) == SumBetween(a, 0, hi)
    decreases hi
  {
    if 0 < hi {
      assert a[..hi][..hi - 1] == a[..hi - 1];
      SumBetweenPrefix(a, hi - 1);
      SumBetweenPrefix(a[..hi], hi - 1);
    }
  }

  function Min(x: int, y: int): int
  {
    if x < y then x else y
  }

  /**
   * Python's reading of a slice bound on a list of length `n`: a negative bound counts from
   * the end, and the result is clipped to 0..n.
   */
  function SliceBound(n: nat, i: int): (j: nat)
    ensures j <= n
    ensures 0 <= i ==> j == Min(i, n)
    ensures i < 0 && 0 <= n + i ==> j == n + i
  {
    if i < 0 then (if n + i < 0 then 0 else n + i)
    else Min(i, n)
  }

  /** `array[lo:hi]`: the cells from bound `lo` up to bound `hi`, none when `lo` is not before `hi`. */
  function Slice(a: seq<int>, lo: int, hi: int): (r: seq<int>)
    ensures var l, h := SliceBound(|a|, lo), SliceBound(|a|, hi);
      |r| == (if l < h then h - l else 0) && forall i :: 0 <= i < |r| ==> r[i] == a[l + i]
  {
    var l, h := SliceBound(|a|, lo), SliceBound(|a|, hi);
    if l < h then a[l..h] else []
  }

  lemma {:induction false} SumOfSlice(a: seq<int>, lo: int, hi: int)
    requires 0 <= lo <= hi <= |a|
    ensures Sum(a[lo..hi]) == SumBetween(a, lo, hi)
    decreases hi - lo
  {
    if lo < hi {
      assert a[lo..hi][..hi - lo - 1] == a[lo..hi - 1];
      SumOfSlice(a, lo, hi - 1);
    }
  }

  /** `range_sum_no_cache`: the sum of the cells that `array[L:R+1]` selects, with Python's slice bounds. */
  function RangeSumNoCache(a: seq<int>, L: int, R: int): (r: int)
    ensures r == SumBetween(a, SliceBound(|a|, L), SliceBound(|a|, R + 1))
  {
    var l, h := SliceBound(|a|, L), SliceBound(|a|, R + 1);
    assert l < h ==> Sum(a[l..h]) == SumBetween(a, l, h) by {
      if l < h {
        SumOfSlice(a, l, h);
      }
    }
    Sum(Slice(a, L, R + 1))
  }

  /** Writing a cell outside [lo, hi) leaves the sum over [lo, hi) unchanged. */
  lemma {:induction false} SumBetweenUnaffected(a: seq<int>, index: int, value: int, lo: int, hi: int)
    requires 0 <= index < |a| && 0 <= lo && hi <= |a|
    requires !(lo <= index < hi)
    ensures SumBetween(a[index := value], lo, hi) == SumBetween(a, lo, hi)
    decreases hi - lo
  {
    if lo < hi {
      SumBetweenUnaffected(a, index, value, lo, hi - 1);
    }
  }

  /** Writing a cell inside [lo, hi) shifts the sum over [lo, hi) by the change of that cell. */
  lemma {:induction false} SumBetweenAffected(a: seq<int>, index: int, value: int, lo: int, hi: int)
    requires 0 <= lo <= index < hi <= |a|
    ensures SumBetween(a[index := value], lo, hi) == SumBetween(a, lo, hi) + value - a[index]
    decreases hi - lo
  {
    if index < hi - 1 {
      SumBetweenAffected(a, index, value, lo, hi - 1);
    } else {
      SumBetweenUnaffected(a, index, value, lo, hi - 1);
    }
  }

  /**
   * For R >= -1, a write at `index` changes no range sum whose interval does not contain
   * `index`: every cell the slice selects lies in [L, R].
   */
  lemma RangeSumUnaffected(a: seq<int>, index: int, value: int, L: int, R: int)
    requires 0 <= index < |a| && -1 <= R && !Covers((L, R), index)
    ensures RangeSumNoCache(a[index := value], L, R) == RangeSumNoCache(a, L, R)
  {
    SumBetweenUnaffected(a, index, value, SliceBound(|a|, L), SliceBound(|a|, R + 1));
  }

  /** A write at `index` changes every range sum whose interval contains it by the change of that cell. */
  lemma RangeSumAffected(a: seq<int>, index: int, value: int, L: int, R: int)
    requires 0 <= L && 0 <= index < |a| && Covers((L, R), index)
    ensures RangeSumNoCache(a[index := value], L, R) == RangeSumNoCache(a, L, R) + value - a[index]
  {
    SumBetweenAffected(a, index, value, SliceBound(|a|, L), SliceBound(|a|, R + 1));
  }

  /**
   * Every cached (L, R) entry has R >= -1, so that every cell its slice selects lies in [L, R]
   * where `invalidate` looks, and holds the current sum of `array[L:R+1]`.
   */
  ghost predicate Consistent(entries: seq<(Interval, int)>, a: seq<int>)
  {
    forall p :: p in entries ==> -1 <= p.0.1 && p.1 == RangeSumNoCache(a, p.0.0, p.0.1)
  }

  /** Invalidating the intervals that contain a written cell keeps the cache consistent with the array. */
  lemma InvalidateRestoresConsistency(entries: seq<(Interval, int)>, a: seq<int>, index: int, value: int)
    requires Consistent(entries, a) && 0 <= index < |a|
    ensures Consistent(Uncovered(entries, index), a[index := value])
  {
    forall p | p in Uncovered(entries, index)
      ensures p.1 == RangeSumNoCache(a[index := value], p.0.0, p.0.1)
    {
      RangeSumUnaffected(a, index, value, p.0.0, p.0.1);
    }
  }

  /** Python's reading of a subscript on a list of length `n`: a negative index counts from the end. */
  function ListIndex(n: nat, index: int): (i: nat)
    requires 0 <= n + index && index < n
    ensures i < n && (i == index || i == n + index)
    ensures 0 <= index <==> i == index
  {
    if index < 0 then n + index else index
  }

  /** `update_no_cache`: writes the one cell that `array[index]` denotes. */
  method UpdateNoCache(a: array<int>, index: int, value: int)
    requires -a.Length <= index < a.Length
    modifies a
    ensures a[..] == old(a[..])[ListIndex(a.Length, index) := value]
  {
    a[ListIndex(a.Length, index)] := value;
  }

  /**
   * The key under which a range sum is cached: (L, R) itself when R >= -1, as written;
   * otherwise the bounds of the cells `array[L:R+1]` selects, so that `invalidate` meets every
   * cached sum that covers a written cell.
   */
  function CacheKey(n: nat, L: int, R: int): (k: Interval)
    ensures -1 <= k.1
    ensures SliceBound(n, k.0) == SliceBound(n, L) && SliceBound(n, k.1 + 1) == SliceBound(n, R + 1)
    ensures forall i :: SliceBound(n, L) <= i < SliceBound(n, R + 1) ==> Covers(k, i)
    ensures -1 <= R ==> k == (L, R)
  {
    if -1 <= R then (L, R)
    else (SliceBound(n, L), SliceBound(n, R + 1) - 1)
  }

  /** The sum under a cache key is the sum of the query it was made from. */
  lemma CacheKeySameSum(a: seq<int>, L: int, R: int)
    ensures RangeSumNoCache(a, CacheKey(|a|, L, R).0, CacheKey(|a|, L, R).1) == RangeSumNoCache(a, L, R)
  {
  }

  /**
   * As written, `update_with_cache(array, -1, 10)` on [1, 2] writes the last cell but
   * `invalidate(-1)` keeps the cached sum ((0, 1), 3), which no longer equals the sum (11).
   */
  lemma NegativeIndexLeavesStaleEntry()
    ensures var a, entries := [1, 2], [((0, 1), 3)];
      && Consistent(entries, a)
      && a[ListIndex(|a|, -1) := 10] == [1, 10]
      && Uncovered(entries, -1) == entries
      && RangeSumNoCache([1, 10], 0, 1) == 11
  {
    var a, entries := [1, 2], [((0, 1), 3)];
    assert Sum(a[0..2]) == 3 by {
      assert a[0..2][..1] == [1];
    }
    assert Sum([1, 10][0..2]) == 11 by {
      assert [1, 10][0..2][..1] == [1];
    }
  }

  /**
   * As written, `range_sum_with_cache(array, -2, -2)` on [1, 2] caches 1 (the cell `array[0]`)
   * under the raw key (-2, -2); `update_with_cache(array, 0, 10)` then keeps that entry, as -2
   * is not <= 0 <= -2, though the slice now sums to 10.
   */
  lemma NegativeBoundsLeaveStaleEntry()
    ensures var entries := [((-2, -2), 1)];
      && RangeSumNoCache([1, 2], -2, -2) == 1
      && Uncovered(entries, 0) == entries
      && RangeSumNoCache([10, 2], -2, -2) == 10
  {
    assert [1, 2][0..1] == [1];
    assert [10, 2][0..1] == [10];
  }

  /**
   * `range_sum_with_cache`: answers from the cache when it can, otherwise computes the sum and
   * puts it. The entry is keyed by `CacheKey`: (L, R) itself for R >= -1, and the bounds of the
   * cells the query covers for R < -1.
   */
  method RangeSumWithCache(a: array<int>, L: int, R: int, cache: LRUCache) returns (r: int)
    requires cache.Valid() && Consistent(cache.cache, a[..])
    modifies cache`cache
    ensures r == RangeSumNoCache(a[..], L, R)
    ensures cache.Valid() && Consistent(cache.cache, a[..])
    ensures var key := CacheKey(a.Length, L, R);
      HasKey(old(cache.cache), key) ==> cache.cache == Without(old(cache.cache), {key}) + [(key, r)]
    ensures var key := CacheKey(a.Length, L, R);
      var added := Without(old(cache.cache), {key}) + [(key, r)];
      !HasKey(old(cache.cache), key) ==> cache.cache == if |added| > cache.capacity then added[1..] else added
    ensures cache.capacity == old(cache.capacity)
    ensures -1 <= R ==> CacheKey(a.Length, L, R) == (L, R)
  {
    var key := CacheKey(a.Length, L, R);
    CacheKeySameSum(a[..], L, R);
    ghost var before := cache.cache;
    var result := cache.Get(key);
    WithoutMembers(before, {key});
    if result.Some? {
      return result.value;
    }
    r := Sum(Slice(a[..], L, R + 1));
    cache.Put(key, r);
  }

  /**
   * `update_with_cache`: writes the cell `array[index]` denotes and invalidates the cached
   * intervals containing that cell.
   */
  method UpdateWithCache(a: array<int>, index: int, value: int, cache: LRUCache)
    requires -a.Length <= index < a.Length
    requires cache.Valid() && Consistent(cache.cache, a[..])
    modifies a, cache`cache
    ensures a[..] == old(a[..])[ListIndex(a.Length, index) := value]
    ensures cache.cache == Uncovered(old(cache.cache), ListIndex(a.Length, index))
    ensures cache.Valid() && Consistent(cache.cache, a[..])
  {
    var i := ListIndex(a.Length, index);
    a[i] := value;
    cache.Invalidate(i);
    InvalidateRestoresConsistency(old(cache.cache), old(a[..]), i, value);
  }
}
