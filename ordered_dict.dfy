/**
 * The part of Python's `collections.OrderedDict` that the LRU cache of lru_cache.py relies on,
 * modelled as the sequence of its (key, value) entries, oldest first: membership, subscript,
 * `move_to_end`, item assignment and `del`. (`popitem(last=False)` is dropping the first entry.)
 */
module OrderedDicts {

  /** `key in d` */
  predicate HasKey<K(==,!new), V(!new)>(s: seq<(K, V)>, key: K)
  {
    exists i :: 0 <= i < |s| && s[i].0 == key
  }

  /** `key in d` holds exactly when some entry (key, v) is stored. */
  lemma HasKeyIffEntry<K(!new), V(!new)>(s: seq<(K, V)>, key: K)
    ensures HasKey(s, key) <==> exists v :: (key, v) in s
  {
    if HasKey(s, key) {
      var i :| 0 <= i < |s| && s[i].0 == key;
      assert (key, s[i].1) == s[i];
    }
    if exists v :: (key, v) in s {
      var v :| (key, v) in s;
      var i :| 0 <= i < |s| && s[i] == (key, v);
      assert s[i].0 == key;
    }
  }

  /** A dictionary holds each key at most once. */
  ghost predicate DistinctKeys<K(!new), V(!new)>(s: seq<(K, V)>)
  {
    forall i, j :: 0 <= i < j < |s| ==> s[i].0 != s[j].0
  }

  /** The entries of `s` whose key is not in `ks`, in their original order. */
  function Without<K(==,!new), V(!new)>(s: seq<(K, V)>, ks: set<K>): (r: seq<(K, V)>)
    ensures |r| <= |s|
  {
    if s == [] then []
    else (if s[0].0 in ks then [] else [s[0]]) + Without(s[1..], ks)
  }

  /** Filtering keeps exactly the entries whose key is not in `ks`. */
  lemma {:induction false} WithoutMembers<K(!new), V(!new)>(s: seq<(K, V)>, ks: set<K>)
    ensures forall p :: p in Without(s, ks) <==> p in s && p.0 !in ks
  {
    if s != [] {
      WithoutMembers(s[1..], ks);
      assert s == [s[0]] + s[1..];
    }
  }

  /** Where `key` sits in `s`. */
  function IndexOf<K(==,!new), V(!new)>(s: seq<(K, V)>, key: K): (i: nat)
    requires HasKey(s, key)
    ensures i < |s| && s[i].0 == key
    ensures forall j :: 0 <= j < i ==> s[j].0 != key
  {
    if s[0].0 == key then 0
    else
      assert HasKey(s[1..], key) by {
        var i :| 0 <= i < |s| && s[i].0 == key;
        assert s[1..][i - 1].0 == key;
      }
      1 + IndexOf(s[1..], key)
  }

  /** `d[key]` for a present key: the value stored under it. */
  function Lookup<K(==,!new), V(!new)>(s: seq<(K, V)>, key: K): (v: V)
    requires HasKey(s, key)
    ensures (key, v) in s
    ensures DistinctKeys(s) ==> forall w :: (key, w) in s ==> w == v
  {
    var i := IndexOf(s, key);
    assert s[i] == (key, s[i].1);
    s[i].1
  }

  lemma {:induction false} WithoutNothing<K(!new), V(!new)>(s: seq<(K, V)>, ks: set<K>)
    requires forall i :: 0 <= i < |s| ==> s[i].0 !in ks
    ensures Without(s, ks) == s
  {
    if s != [] {
      WithoutNothing(s[1..], ks);
    }
  }

  lemma {:induction false} WithoutConcat<K(!new), V(!new)>(a: seq<(K, V)>, b: seq<(K, V)>, ks: set<K>)
    ensures Without(a + b, ks) == Without(a, ks) + Without(b, ks)
  {
    if a == [] {
      assert a + b == b;
    } else {
      assert (a + b)[1..] == a[1..] + b;
      WithoutConcat(a[1..], b, ks);
    }
  }

  lemma {:induction false} WithoutWithout<K(!new), V(!new)>(s: seq<(K, V)>, ks: set<K>, more: set<K>)
    ensures Without(Without(s, ks), more) == Without(s, ks + more)
  {
    if s != [] {
      WithoutWithout(s[1..], ks, more);
      var head := if s[0].0 in ks then [] else [s[0]];
      WithoutConcat(head, Without(s[1..], ks), more);
    }
  }

  /** Filtering keeps keys distinct. */
  lemma {:induction false} WithoutDistinct<K(!new), V(!new)>(s: seq<(K, V)>, ks: set<K>)
    requires DistinctKeys(s)
    ensures DistinctKeys(Without(s, ks))
  {
    if s != [] {
      WithoutDistinct(s[1..], ks);
      var rest := Without(s[1..], ks);
      WithoutMembers(s[1..], ks);
      forall j | 0 <= j < |rest|
        ensures rest[j].0 != s[0].0
      {
        assert rest[j] in s[1..];
      }
    }
  }

  /** A key that is not filtered out is still present. */
  lemma HasKeyWithout<K(!new), V(!new)>(s: seq<(K, V)>, ks: set<K>, key: K)
    requires HasKey(s, key) && key !in ks
    ensures HasKey(Without(s, ks), key)
  {
    var i :| 0 <= i < |s| && s[i].0 == key;
    var r := Without(s, ks);
    WithoutMembers(s, ks);
    assert s[i] in r;
    var j :| 0 <= j < |r| && r[j] == s[i];
  }

  /** A key is in a non-empty dictionary exactly when it is the head's key or in the tail. */
  lemma HasKeyCons<K(!new), V(!new)>(s: seq<(K, V)>)
    requires s != []
    ensures forall k :: HasKey(s, k) <==> s[0].0 == k || HasKey(s[1..], k)
  {
    forall k
      ensures HasKey(s, k) <==> s[0].0 == k || HasKey(s[1..], k)
    {
      if HasKey(s[1..], k) {
        var i :| 0 <= i < |s[1..]| && s[1..][i].0 == k;
        assert s[i + 1].0 == k;
      }
      if HasKey(s, k) && s[0].0 != k {
        var i :| 0 <= i < |s| && s[i].0 == k;
        assert s[1..][i - 1].0 == k;
      }
    }
  }

  /** The tail of a dictionary is a dictionary that lacks the head's key. */
  lemma DistinctTail<K(!new), V(!new)>(s: seq<(K, V)>)
    requires DistinctKeys(s) && s != []
    ensures DistinctKeys(s[1..])
    ensures forall p :: p in s[1..] ==> p.0 != s[0].0
  {
    forall a, b | 0 <= a < b < |s[1..]|
      ensures s[1..][a].0 != s[1..][b].0
    {
      assert s[1..][a] == s[a + 1] && s[1..][b] == s[b + 1];
    }
    forall p | p in s[1..]
      ensures p.0 != s[0].0
    {
      var a :| 0 <= a < |s[1..]| && s[1..][a] == p;
      assert s[1..][a] == s[a + 1];
    }
  }

  /** A present key that is not the head's is found in the tail, under the same value. */
  lemma LookupTail<K(!new), V(!new)>(s: seq<(K, V)>, key: K)
    requires HasKey(s, key) && s[0].0 != key
    ensures HasKey(s[1..], key) && Lookup(s, key) == Lookup(s[1..], key)
  {
    assert s[1..][IndexOf(s, key) - 1].0 == key;
  }

  /**
   * In a dictionary, filtering out a present key removes exactly one entry, the one that
   * `Lookup` finds: nothing else is lost or duplicated.
   */
  lemma {:induction false} WithoutOne<K(!new), V(!new)>(s: seq<(K, V)>, key: K)
    requires HasKey(s, key) && DistinctKeys(s)
    ensures |Without(s, {key})| == |s| - 1
    ensures multiset(Without(s, {key})) + multiset{(key, Lookup(s, key))} == multiset(s)
  {
    DistinctTail(s);
    var t := s[1..];
    assert s == [s[0]] + t;
    if s[0].0 == key {
      forall j | 0 <= j < |t|
        ensures t[j].0 !in {key}
      {
        assert t[j] in t;
      }
      WithoutNothing(t, {key});
    } else {
      LookupTail(s, key);
      WithoutOne(t, key);
      assert Without(s, {key}) == [s[0]] + Without(t, {key});
    }
  }

  /** Dropping the oldest entry (`popitem(last=False)`) keeps the keys distinct and adds nothing. */
  lemma DropOldest<K(!new), V(!new)>(s: seq<(K, V)>)
    requires DistinctKeys(s) && s != []
    ensures DistinctKeys(s[1..]) && |s[1..]| == |s| - 1
    ensures forall p :: p in s[1..] ==> p in s
  {
    DistinctTail(s);
    assert s == [s[0]] + s[1..];
  }

  /** The entry holding `key` can be appended to a dictionary that lacks `key` without repeating a key. */
  lemma AppendFreshKey<K(!new), V(!new)>(s: seq<(K, V)>, key: K, value: V)
    requires DistinctKeys(s) && !HasKey(s, key)
    ensures DistinctKeys(s + [(key, value)])
  {
  }

  /** `del d[key]`: exactly the one entry holding `key` goes; the others keep their order. */
  function Delete<K(==,!new), V(!new)>(s: seq<(K, V)>, key: K): (r: seq<(K, V)>)
    requires HasKey(s, key) && DistinctKeys(s)
    ensures |r| == |s| - 1 && !HasKey(r, key) && DistinctKeys(r)
    ensures forall p :: p in r <==> p in s && p.0 != key
  {
    var r := Without(s, {key});
    WithoutOne(s, key);
    WithoutMembers(s, {key});
    WithoutDistinct(s, {key});
    assert !HasKey(r, key) by {
      forall j | 0 <= j < |r|
        ensures r[j].0 != key
      {
        assert r[j] in r;
      }
    }
    r
  }

  /**
   * `d.move_to_end(key)`: the entry holding `key` becomes the newest; the entries are only
   * reordered, none is lost or duplicated.
   */
  function MoveToEnd<K(==,!new), V(!new)>(s: seq<(K, V)>, key: K): (r: seq<(K, V)>)
    requires HasKey(s, key) && DistinctKeys(s)
    ensures |r| == |s| && r[|r| - 1] == (key, Lookup(s, key))
    ensures r[..|r| - 1] == Delete(s, key)
    ensures multiset(r) == multiset(s) && DistinctKeys(r)
  {
    var rest := Delete(s, key);
    WithoutOne(s, key);
    AppendFreshKey(rest, key, Lookup(s, key));
    var r := rest + [(key, Lookup(s, key))];
    assert r[..|r| - 1] == rest;
    r
  }

  /**
   * `d[key] = value`: a present key keeps its position and takes the new value; an absent key
   * is appended as the newest entry. No other entry changes.
   */
  function Assign<K(==,!new), V(!new)>(s: seq<(K, V)>, key: K, value: V): (r: seq<(K, V)>)
    requires DistinctKeys(s)
    ensures DistinctKeys(r) && HasKey(r, key) && Lookup(r, key) == value
    ensures forall p :: p in r <==> (p in s && p.0 != key) || p == (key, value)
    ensures HasKey(s, key) ==> |r| == |s| && forall i :: 0 <= i < |s| ==> r[i] == (if s[i].0 == key then (key, value) else s[i])
    ensures !HasKey(s, key) ==> r == s + [(key, value)]
  {
    if HasKey(s, key) then
      var i := IndexOf(s, key);
      var r := s[i := (key, value)];
      assert r[i] == (key, value);
      assert forall p :: p in r <==> (p in s && p.0 != key) || p == (key, value) by {
        forall p
          ensures p in r <==> (p in s && p.0 != key) || p == (key, value)
        {
          if p in r {
            var j :| 0 <= j < |r| && r[j] == p;
            assert j != i ==> p == s[j] && s[j].0 != key;
          }
          if p in s && p.0 != key {
            var j :| 0 <= j < |s| && s[j] == p;
            assert r[j] == p;
          }
        }
      }
      r
    else
      var r := s + [(key, value)];
      assert r[|s|] == (key, value);
      r
  }
}
