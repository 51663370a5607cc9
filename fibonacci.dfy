/**
 * The two Fibonacci functions of fibonacci_comparison.py: the plain recursive definition
 * (`fibonacci_lru` without its decorator) and `fibonacci_splay`, which memoises results in a
 * splay tree keyed by `n`.
 */
module Fibonacci {
  import opened Wrappers
  import opened SplayTrees

  /** `fibonacci_lru`: n itself below 2 (negative n included), otherwise the sum of the two before. */
  function FibonacciLru(n: int): int
    decreases if n < 0 then 0 else n
  {
    if n < 2 then n else FibonacciLru(n - 1) + FibonacciLru(n - 2)
  }

  /** Every pair (k, v) stored in the memo satisfies v == FibonacciLru(k). */
  ghost predicate MemoOfFibonacci(t: Tree<int>)
  {
    forall p :: p in InOrder(t) ==> p.1 == FibonacciLru(p.0)
  }

  /** Every key k >= 2 that `after` holds beyond `before` comes with k - 1 and k - 2. */
  ghost predicate GrowsClosed(before: set<int>, after: set<int>)
  {
    forall k :: k in after - before && k >= 2 ==> k - 1 in after && k - 2 in after
  }

  /**
   * `fibonacci_splay`: a hit in the memo returns the stored value; otherwise the value is
   * computed (recursively for n >= 2) and inserted under `n`. With a memo that only holds
   * Fibonacci numbers, the result is FibonacciLru(n), the memo keeps that invariant, it now
   * maps `n` to the result, and no key is ever dropped from it. Every subresult is cached: each
   * newly stored key k >= 2 comes with k - 1 and k - 2, so starting from an empty tree every
   * key 0..n is stored afterwards (for n >= 2).
   */
  method FibonacciSplay(n: int, tree: SplayTree<int>) returns (r: int)
    requires tree.Valid() && MemoOfFibonacci(tree.root)
    modifies tree
    ensures tree.Valid() && MemoOfFibonacci(tree.root)
    ensures r == FibonacciLru(n)
    ensures (n, r) in InOrder(tree.root) && n in Keys(tree.root)
    ensures Keys(old(tree.root)) <= Keys(tree.root)
    ensures GrowsClosed(Keys(old(tree.root)), Keys(tree.root))
    ensures old(tree.root) == Leaf && n >= 2 ==> forall m :: 0 <= m <= n ==> m in Keys(tree.root)
    decreases if n < 0 then 0 else n
  {
    ghost var keys0 := Keys(tree.root);
    var result := tree.Search(n);
    if result.Some? {
      assert (n, result.value) in InOrder(tree.root);
      return result.value;
    }
    ghost var before := tree.root;
    if n < 2 {
      assert n == FibonacciLru(n);
      tree.Insert(n, n);
      MemoKeptByInsert(before, tree.root, n);
      return n;
    }
    var a := FibonacciSplay(n - 1, tree);
    ghost var keys1 := Keys(tree.root);
    var b := FibonacciSplay(n - 2, tree);
    ghost var keys2 := Keys(tree.root);
    r := a + b;
    assert r == FibonacciLru(n);
    before := tree.root;
    tree.Insert(n, r);
    MemoKeptByInsert(before, tree.root, n);
    SubresultsCached(keys0, keys1, keys2, n);
  }

  /**
   * After the two recursive calls and the insert of `n`, every new key k >= 2 comes with
   * k - 1 and k - 2; from an empty memo, every key 0..n is then stored.
   */
  lemma SubresultsCached(keys0: set<int>, keys1: set<int>, keys2: set<int>, n: int)
    requires n >= 2 && keys0 <= keys1 <= keys2 && n - 1 in keys1 && n - 2 in keys2
    requires GrowsClosed(keys0, keys1) && GrowsClosed(keys1, keys2)
    ensures GrowsClosed(keys0, keys2 + {n})
    ensures keys0 == {} ==> forall m :: 0 <= m <= n ==> m in keys2 + {n}
  {
    var keys3 := keys2 + {n};
    forall k | k in keys3 - keys0 && k >= 2
      ensures k - 1 in keys3 && k - 2 in keys3
    {
      if k == n {
      } else if k in keys1 {
        assert k in keys1 - keys0;
      } else {
        assert k in keys2 - keys1;
      }
    }
    if keys0 == {} {
      forall k | k in keys3 && k >= 2
        ensures k - 1 in keys3 && k - 2 in keys3
      {
        assert k in keys3 - keys0;
      }
      StoredFromZero(keys3, n);
    }
  }

  /**
   * A key set in which every key k >= 2 brings k - 1 and k - 2 along, and which holds n >= 2,
   * holds every key 0..n.
   */
  lemma {:induction false} StoredFromZero(ks: set<int>, n: int)
    requires n >= 2 && n in ks
    requires forall k :: k in ks && k >= 2 ==> k - 1 in ks && k - 2 in ks
    ensures forall m :: 0 <= m <= n ==> m in ks
    decreases n
  {
    if n > 2 {
      StoredFromZero(ks, n - 1);
    }
  }

  /**
   * What `insert(n, FibonacciLru(n))` leaves behind when it either keeps the pairs or adds
   * only (n, FibonacciLru(n)) and puts `n` at the root: the memo invariant still holds and
   * the root pair is (n, FibonacciLru(n)).
   */
  lemma MemoKeptByInsert(before: Tree<int>, after: Tree<int>, n: int)
    requires MemoOfFibonacci(before)
    requires after.Node? && after.key == n
    requires forall p :: p in InOrder(after) ==> p in InOrder(before) || p == (n, FibonacciLru(n))
    ensures MemoOfFibonacci(after)
    ensures (n, FibonacciLru(n)) in InOrder(after)
  {
    assert (n, after.value) in InOrder(after);
  }
}
