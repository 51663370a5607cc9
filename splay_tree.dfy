/**
 * The splay tree of fibonacci_comparison.py: a binary search tree keyed by integers that
 * brings an accessed key (or, when the key is absent, a neighbour of it) to the root by
 * rotations on every `insert` and `search`.
 *
 * A tree is modelled as a value; the abstract view of a tree is its in-order sequence of
 * (key, value) pairs, which every rotation and every splay leaves exactly as it was.
 */
module SplayTrees {
  import opened Wrappers

  /** A `Node` with its two child links; `Leaf` stands for an absent child (Python's `None`). */
  datatype Tree<V> = Leaf | Node(left: Tree<V>, key: int, value: V, right: Tree<V>)

  /** The (key, value) pairs of `t`, read left to right. */
  ghost function InOrder<V>(t: Tree<V>): seq<(int, V)>
  {
    match t
    case Leaf => []
    case Node(l, k, v, r) => InOrder(l) + [(k, v)] + InOrder(r)
  }

  /** The keys stored in `t`. */
  ghost function Keys<V>(t: Tree<V>): set<int>
  {
    match t
    case Leaf => {}
    case Node(l, k, _, r) => Keys(l) + {k} + Keys(r)
  }

  /** The BST order: at every node, keys on the left are smaller and keys on the right larger. */
  ghost predicate SearchTree<V>(t: Tree<V>)
  {
    match t
    case Leaf => true
    case Node(l, k, _, r) =>
      && SearchTree(l) && SearchTree(r)
      && (forall j :: j in Keys(l) ==> j < k)
      && (forall j :: j in Keys(r) ==> k < j)
  }

  /** The keys of a pair sequence strictly increase from left to right. */
  ghost predicate Increasing<V>(s: seq<(int, V)>)
  {
    forall i, j :: 0 <= i < j < |s| ==> s[i].0 < s[j].0
  }

  /** No key of `ks` lies strictly between `a` and `b`. */
  ghost predicate NothingBetween(ks: set<int>, a: int, b: int)
  {
    forall j :: j in ks ==> !(a < j < b) && !(b < j < a)
  }

  // ---------------------------------------------------------------------------------------
  // The in-order view and the key set agree
  // ---------------------------------------------------------------------------------------

  lemma {:induction false} InOrderKeys<V>(t: Tree<V>)
    ensures forall i :: 0 <= i < |InOrder(t)| ==> InOrder(t)[i].0 in Keys(t)
  {
    match t
    case Leaf =>
    case Node(l, k, v, r) =>
      InOrderKeys(l);
      InOrderKeys(r);
      forall i | 0 <= i < |InOrder(t)|
        ensures InOrder(t)[i].0 in Keys(t)
      {
        if i < |InOrder(l)| {
          assert InOrder(t)[i] == InOrder(l)[i];
        } else if i > |InOrder(l)| {
          assert InOrder(t)[i] == InOrder(r)[i - |InOrder(l)| - 1];
        }
      }
  }

  /** Where a stored key sits in the in-order sequence. */
  ghost function Position<V>(t: Tree<V>, x: int): (i: nat)
    requires x in Keys(t)
    ensures i < |InOrder(t)| && InOrder(t)[i].0 == x
  {
    match t
    case Node(l, k, v, r) =>
      if x in Keys(l) then
        var i := Position(l, x);
        assert InOrder(t)[i] == InOrder(l)[i];
        i
      else if x == k then
        |InOrder(l)|
      else
        var i := Position(r, x);
        assert InOrder(t)[|InOrder(l)| + 1 + i] == InOrder(r)[i];
        |InOrder(l)| + 1 + i
  }

  /** The BST order of the nodes is exactly "the in-order keys strictly increase". */
  lemma {:induction false} SearchTreeIffIncreasing<V>(t: Tree<V>)
    ensures SearchTree(t) <==> Increasing(InOrder(t))
  {
    match t
    case Leaf =>
    case Node(l, k, v, r) =>
      var s, sl, sr := InOrder(t), InOrder(l), InOrder(r);
      assert s == sl + [(k, v)] + sr;
      SearchTreeIffIncreasing(l);
      SearchTreeIffIncreasing(r);
      InOrderKeys(l);
      InOrderKeys(r);
      if SearchTree(t) {
        forall i, j | 0 <= i < j < |s|
          ensures s[i].0 < s[j].0
        {
          var n := |sl|;
          if j < n {
            assert s[i] == sl[i] && s[j] == sl[j];
          } else if i > n {
            assert s[i] == sr[i - n - 1] && s[j] == sr[j - n - 1];
          } else if i == n {
            assert s[j] == sr[j - n - 1];
          } else if j == n {
            assert s[i] == sl[i];
          } else {
            assert s[i] == sl[i] && s[j] == sr[j - n - 1];
            assert sl[i].0 in Keys(l) && sr[j - n - 1].0 in Keys(r);
          }
        }
      }
      if Increasing(s) {
        assert sl == s[..|sl|];
        assert sr == s[|sl| + 1..];
        forall j | j in Keys(l)
          ensures j < k
        {
          var i := Position(l, j);
          assert s[i] == sl[i] && s[|sl|] == (k, v);
        }
        forall j | j in Keys(r)
          ensures k < j
        {
          var i := Position(r, j);
          assert s[|sl| + 1 + i] == sr[i] && s[|sl|] == (k, v);
        }
      }
  }

  /** A search tree holds at most one pair per key. */
  lemma {:induction false} SearchTreeKeysUnique<V>(t: Tree<V>, key: int, v1: V, v2: V)
    requires SearchTree(t)
    requires (key, v1) in InOrder(t) && (key, v2) in InOrder(t)
    ensures v1 == v2
  {
    SearchTreeIffIncreasing(t);
    var s := InOrder(t);
    var i :| 0 <= i < |s| && s[i] == (key, v1);
    var j :| 0 <= j < |s| && s[j] == (key, v2);
    assert !(i < j) && !(j < i);
  }

  // ---------------------------------------------------------------------------------------
  // Rotations (`_right_rotate`, `_left_rotate`)
  // ---------------------------------------------------------------------------------------

  /** Promotes the left child `y` of `x`: `x` becomes `y`'s right child and takes `y`'s old right subtree. */
  function RightRotate<V>(x: Tree<V>): (y: Tree<V>)
    requires x.Node? && x.left.Node?
    ensures y.Node? && y.key == x.left.key && y.value == x.left.value
    ensures y.right.Node? && y.right.key == x.key && y.right.value == x.value
    ensures InOrder(y) == InOrder(x)
    ensures Keys(y) == Keys(x)
  {
    var l := x.left;
    Node(l.left, l.key, l.value, Node(l.right, x.key, x.value, x.right))
  }

  /** Promotes the right child `y` of `x`: `x` becomes `y`'s left child and takes `y`'s old left subtree. */
  function LeftRotate<V>(x: Tree<V>): (y: Tree<V>)
    requires x.Node? && x.right.Node?
    ensures y.Node? && y.key == x.right.key && y.value == x.right.value
    ensures y.left.Node? && y.left.key == x.key && y.left.value == x.value
    ensures InOrder(y) == InOrder(x)
    ensures Keys(y) == Keys(x)
  {
    var r := x.right;
    Node(Node(x.left, x.key, x.value, r.left), r.key, r.value, r.right)
  }

  /** A left rotation undoes a right rotation. */
  lemma RotationsInverse<V>(x: Tree<V>)
    requires x.Node? && x.left.Node?
    ensures LeftRotate(RightRotate(x)) == x
  {
  }

  // ---------------------------------------------------------------------------------------
  // Splay (`_splay`)
  // ---------------------------------------------------------------------------------------

  /**
   * Restructures `t` by zig-zig / zig-zag steps towards `key`. The pairs and their order are
   * kept; an empty tree stays empty and a non-empty one stays non-empty.
   */
  function Splay<V>(t: Tree<V>, key: int): (s: Tree<V>)
    ensures InOrder(s) == InOrder(t)
    ensures Keys(s) == Keys(t)
    ensures s.Leaf? <==> t.Leaf?
  {
    match t
    case Leaf => t
    case Node(l, k, v, r) =>
      if key == k then t
      else if key < k then
        if l.Leaf? then t
        else
          var t1 :=
            if key < l.key then
              // zig-zig: splay the left-left grandchild, then rotate the root right
              var l1 := Node(Splay(l.left, key), l.key, l.value, l.right);
              assert InOrder(l1) == InOrder(l) && Keys(l1) == Keys(l);
              RightRotate(Node(l1, k, v, r))
            else if key > l.key then
              // zig-zag: splay the left-right grandchild, then rotate the left child left
              var lr := Splay(l.right, key);
              var l1 := Node(l.left, l.key, l.value, lr);
              assert InOrder(l1) == InOrder(l) && Keys(l1) == Keys(l);
              Node(if lr.Node? then LeftRotate(l1) else l1, k, v, r)
            else t;
          assert InOrder(t1) == InOrder(t) && Keys(t1) == Keys(t);
          if t1.left.Node? then RightRotate(t1) else t1
      else
        if r.Leaf? then t
        else
          var t1 :=
            if key > r.key then
              // zig-zig: splay the right-right grandchild, then rotate the root left
              var r1 := Node(r.left, r.key, r.value, Splay(r.right, key));
              assert InOrder(r1) == InOrder(r) && Keys(r1) == Keys(r);
              LeftRotate(Node(l, k, v, r1))
            else if key < r.key then
              // zig-zag: splay the right-left grandchild, then rotate the right child right
              var rl := Splay(r.left, key);
              var r1 := Node(rl, r.key, r.value, r.right);
              assert InOrder(r1) == InOrder(r) && Keys(r1) == Keys(r);
              Node(l, k, v, if rl.Node? then RightRotate(r1) else r1)
            else t;
          assert InOrder(t1) == InOrder(t) && Keys(t1) == Keys(t);
          if t1.right.Node? then LeftRotate(t1) else t1
  }

  /** Splaying keeps the BST order. */
  lemma SplayKeepsSearchTree<V>(t: Tree<V>, key: int)
    requires SearchTree(t)
    ensures SearchTree(Splay(t, key))
  {
    SearchTreeIffIncreasing(t);
    SearchTreeIffIncreasing(Splay(t, key));
  }

  /**
   * After splaying a non-empty search tree, the root holds `key` when `key` is stored, and in
   * any case no stored key lies strictly between `key` and the root's key: the root is `key`
   * itself or its nearest neighbour on one side.
   */
  lemma {:induction false} SplayBringsKeyToRoot<V>(t: Tree<V>, key: int)
    requires SearchTree(t) && t.Node?
    ensures Splay(t, key).Node?
    ensures key in Keys(t) ==> Splay(t, key).key == key
    ensures NothingBetween(Keys(t), key, Splay(t, key).key)
    decreases t, 2
  {
    if key < t.key {
      SplayLeftSteps(t, key);
    } else if key > t.key {
      SplayRightSteps(t, key);
    }
  }

  /** `SplayBringsKeyToRoot` when `key` is smaller than the root's key. */
  lemma {:induction false} SplayLeftSteps<V>(t: Tree<V>, key: int)
    requires SearchTree(t) && t.Node? && key < t.key
    ensures Splay(t, key).Node?
    ensures key in Keys(t) ==> Splay(t, key).key == key
    ensures NothingBetween(Keys(t), key, Splay(t, key).key)
    decreases t, 1
  {
    var Node(l, k, v, r) := t;
    assert key !in Keys(r);
    if l.Leaf? {
      assert Keys(l) == {} && Splay(t, key) == t;
    } else if key < l.key {
      LeftZigZig(t, key);
    } else if key > l.key {
      LeftZigZag(t, key);
    } else {
      assert Splay(t, key).key == l.key;
    }
  }

  /** The zig-zig step on the left: `key` is smaller than the left child's key. */
  lemma {:induction false} LeftZigZig<V>(t: Tree<V>, key: int)
    requires SearchTree(t) && t.Node? && key < t.key && t.left.Node? && key < t.left.key
    ensures Splay(t, key).Node?
    ensures key in Keys(t) ==> Splay(t, key).key == key
    ensures NothingBetween(Keys(t), key, Splay(t, key).key)
    decreases t, 0
  {
    var Node(l, k, v, r) := t;
    var ll := Splay(l.left, key);
    var root := Splay(t, key).key;
    assert Keys(t) == Keys(l) + {k} + Keys(r);
    assert Keys(l) == Keys(l.left) + {l.key} + Keys(l.right);
    assert key in Keys(t) ==> key in Keys(l.left);
    if ll.Node? {
      SplayBringsKeyToRoot(l.left, key);
      assert root == ll.key;
      assert ll.key in Keys(l.left) by { assert ll.key in Keys(ll); }
    } else {
      assert root == l.key;
      assert Keys(l.left) == {};
    }
    assert root <= l.key;
    forall j | j in Keys(t)
      ensures !(key < j < root) && !(root < j < key)
    {
      if j in Keys(l.left) {
      } else {
        assert j == l.key || l.key < j;
      }
    }
  }

  /** The zig-zag step on the left: `key` lies between the left child's key and the root's. */
  lemma {:induction false} LeftZigZag<V>(t: Tree<V>, key: int)
    requires SearchTree(t) && t.Node? && key < t.key && t.left.Node? && key > t.left.key
    ensures Splay(t, key).Node?
    ensures key in Keys(t) ==> Splay(t, key).key == key
    ensures NothingBetween(Keys(t), key, Splay(t, key).key)
    decreases t, 0
  {
    var Node(l, k, v, r) := t;
    var lr := Splay(l.right, key);
    var root := Splay(t, key).key;
    assert Keys(t) == Keys(l) + {k} + Keys(r);
    assert Keys(l) == Keys(l.left) + {l.key} + Keys(l.right);
    assert key in Keys(t) ==> key in Keys(l.right);
    if lr.Node? {
      SplayBringsKeyToRoot(l.right, key);
      assert root == lr.key;
      assert lr.key in Keys(l.right) by { assert lr.key in Keys(lr); }
    } else {
      assert root == l.key;
      assert Keys(l.right) == {};
    }
    assert l.key <= root < k;
    forall j | j in Keys(t)
      ensures !(key < j < root) && !(root < j < key)
    {
      if j in Keys(l.left) {
        assert j < l.key;
      } else if j in Keys(l.right) {
      } else {
        assert j == l.key || k <= j;
      }
    }
  }

  /** `SplayBringsKeyToRoot` when `key` is larger than the root's key. */
  lemma {:induction false} SplayRightSteps<V>(t: Tree<V>, key: int)
    requires SearchTree(t) && t.Node? && key > t.key
    ensures Splay(t, key).Node?
    ensures key in Keys(t) ==> Splay(t, key).key == key
    ensures NothingBetween(Keys(t), key, Splay(t, key).key)
    decreases t, 1
  {
    var Node(l, k, v, r) := t;
    assert key !in Keys(l);
    if r.Leaf? {
      assert Keys(r) == {} && Splay(t, key) == t;
    } else if key > r.key {
      RightZigZig(t, key);
    } else if key < r.key {
      RightZigZag(t, key);
    } else {
      assert Splay(t, key).key == r.key;
    }
  }

  /** The zig-zig step on the right: `key` is larger than the right child's key. */
  lemma {:induction false} RightZigZig<V>(t: Tree<V>, key: int)
    requires SearchTree(t) && t.Node? && key > t.key && t.right.Node? && key > t.right.key
    ensures Splay(t, key).Node?
    ensures key in Keys(t) ==> Splay(t, key).key == key
    ensures NothingBetween(Keys(t), key, Splay(t, key).key)
    decreases t, 0
  {
    var Node(l, k, v, r) := t;
    var rr := Splay(r.right, key);
    var root := Splay(t, key).key;
    assert Keys(t) == Keys(l) + {k} + Keys(r);
    assert Keys(r) == Keys(r.left) + {r.key} + Keys(r.right);
    assert key in Keys(t) ==> key in Keys(r.right);
    if rr.Node? {
      SplayBringsKeyToRoot(r.right, key);
      assert root == rr.key;
      assert rr.key in Keys(r.right) by { assert rr.key in Keys(rr); }
    } else {
      assert root == r.key;
      assert Keys(r.right) == {};
    }
    assert r.key <= root;
    forall j | j in Keys(t)
      ensures !(key < j < root) && !(root < j < key)
    {
      if j in Keys(r.right) {
      } else {
        assert j == r.key || j < r.key;
      }
    }
  }

  /** The zig-zag step on the right: `key` lies between the root's key and the right child's. */
  lemma {:induction false} RightZigZag<V>(t: Tree<V>, key: int)
    requires SearchTree(t) && t.Node? && key > t.key && t.right.Node? && key < t.right.key
    ensures Splay(t, key).Node?
    ensures key in Keys(t) ==> Splay(t, key).key == key
    ensures NothingBetween(Keys(t), key, Splay(t, key).key)
    decreases t, 0
  {
    var Node(l, k, v, r) := t;
    var rl := Splay(r.left, key);
    var root := Splay(t, key).key;
    assert Keys(t) == Keys(l) + {k} + Keys(r);
    assert Keys(r) == Keys(r.left) + {r.key} + Keys(r.right);
    assert key in Keys(t) ==> key in Keys(r.left);
    if rl.Node? {
      SplayBringsKeyToRoot(r.left, key);
      assert root == rl.key;
      assert rl.key in Keys(r.left) by { assert rl.key in Keys(rl); }
    } else {
      assert root == r.key;
      assert Keys(r.left) == {};
    }
    assert k < root <= r.key;
    forall j | j in Keys(t)
      ensures !(key < j < root) && !(root < j < key)
    {
      if j in Keys(r.right) {
        assert r.key < j;
      } else if j in Keys(r.left) {
      } else {
        assert j == r.key || j <= k;
      }
    }
  }

  // ---------------------------------------------------------------------------------------
  // The tree object (`SplayTree`): `insert` and `search` reassign its root
  // ---------------------------------------------------------------------------------------

  /**
   * Joining a new key above the splayed root `s` when the key is smaller, as `insert` does:
   * the BST order holds and exactly the pair (key, value) is added.
   */
  lemma JoinLeft<V>(s: Tree<V>, key: int, value: V)
    requires SearchTree(s) && s.Node? && key !in Keys(s) && key < s.key
    requires NothingBetween(Keys(s), key, s.key)
    ensures var n := Node(s.left, key, value, Node(Leaf, s.key, s.value, s.right));
      && SearchTree(n)
      && Keys(n) == Keys(s) + {key}
      && |InOrder(n)| == |InOrder(s)| + 1
      && (forall p :: p in InOrder(n) <==> p in InOrder(s) || p == (key, value))
  {
    var detached := Node(Leaf, s.key, s.value, s.right);
    assert Keys(detached) == {s.key} + Keys(s.right);
    assert InOrder(detached) == [(s.key, s.value)] + InOrder(s.right);
    forall j | j in Keys(s.left)
      ensures j < key
    {
      assert j in Keys(s);
    }
  }

  /** The mirror image of `JoinLeft`, for a new key larger than the splayed root's. */
  lemma JoinRight<V>(s: Tree<V>, key: int, value: V)
    requires SearchTree(s) && s.Node? && key !in Keys(s) && key > s.key
    requires NothingBetween(Keys(s), key, s.key)
    ensures var n := Node(Node(s.left, s.key, s.value, Leaf), key, value, s.right);
      && SearchTree(n)
      && Keys(n) == Keys(s) + {key}
      && |InOrder(n)| == |InOrder(s)| + 1
      && (forall p :: p in InOrder(n) <==> p in InOrder(s) || p == (key, value))
  {
    var detached := Node(s.left, s.key, s.value, Leaf);
    assert Keys(detached) == Keys(s.left) + {s.key};
    assert InOrder(detached) == InOrder(s.left) + [(s.key, s.value)];
    forall j | j in Keys(s.right)
      ensures key < j
    {
      assert j in Keys(s);
    }
  }

  class SplayTree<V> {
    var root: Tree<V>

    /** The object invariant: the nodes reachable from `root` are in BST order. */
    ghost predicate Valid()
      reads this
    {
      SearchTree(root)
    }

    constructor ()
      ensures Valid() && root == Leaf
    {
      root := Leaf;
    }

    /**
     * Inserts `key` unless it is already stored (the first value wins). Afterwards `key` is at
     * the root; an absent key adds exactly the pair (key, value).
     */
    method Insert(key: int, value: V)
      requires Valid()
      modifies this
      ensures Valid()
      ensures root.Node? && root.key == key
      ensures Keys(root) == Keys(old(root)) + {key}
      ensures forall p :: p in InOrder(root) ==> p in InOrder(old(root)) || p == (key, value)
      ensures old(root) == Leaf ==> root == Node(Leaf, key, value, Leaf)
      ensures key in Keys(old(root)) ==> InOrder(root) == InOrder(old(root)) && Keys(root) == Keys(old(root))
      ensures key !in Keys(old(root)) ==>
        && root.value == value
        && |InOrder(root)| == |InOrder(old(root))| + 1
        && (forall p :: p in InOrder(root) <==> p in InOrder(old(root)) || p == (key, value))
    {
      if root == Leaf {
        root := Node(Leaf, key, value, Leaf);
        return;
      }
      SplayKeepsSearchTree(root, key);
      SplayBringsKeyToRoot(root, key);
      root := Splay(root, key);
      if root.key == key {
        return;
      }
      if key < root.key {
        JoinLeft(root, key, value);
        // the new node takes the old root as its right child and the old root's left subtree;
        // the old root's left link is cleared so no subtree is shared
        var detached := Node(Leaf, root.key, root.value, root.right);
        root := Node(root.left, key, value, detached);
      } else {
        JoinRight(root, key, value);
        var detached := Node(root.left, root.key, root.value, Leaf);
        root := Node(detached, key, value, root.right);
      }
    }

    /**
     * Returns the value stored under `key`, or `None` when `key` is not stored. The pairs are
     * unchanged; only the shape changes, and a stored `key` ends at the root.
     */
    method Search(key: int) returns (r: Option<V>)
      requires Valid()
      modifies this
      ensures Valid()
      ensures InOrder(root) == InOrder(old(root)) && Keys(root) == Keys(old(root))
      ensures r.Some? <==> key in Keys(old(root))
      ensures r.Some? ==> (key, r.value) in InOrder(old(root))
      ensures key in Keys(old(root)) ==> root.Node? && root.key == key
      ensures old(root).Node? ==> root.Node? && NothingBetween(Keys(old(root)), key, root.key)
      ensures old(root) == Leaf ==> root == Leaf
    {
      SplayKeepsSearchTree(root, key);
      if root.Node? {
        SplayBringsKeyToRoot(root, key);
      }
      root := Splay(root, key);
      if root.Node? && root.key == key {
        r := Some(root.value);
      } else {
        r := None;
      }
    }
  }
}
