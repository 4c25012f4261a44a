/**
 The balanced binary search tree of `binary_tree.rb`: the `Node` class with its
 three-way comparison, and `BinaryTree`, whose only behaviour is to build a
 balanced tree from an array when it is created.

 A Ruby `Node` is an object whose children are filled in once, right after it is
 allocated, and never changed again; here it is the constructor `Node` of an
 immutable datatype, and Ruby's `nil` child is `Nil`. Values are integers, the
 element type of the array the program builds its tree from.
 */
module BinaryTree {
  import opened Sorting

  /** A subtree: `Nil` (Ruby's `nil`) or a node with its data and two children. */
  datatype Tree = Nil | Node(left: Tree, data: int, right: Tree)

  /** An instance of the Ruby class `BinaryTree`: the root of its tree. */
  datatype BinaryTree = BinaryTree(root: Tree)

  // ---------------------------------------------------------------------------
  // Node#<=>
  // ---------------------------------------------------------------------------

  /** `a <=> b` on two nodes: compares their `data` and nothing else. */
  function Compare(a: Tree, b: Tree): (r: int)
    requires a.Node? && b.Node?
    ensures r == 0 <==> a.data == b.data
    ensures r == 1 <==> a.data > b.data
    ensures r == -1 <==> a.data < b.data
  {
    if a.data == b.data then 0
    else if a.data > b.data then 1
    else -1
  }

  /** Swapping the operands of `<=>` negates the answer. */
  lemma CompareAntisymmetric(a: Tree, b: Tree)
    requires a.Node? && b.Node?
    ensures Compare(a, b) == -Compare(b, a)
  {
  }

  /** The order `<=>` induces (Ruby's `Comparable#<`) is transitive. */
  lemma CompareTransitive(a: Tree, b: Tree, c: Tree)
    requires a.Node? && b.Node? && c.Node?
    requires Compare(a, b) == -1 && Compare(b, c) == -1
    ensures Compare(a, c) == -1
  {
  }

  // ---------------------------------------------------------------------------
  // Views of a tree used to state what construction achieves
  // ---------------------------------------------------------------------------

  /** The values of `t` from left to right. */
  function InOrder(t: Tree): seq<int> {
    match t
    case Nil => []
    case Node(l, x, r) => InOrder(l) + [x] + InOrder(r)
  }

  /** The set of values held by the nodes of `t`. */
  function Values(t: Tree): set<int> {
    match t
    case Nil => {}
    case Node(l, x, r) => Values(l) + {x} + Values(r)
  }

  /** The number of nodes of `t`. */
  function Size(t: Tree): nat {
    match t
    case Nil => 0
    case Node(l, _, r) => Size(l) + 1 + Size(r)
  }

  /** The number of nodes on a longest path from the root of `t` down to a leaf. */
  function Height(t: Tree): nat {
    match t
    case Nil => 0
    case Node(l, _, r) => 1 + if Height(l) < Height(r) then Height(r) else Height(l)
  }

  /** The strict binary search tree property, at every node. */
  predicate IsBst(t: Tree) {
    match t
    case Nil => true
    case Node(l, x, r) =>
      && (forall v :: v in Values(l) ==> v < x)
      && (forall v :: v in Values(r) ==> x < v)
      && IsBst(l)
      && IsBst(r)
  }

  /** At every node of size `n` the left subtree has `n / 2` nodes and the right one the rest. */
  predicate SizeBalanced(t: Tree) {
    match t
    case Nil => true
    case Node(l, _, r) =>
      && Size(l) == Size(t) / 2
      && Size(r) == Size(t) - Size(t) / 2 - 1
      && SizeBalanced(l)
      && SizeBalanced(r)
  }

  function Pow2(n: nat): nat {
    if n == 0 then 1 else 2 * Pow2(n - 1)
  }

  // ---------------------------------------------------------------------------
  // BinaryTree#build_tree and BinaryTree#initialize
  // ---------------------------------------------------------------------------

  /**
   `build_tree(array)`: sort and deduplicate; no tree for no values, a leaf for
   one value; otherwise the value at index `length / 2` (integer division
   rounds down, so the `.round` of the source has no effect) becomes the root,
   and the values before and after it are built, in the same way, into its
   left and right subtrees.
   */
  function Build(a: seq<int>): (t: Tree)
    ensures Values(t) == Elems(a)
    decreases |a|, 1
  {
    BuildSorted(SortUniq(a))
  }

  /** The rest of `build_tree` once `s` is the sorted, deduplicated input. */
  function BuildSorted(s: seq<int>): (t: Tree)
    ensures Values(t) == Elems(s)
    decreases |s|, 0
  {
    if |s| == 0 then Nil
    else if |s| == 1 then Node(Nil, s[0], Nil)
    else
      var middle := |s| / 2;
      ElemsAroundMiddle(s);
      Node(Build(s[..middle]), s[middle], Build(s[middle + 1..]))
  }

  /** `BinaryTree.new(array)`: the tree built from `array`, sorted, a search tree and balanced. */
  function Init(a: seq<int>): (bt: BinaryTree)
    ensures InOrder(bt.root) == SortUniq(a)
    ensures IsBst(bt.root)
    ensures SizeBalanced(bt.root)
  {
    BuildInOrder(a);
    BuildIsBst(a);
    BuildSizeBalanced(a);
    BinaryTree(Build(a))
  }

  // ---------------------------------------------------------------------------
  // What construction achieves
  // ---------------------------------------------------------------------------

  /** No values give no tree, and only no values do. */
  lemma BuildEmpty(a: seq<int>)
    ensures Build(a) == Nil <==> a == []
  {
    ElemsEmpty(a);
    ElemsEmpty(SortUniq(a));
  }

  /** An input with a single distinct value gives a single leaf holding it. */
  lemma BuildSingleton(a: seq<int>, x: int)
    requires Elems(a) == {x}
    ensures Build(a) == Node(Nil, x, Nil)
  {
    assert Elems([x]) == {x};
    StrictlySortedUnique(SortUniq(a), [x]);
  }

  /** On an input that is already ascending and distinct, of length two or more, the
      root is the element at index `length / 2` and the two halves around it are built. */
  lemma BuildSplitsAtMiddle(s: seq<int>)
    requires StrictlySorted(s) && |s| >= 2
    ensures Build(s) == Node(Build(s[..|s| / 2]), s[|s| / 2], Build(s[|s| / 2 + 1..]))
  {
    SortUniqOfStrictlySorted(s);
  }

  /** For any non-empty input the root holds the middle element of its sorted distinct values. */
  lemma BuildRoot(a: seq<int>)
    requires a != []
    ensures Build(a).Node?
    ensures Build(a).data == SortUniq(a)[|SortUniq(a)| / 2]
  {
    BuildEmpty(a);
  }

  /** With two or more distinct values, the left subtree holds the ones before the
      middle and the right subtree the ones after it, in order. */
  lemma BuildChildren(a: seq<int>)
    requires |SortUniq(a)| >= 2
    ensures var s, t := SortUniq(a), Build(a);
      && t.Node?
      && t.data == s[|s| / 2]
      && InOrder(t.left) == s[..|s| / 2]
      && InOrder(t.right) == s[|s| / 2 + 1..]
  {
    var s := SortUniq(a);
    SplitAtMiddle(s);
    BuildInOrder(s[..|s| / 2]);
    BuildInOrder(s[|s| / 2 + 1..]);
  }

  /** The in-order sequence of the tree is the input sorted ascending without duplicates. */
  lemma {:induction false} BuildInOrder(a: seq<int>)
    ensures InOrder(Build(a)) == SortUniq(a)
    decreases |a|
  {
    var s := SortUniq(a);
    if |s| >= 2 {
      var middle := |s| / 2;
      var left, right := s[..middle], s[middle + 1..];
      SplitAtMiddle(s);
      BuildInOrder(left);
      BuildInOrder(right);
    }
  }

  /** The in-order sequence lists exactly the tree's values. */
  lemma {:induction false} InOrderElems(t: Tree)
    ensures Elems(InOrder(t)) == Values(t)
  {
    match t
    case Nil =>
    case Node(l, x, r) =>
      InOrderElems(l);
      InOrderElems(r);
      assert Elems(InOrder(t)) == Elems(InOrder(l)) + {x} + Elems(InOrder(r));
  }

  /** The in-order sequence has one entry per node. */
  lemma {:induction false} InOrderLength(t: Tree)
    ensures |InOrder(t)| == Size(t)
  {
    match t
    case Nil =>
    case Node(l, _, r) =>
      InOrderLength(l);
      InOrderLength(r);
  }

  /** A tree is a strict search tree exactly when its in-order sequence is strictly ascending. */
  lemma {:induction false} BstIffInOrderSorted(t: Tree)
    ensures IsBst(t) <==> StrictlySorted(InOrder(t))
  {
    match t
    case Nil =>
    case Node(l, x, r) =>
      BstIffInOrderSorted(l);
      BstIffInOrderSorted(r);
      InOrderElems(l);
      InOrderElems(r);
      StrictlySortedAroundPivot(InOrder(l), x, InOrder(r));
  }

  /** The built tree is a strict binary search tree. */
  lemma BuildIsBst(a: seq<int>)
    ensures IsBst(Build(a))
  {
    BuildInOrder(a);
    BstIffInOrderSorted(Build(a));
  }

  /** Every input value is held by exactly one node, and no other value is. */
  lemma BuildOccursOnce(a: seq<int>)
    ensures multiset(InOrder(Build(a))) == multiset(Elems(a))
  {
    BuildInOrder(a);
    StrictlySortedOccursOnce(SortUniq(a));
  }

  /** The built tree has one node per distinct input value. */
  lemma BuildSize(a: seq<int>)
    ensures Size(Build(a)) == |SortUniq(a)|
    ensures Size(Build(a)) == |Elems(a)|
  {
    BuildInOrder(a);
    InOrderLength(Build(a));
    StrictlySortedLength(SortUniq(a));
  }

  /** At every node of the built tree the left subtree has half the nodes, rounded
      down, and the right subtree the rest but the node itself. */
  lemma {:induction false} BuildSizeBalanced(a: seq<int>)
    ensures SizeBalanced(Build(a))
    decreases |a|
  {
    var s := SortUniq(a);
    if |s| >= 2 {
      var middle := |s| / 2;
      var left, right := s[..middle], s[middle + 1..];
      SplitAtMiddle(s);
      BuildSizeBalanced(left);
      BuildSizeBalanced(right);
      BuildSize(left);
      BuildSize(right);
      BuildSize(a);
      assert Build(a) == Node(Build(left), s[middle], Build(right));
    }
  }

  /** In a size-balanced tree the two subtrees of a node differ in size by at most one,
      the left being the larger. */
  lemma SizeBalancedSubtrees(t: Tree)
    requires SizeBalanced(t) && t.Node?
    ensures Size(t.left) == Size(t.right) || Size(t.left) == Size(t.right) + 1
  {
  }

  /** Any tree of height `h` has fewer than `2^h` nodes. */
  lemma {:induction false} SizeBelowPow2Height(t: Tree)
    ensures Size(t) < Pow2(Height(t))
  {
    match t
    case Nil =>
    case Node(l, _, r) =>
      SizeBelowPow2Height(l);
      SizeBelowPow2Height(r);
      Pow2Monotone(Height(l), Height(t) - 1);
      Pow2Monotone(Height(r), Height(t) - 1);
  }

  /** A non-empty size-balanced tree of height `h` has at least `2^(h-1)` nodes. */
  lemma {:induction false} SizeBalancedHeight(t: Tree)
    requires SizeBalanced(t) && t.Node?
    ensures Pow2(Height(t)) <= 2 * Size(t)
  {
    var l, r := t.left, t.right;
    if l.Node? {
      SizeBalancedHeight(l);
    }
    if r.Node? {
      SizeBalancedHeight(r);
    }
  }

  lemma {:induction false} Pow2Monotone(m: nat, n: nat)
    requires m <= n
    ensures Pow2(m) <= Pow2(n)
    decreases n
  {
    if m < n {
      Pow2Monotone(m, n - 1);
    }
  }

  /** The built tree on `n >= 1` distinct values has height `floor(log2 n) + 1`:
      `2^h <= 2n < 2^(h+1)`. */
  lemma BuildHeight(a: seq<int>)
    requires a != []
    ensures Pow2(Height(Build(a))) <= 2 * |SortUniq(a)|
    ensures |SortUniq(a)| < Pow2(Height(Build(a)))
  {
    var t := Build(a);
    BuildEmpty(a);
    BuildSizeBalanced(a);
    BuildSize(a);
    assert t.Node? && SizeBalanced(t) && Size(t) == |SortUniq(a)|;
    SizeBalancedHeight(t);
    SizeBelowPow2Height(t);
  }

  /** The tree depends only on which values the input holds. */
  lemma BuildDependsOnlyOnElems(a: seq<int>, b: seq<int>)
    requires Elems(a) == Elems(b)
    ensures Build(a) == Build(b)
  {
    SortUniqDependsOnlyOnElems(a, b);
  }

  /** Building from the sorted distinct values gives the same tree as building from the input. */
  lemma BuildOfSortUniq(a: seq<int>)
    ensures Build(SortUniq(a)) == Build(a)
  {
    BuildDependsOnlyOnElems(SortUniq(a), a);
  }

  /** Reordering the input does not change the tree. */
  lemma BuildPermutation(a: seq<int>, b: seq<int>)
    requires multiset(a) == multiset(b)
    ensures Build(a) == Build(b)
  {
    SortUniqPermutation(a, b);
  }

  // ---------------------------------------------------------------------------
  // The program's own input
  // ---------------------------------------------------------------------------

  /** The demo's distinct values, listed ascending, are strictly sorted. */
  lemma DemoValuesSorted(s: seq<int>)
    requires s == [1, 3, 4, 5, 7, 8, 9, 23, 67, 324, 6345]
    ensures StrictlySorted(s)
  {
  }

  /** The demo's array holds exactly those values. */
  lemma DemoValues(a: seq<int>, s: seq<int>)
    requires multiset(a) == multiset([1, 7, 4, 23, 8, 9, 4, 3, 5, 7, 9, 67, 6345, 324])
    requires s == [1, 3, 4, 5, 7, 8, 9, 23, 67, 324, 6345]
    ensures Elems(a) == Elems(s)
  {
    forall x ensures x in a <==> x in s {
      assert x in a <==> x in multiset(a);
    }
  }

  /** The middle of the demo's distinct values and the values on either side of it. */
  lemma DemoHalves(s: seq<int>)
    requires s == [1, 3, 4, 5, 7, 8, 9, 23, 67, 324, 6345]
    ensures |s| / 2 == 5 && s[5] == 8
    ensures s[..5] == [1, 3, 4, 5, 7] && s[6..] == [9, 23, 67, 324, 6345]
  {
  }

  /** `sort.uniq` of the array the program builds its tree from, in any order. */
  lemma DemoSortUniq(a: seq<int>)
    requires multiset(a) == multiset([1, 7, 4, 23, 8, 9, 4, 3, 5, 7, 9, 67, 6345, 324])
    ensures SortUniq(a) == [1, 3, 4, 5, 7, 8, 9, 23, 67, 324, 6345]
  {
    var s := [1, 3, 4, 5, 7, 8, 9, 23, 67, 324, 6345];
    DemoValuesSorted(s);
    DemoValues(a, s);
    StrictlySortedUnique(SortUniq(a), s);
  }

  /** The array the program builds its tree from, or any reordering of it, gives
      root 8, the five smaller values on the left and the five larger ones on the right. */
  lemma DemoTree(a: seq<int>)
    requires multiset(a) == multiset([1, 7, 4, 23, 8, 9, 4, 3, 5, 7, 9, 67, 6345, 324])
    ensures var t := Init(a).root;
      && t.Node?
      && t.data == 8
      && InOrder(t.left) == [1, 3, 4, 5, 7]
      && InOrder(t.right) == [9, 23, 67, 324, 6345]
  {
    DemoSortUniq(a);
    DemoHalves(SortUniq(a));
    BuildChildren(a);
  }
}
