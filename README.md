# Balanced binary search tree construction, in Dafny

A model of `binary_tree.rb`, a small Ruby program that builds a balanced binary
search tree from an array of integers. The model covers three pieces of that file:

- the class `Node` and its three-way comparison `<=>`;
- `BinaryTree.new(array)`, which stores the tree that `build_tree` makes from `array`;
- `build_tree` itself. It sorts the array and removes duplicates. For no values it
  returns `nil`, and for one value a leaf. Otherwise the element at index
  `length / 2` becomes the root, and the elements before and after it are built,
  in the same way, into the left and right subtrees.

Files:

- `sorting.dfy` (module `Sorting`) covers the `array.sort.uniq` step. `SortUniq`
  gives the input's values in ascending order, each once. `StrictlySortedUnique`
  proves that this result is the only sequence with those properties, so the
  sorting algorithm Ruby uses makes no difference.
- `binary_tree.dfy` (module `BinaryTree`) holds the rest. `Tree` is `Nil | Node(left, data, right)`.
  A Ruby `Node` gets its children once, right after it is created, and nothing in
  the program changes them afterwards, so an immutable datatype is faithful.
  `Build` models `build_tree`. `BuildSorted` is the part of `build_tree` after the
  `sort.uniq` line. Each recursive call sorts and deduplicates its slice again, as
  the Ruby code does.

The middle index is `(new_array.length / 2).round`. That is integer division,
which rounds down, and `Integer#round` returns its receiver unchanged. So the root
is at index `L / 2` rounded down, not `round(L / 2.0)`, which would be index 6 for
11 elements. For the program's array that is index 5, the value 8.

## Model

| member | source | states |
|---|---|---|
| `Sorting.SortUniq` | binary_tree.rb:29 | `array.sort.uniq` gives a strictly ascending sequence with exactly the input's values, no longer than the input |
| `Sorting.StrictlySortedUnique` | binary_tree.rb:29 | two strictly ascending sequences with the same values are equal, so the result of `sort.uniq` is determined by its specification alone |
| `Sorting.SortUniqOfStrictlySorted` | binary_tree.rb:29 | sorting and deduplicating an already ascending, duplicate-free array returns it unchanged (what happens to the slices passed to the recursive calls) |
| `Sorting.SortUniqIdempotent` | binary_tree.rb:29 | `a.sort.uniq.sort.uniq == a.sort.uniq` |
| `Sorting.SortUniqDependsOnlyOnElems` | binary_tree.rb:29 | two arrays with the same set of values give the same `sort.uniq` |
| `Sorting.SortUniqPermutation` | binary_tree.rb:29 | a reordering of the array gives the same `sort.uniq` |
| `Sorting.StrictlySortedOccursOnce` | binary_tree.rb:29 | in a sorted, deduplicated sequence every value occurs exactly once |
| `Sorting.SplitAtMiddle` | binary_tree.rb:33-35 | the prefix before the middle index and the suffix after it come back unchanged from `sort.uniq`, and with the middle element they make up the whole sequence |
| `BinaryTree.Compare` | binary_tree.rb:10-18 | `a <=> b` is 0 exactly when the data are equal, 1 exactly when the receiver's data is greater and -1 exactly when it is smaller; children play no part |
| `BinaryTree.CompareAntisymmetric` | binary_tree.rb:10-18 | `a <=> b == -(b <=> a)` |
| `BinaryTree.CompareTransitive` | binary_tree.rb:10-18 | if `a <=> b` and `b <=> c` are both -1 then so is `a <=> c`, as `Comparable` requires |
| `BinaryTree.Build` | binary_tree.rb:28-40 | the built tree holds exactly the values of the input array |
| `BinaryTree.BuildSorted` | binary_tree.rb:30-39 | the tree built from an already sorted, deduplicated array holds exactly its values |
| `BinaryTree.Init` | binary_tree.rb:22-24 | `BinaryTree.new(array)` stores a root whose in-order sequence is `array.sort.uniq`, which is a strict search tree and balanced by size at every node |
| `BinaryTree.BuildEmpty` | binary_tree.rb:29-30 | the result is `nil` exactly when the array is empty |
| `BinaryTree.BuildSingleton` | binary_tree.rb:29-31 | an array with one distinct value gives a single node holding it with no children |
| `BinaryTree.BuildSplitsAtMiddle` | binary_tree.rb:33-39 | for a sorted, distinct array of length `L >= 2` the root holds the element at `L / 2`, rounded down, the left child is the tree built from the elements before it and the right child the tree built from those after it |
| `BinaryTree.BuildRoot` | binary_tree.rb:29-36 | for every non-empty array the root exists and holds the element at index `length / 2` of `array.sort.uniq` |
| `BinaryTree.BuildChildren` | binary_tree.rb:33-38 | with two or more distinct values, the left subtree lists, in order, the values before the middle and the right subtree those after it |
| `BinaryTree.BuildInOrder` | binary_tree.rb:28-40 | the in-order sequence of the built tree is the input sorted ascending with duplicates removed |
| `BinaryTree.BstIffInOrderSorted` | binary_tree.rb:34-38 | a tree is a strict search tree exactly when its in-order sequence is strictly ascending |
| `BinaryTree.BuildIsBst` | binary_tree.rb:28-40 | at every node of the built tree, every value on the left is smaller than the node's data and every value on the right is larger |
| `BinaryTree.BuildOccursOnce` | binary_tree.rb:29-38 | every input value occurs exactly once in the tree and no other value occurs |
| `BinaryTree.BuildSize` | binary_tree.rb:28-40 | the tree has one node per distinct input value: its size is the length of `array.sort.uniq` and the number of distinct values in `array` |
| `BinaryTree.BuildSizeBalanced` | binary_tree.rb:33-35 | at every node of size `n` the left subtree has `n / 2` nodes, rounded down, and the right subtree `n - n / 2 - 1` |
| `BinaryTree.SizeBalancedSubtrees` | binary_tree.rb:33-35 | under that split the left subtree has as many nodes as the right one, or exactly one more |
| `BinaryTree.BuildHeight` | binary_tree.rb:33-38 | the tree on `n >= 1` distinct values has height `h` (counted in nodes) with `2^h <= 2n < 2^(h+1)`, that is `h = floor(log2 n) + 1` |
| `BinaryTree.BuildDependsOnlyOnElems` | binary_tree.rb:29 | two arrays with the same set of values give the same tree |
| `BinaryTree.BuildOfSortUniq` | binary_tree.rb:29 | building from `array.sort.uniq` gives the same tree as building from `array` |
| `BinaryTree.BuildPermutation` | binary_tree.rb:29 | reordering the array does not change the tree |
| `BinaryTree.DemoSortUniq` | binary_tree.rb:51 | the program's array, in any order, sorts and deduplicates to `[1, 3, 4, 5, 7, 8, 9, 23, 67, 324, 6345]` |
| `BinaryTree.DemoTree` | binary_tree.rb:51 | the program's array, in any order, gives root 8 with left subtree `[1, 3, 4, 5, 7]` and right subtree `[9, 23, 67, 324, 6345]` in order |

## Left out

- `pretty_print` (binary_tree.rb:44-48) is text output through `puts` and is not modelled.
- The two lines of the top-level script (binary_tree.rb:51-52) run the program and print. Their array is used only in `DemoSortUniq` and `DemoTree`.
- The algorithms behind Ruby's `Array#sort` and `Array#uniq` are not modelled. `SortUniq` is a reference function, and its contract fixes its result uniquely.
- Values are modelled as unbounded integers. Ruby raises `ArgumentError` from `sort` on values that cannot be compared, and `NoMethodError` for a `nil` array. Neither case arises for the program's array of Integers, and neither is modelled.
- The `attr_accessor` setters of `Node` are not modelled. Outside construction nothing in the program changes a node, so an immutable datatype stands for it.
- `Node` also gets `<`, `<=`, `==`, `>`, `>=`, `between?` and `clamp` from `Comparable`. Only `<=>` is modelled, with its antisymmetry and transitivity.
- `build_tree` is private and `pretty_print` is public. Visibility is not modelled.
- `BinaryTree.Compare`: `node <=> nil`, or `<=>` against any object without `data`, raises `NoMethodError` in Ruby at `other.data`, and so do the `Comparable` operators built on it. The requires clause excludes that case, and the error is not modelled. Nothing in the program calls `<=>`.
