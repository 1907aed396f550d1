# Tree sort: a verified Dafny model

This project models the binary-search-tree sort of `week_2/ch_4/treeSort/treeSort.go`:

- a `bst` whose `insert` walks down from the root. It goes left when the new value is below a node's value and right otherwise, so equal keys go right. It hangs the new value as a leaf on the first nil link it meets.
- `inorder(visit)`, which calls a visitor on every value in left / node / right order.
- `slice`, whose visitor appends each value to a slice.
- `treesort`, which inserts every input value, in input order, into an empty tree and returns the tree's slice.

The model has three modules, one per component:

- `SearchTree` (`search_tree.dfy`): the `node`/`bst` types and `bst.insert`.
  - `Tree = Nil | Node(left, value, right)`. `Nil` is a nil `*node`. The `bst` struct is only its root, so a tree is represented by its root `Tree`.
  - `Insert` is the reference definition of insertion, written recursively.
  - `InsertWalk` follows the Go `for` loop step by step. It returns the path (`slot`) of the nil link it fills.
  - Pointer assignment `current.left = &node{...}` is modelled as a `Graft` of a leaf at that path.
- `Traversal` (`traversal.dfy`):
  - `InOrder` is the in-order sequence of keys.
  - `Traverse` is `inorder(visit)`. The state the Go closure captures and mutates is threaded through the visits as an accumulator.
  - `Slice` is `Traverse` with the appending visitor.
- `TreeSortDriver` (`tree_sort.dfy`):
  - `Build` is the insertion loop as a fold.
  - `TreeSort` is `treesort`.
  - `BuildLoop` and `TreeSortLoop` follow the loop as written.
  - The lemmas relate `TreeSort` to the unique sorted permutation of its input.

The source's `int` is only compared, never added to or multiplied, so Dafny's unbounded `int` models it exactly.

## Model

| member | source | states |
|---|---|---|
| SearchTree.Insert | week_2/ch_4/treeSort/treeSort.go:15-36 | insertion adds exactly one value: the tree's multiset of keys becomes the old multiset plus `v`, and the node count grows by one |
| SearchTree.InsertPreservesBst | week_2/ch_4/treeSort/treeSort.go:22-33 | if every left subtree holds keys strictly below its node and every right subtree keys at or above it (ties right) before the insert, the same holds after it |
| SearchTree.InsertAddsOneLeaf | week_2/ch_4/treeSort/treeSort.go:15-36 | every node already in the tree stays at its position with its value and its links to old nodes, and exactly one node is added; that node is therefore a leaf hung on a link that was nil |
| SearchTree.Graft | week_2/ch_4/treeSort/treeSort.go:23-31 | after the one link assignment, the path to the assigned link still exists and leads to the new subtree |
| SearchTree.GraftIntoEmptySlot | week_2/ch_4/treeSort/treeSort.go:23-31 | hanging a subtree on a nil link keeps every existing node and link and adds exactly the subtree's nodes |
| SearchTree.GraftElements | week_2/ch_4/treeSort/treeSort.go:23-31 | hanging a subtree on a nil link adds exactly the subtree's keys to the tree's multiset |
| SearchTree.GraftKeepsOffPathSubtrees | week_2/ch_4/treeSort/treeSort.go:23-31 | every subtree whose path branches away from the assigned link is identical before and after the assignment |
| SearchTree.PathStep | week_2/ch_4/treeSort/treeSort.go:27-33 | moving `current` one link down extends its path by one step, and assigning a link below `current` is the same as replacing `current`'s child |
| SearchTree.InsertWalk | week_2/ch_4/treeSort/treeSort.go:15-36 | the loop ends at a nil link and attaches the new leaf there and nowhere else; its result equals the recursive `Insert`; an empty tree becomes the single node `v` with no children |
| Traversal.InOrder | week_2/ch_4/treeSort/treeSort.go:38-49 | the walk lists every stored key as often as it is stored (same multiset, length = node count), and it is empty exactly when the tree is |
| Traversal.Traverse | week_2/ch_4/treeSort/treeSort.go:38-49 | for any visitor, `inorder` calls it once per key, in the order of `InOrder`, and ends in the state those calls produce in sequence |
| Traversal.VisitAllAppend | week_2/ch_4/treeSort/treeSort.go:51-57 | feeding a sequence of keys to the appending visitor yields the starting slice followed by exactly those keys |
| Traversal.Slice | week_2/ch_4/treeSort/treeSort.go:51-57 | the slice built from an empty slice by the appending visitor `Append` (the closure of lines 53-55) is exactly the in-order sequence |
| Traversal.InOrderSorted | week_2/ch_4/treeSort/treeSort.go:38-49 | the in-order sequence of a tree with the search-tree property is non-decreasing |
| TreeSortDriver.Build | week_2/ch_4/treeSort/treeSort.go:60-63 | the tree built from the input holds exactly the input's values (as a multiset) and has the search-tree property |
| TreeSortDriver.BuildLoop | week_2/ch_4/treeSort/treeSort.go:60-63 | the loop of walking insertions builds the same tree as inserting the values one by one, first to last |
| TreeSortDriver.TreeSort | week_2/ch_4/treeSort/treeSort.go:59-65 | the result is a permutation of the input (same multiset, same length) and is non-decreasing, both for every pair of positions and for neighbours |
| TreeSortDriver.TreeSortLoop | week_2/ch_4/treeSort/treeSort.go:59-65 | running the loop as written, then slicing, gives `TreeSort` of the input |
| TreeSortDriver.TreeSortIsTheSortedPermutation | week_2/ch_4/treeSort/treeSort.go:59-65 | any sorted sequence with the input's values is the result: the result is the unique sorted permutation of the input |
| TreeSortDriver.TreeSortIdempotent | week_2/ch_4/treeSort/treeSort.go:59-65 | sorting the result again returns it unchanged |
| TreeSortDriver.TreeSortOrderIndependent | week_2/ch_4/treeSort/treeSort.go:59-65 | two inputs holding the same values in any order give the same result |
| TreeSortDriver.TreeSortSmallInputs | week_2/ch_4/treeSort/treeSort.go:59-65 | the empty input gives the empty result, and a one-value input comes back unchanged |
| TreeSortDriver.TreeSortMainExample | week_2/ch_4/treeSort/treeSort.go:68 | the input `[2, 4, 3, 1, 9, 7, 8]` gives `[1, 2, 3, 4, 7, 8, 9]` |
| TreeSortDriver.TreeSortDuplicatesExample | week_2/ch_4/treeSort/treeSort.go:59-65 | the input `[3, 1, 3, 2, 3]` gives `[1, 2, 3, 3, 3]`, with the repeated keys side by side |
| TreeSortDriver.InsertMaxExtendsChain | week_2/ch_4/treeSort/treeSort.go:28-33 | a value at or above every key of a tree with no left links always goes right, so it lengthens the chain by one |
| TreeSortDriver.SortedInputBuildsChain | week_2/ch_4/treeSort/treeSort.go:60-63 | there is no balancing: non-decreasing input builds a tree with no left links whose height equals the input length |

## Left out

- `main` (treeSort.go:67-69) only prints the result. The value it computes is covered by `TreeSortDriver.TreeSortMainExample`.
- The other files of the repository are stand-alone language demonstrations with no logic the sort uses. They are argument echoing, duplicate-line counting over stdin, slice built-ins, declarations, constants and scoping printouts.
- Pointer identity and aliasing. The Go tree is mutated in place through pointers. The model rebuilds an immutable value instead. What matters about the mutation is still stated: `InsertWalk`, `GraftIntoEmptySlot` and `GraftKeepsOffPathSubtrees` say that exactly one nil link changes and nothing else does.
- Input immutability. `treesort` only reads `values` through `range`. Dafny sequences are values, so the model cannot mutate its input, and no separate contract is stated.
- Stability among equal keys. Equal keys go right, so they come out in insertion order. The keys are plain `int`s, though, so equal keys cannot be told apart in the output, and the order among them is not observable.
- Recursion depth and running time. The tree is never balanced. The degenerate shape is stated (`SortedInputBuildsChain`), but stack depth and cost are not modelled.
