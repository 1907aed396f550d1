/**
 `treesort` of `treeSort.go`: insert every input value, in input order, into
 an empty tree and return the tree's slice.
 */
module TreeSortDriver {
  import opened SearchTree
  import opened Traversal

  /** The tree the `for ... range values` loop has built once it has inserted
      every element of `xs`, first to last. */
  function Build(xs: seq<int>): (t: Tree)
    ensures Elements(t) == multiset(xs)
    ensures IsBst(t)
    decreases |xs|
  {
    if xs == [] then Nil
    else
      var prefix, last := xs[..|xs| - 1], xs[|xs| - 1];
      assert xs == prefix + [last];
      var t := Build(prefix);
      InsertPreservesBst(t, last);
      Insert(t, last)
  }

  /** `treesort`: the input's values in non-decreasing order. */
  function TreeSort(xs: seq<int>): (r: seq<int>)
    ensures multiset(r) == multiset(xs)
    ensures |r| == |xs|
    ensures Sorted(r)
    ensures forall i | 0 <= i < |r| - 1 :: r[i] <= r[i + 1]
  {
    var t := Build(xs);
    InOrderSorted(t);
    var r := Slice(t);
    assert |r| == |multiset(r)| == |multiset(xs)| == |xs|;
    r
  }

  /** Inserting one more value into the tree built so far is building from
      the longer input. */
  lemma BuildAppend(xs: seq<int>, x: int)
    ensures Build(xs + [x]) == Insert(Build(xs), x)
  {
    assert (xs + [x])[..|xs|] == xs;
  }

  /** The loop's step: the tree for the first `i + 1` values is the tree for
      the first `i` with `values[i]` inserted. */
  lemma BuildStep(values: seq<int>, i: nat)
    requires i < |values|
    ensures Build(values[..i + 1]) == Insert(Build(values[..i]), values[i])
  {
    assert values[..i + 1] == values[..i] + [values[i]];
    BuildAppend(values[..i], values[i]);
  }

  /** The `for _, v := range values { tree.insert(v) }` loop of `treesort`,
      each insertion being the walk of `bst.insert`. */
  method BuildLoop(values: seq<int>) returns (tree: Tree)
    ensures tree == Build(values)
  {
    tree := Nil;
    for i := 0 to |values|
      invariant tree == Build(values[..i])
    {
      var next, slot := InsertWalk(tree, values[i]);
      BuildStep(values, i);
      tree := next;
    }
    assert values[..|values|] == values;
  }

  /** The body of `treesort` as written: build the tree by the insertion loop,
      then `slice` it. The input is only read. */
  method TreeSortLoop(values: seq<int>) returns (sorted: seq<int>)
    ensures sorted == TreeSort(values)
  {
    var tree := BuildLoop(values);
    sorted := Slice(tree);
  }

  /** The first element of a sorted sequence is at or below all of them. */
  lemma SortedHeadIsLeast(s: seq<int>, y: int)
    requires Sorted(s) && s != [] && y in multiset(s)
    ensures s[0] <= y
  {
    assert y in s;
    var k :| 0 <= k < |s| && s[k] == y;
    if k > 0 {
      assert s[0] <= s[k];
    }
  }

  lemma SortedTail(s: seq<int>)
    requires Sorted(s) && s != []
    ensures Sorted(s[1..])
  {
    forall i, j | 0 <= i < j < |s| - 1
      ensures s[1..][i] <= s[1..][j]
    {
      assert s[1..][i] == s[i + 1] && s[1..][j] == s[j + 1];
    }
  }

  lemma TailMultiset(s: seq<int>)
    requires s != []
    ensures multiset(s[1..]) == multiset(s) - multiset{s[0]}
  {
    assert s == [s[0]] + s[1..];
  }

  /** Sorted sequences with the same elements start alike and continue with
      the same elements. */
  lemma SortedPermutationsShareHead(a: seq<int>, b: seq<int>)
    requires Sorted(a) && Sorted(b) && a != []
    requires multiset(a) == multiset(b)
    ensures b != [] && a[0] == b[0]
    ensures multiset(a[1..]) == multiset(b[1..])
  {
    assert a[0] in multiset(a);
    assert b != [];
    SortedHeadIsLeast(b, a[0]);
    SortedHeadIsLeast(a, b[0]);
    TailMultiset(a);
    TailMultiset(b);
  }

  /** Two sorted sequences with the same elements are the same sequence. */
  lemma {:induction false} SortedPermutationsEqual(a: seq<int>, b: seq<int>)
    requires Sorted(a) && Sorted(b)
    requires multiset(a) == multiset(b)
    ensures a == b
    decreases |a|
  {
    if a == [] {
      assert |b| == |multiset(b)| == 0;
    } else {
      SortedPermutationsShareHead(a, b);
      SortedTail(a);
      SortedTail(b);
      SortedPermutationsEqual(a[1..], b[1..]);
      assert a == [a[0]] + a[1..];
      assert b == [b[0]] + b[1..];
    }
  }

  /** `treesort` is THE sorting function: its result is the only sorted
      sequence holding the input's values. */
  lemma TreeSortIsTheSortedPermutation(xs: seq<int>, ys: seq<int>)
    requires Sorted(ys) && multiset(ys) == multiset(xs)
    ensures TreeSort(xs) == ys
  {
    SortedPermutationsEqual(TreeSort(xs), ys);
  }

  /** Sorting a sorted sequence returns it unchanged; in particular sorting
      twice is sorting once. */
  lemma TreeSortIdempotent(xs: seq<int>)
    ensures TreeSort(TreeSort(xs)) == TreeSort(xs)
  {
    TreeSortIsTheSortedPermutation(TreeSort(xs), TreeSort(xs));
  }

  /** The order in which values are inserted does not change the result. */
  lemma TreeSortOrderIndependent(xs: seq<int>, ys: seq<int>)
    requires multiset(xs) == multiset(ys)
    ensures TreeSort(xs) == TreeSort(ys)
  {
    TreeSortIsTheSortedPermutation(ys, TreeSort(xs));
  }

  /** The empty and the one-element inputs come back unchanged. */
  lemma TreeSortSmallInputs(v: int)
    ensures TreeSort([]) == []
    ensures TreeSort([v]) == [v]
  {
  }

  /** The input `main` sorts and its sorted form hold the same values, and
      that sorted form is non-decreasing. */
  lemma MainInputSortedForm()
    ensures Sorted([1, 2, 3, 4, 7, 8, 9])
    ensures multiset([2, 4, 3, 1, 9, 7, 8]) == multiset([1, 2, 3, 4, 7, 8, 9])
  {
    var xs: seq<int>, ys: seq<int> := [2, 4, 3, 1, 9, 7, 8], [1, 2, 3, 4, 7, 8, 9];
    assert multiset(xs) == multiset{2, 4, 3, 1, 9, 7, 8};
    assert multiset(ys) == multiset{1, 2, 3, 4, 7, 8, 9};
    assert multiset{2, 4, 3, 1, 9, 7, 8} == multiset{1, 2, 3, 4, 7, 8, 9};
  }

  /** An input with repeated keys and its sorted form hold the same values,
      and that sorted form is non-decreasing. */
  lemma DuplicatesInputSortedForm()
    ensures Sorted([1, 2, 3, 3, 3])
    ensures multiset([3, 1, 3, 2, 3]) == multiset([1, 2, 3, 3, 3])
  {
    var xs: seq<int>, ys: seq<int> := [3, 1, 3, 2, 3], [1, 2, 3, 3, 3];
    assert multiset(xs) == multiset{3, 1, 3, 2, 3};
    assert multiset(ys) == multiset{1, 2, 3, 3, 3};
    assert multiset{3, 1, 3, 2, 3} == multiset{1, 2, 3, 3, 3};
  }

  /** The call made by `main`. */
  lemma TreeSortMainExample()
    ensures TreeSort([2, 4, 3, 1, 9, 7, 8]) == [1, 2, 3, 4, 7, 8, 9]
  {
    MainInputSortedForm();
    TreeSortIsTheSortedPermutation([2, 4, 3, 1, 9, 7, 8], [1, 2, 3, 4, 7, 8, 9]);
  }

  /** Repeated keys end up side by side. */
  lemma TreeSortDuplicatesExample()
    ensures TreeSort([3, 1, 3, 2, 3]) == [1, 2, 3, 3, 3]
  {
    DuplicatesInputSortedForm();
    TreeSortIsTheSortedPermutation([3, 1, 3, 2, 3], [1, 2, 3, 3, 3]);
  }

  /** No node has a left child: the tree is a chain down right links. */
  predicate RightChain(t: Tree) {
    match t
    case Nil => true
    case Node(l, _, r) => l == Nil && RightChain(r)
  }

  /** The number of nodes on the longest root-to-leaf path. */
  function Height(t: Tree): nat {
    match t
    case Nil => 0
    case Node(l, _, r) => 1 + if Height(l) < Height(r) then Height(r) else Height(l)
  }

  /** A key at or above every key of a right chain goes to its end. */
  lemma {:induction false} InsertMaxExtendsChain(t: Tree, v: int)
    requires RightChain(t)
    requires forall y | y in Elements(t) :: y <= v
    ensures RightChain(Insert(t, v))
    ensures Height(Insert(t, v)) == Height(t) + 1
  {
    match t
    case Nil =>
    case Node(l, x, r) =>
      assert Elements(t) == Elements(l) + multiset{x} + Elements(r);
      assert x in Elements(t);
      forall y | y in Elements(r)
        ensures y <= v
      {
        assert y in Elements(t);
      }
      InsertMaxExtendsChain(r, v);
      assert Insert(t, v) == Node(Nil, x, Insert(r, v));
  }

  /** No balancing: non-decreasing input (strictly increasing input included)
      builds a chain as deep as the input is long. */
  lemma {:induction false} SortedInputBuildsChain(xs: seq<int>)
    requires Sorted(xs)
    ensures RightChain(Build(xs))
    ensures Height(Build(xs)) == |xs|
    decreases |xs|
  {
    if xs != [] {
      var prefix, last := xs[..|xs| - 1], xs[|xs| - 1];
      SortedInputBuildsChain(prefix);
      forall y | y in Elements(Build(prefix))
        ensures y <= last
      {
        assert y in prefix;
      }
      InsertMaxExtendsChain(Build(prefix), last);
    }
  }
}
