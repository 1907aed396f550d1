/**
 The in-order walk of `treeSort.go`: `bst.inorder`, which calls a visitor on
 every key left / node / right, and `bst.slice`, whose visitor appends each key
 to a slice it captures. The captured, mutated slice is modelled as state
 threaded through the visits.
 */
module Traversal {
  import opened SearchTree

  /** The keys of `t` in in-order: left subtree, node, right subtree. Every
      stored key appears, as often as it is stored, and an empty tree (only an
      empty tree) gives the empty sequence. */
  function InOrder(t: Tree): (s: seq<int>)
    ensures multiset(s) == Elements(t)
    ensures |s| == Size(t)
    ensures s == [] <==> t == Nil
  {
    match t
    case Nil => []
    case Node(l, x, r) => InOrder(l) + [x] + InOrder(r)
  }

  /** Calls `visit` on the keys of `s` from first to last. */
  function VisitAll<A>(visit: (A, int) -> A, acc: A, s: seq<int>): A
    decreases |s|
  {
    if s == [] then acc else VisitAll(visit, visit(acc, s[0]), s[1..])
  }

  lemma {:induction false} VisitAllConcat<A>(visit: (A, int) -> A, acc: A, a: seq<int>, b: seq<int>)
    ensures VisitAll(visit, acc, a + b) == VisitAll(visit, VisitAll(visit, acc, a), b)
    decreases |a|
  {
    if a != [] {
      assert (a + b)[0] == a[0] && (a + b)[1..] == a[1..] + b;
      VisitAllConcat(visit, visit(acc, a[0]), a[1..], b);
    } else {
      assert a + b == b;
    }
  }

  /** `inorder(visit)`: walks left subtree, node, right subtree, calling the
      visitor on each node's key; `acc` is the state its calls build up. The
      walk visits exactly the keys of `InOrder(t)`, each once, in that order,
      whatever the visitor does. */
  function Traverse<A>(t: Tree, visit: (A, int) -> A, acc: A): (res: A)
    ensures res == VisitAll(visit, acc, InOrder(t))
  {
    match t
    case Nil => acc
    case Node(l, x, r) =>
      VisitAllConcat(visit, acc, InOrder(l), [x]);
      VisitAllConcat(visit, acc, InOrder(l) + [x], InOrder(r));
      Traverse(r, visit, visit(Traverse(l, visit, acc), x))
  }

  /** The visitor of `bst.slice`: `sliced = append(sliced, v)`. */
  function Append(sliced: seq<int>, v: int): seq<int> {
    sliced + [v]
  }

  lemma {:induction false} VisitAllAppend(acc: seq<int>, s: seq<int>)
    ensures VisitAll(Append, acc, s) == acc + s
    decreases |s|
  {
    if s != [] {
      VisitAllAppend(acc + [s[0]], s[1..]);
      assert acc + [s[0]] + s[1..] == acc + s;
    }
  }

  /** `bst.slice`: start from an empty slice and append every visited key. */
  function Slice(t: Tree): (sliced: seq<int>)
    ensures sliced == InOrder(t)
  {
    VisitAllAppend([], InOrder(t));
    Traverse(t, Append, [])
  }

  /** Non-decreasing, for every pair of positions (and so for neighbours). */
  predicate Sorted(s: seq<int>) {
    forall i, j | 0 <= i < j < |s| :: s[i] <= s[j]
  }

  /** Joining two sorted runs around a key that separates them keeps the
      whole sorted. */
  lemma JoinSorted(a: seq<int>, x: int, b: seq<int>)
    requires Sorted(a) && Sorted(b)
    requires forall k | 0 <= k < |a| :: a[k] <= x
    requires forall k | 0 <= k < |b| :: x <= b[k]
    ensures Sorted(a + [x] + b)
  {
    var s := a + [x] + b;
    forall i, j | 0 <= i < j < |s|
      ensures s[i] <= s[j]
    {
      if j < |a| {
      } else if i > |a| {
        assert s[i] == b[i - |a| - 1] && s[j] == b[j - |a| - 1];
      } else if i == |a| {
        assert s[j] == b[j - |a| - 1];
      } else if j == |a| {
      } else {
        assert s[j] == b[j - |a| - 1];
      }
    }
  }

  /** The in-order walk of a search tree is non-decreasing. */
  lemma {:induction false} InOrderSorted(t: Tree)
    requires IsBst(t)
    ensures Sorted(InOrder(t))
  {
    match t
    case Nil =>
    case Node(l, x, r) =>
      InOrderSorted(l);
      InOrderSorted(r);
      var a, b := InOrder(l), InOrder(r);
      forall k | 0 <= k < |a|
        ensures a[k] <= x
      {
        assert a[k] in multiset(a);
      }
      forall k | 0 <= k < |b|
        ensures x <= b[k]
      {
        assert b[k] in multiset(b);
      }
      JoinSorted(a, x, b);
  }
}
