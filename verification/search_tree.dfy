/**
 The binary search tree of `treeSort.go`: the `node` and `bst` types and
 `bst.insert`. A nil `*node` is `Nil`; the `bst` struct is nothing but its
 root, so a tree is represented by its root `Tree`.
 */
module SearchTree {

  datatype Tree = Nil | Node(left: Tree, value: int, right: Tree)

  /** A step taken while walking down from the root. */
  datatype Dir = Left | Right

  /** A freshly allocated node with no children, `&node{v, nil, nil}`. */
  function Leaf(v: int): Tree {
    Node(Nil, v, Nil)
  }

  /** The multiset of keys stored in `t`. */
  function Elements(t: Tree): multiset<int> {
    match t
    case Nil => multiset{}
    case Node(l, x, r) => Elements(l) + multiset{x} + Elements(r)
  }

  /** The number of nodes of `t`. */
  function Size(t: Tree): nat {
    match t
    case Nil => 0
    case Node(l, _, r) => Size(l) + 1 + Size(r)
  }

  /** The search-tree invariant, at every node: keys in the left subtree are
      strictly below the node's key, keys in the right subtree are at or above
      it. Equal keys therefore live to the right. */
  ghost predicate IsBst(t: Tree) {
    match t
    case Nil => true
    case Node(l, x, r) =>
      && IsBst(l)
      && IsBst(r)
      && (forall y | y in Elements(l) :: y < x)
      && (forall y | y in Elements(r) :: x <= y)
  }

  /** `bst.insert`: go left when `v` is below the node's key, right otherwise,
      and hang a new leaf at the first nil link met. */
  function Insert(t: Tree, v: int): (r: Tree)
    ensures Elements(r) == Elements(t) + multiset{v}
    ensures Size(r) == Size(t) + 1
  {
    match t
    case Nil => Leaf(v)
    case Node(l, x, rt) =>
      if v < x then Node(Insert(l, v), x, rt)
      else Node(l, x, Insert(rt, v))
  }

  lemma {:induction false} InsertPreservesBst(t: Tree, v: int)
    requires IsBst(t)
    ensures IsBst(Insert(t, v))
  {
    match t
    case Nil =>
    case Node(l, x, r) =>
      if v < x {
        var l' := Insert(l, v);
        InsertPreservesBst(l, v);
        forall y | y in Elements(l')
          ensures y < x
        {
          assert y in Elements(l) || y == v;
        }
        assert Insert(t, v) == Node(l', x, r);
      } else {
        var r' := Insert(r, v);
        InsertPreservesBst(r, v);
        forall y | y in Elements(r')
          ensures x <= y
        {
          assert y in Elements(r) || y == v;
        }
        assert Insert(t, v) == Node(l, x, r');
      }
  }

  /** Every node of `t` is still present in `u`, at the same position and with
      the same key, with the same links to the nodes of `t` below it: `u` is
      `t` with new subtrees (if any) hung from links that are nil in `t`. */
  predicate Extends(t: Tree, u: Tree) {
    match t
    case Nil => true
    case Node(l, x, r) =>
      u.Node? && u.value == x && Extends(l, u.left) && Extends(r, u.right)
  }

  /** Insertion never restructures: it keeps every existing node and link and
      adds exactly one node, which (being the only new one) is a leaf holding
      `v` in a link that was nil. */
  lemma {:induction false} InsertAddsOneLeaf(t: Tree, v: int)
    ensures Extends(t, Insert(t, v))
    ensures Size(Insert(t, v)) == Size(t) + 1
  {
    match t
    case Nil =>
    case Node(l, x, r) =>
      if v < x {
        InsertAddsOneLeaf(l, v);
        ExtendsReflexive(r);
        assert Insert(t, v) == Node(Insert(l, v), x, r);
      } else {
        InsertAddsOneLeaf(r, v);
        ExtendsReflexive(l);
        assert Insert(t, v) == Node(l, x, Insert(r, v));
      }
  }

  lemma ExtendsReflexive(t: Tree)
    ensures Extends(t, t)
  {
  }

  /** The child of a node reached by one step. */
  function Child(t: Tree, d: Dir): Tree
    requires t.Node?
  {
    if d == Left then t.left else t.right
  }

  /** `p` walks down from the root of `t` through existing nodes only; its end
      may be a node or a nil link (an empty slot). */
  predicate IsPath(t: Tree, p: seq<Dir>)
    decreases |p|
  {
    p == [] || (t.Node? && IsPath(Child(t, p[0]), p[1..]))
  }

  /** The subtree found at the end of path `p`. */
  function At(t: Tree, p: seq<Dir>): Tree
    requires IsPath(t, p)
    decreases |p|
  {
    if p == [] then t else At(Child(t, p[0]), p[1..])
  }

  /** `t` with the subtree at the end of `p` replaced by `s`: the one link
      assignment `current.left = ...` or `current.right = ...` of the Go code,
      seen from the root. */
  function Graft(t: Tree, p: seq<Dir>, s: Tree): (r: Tree)
    requires IsPath(t, p)
    ensures IsPath(r, p) && At(r, p) == s
    decreases |p|
  {
    if p == [] then s
    else if p[0] == Left then Node(Graft(t.left, p[1..], s), t.value, t.right)
    else Node(t.left, t.value, Graft(t.right, p[1..], s))
  }

  /** Filling an empty slot keeps every node already there and adds exactly
      the nodes of the grafted subtree. */
  lemma {:induction false} GraftIntoEmptySlot(t: Tree, p: seq<Dir>, s: Tree)
    requires IsPath(t, p) && At(t, p) == Nil
    ensures Extends(t, Graft(t, p, s))
    ensures Size(Graft(t, p, s)) == Size(t) + Size(s)
    decreases |p|
  {
    if p != [] {
      GraftIntoEmptySlot(Child(t, p[0]), p[1..], s);
      if p[0] == Left {
        ExtendsReflexive(t.right);
        assert Graft(t, p, s) == Node(Graft(t.left, p[1..], s), t.value, t.right);
      } else {
        ExtendsReflexive(t.left);
        assert Graft(t, p, s) == Node(t.left, t.value, Graft(t.right, p[1..], s));
      }
    }
  }

  /** Filling an empty slot adds exactly the keys of the grafted subtree. */
  lemma {:induction false} GraftElements(t: Tree, p: seq<Dir>, s: Tree)
    requires IsPath(t, p) && At(t, p) == Nil
    ensures Elements(Graft(t, p, s)) == Elements(t) + Elements(s)
    decreases |p|
  {
    if p != [] {
      GraftElements(Child(t, p[0]), p[1..], s);
      if p[0] == Left {
        var g := Graft(t.left, p[1..], s);
        assert Graft(t, p, s) == Node(g, t.value, t.right);
        assert Elements(Graft(t, p, s)) == Elements(g) + multiset{t.value} + Elements(t.right);
      } else {
        var g := Graft(t.right, p[1..], s);
        assert Graft(t, p, s) == Node(t.left, t.value, g);
        assert Elements(Graft(t, p, s)) == Elements(t.left) + multiset{t.value} + Elements(g);
      }
    }
  }

  /** A graft changes nothing off its path: every subtree whose path branches
      away from `p` is the same object before and after. */
  lemma {:induction false} GraftKeepsOffPathSubtrees(t: Tree, p: seq<Dir>, s: Tree, q: seq<Dir>)
    requires IsPath(t, p) && IsPath(t, q)
    requires !(q <= p) && !(p <= q)
    ensures IsPath(Graft(t, p, s), q) && At(Graft(t, p, s), q) == At(t, q)
    decreases |p|
  {
    if p[0] == q[0] {
      GraftKeepsOffPathSubtrees(Child(t, p[0]), p[1..], s, q[1..]);
    }
  }

  /** One more step down from where `p` ends. */
  lemma {:induction false} PathStep(t: Tree, p: seq<Dir>, d: Dir, s: Tree)
    requires IsPath(t, p) && At(t, p).Node?
    ensures IsPath(t, p + [d])
    ensures At(t, p + [d]) == Child(At(t, p), d)
    ensures Graft(t, p + [d], s) == Graft(t, p, WithChild(At(t, p), d, s))
    decreases |p|
  {
    if p != [] {
      assert (p + [d])[0] == p[0] && (p + [d])[1..] == p[1..] + [d];
      PathStep(Child(t, p[0]), p[1..], d, s);
    }
  }

  /** Node `t` with its `d` link pointed at `s`. */
  function WithChild(t: Tree, d: Dir, s: Tree): Tree
    requires t.Node?
  {
    if d == Left then Node(s, t.value, t.right) else Node(t.left, t.value, s)
  }

  /** The loop of `bst.insert`, step for step: `current` starts at the root and
      moves down until the link it would follow is nil; the new leaf goes
      there. `slot` is the path of that link. */
  method InsertWalk(t: Tree, v: int) returns (r: Tree, slot: seq<Dir>)
    ensures IsPath(t, slot) && At(t, slot) == Nil
    ensures r == Graft(t, slot, Leaf(v))
    ensures r == Insert(t, v)
    ensures t == Nil ==> r == Leaf(v)
  {
    if t == Nil {
      return Leaf(v), [];
    }
    var current := t;
    var path: seq<Dir> := [];
    while true
      invariant IsPath(t, path) && At(t, path) == current && current.Node?
      invariant Graft(t, path, Insert(current, v)) == Insert(t, v)
      decreases Size(current)
    {
      var d := if v < current.value then Left else Right;
      PathStep(t, path, d, Insert(Child(current, d), v));
      if Child(current, d) == Nil {
        PathStep(t, path, d, Leaf(v));
        return Graft(t, path + [d], Leaf(v)), path + [d];
      }
      path := path + [d];
      current := Child(current, d);
    }
  }
}
