/**
 * The cursor code both maps share, written as the loops and the recursion
 * the Java methods are: the `find` loop, the `maxTree` loop and
 * `iteratorHelper`.  A cursor is the subtree it points at (`Nil` for null).
 */
module Walks {
  import opened SearchTree

  /** The `find` loop: walk left below the key, right above it, stop on the key or at null. */
  method Search<V>(root: Tree<V>, k: int) returns (n: Tree<V>)
    ensures n == FindNode(root, k)
  {
    n := root;
    while n.Node?
      invariant FindNode(n, k) == FindNode(root, k)
      decreases n
    {
      if k < n.key {
        n := n.left;
      } else if k > n.key {
        n := n.right;
      } else {
        return;
      }
    }
  }

  /** The `maxTree` loop: follow right children while there is one. */
  method MaxNode<V>(t: Tree<V>) returns (m: Tree<V>)
    requires t.Node?
    ensures m == MaxTree(t)
  {
    m := t;
    while m.right.Node?
      invariant m.Node? && MaxTree(m) == MaxTree(t)
      decreases m
    {
      m := m.right;
    }
  }

  /** `iteratorHelper`: append the subtree's keys, in order, to `keys`. */
  method IteratorHelper<V>(n: Tree<V>, keys: seq<int>) returns (out: seq<int>)
    ensures out == keys + Inorder(n)
    decreases n
  {
    if n.Nil? {
      return keys;
    }
    out := IteratorHelper(n.left, keys);
    out := out + [n.key];
    out := IteratorHelper(n.right, out);
  }
}
