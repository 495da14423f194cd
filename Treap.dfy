/**
 * The treap strategy of TreapMap.java as functions on `Tree` values, where
 * `rank` is the node's `priority`.  Each function follows one private
 * method of the Java class and returns the new subtree root the way the
 * method does.  The lemmas in TreapProofs.dfy state what they guarantee.
 */
module Treap {
  import opened OrderedMap
  import opened SearchTree

  /**
   * `rightRotate(n)`: the left child becomes the root and the node its
   * right child, taking over the child's former right subtree.  Priorities
   * are not touched.
   */
  function RightRotate<V>(t: Tree<V>): (r: Tree<V>)
    requires t.Node? && t.left.Node?
    ensures r.Node? && r.right.Node? && r.key == t.left.key && r.rank == t.left.rank
    ensures r.right.key == t.key && r.right.rank == t.rank
  {
    var l := t.left;
    Node(l.left, l.key, l.value, l.rank, Node(l.right, t.key, t.value, t.rank, t.right))
  }

  /** `leftRotate(n)`: the mirror image of `RightRotate`. */
  function LeftRotate<V>(t: Tree<V>): (r: Tree<V>)
    requires t.Node? && t.right.Node?
    ensures r.Node? && r.left.Node? && r.key == t.right.key && r.rank == t.right.rank
    ensures r.left.key == t.key && r.left.rank == t.rank
  {
    var rt := t.right;
    Node(Node(t.left, t.key, t.value, t.rank, rt.left), rt.key, rt.value, rt.rank, rt.right)
  }

  /** The left child exists and outranks the node. */
  predicate LeftOutranks<V>(t: Tree<V>)
    requires t.Node?
  {
    t.left.Node? && t.left.rank > t.rank
  }

  /** The right child exists and outranks the node. */
  predicate RightOutranks<V>(t: Tree<V>)
    requires t.Node?
  {
    t.right.Node? && t.right.rank > t.rank
  }

  /**
   * `balanceFix(n)`: at most one rotation -- right when the left child's
   * priority exceeds the node's, else left when the right child's does,
   * else nothing.
   */
  function BalanceFix<V>(t: Tree<V>): (r: Tree<V>)
    requires t.Node?
    ensures r.Node? && Count(r) == Count(t)
  {
    if LeftOutranks(t) then RightRotate(t)
    else if RightOutranks(t) then LeftRotate(t)
    else t
  }

  /**
   * `insertPriCheck(n, k, v, pri)`, and `insertCheck(n, k, v)` with `pri`
   * the priority the new node draws: descend by key, hang a fresh leaf with
   * priority `pri` at the empty spot, and fix each ancestor on the way back
   * -- once after reattaching the child and once more before returning; a
   * key already on the path only has its value overwritten.
   */
  function InsertPri<V>(t: Tree<V>, k: int, v: V, pri: int): (r: Tree<V>)
    ensures r.Node?
  {
    match t
    case Nil => Node(Nil, k, v, pri, Nil)
    case Node(l, x, w, p, rt) =>
      if k < x then BalanceFix(BalanceFix(Node(InsertPri(l, k, v, pri), x, w, p, rt)))
      else if k > x then BalanceFix(BalanceFix(Node(l, x, w, p, InsertPri(rt, k, v, pri))))
      else Node(l, x, v, p, rt)
  }

  /** `removeMax(n)`: unlink the rightmost node, fixing each ancestor on the way back. */
  function RemoveMax<V>(t: Tree<V>): (r: Tree<V>)
    requires t.Node?
    ensures Count(r) + 1 == Count(t)
  {
    if t.right.Nil? then t.left
    else BalanceFix(t.(right := RemoveMax(t.right)))
  }

  /**
   * `removeNode(n)`: a node with at most one child is replaced by that
   * child; otherwise the maximum node of its left subtree is unlinked there
   * and takes the node's place over both remainders, then is fixed.
   */
  function RemoveNode<V>(t: Tree<V>): (r: Tree<V>)
    requires t.Node?
    ensures Count(r) + 1 == Count(t)
  {
    if t.left.Nil? then t.right
    else if t.right.Nil? then t.left
    else
      var m := MaxTree(t.left);
      BalanceFix(Node(RemoveMax(t.left), m.key, m.value, m.rank, t.right))
  }

  /**
   * `removeNow(n, k)`: descend by key and remove the node holding it; every
   * non-empty subtree returned on the way back, the replacement included,
   * is fixed once; an empty spot means the key is absent.
   */
  function RemoveNow<V>(t: Tree<V>, k: int): (r: Result<Tree<V>>)
    ensures r.Ok? ==> Count(r.value) + 1 == Count(t)
    ensures r.Err? ==> r.error == KeyNotFound
  {
    match t
    case Nil => Err(KeyNotFound)
    case Node(l, x, w, p, rt) =>
      if k < x then
        match RemoveNow(l, k)
        case Err(e) => Err(e)
        case Ok(l') => Ok(BalanceFix(Node(l', x, w, p, rt)))
      else if k > x then
        match RemoveNow(rt, k)
        case Err(e) => Err(e)
        case Ok(rt') => Ok(BalanceFix(Node(l, x, w, p, rt')))
      else
        var u := RemoveNode(t);
        Ok(if u.Nil? then Nil else BalanceFix(u))
  }

  /** Max-heap order on priorities: no child outranks its parent. */
  predicate Heap<V>(t: Tree<V>)
  {
    match t
    case Nil => true
    case Node(l, _, _, p, r) =>
      Heap(l) && Heap(r) && (l.Node? ==> l.rank <= p) && (r.Node? ==> r.rank <= p)
  }

  /** Every priority in the subtree is at most `b`. */
  predicate RanksAtMost<V>(t: Tree<V>, b: int)
  {
    match t
    case Nil => true
    case Node(l, _, _, p, r) => p <= b && RanksAtMost(l, b) && RanksAtMost(r, b)
  }
}
