/**
 * The AVL strategy of AvlTreeMap.java as functions on `Tree` values, where
 * `rank` is the node's stored `height`.  Each function follows one private
 * method of the Java class: it returns the new subtree root the way the
 * method does, with the heights it writes.  The lemmas in AvlProofs.dfy
 * state what these functions guarantee.
 */
module AvlTree {
  import opened OrderedMap
  import opened SearchTree

  function Max(a: int, b: int): (m: int)
  {
    if a > b then a else b
  }

  /** `height(n)`: the stored height, with -1 for an absent child. */
  function Height<V>(t: Tree<V>): (h: int)
    ensures NonNegHeights(t) ==> h >= -1
  {
    if t.Nil? then -1 else t.rank
  }

  /**
   * `max(n)`: the larger height of the two children (the right one on a
   * tie), and -1 for a node with no children.
   */
  function MaxChildHeight<V>(t: Tree<V>): (h: int)
    requires t.Node?
    ensures h == Max(Height(t.left), Height(t.right))
  {
    if t.left.Nil? && t.right.Nil? then -1
    else if Height(t.left) > Height(t.right) then Height(t.left)
    else Height(t.right)
  }

  /** `n.height = 1 + max(n)`: recompute a node's height from its children. */
  function Refresh<V>(t: Tree<V>): (r: Tree<V>)
    requires t.Node?
    ensures r.Node? && r.left == t.left && r.right == t.right && r.key == t.key && r.value == t.value
  {
    t.(rank := 1 + MaxChildHeight(t))
  }

  /** `balance(n)`: left height minus right height. */
  function Balance<V>(t: Tree<V>): (b: int)
    requires t.Node?
    ensures Avl(t) ==> -1 <= b <= 1
  {
    Height(t.left) - Height(t.right)
  }

  /** Every stored height is at least 0 (so every `height` is at least -1). */
  predicate NonNegHeights<V>(t: Tree<V>)
  {
    match t
    case Nil => true
    case Node(l, _, _, h, r) => NonNegHeights(l) && h >= 0 && NonNegHeights(r)
  }

  /** Every stored height is one more than the larger child height. */
  predicate HeightsCorrect<V>(t: Tree<V>)
  {
    match t
    case Nil => true
    case Node(l, _, _, h, r) =>
      HeightsCorrect(l) && HeightsCorrect(r) && h == 1 + Max(Height(l), Height(r))
  }

  /** Every balance factor lies in [-1, 1]. */
  predicate Balanced<V>(t: Tree<V>)
  {
    match t
    case Nil => true
    case Node(l, _, _, _, r) =>
      Balanced(l) && Balanced(r) && -1 <= Height(l) - Height(r) <= 1
  }

  /**
   * The AVL shape: correct heights (which are never negative, see
   * `CorrectHeightsNonNeg`) and balance factors in [-1, 1].
   */
  predicate Avl<V>(t: Tree<V>)
  {
    NonNegHeights(t) && HeightsCorrect(t) && Balanced(t)
  }

  /** What AvlTreeMap keeps after every public operation. */
  predicate Invariant<V>(t: Tree<V>)
  {
    Bst(t) && Avl(t)
  }

  /**
   * `rotateRight(n)`: the left child becomes the root, the node becomes its
   * right child and takes over its former right subtree; the lowered node's
   * height is recomputed first, then the raised node's.
   */
  function RotateRight<V>(t: Tree<V>): (r: Tree<V>)
    requires t.Node? && t.left.Node?
    ensures Inorder(r) == Inorder(t)
    ensures r.Node? && r.right.Node? && r.key == t.left.key && r.right.key == t.key
    ensures NonNegHeights(t.left) && NonNegHeights(t.right) ==> NonNegHeights(r)
  {
    var l := t.left;
    var lowered := Refresh(Node(l.right, t.key, t.value, t.rank, t.right));
    RegroupInorder(l.left, l.key, l.value, l.right, t.key, t.value, t.right, l.rank, t.rank, l.rank, t.rank);
    Refresh(Node(l.left, l.key, l.value, l.rank, lowered))
  }

  /** `rotateLeft(n)`: the mirror image of `RotateRight`. */
  function RotateLeft<V>(t: Tree<V>): (r: Tree<V>)
    requires t.Node? && t.right.Node?
    ensures Inorder(r) == Inorder(t)
    ensures r.Node? && r.left.Node? && r.key == t.right.key && r.left.key == t.key
    ensures NonNegHeights(t.left) && NonNegHeights(t.right) ==> NonNegHeights(r)
  {
    var rt := t.right;
    var lowered := Refresh(Node(t.left, t.key, t.value, t.rank, rt.left));
    RegroupInorder(t.left, t.key, t.value, rt.left, rt.key, rt.value, rt.right, t.rank, rt.rank, t.rank, rt.rank);
    Refresh(Node(lowered, rt.key, rt.value, rt.rank, rt.right))
  }

  /**
   * `balanceFix(n)`: a left-heavy node (balance above 1) is rotated right,
   * after rotating its left child left when that child leans right; a
   * right-heavy node (balance below -1) is the mirror case; finally the
   * root's height is recomputed.  Only the children's heights are read, so
   * only they need to be sane for the rotations to find their nodes.
   */
  function BalanceFix<V>(t: Tree<V>): (r: Tree<V>)
    requires t.Node? && NonNegHeights(t.left) && NonNegHeights(t.right)
    ensures Inorder(r) == Inorder(t)
    ensures r.Node? && NonNegHeights(r)
  {
    var s :=
      if Balance(t) > 1 then
        RotateRight(if Balance(t.left) < 0 then t.(left := RotateLeft(t.left)) else t)
      else if Balance(t) < -1 then
        RotateLeft(if Balance(t.right) > 0 then t.(right := RotateRight(t.right)) else t)
      else t;
    Refresh(s)
  }

  /**
   * Private `insert(n, k, v)`: descend by key, hang a fresh leaf (height 0)
   * at the empty spot, and on the way back recompute each ancestor's height
   * and rebalance it; a key already on the path is refused.
   */
  function Insert<V>(t: Tree<V>, k: int, v: V): (r: Result<Tree<V>>)
    requires NonNegHeights(t)
    ensures r.Ok? ==> r.value.Node? && NonNegHeights(r.value) && |Inorder(r.value)| == |Inorder(t)| + 1
    ensures r.Err? ==> r.error == DuplicateKey
  {
    match t
    case Nil => Ok(Node(Nil, k, v, 0, Nil))
    case Node(l, x, w, h, rt) =>
      if k < x then
        match Insert(l, k, v)
        case Err(e) => Err(e)
        case Ok(l') => Ok(BalanceFix(Refresh(Node(l', x, w, h, rt))))
      else if k > x then
        match Insert(rt, k, v)
        case Err(e) => Err(e)
        case Ok(rt') => Ok(BalanceFix(Refresh(Node(l, x, w, h, rt'))))
      else Err(DuplicateKey)
  }

  /**
   * `removeMax(n)`: unlink the rightmost node by putting its left subtree in
   * its place, recomputing heights and rebalancing on the way back.
   */
  function RemoveMax<V>(t: Tree<V>): (r: Tree<V>)
    requires t.Node? && NonNegHeights(t)
    ensures NonNegHeights(r) && |Inorder(r)| + 1 == |Inorder(t)|
  {
    if t.right.Nil? then t.left
    else BalanceFix(Refresh(t.(right := RemoveMax(t.right))))
  }

  /**
   * `removeNode(n)`: a node with at most one child is replaced by that
   * child; otherwise by the maximum node of its left subtree, which is
   * first unlinked there by `removeMax` and then takes over the left
   * remainder and the removed node's right subtree.
   */
  function RemoveNode<V>(t: Tree<V>): (r: Tree<V>)
    requires t.Node? && NonNegHeights(t)
    ensures NonNegHeights(r) && |Inorder(r)| + 1 == |Inorder(t)|
  {
    if t.left.Nil? then t.right
    else if t.right.Nil? then t.left
    else
      var m := MaxTree(t.left);
      BalanceFix(Refresh(Node(RemoveMax(t.left), m.key, m.value, m.rank, t.right)))
  }

  /**
   * `removeNow(n, k)`: descend by key and remove the node holding it,
   * recomputing heights and rebalancing each ancestor on the way back; an
   * empty spot means the key is absent.
   */
  function RemoveNow<V>(t: Tree<V>, k: int): (r: Result<Tree<V>>)
    requires NonNegHeights(t)
    ensures r.Ok? ==> NonNegHeights(r.value) && |Inorder(r.value)| + 1 == |Inorder(t)|
    ensures r.Err? ==> r.error == KeyNotFound
  {
    match t
    case Nil => Err(KeyNotFound)
    case Node(l, x, w, h, rt) =>
      if k < x then
        match RemoveNow(l, k)
        case Err(e) => Err(e)
        case Ok(l') => Ok(BalanceFix(Refresh(Node(l', x, w, h, rt))))
      else if k > x then
        match RemoveNow(rt, k)
        case Err(e) => Err(e)
        case Ok(rt') => Ok(BalanceFix(Refresh(Node(l, x, w, h, rt'))))
      else Ok(RemoveNode(t))
  }
}
