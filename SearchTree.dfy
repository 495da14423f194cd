/**
 * The binary-search-tree shape shared by the AVL map and the treap map.
 *
 * A `Tree` is the value of a subtree of `Node` objects: `Nil` is a null
 * child, `Node` carries the key, the value and the strategy's scalar
 * `rank` -- the stored `height` in AvlTreeMap.java, the `priority` in
 * TreapMap.java.  This module holds what both strategies share: the
 * in-order traversal, the key set and key/value map, binary-search order,
 * where the cursor walks of `find` and `maxTree` stop, the effect of `put`,
 * and the regrouping fact every rotation rests on.
 */
module SearchTree {
  import opened OrderedMap

  datatype Tree<V> = Nil | Node(left: Tree<V>, key: int, value: V, rank: int, right: Tree<V>)

  /** Number of nodes. */
  function Count<V>(t: Tree<V>): (n: nat)
  {
    match t
    case Nil => 0
    case Node(l, _, _, _, r) => Count(l) + 1 + Count(r)
  }

  /** The keys of the subtree. */
  function KeySet<V>(t: Tree<V>): (s: set<int>)
  {
    match t
    case Nil => {}
    case Node(l, k, _, _, r) => KeySet(l) + {k} + KeySet(r)
  }

  /**
   * The keys in the order `iteratorHelper` appends them: left subtree,
   * node, right subtree.  It lists every key of the subtree, one entry per
   * node.
   */
  function Inorder<V>(t: Tree<V>): (s: seq<int>)
    ensures |s| == Count(t)
  {
    match t
    case Nil => []
    case Node(l, k, _, _, r) => Inorder(l) + [k] + Inorder(r)
  }

  /** The traversal lists exactly the keys of the subtree. */
  lemma {:induction false} InorderKeys<V>(t: Tree<V>)
    ensures forall x :: x in Inorder(t) <==> x in KeySet(t)
  {
    match t
    case Nil =>
    case Node(l, k, _, _, r) =>
      InorderKeys(l);
      InorderKeys(r);
  }

  /** The key/value bindings held by the subtree. */
  function Contents<V>(t: Tree<V>): (m: map<int, V>)
    ensures m.Keys == KeySet(t)
  {
    match t
    case Nil => map[]
    case Node(l, k, v, _, r) => (Contents(l) + Contents(r))[k := v]
  }

  /** The scalar stored with each key (the per-node priority of a treap). */
  function Ranks<V>(t: Tree<V>): (m: map<int, int>)
    ensures m.Keys == KeySet(t)
  {
    match t
    case Nil => map[]
    case Node(l, k, _, p, r) => (Ranks(l) + Ranks(r))[k := p]
  }

  /**
   * Binary-search order: every key of a left subtree is below the node's
   * key and every key of a right subtree is above it.
   */
  predicate Bst<V>(t: Tree<V>)
  {
    match t
    case Nil => true
    case Node(l, k, _, _, r) =>
      && Bst(l) && Bst(r)
      && (forall x :: x in KeySet(l) ==> x < k)
      && (forall x :: x in KeySet(r) ==> k < x)
  }

  /** Ascending order of a concatenation around a pivot, in both directions. */
  lemma AscendingAround(a: seq<int>, k: int, b: seq<int>)
    ensures StrictlyAscending(a + [k] + b) <==>
      && StrictlyAscending(a) && StrictlyAscending(b)
      && (forall x :: x in a ==> x < k)
      && (forall x :: x in b ==> k < x)
  {
    if StrictlyAscending(a + [k] + b) {
      AscendingSplit(a, k, b);
    }
    if && StrictlyAscending(a) && StrictlyAscending(b)
       && (forall x :: x in a ==> x < k)
       && (forall x :: x in b ==> k < x)
    {
      AscendingJoin(a, k, b);
    }
  }

  /** The parts of an ascending concatenation are ascending and lie on either side of the pivot. */
  lemma AscendingSplit(a: seq<int>, k: int, b: seq<int>)
    requires StrictlyAscending(a + [k] + b)
    ensures StrictlyAscending(a) && StrictlyAscending(b)
    ensures forall x :: x in a ==> x < k
    ensures forall x :: x in b ==> k < x
  {
    var s := a + [k] + b;
    assert forall i :: 0 <= i < |a| ==> s[i] == a[i];
    assert s[|a|] == k;
    assert forall i :: 0 <= i < |b| ==> s[|a| + 1 + i] == b[i];
    forall x | x in a ensures x < k {
      var i :| 0 <= i < |a| && a[i] == x;
      assert s[i] < s[|a|];
    }
    forall x | x in b ensures k < x {
      var i :| 0 <= i < |b| && b[i] == x;
      assert s[|a|] < s[|a| + 1 + i];
    }
    forall i, j | 0 <= i < j < |b| ensures b[i] < b[j] {
      assert s[|a| + 1 + i] < s[|a| + 1 + j];
    }
  }

  /** Ascending parts on either side of a pivot concatenate to an ascending sequence. */
  lemma AscendingJoin(a: seq<int>, k: int, b: seq<int>)
    requires StrictlyAscending(a) && StrictlyAscending(b)
    requires forall x :: x in a ==> x < k
    requires forall x :: x in b ==> k < x
    ensures StrictlyAscending(a + [k] + b)
  {
    var s := a + [k] + b;
    assert forall i :: 0 <= i < |a| ==> s[i] == a[i];
    assert s[|a|] == k;
    assert forall i :: |a| < i < |s| ==> s[i] == b[i - |a| - 1];
    forall i, j | 0 <= i < j < |s| ensures s[i] < s[j] {
      if j < |a| {
      } else if i < |a| && j == |a| {
        assert a[i] in a;
      } else if i < |a| {
        assert a[i] in a && b[j - |a| - 1] in b;
      } else if i == |a| {
        assert b[j - |a| - 1] in b;
      }
    }
  }

  /**
   * The traversal property: a tree is in binary-search order exactly when
   * its in-order key sequence is strictly ascending.
   */
  lemma {:induction false} BstIffAscending<V>(t: Tree<V>)
    ensures Bst(t) <==> StrictlyAscending(Inorder(t))
  {
    match t
    case Nil =>
    case Node(l, k, _, _, r) =>
      BstIffAscending(l);
      BstIffAscending(r);
      InorderKeys(l);
      InorderKeys(r);
      AscendingAround(Inorder(l), k, Inorder(r));
  }

  /** In a search tree the number of nodes is the number of bindings. */
  lemma {:induction false} CountIsSize<V>(t: Tree<V>)
    requires Bst(t)
    ensures Count(t) == |Contents(t)| == |KeySet(t)|
  {
    match t
    case Nil =>
    case Node(l, k, _, _, r) =>
      CountIsSize(l);
      CountIsSize(r);
      SplitKeys(t);
      DisjointSize(KeySet(l), k, KeySet(r));
      assert |Contents(t)| == |Contents(t).Keys|;
  }

  /** The key sets of a search tree's node and its two subtrees are pairwise disjoint. */
  lemma SplitKeys<V>(t: Tree<V>)
    requires t.Node? && Bst(t)
    ensures KeySet(t.left) !! KeySet(t.right)
    ensures t.key !in KeySet(t.left) && t.key !in KeySet(t.right)
  {
    forall x | x in KeySet(t.left) ensures x !in KeySet(t.right) {
      assert x < t.key;
    }
  }

  /** The size of a union of disjoint parts. */
  lemma DisjointSize(a: set<int>, k: int, b: set<int>)
    requires a !! b && k !in a && k !in b
    ensures |a + {k} + b| == |a| + 1 + |b|
  {
    assert |a + {k}| == |a| + 1;
    assert (a + {k}) !! b;
  }

  /**
   * Rotation regrouping.  `Lean(a, x, b, y, c)` is the left-leaning pair of
   * nodes (x below y on the left), `Lift` the right-leaning pair with the
   * same subtrees in the same order (y below x on the right); a right
   * rotation turns the first into the second and a left rotation the second
   * into the first.  They list the same keys, are search trees together, and
   * hold the same bindings; when each key keeps its scalar, the key/scalar
   * maps agree as well.
   */
  function Lean<V>(a: Tree<V>, x: int, vx: V, px: int, b: Tree<V>, y: int, vy: V, py: int, c: Tree<V>): (r: Tree<V>)
  {
    Node(Node(a, x, vx, px, b), y, vy, py, c)
  }

  function Lift<V>(a: Tree<V>, x: int, vx: V, px: int, b: Tree<V>, y: int, vy: V, py: int, c: Tree<V>): (r: Tree<V>)
  {
    Node(a, x, vx, px, Node(b, y, vy, py, c))
  }

  lemma RegroupInorder<V>(a: Tree<V>, x: int, vx: V, b: Tree<V>, y: int, vy: V, c: Tree<V>,
                          p1: int, p2: int, q1: int, q2: int)
    ensures Inorder(Lean(a, x, vx, p1, b, y, vy, p2, c)) == Inorder(Lift(a, x, vx, q1, b, y, vy, q2, c))
  {
    assert Inorder(Lean(a, x, vx, p1, b, y, vy, p2, c)) == (Inorder(a) + [x] + Inorder(b)) + [y] + Inorder(c);
    assert Inorder(Lift(a, x, vx, q1, b, y, vy, q2, c)) == Inorder(a) + [x] + (Inorder(b) + [y] + Inorder(c));
  }

  lemma RegroupBst<V>(a: Tree<V>, x: int, vx: V, b: Tree<V>, y: int, vy: V, c: Tree<V>,
                      p1: int, p2: int, q1: int, q2: int)
    ensures Bst(Lean(a, x, vx, p1, b, y, vy, p2, c)) <==> Bst(Lift(a, x, vx, q1, b, y, vy, q2, c))
  {
    RegroupInorder(a, x, vx, b, y, vy, c, p1, p2, q1, q2);
    BstIffAscending(Lean(a, x, vx, p1, b, y, vy, p2, c));
    BstIffAscending(Lift(a, x, vx, q1, b, y, vy, q2, c));
  }

  /** The key facts of a search tree of two nodes. */
  lemma LeanKeys<V>(a: Tree<V>, x: int, vx: V, b: Tree<V>, y: int, vy: V, c: Tree<V>, p1: int, p2: int)
    requires Bst(Lean(a, x, vx, p1, b, y, vy, p2, c))
    ensures x < y
    ensures KeySet(a) !! KeySet(b) && KeySet(a) !! KeySet(c) && KeySet(b) !! KeySet(c)
    ensures x !in KeySet(a) + KeySet(b) + KeySet(c) && y !in KeySet(a) + KeySet(b) + KeySet(c)
  {
    assert x in KeySet(Node(a, x, vx, p1, b));
    forall z | z in KeySet(a) ensures z < x && z !in KeySet(b) && z !in KeySet(c) {
      assert z in KeySet(Node(a, x, vx, p1, b));
    }
    forall z | z in KeySet(b) ensures x < z < y && z !in KeySet(c) {
      assert z in KeySet(Node(a, x, vx, p1, b));
    }
  }

  lemma RegroupContents<V>(a: Tree<V>, x: int, vx: V, b: Tree<V>, y: int, vy: V, c: Tree<V>,
                           p1: int, p2: int, q1: int, q2: int)
    requires Bst(Lean(a, x, vx, p1, b, y, vy, p2, c))
    ensures Contents(Lean(a, x, vx, p1, b, y, vy, p2, c)) == Contents(Lift(a, x, vx, q1, b, y, vy, q2, c))
  {
    LeanKeys(a, x, vx, b, y, vy, c, p1, p2);
    MergeRegroup(Contents(a), Contents(b), Contents(c), x, vx, y, vy);
    assert Contents(Node(a, x, vx, p1, b)) == (Contents(a) + Contents(b))[x := vx];
    assert Contents(Node(b, y, vy, q2, c)) == (Contents(b) + Contents(c))[y := vy];
  }

  lemma RegroupRanks<V>(a: Tree<V>, x: int, vx: V, b: Tree<V>, y: int, vy: V, c: Tree<V>, px: int, py: int)
    requires Bst(Lean(a, x, vx, px, b, y, vy, py, c))
    ensures Ranks(Lean(a, x, vx, px, b, y, vy, py, c)) == Ranks(Lift(a, x, vx, px, b, y, vy, py, c))
  {
    LeanKeys(a, x, vx, b, y, vy, c, px, py);
    MergeRegroup(Ranks(a), Ranks(b), Ranks(c), x, px, y, py);
    assert Ranks(Node(a, x, vx, px, b)) == (Ranks(a) + Ranks(b))[x := px];
    assert Ranks(Node(b, y, vy, py, c)) == (Ranks(b) + Ranks(c))[y := py];
  }

  /** Map algebra behind `RegroupContents`: with disjoint key sets, merging regroups. */
  lemma MergeRegroup<T>(ma: map<int, T>, mb: map<int, T>, mc: map<int, T>, x: int, vx: T, y: int, vy: T)
    requires x != y
    requires ma.Keys !! mb.Keys && ma.Keys !! mc.Keys && mb.Keys !! mc.Keys
    requires x !in ma.Keys + mb.Keys + mc.Keys && y !in ma.Keys + mb.Keys + mc.Keys
    ensures ((ma + mb)[x := vx] + mc)[y := vy] == (ma + (mb + mc)[y := vy])[x := vx]
  {
  }

  /**
   * The node a `find` loop stops at: it walks left below the key, right
   * above it, and stops at the node holding the key or at null.
   */
  function FindNode<V>(t: Tree<V>, k: int): (r: Tree<V>)
    ensures r.Node? ==> r.key == k
  {
    match t
    case Nil => Nil
    case Node(l, x, _, _, r) =>
      if k < x then FindNode(l, k) else if k > x then FindNode(r, k) else t
  }

  /** In a search tree `find` succeeds exactly on the keys held, with their values and ranks. */
  lemma {:induction false} FindNodeCorrect<V>(t: Tree<V>, k: int)
    requires Bst(t)
    ensures FindNode(t, k).Node? <==> k in Contents(t)
    ensures FindNode(t, k).Node? ==> FindNode(t, k).value == Contents(t)[k]
    ensures FindNode(t, k).Node? ==> FindNode(t, k).rank == Ranks(t)[k]
  {
    match t
    case Nil =>
    case Node(l, x, _, _, r) =>
      FindNodeCorrect(l, k);
      FindNodeCorrect(r, k);
  }

  /** In a search tree the node `find` stops at heads a search subtree of it. */
  lemma {:induction false} FindNodeSubtree<V>(t: Tree<V>, k: int)
    requires Bst(t)
    ensures FindNode(t, k).Node? ==> Bst(FindNode(t, k)) && KeySet(FindNode(t, k)) <= KeySet(t)
  {
    match t
    case Nil =>
    case Node(l, x, _, _, r) =>
      if k < x {
        FindNodeSubtree(l, k);
      } else if k > x {
        FindNodeSubtree(r, k);
      }
  }

  /** The node a `maxTree` loop stops at: follow right children to the end. */
  function MaxTree<V>(t: Tree<V>): (m: Tree<V>)
    requires t.Node?
    ensures m.Node? && m.right.Nil?
    ensures m.key in KeySet(t)
  {
    if t.right.Nil? then t else MaxTree(t.right)
  }

  /** In a search tree `maxTree` reaches the largest key, with its value and rank. */
  lemma {:induction false} MaxTreeIsMax<V>(t: Tree<V>)
    requires t.Node? && Bst(t)
    ensures forall x :: x in KeySet(t) ==> x <= MaxTree(t).key
    ensures Contents(t)[MaxTree(t).key] == MaxTree(t).value
    ensures Ranks(t)[MaxTree(t).key] == MaxTree(t).rank
  {
    if t.right.Node? {
      MaxTreeIsMax(t.right);
    }
  }

  /** The tree with its values erased: the nodes' places, keys and ranks. */
  function Shape<V>(t: Tree<V>): (r: Tree<()>)
  {
    match t
    case Nil => Nil
    case Node(l, k, _, p, r) => Node(Shape(l), k, (), p, Shape(r))
  }

  /**
   * The tree after `put` writes `v` into the node `find` stops at: the
   * same shape with only that node's value replaced.
   */
  function SetValue<V>(t: Tree<V>, k: int, v: V): (r: Tree<V>)
    ensures Inorder(r) == Inorder(t) && Ranks(r) == Ranks(t)
  {
    match t
    case Nil => Nil
    case Node(l, x, w, p, r) =>
      if k < x then Node(SetValue(l, k, v), x, w, p, r)
      else if k > x then Node(l, x, w, p, SetValue(r, k, v))
      else Node(l, x, v, p, r)
  }

  /** `SetValue` leaves every node in its place with its key and rank. */
  lemma {:induction false} SetValueShape<V>(t: Tree<V>, k: int, v: V)
    ensures Shape(SetValue(t, k, v)) == Shape(t)
  {
    match t
    case Nil =>
    case Node(l, x, _, _, r) =>
      if k < x {
        SetValueShape(l, k, v);
      } else if k > x {
        SetValueShape(r, k, v);
      }
  }

  /** `SetValue` keeps binary-search order, and rebinds exactly `k` if it is present. */
  lemma SetValueBst<V>(t: Tree<V>, k: int, v: V)
    requires Bst(t)
    ensures Bst(SetValue(t, k, v))
  {
    BstIffAscending(t);
    BstIffAscending(SetValue(t, k, v));
  }

  lemma {:induction false} SetValueContents<V>(t: Tree<V>, k: int, v: V)
    requires Bst(t)
    ensures k in Contents(t) ==> Contents(SetValue(t, k, v)) == Contents(t)[k := v]
    ensures k !in Contents(t) ==> Contents(SetValue(t, k, v)) == Contents(t)
  {
    match t
    case Nil =>
    case Node(l, x, w, p, r) =>
      if k < x {
        SetValueContents(l, k, v);
        assert k !in KeySet(r);
        SetValueBelow(l, x, w, p, r, k, v);
      } else if k > x {
        SetValueContents(r, k, v);
        assert k !in KeySet(l);
        SetValueAbove(l, x, w, p, r, k, v);
      } else {
        SetValueHere(l, x, w, p, r, v);
      }
  }

  /** The case of `SetValueContents` where the key is at the node. */
  lemma SetValueHere<V>(l: Tree<V>, x: int, w: V, p: int, r: Tree<V>, v: V)
    ensures Contents(SetValue(Node(l, x, w, p, r), x, v)) == Contents(Node(l, x, w, p, r))[x := v]
  {
    assert SetValue(Node(l, x, w, p, r), x, v) == Node(l, x, v, p, r);
    assert Contents(Node(l, x, w, p, r))[x := v] == (Contents(l) + Contents(r))[x := w][x := v];
  }

  lemma SetValueBelow<V>(l: Tree<V>, x: int, w: V, p: int, r: Tree<V>, k: int, v: V)
    requires k < x && k !in KeySet(r)
    requires k in Contents(l) ==> Contents(SetValue(l, k, v)) == Contents(l)[k := v]
    requires k !in Contents(l) ==> Contents(SetValue(l, k, v)) == Contents(l)
    ensures k in Contents(Node(l, x, w, p, r)) ==> Contents(SetValue(Node(l, x, w, p, r), k, v)) == Contents(Node(l, x, w, p, r))[k := v]
    ensures k !in Contents(Node(l, x, w, p, r)) ==> Contents(SetValue(Node(l, x, w, p, r), k, v)) == Contents(Node(l, x, w, p, r))
  {
    var l' := SetValue(l, k, v);
    assert SetValue(Node(l, x, w, p, r), k, v) == Node(l', x, w, p, r);
    if k in Contents(l) {
      UpdateLeftOfMerge(Contents(l), Contents(r), x, w, k, v);
    }
  }

  lemma SetValueAbove<V>(l: Tree<V>, x: int, w: V, p: int, r: Tree<V>, k: int, v: V)
    requires k > x && k !in KeySet(l)
    requires k in Contents(r) ==> Contents(SetValue(r, k, v)) == Contents(r)[k := v]
    requires k !in Contents(r) ==> Contents(SetValue(r, k, v)) == Contents(r)
    ensures k in Contents(Node(l, x, w, p, r)) ==> Contents(SetValue(Node(l, x, w, p, r), k, v)) == Contents(Node(l, x, w, p, r))[k := v]
    ensures k !in Contents(Node(l, x, w, p, r)) ==> Contents(SetValue(Node(l, x, w, p, r), k, v)) == Contents(Node(l, x, w, p, r))
  {
    var r' := SetValue(r, k, v);
    assert SetValue(Node(l, x, w, p, r), k, v) == Node(l, x, w, p, r');
    if k in Contents(r) {
      UpdateRightOfMerge(Contents(l), Contents(r), x, w, k, v);
    }
  }

  /**
   * A node with one empty side, minus its own key, is its other subtree:
   * what `removeNode` relies on when it returns the lonely child.
   */
  lemma DropLonely<V>(c: Tree<V>, x: int, w: V, p: int, emptyLeft: bool)
    requires Bst(if emptyLeft then Node(Nil, x, w, p, c) else Node(c, x, w, p, Nil))
    ensures Bst(c)
    ensures Contents(if emptyLeft then Node(Nil, x, w, p, c) else Node(c, x, w, p, Nil)) - {x} == Contents(c)
    ensures Ranks(if emptyLeft then Node(Nil, x, w, p, c) else Node(c, x, w, p, Nil)) - {x} == Ranks(c)
  {
    assert x !in Contents(c) && x !in Ranks(c);
  }

  /** Rebinding a key of the right operand of a merge. */
  lemma UpdateRightOfMerge<T>(m: map<int, T>, n: map<int, T>, x: int, w: T, k: int, v: T)
    requires k != x
    ensures (m + n[k := v])[x := w] == (m + n)[x := w][k := v]
  {
  }

  /** Rebinding a key of the left operand of a merge that the right operand does not hold. */
  lemma UpdateLeftOfMerge<T>(m: map<int, T>, n: map<int, T>, x: int, w: T, k: int, v: T)
    requires k != x && k !in n
    ensures (m[k := v] + n)[x := w] == (m + n)[x := w][k := v]
  {
  }

  /** Removing a key of the left operand of a merge that the right operand does not hold. */
  lemma RemoveLeftOfMerge<T>(m: map<int, T>, n: map<int, T>, x: int, w: T, k: int)
    requires k != x && k !in n
    ensures ((m - {k}) + n)[x := w] == (m + n)[x := w] - {k}
  {
  }

  /** Removing a key of the right operand of a merge that the left operand does not hold. */
  lemma RemoveRightOfMerge<T>(m: map<int, T>, n: map<int, T>, x: int, w: T, k: int)
    requires k != x && k !in m
    ensures (m + (n - {k}))[x := w] == (m + n)[x := w] - {k}
  {
  }

  /** Binding an absent key and then dropping it gives back the map. */
  lemma UpdateThenRemove<T>(m: map<int, T>, k: int, v: T)
    requires k !in m
    ensures m[k := v] - {k} == m
  {
  }

  /**
   * Predecessor splicing on maps: dropping `x` from a node's bindings is the
   * same as moving binding `p` of the left part up to the node.
   */
  lemma SpliceOfMerge<T>(m: map<int, T>, n: map<int, T>, x: int, w: T, p: int)
    requires p in m && p !in n && x !in m && x !in n
    ensures ((m - {p}) + n)[p := m[p]] == (m + n)[x := w] - {x}
  {
  }
}
