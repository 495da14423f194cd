/**
 * What the AVL functions of AvlTree guarantee: rotations and `balanceFix`
 * keep the in-order keys and the bindings; `balanceFix` restores the AVL
 * shape of a node whose subtrees differ in height by at most two; private
 * `insert`, `removeMax`, `removeNode` and `removeNow` keep binary-search
 * order and the AVL shape, change the bindings by exactly the key concerned,
 * and change the height by at most one.
 */
module AvlProofs {
  import opened OrderedMap
  import opened SearchTree
  import opened AvlTree

  /** Correct heights are never negative, and a leaf's is 0. */
  lemma {:induction false} CorrectHeightsNonNeg<V>(t: Tree<V>)
    requires HeightsCorrect(t)
    ensures NonNegHeights(t)
    ensures t.Node? && t.left.Nil? && t.right.Nil? ==> t.rank == 0
  {
    match t
    case Nil =>
    case Node(l, _, _, _, r) =>
      CorrectHeightsNonNeg(l);
      CorrectHeightsNonNeg(r);
  }

  // ----- rotations keep the bindings -----

  lemma RotateRightContents<V>(t: Tree<V>)
    requires t.Node? && t.left.Node? && Bst(t)
    ensures Bst(RotateRight(t)) && Contents(RotateRight(t)) == Contents(t)
  {
    var l := t.left;
    var r := RotateRight(t);
    assert t == Lean(l.left, l.key, l.value, l.rank, l.right, t.key, t.value, t.rank, t.right);
    assert r == Lift(l.left, l.key, l.value, r.rank, l.right, t.key, t.value, r.right.rank, t.right);
    RegroupBst(l.left, l.key, l.value, l.right, t.key, t.value, t.right, l.rank, t.rank, r.rank, r.right.rank);
    RegroupContents(l.left, l.key, l.value, l.right, t.key, t.value, t.right, l.rank, t.rank, r.rank, r.right.rank);
  }

  lemma RotateLeftContents<V>(t: Tree<V>)
    requires t.Node? && t.right.Node? && Bst(t)
    ensures Bst(RotateLeft(t)) && Contents(RotateLeft(t)) == Contents(t)
  {
    var rt := t.right;
    var r := RotateLeft(t);
    assert t == Lift(t.left, t.key, t.value, t.rank, rt.left, rt.key, rt.value, rt.rank, rt.right);
    assert r == Lean(t.left, t.key, t.value, r.left.rank, rt.left, rt.key, rt.value, r.rank, rt.right);
    RegroupBst(t.left, t.key, t.value, rt.left, rt.key, rt.value, rt.right, r.left.rank, r.rank, t.rank, rt.rank);
    RegroupContents(t.left, t.key, t.value, rt.left, rt.key, rt.value, rt.right, r.left.rank, r.rank, t.rank, rt.rank);
  }

  /** Replacing a child by a tree with the same bindings keeps order and bindings. */
  lemma ReplaceChild<V>(t: Tree<V>, c: Tree<V>, left: bool)
    requires t.Node? && Bst(t) && Bst(c)
    requires Contents(c) == Contents(if left then t.left else t.right)
    ensures Bst(if left then t.(left := c) else t.(right := c))
    ensures Contents(if left then t.(left := c) else t.(right := c)) == Contents(t)
  {
    assert KeySet(c) == Contents(c).Keys;
  }

  /** `balanceFix` keeps binary-search order and the bindings. */
  lemma BalanceFixContents<V>(t: Tree<V>)
    requires t.Node? && NonNegHeights(t.left) && NonNegHeights(t.right) && Bst(t)
    ensures Bst(BalanceFix(t)) && Contents(BalanceFix(t)) == Contents(t)
  {
    if Balance(t) > 1 {
      if Balance(t.left) < 0 {
        RotateLeftContents(t.left);
        ReplaceChild(t, RotateLeft(t.left), true);
        RotateRightContents(t.(left := RotateLeft(t.left)));
      } else {
        RotateRightContents(t);
      }
    } else if Balance(t) < -1 {
      if Balance(t.right) > 0 {
        RotateRightContents(t.right);
        ReplaceChild(t, RotateRight(t.right), false);
        RotateLeftContents(t.(right := RotateRight(t.right)));
      } else {
        RotateLeftContents(t);
      }
    }
  }

  // ----- balanceFix restores the AVL shape -----

  lemma SingleRightAvl<V>(t: Tree<V>)
    requires t.Node? && t.left.Node? && Avl(t.left) && Avl(t.right)
    requires Balance(t) == 2 && Balance(t.left) >= 0
    ensures Avl(RotateRight(t)) && Refresh(RotateRight(t)) == RotateRight(t)
    ensures Height(t.left) <= Height(RotateRight(t)) <= Height(t.left) + 1
  {
    CorrectHeightsNonNeg(t.left.left);
    CorrectHeightsNonNeg(t.left.right);
  }

  lemma DoubleRightAvl<V>(t: Tree<V>)
    requires t.Node? && t.left.Node? && Avl(t.left) && Avl(t.right)
    requires Balance(t) == 2 && Balance(t.left) < 0
    ensures t.left.right.Node?
    ensures Avl(RotateRight(t.(left := RotateLeft(t.left))))
    ensures Refresh(RotateRight(t.(left := RotateLeft(t.left)))) == RotateRight(t.(left := RotateLeft(t.left)))
    ensures Height(RotateRight(t.(left := RotateLeft(t.left)))) == Height(t.left)
  {
    var a := t.left;
    var b := a.right;
    assert b.Node?;
    assert HeightsCorrect(a) && Balanced(a) && NonNegHeights(a);
    assert HeightsCorrect(b) && Balanced(b) && NonNegHeights(b);
    CorrectHeightsNonNeg(a.left);
    CorrectHeightsNonNeg(b.left);
    CorrectHeightsNonNeg(b.right);
  }

  lemma SingleLeftAvl<V>(t: Tree<V>)
    requires t.Node? && t.right.Node? && Avl(t.left) && Avl(t.right)
    requires Balance(t) == -2 && Balance(t.right) <= 0
    ensures Avl(RotateLeft(t)) && Refresh(RotateLeft(t)) == RotateLeft(t)
    ensures Height(t.right) <= Height(RotateLeft(t)) <= Height(t.right) + 1
  {
    CorrectHeightsNonNeg(t.right.left);
    CorrectHeightsNonNeg(t.right.right);
  }

  lemma DoubleLeftAvl<V>(t: Tree<V>)
    requires t.Node? && t.right.Node? && Avl(t.left) && Avl(t.right)
    requires Balance(t) == -2 && Balance(t.right) > 0
    ensures t.right.left.Node?
    ensures Avl(RotateLeft(t.(right := RotateRight(t.right))))
    ensures Refresh(RotateLeft(t.(right := RotateRight(t.right)))) == RotateLeft(t.(right := RotateRight(t.right)))
    ensures Height(RotateLeft(t.(right := RotateRight(t.right)))) == Height(t.right)
  {
    var a := t.right;
    var b := a.left;
    assert b.Node?;
    assert HeightsCorrect(a) && Balanced(a) && NonNegHeights(a);
    assert HeightsCorrect(b) && Balanced(b) && NonNegHeights(b);
    CorrectHeightsNonNeg(a.right);
    CorrectHeightsNonNeg(b.left);
    CorrectHeightsNonNeg(b.right);
  }

  /**
   * `balanceFix` on a node whose subtrees are AVL trees differing in height
   * by at most two yields an AVL tree, no lower than the taller subtree and
   * at most one above it; when the node was already balanced it only
   * recomputes the node's height.
   */
  lemma BalanceFixAvl<V>(t: Tree<V>)
    requires t.Node? && Avl(t.left) && Avl(t.right)
    requires -2 <= Balance(t) <= 2
    ensures Avl(BalanceFix(t))
    ensures Max(Height(t.left), Height(t.right)) <= Height(BalanceFix(t)) <= Max(Height(t.left), Height(t.right)) + 1
    ensures -1 <= Balance(t) <= 1 ==> BalanceFix(t) == Refresh(t)
  {
    if Balance(t) > 1 {
      if Balance(t.left) < 0 {
        DoubleRightAvl(t);
      } else {
        SingleRightAvl(t);
      }
    } else if Balance(t) < -1 {
      if Balance(t.right) > 0 {
        DoubleLeftAvl(t);
      } else {
        SingleLeftAvl(t);
      }
    }
  }

  // ----- one step on the way back up -----

  /**
   * A node rebuilt over a new left subtree whose height moved by at most
   * one, then rebalanced: still an AVL tree, and its height moved the same
   * way by at most one.
   */
  lemma RebuildLeftAvl<V>(t: Tree<V>, u: Tree<V>)
    requires t.Node? && Avl(t) && u.Node? && Avl(u.left) && u.right == t.right
    requires Height(t.left) - 1 <= Height(u.left) <= Height(t.left) + 1
    ensures Avl(BalanceFix(Refresh(u)))
    ensures Height(u.left) >= Height(t.left) ==> Height(t) <= Height(BalanceFix(Refresh(u))) <= Height(t) + 1
    ensures Height(u.left) <= Height(t.left) ==> Height(t) - 1 <= Height(BalanceFix(Refresh(u))) <= Height(t)
  {
    BalanceFixAvl(Refresh(u));
  }

  /** The mirror image of `RebuildLeftAvl`. */
  lemma RebuildRightAvl<V>(t: Tree<V>, u: Tree<V>)
    requires t.Node? && Avl(t) && u.Node? && Avl(u.right) && u.left == t.left
    requires Height(t.right) - 1 <= Height(u.right) <= Height(t.right) + 1
    ensures Avl(BalanceFix(Refresh(u)))
    ensures Height(u.right) >= Height(t.right) ==> Height(t) <= Height(BalanceFix(Refresh(u))) <= Height(t) + 1
    ensures Height(u.right) <= Height(t.right) ==> Height(t) - 1 <= Height(BalanceFix(Refresh(u))) <= Height(t)
  {
    BalanceFixAvl(Refresh(u));
  }

  // ----- insert -----

  /**
   * Private `insert` refuses exactly the keys already present; otherwise the
   * result is a search tree binding `k` to `v` on top of the old bindings.
   */
  lemma {:induction false} InsertContents<V>(t: Tree<V>, k: int, v: V)
    requires NonNegHeights(t) && Bst(t)
    ensures Insert(t, k, v).Err? <==> k in KeySet(t)
    ensures Insert(t, k, v).Ok? ==>
      Bst(Insert(t, k, v).value) && Contents(Insert(t, k, v).value) == Contents(t)[k := v]
  {
    match t
    case Nil =>
    case Node(l, x, w, h, rt) =>
      if k < x {
        InsertContents(l, k, v);
        if Insert(l, k, v).Ok? {
          InsertBelow(l, x, w, h, rt, Insert(l, k, v).value, k, v);
        }
      } else if k > x {
        InsertContents(rt, k, v);
        if Insert(rt, k, v).Ok? {
          InsertAbove(l, x, w, h, rt, Insert(rt, k, v).value, k, v);
        }
      }
  }

  /** The step of `InsertContents` for a key inserted into the left subtree. */
  lemma InsertBelow<V>(l: Tree<V>, x: int, w: V, h: int, rt: Tree<V>, l': Tree<V>, k: int, v: V)
    requires Bst(Node(l, x, w, h, rt)) && k < x
    requires NonNegHeights(l') && NonNegHeights(rt)
    requires Bst(l') && Contents(l') == Contents(l)[k := v]
    ensures Bst(BalanceFix(Refresh(Node(l', x, w, h, rt))))
    ensures Contents(BalanceFix(Refresh(Node(l', x, w, h, rt)))) == Contents(Node(l, x, w, h, rt))[k := v]
  {
    assert KeySet(l') == KeySet(l) + {k} by {
      assert Contents(l').Keys == Contents(l).Keys + {k};
    }
    assert Bst(Node(l', x, w, h, rt));
    BalanceFixContents(Refresh(Node(l', x, w, h, rt)));
    UpdateLeftOfMerge(Contents(l), Contents(rt), x, w, k, v);
  }

  /** The step of `InsertContents` for a key inserted into the right subtree. */
  lemma InsertAbove<V>(l: Tree<V>, x: int, w: V, h: int, rt: Tree<V>, rt': Tree<V>, k: int, v: V)
    requires Bst(Node(l, x, w, h, rt)) && k > x
    requires NonNegHeights(l) && NonNegHeights(rt')
    requires Bst(rt') && Contents(rt') == Contents(rt)[k := v]
    ensures Bst(BalanceFix(Refresh(Node(l, x, w, h, rt'))))
    ensures Contents(BalanceFix(Refresh(Node(l, x, w, h, rt')))) == Contents(Node(l, x, w, h, rt))[k := v]
  {
    assert KeySet(rt') == KeySet(rt) + {k} by {
      assert Contents(rt').Keys == Contents(rt).Keys + {k};
    }
    assert Bst(Node(l, x, w, h, rt'));
    BalanceFixContents(Refresh(Node(l, x, w, h, rt')));
    UpdateRightOfMerge(Contents(l), Contents(rt), x, w, k, v);
  }

  /** Private `insert` keeps the AVL shape and raises the height by at most one. */
  lemma {:induction false} InsertAvl<V>(t: Tree<V>, k: int, v: V)
    requires Avl(t)
    ensures Insert(t, k, v).Ok? ==>
      Avl(Insert(t, k, v).value) &&
      Height(t) <= Height(Insert(t, k, v).value) <= Height(t) + 1
  {
    match t
    case Nil =>
    case Node(l, x, w, h, rt) =>
      if k < x {
        InsertAvl(l, k, v);
        if Insert(l, k, v).Ok? {
          RebuildLeftAvl(t, Node(Insert(l, k, v).value, x, w, h, rt));
        }
      } else if k > x {
        InsertAvl(rt, k, v);
        if Insert(rt, k, v).Ok? {
          RebuildRightAvl(t, Node(l, x, w, h, Insert(rt, k, v).value));
        }
      }
  }

  // ----- removeMax, removeNode, removeNow -----

  /** `removeMax` drops exactly the binding of the key `maxTree` finds. */
  lemma {:induction false} RemoveMaxContents<V>(t: Tree<V>)
    requires t.Node? && NonNegHeights(t) && Bst(t)
    ensures Bst(RemoveMax(t)) && Contents(RemoveMax(t)) == Contents(t) - {MaxTree(t).key}
  {
    var Node(l, x, w, h, rt) := t;
    if rt.Nil? {
      assert Contents(t) - {x} == Contents(l) by {
        assert x !in Contents(l);
        assert Contents(t) == Contents(l)[x := w];
      }
    } else {
      RemoveMaxContents(rt);
      var rt' := RemoveMax(rt);
      var m := MaxTree(rt).key;
      assert KeySet(rt') <= KeySet(rt) by {
        assert Contents(rt').Keys <= Contents(rt).Keys;
      }
      var u := Node(l, x, w, h, rt');
      assert Bst(u);
      BalanceFixContents(Refresh(u));
      RemoveRightOfMerge(Contents(l), Contents(rt), x, w, m);
    }
  }

  /** `removeMax` keeps the AVL shape and lowers the height by at most one. */
  lemma {:induction false} RemoveMaxAvl<V>(t: Tree<V>)
    requires t.Node? && Avl(t)
    ensures Avl(RemoveMax(t)) && Height(t) - 1 <= Height(RemoveMax(t)) <= Height(t)
  {
    var Node(l, x, w, h, rt) := t;
    if rt.Node? {
      RemoveMaxAvl(rt);
      RebuildRightAvl(t, Node(l, x, w, h, RemoveMax(rt)));
    }
  }

  /** `removeNode` drops exactly the binding of the node's own key. */
  lemma RemoveNodeContents<V>(t: Tree<V>)
    requires t.Node? && NonNegHeights(t) && Bst(t)
    ensures Bst(RemoveNode(t)) && Contents(RemoveNode(t)) == Contents(t) - {t.key}
  {
    if t.left.Nil? {
      DropLonely(t.right, t.key, t.value, t.rank, true);
    } else if t.right.Nil? {
      DropLonely(t.left, t.key, t.value, t.rank, false);
    } else {
      RemoveNodeSplice(t.left, t.key, t.value, t.rank, t.right);
    }
  }

  /** The case of `RemoveNodeContents` where the maximum of the left subtree takes the node's place. */
  lemma RemoveNodeSplice<V>(l: Tree<V>, x: int, w: V, h: int, rt: Tree<V>)
    requires l.Node? && NonNegHeights(l) && NonNegHeights(rt) && Bst(Node(l, x, w, h, rt))
    ensures var m := MaxTree(l);
      var r := BalanceFix(Refresh(Node(RemoveMax(l), m.key, m.value, m.rank, rt)));
      Bst(r) && Contents(r) == Contents(Node(l, x, w, h, rt)) - {x}
  {
    var m := MaxTree(l);
    MaxTreeIsMax(l);
    RemoveMaxContents(l);
    var l' := RemoveMax(l);
    assert KeySet(l') == KeySet(l) - {m.key} by {
      assert Contents(l').Keys == Contents(l).Keys - {m.key};
    }
    var u := Node(l', m.key, m.value, m.rank, rt);
    assert Bst(u) by {
      forall z | z in KeySet(l') ensures z < m.key {
        assert z in KeySet(l) && z != m.key;
      }
      forall z | z in KeySet(rt) ensures z > m.key {
        assert m.key < x < z;
      }
    }
    BalanceFixContents(Refresh(u));
    SpliceOfMerge(Contents(l), Contents(rt), x, w, m.key);
  }

  /** `removeNode` keeps the AVL shape and lowers the height by at most one. */
  lemma RemoveNodeAvl<V>(t: Tree<V>)
    requires t.Node? && Avl(t)
    ensures Avl(RemoveNode(t)) && Height(t) - 1 <= Height(RemoveNode(t)) <= Height(t)
  {
    var Node(l, x, w, h, rt) := t;
    if l.Node? && rt.Node? {
      var m := MaxTree(l);
      RemoveMaxAvl(l);
      RebuildLeftAvl(t, Node(RemoveMax(l), m.key, m.value, m.rank, rt));
    }
  }

  /**
   * `removeNow` reports exactly the absent keys as not found; otherwise the
   * result is a search tree with the binding of `k` dropped.
   */
  lemma {:induction false} RemoveNowContents<V>(t: Tree<V>, k: int)
    requires NonNegHeights(t) && Bst(t)
    ensures RemoveNow(t, k).Err? <==> k !in KeySet(t)
    ensures RemoveNow(t, k).Ok? ==>
      Bst(RemoveNow(t, k).value) && Contents(RemoveNow(t, k).value) == Contents(t) - {k}
  {
    match t
    case Nil =>
    case Node(l, x, w, h, rt) =>
      if k < x {
        RemoveNowContents(l, k);
        if RemoveNow(l, k).Ok? {
          var l' := RemoveNow(l, k).value;
          assert KeySet(l') <= KeySet(l) by {
            assert Contents(l').Keys <= Contents(l).Keys;
          }
          var u := Node(l', x, w, h, rt);
          assert Bst(u);
          BalanceFixContents(Refresh(u));
          RemoveLeftOfMerge(Contents(l), Contents(rt), x, w, k);
        }
      } else if k > x {
        RemoveNowContents(rt, k);
        if RemoveNow(rt, k).Ok? {
          var rt' := RemoveNow(rt, k).value;
          assert KeySet(rt') <= KeySet(rt) by {
            assert Contents(rt').Keys <= Contents(rt).Keys;
          }
          var u := Node(l, x, w, h, rt');
          assert Bst(u);
          BalanceFixContents(Refresh(u));
          RemoveRightOfMerge(Contents(l), Contents(rt), x, w, k);
        }
      } else {
        RemoveNodeContents(t);
      }
  }

  /** `removeNow` keeps the AVL shape and lowers the height by at most one. */
  lemma {:induction false} RemoveNowAvl<V>(t: Tree<V>, k: int)
    requires Avl(t)
    ensures RemoveNow(t, k).Ok? ==>
      Avl(RemoveNow(t, k).value) &&
      Height(t) - 1 <= Height(RemoveNow(t, k).value) <= Height(t)
  {
    match t
    case Nil =>
    case Node(l, x, w, h, rt) =>
      if k < x {
        RemoveNowAvl(l, k);
        if RemoveNow(l, k).Ok? {
          RebuildLeftAvl(t, Node(RemoveNow(l, k).value, x, w, h, rt));
        }
      } else if k > x {
        RemoveNowAvl(rt, k);
        if RemoveNow(rt, k).Ok? {
          RebuildRightAvl(t, Node(l, x, w, h, RemoveNow(rt, k).value));
        }
      } else {
        RemoveNodeAvl(t);
      }
  }

  // ----- put -----

  /** `put` rewrites one value: heights, and with them the AVL shape, stay as they were. */
  lemma {:induction false} SetValueAvl<V>(t: Tree<V>, k: int, v: V)
    ensures Height(SetValue(t, k, v)) == Height(t)
    ensures Avl(t) ==> Avl(SetValue(t, k, v))
  {
    match t
    case Nil =>
    case Node(l, x, _, _, r) =>
      if k < x {
        SetValueAvl(l, k, v);
      } else if k > x {
        SetValueAvl(r, k, v);
      }
  }

  // ----- find -----

  /** The subtree a search stops at is itself an AVL tree. */
  lemma {:induction false} FindNodeAvl<V>(t: Tree<V>, k: int)
    requires Avl(t)
    ensures Avl(FindNode(t, k))
  {
    match t
    case Nil =>
    case Node(l, x, _, _, r) =>
      if k < x {
        FindNodeAvl(l, k);
      } else if k > x {
        FindNodeAvl(r, k);
      }
  }

  // ----- round trip and concrete cases -----

  /**
   * Inserting an absent key and then removing it gives back the bindings
   * held before, in an AVL search tree again (the shape may differ).
   */
  lemma InsertRemoveRoundTrip<V>(t: Tree<V>, k: int, v: V)
    requires Invariant(t) && k !in Contents(t)
    ensures Insert(t, k, v).Ok?
    ensures var u := Insert(t, k, v).value;
      RemoveNow(u, k).Ok? && Invariant(RemoveNow(u, k).value) &&
      Contents(RemoveNow(u, k).value) == Contents(t)
  {
    InsertContents(t, k, v);
    InsertAvl(t, k, v);
    var u := Insert(t, k, v).value;
    assert k in KeySet(u) by {
      assert k in Contents(u);
    }
    RemoveNowContents(u, k);
    RemoveNowAvl(u, k);
    UpdateThenRemove(Contents(t), k, v);
  }

  /** The balanced tree of three nodes 1, 2, 3 with value `v`. */
  function Three<V>(v: V): Tree<V>
  {
    Node(Node(Nil, 1, v, 0, Nil), 2, v, 1, Node(Nil, 3, v, 0, Nil))
  }

  /** Inserting 1, 2, 3 in that order: one left rotation makes 2 the root, of height 1. */
  lemma AscendingInserts<V>(v: V)
    ensures Insert(Nil, 1, v).Ok? && Insert(Insert(Nil, 1, v).value, 2, v).Ok?
    ensures Insert(Insert(Insert(Nil, 1, v).value, 2, v).value, 3, v) == Ok(Three(v))
  {
    var one := Node(Nil, 1, v, 0, Nil);
    var two := Node(Nil, 1, v, 1, Node(Nil, 2, v, 0, Nil));
    assert Insert(Nil, 1, v) == Ok(one);
    assert Insert(one, 2, v) == Ok(two);
    var u := Node(Nil, 1, v, 1, Node(Nil, 2, v, 1, Node(Nil, 3, v, 0, Nil)));
    assert Insert(two.right, 3, v) == Ok(Node(Nil, 2, v, 1, Node(Nil, 3, v, 0, Nil)));
    assert Refresh(Node(Nil, 1, v, 1, Node(Nil, 2, v, 1, Node(Nil, 3, v, 0, Nil)))) == u.(rank := 2);
    assert BalanceFix(u.(rank := 2)) == Three(v);
  }

  /** Inserting 3, 2, 1 in that order: the mirror case, one right rotation. */
  lemma DescendingInserts<V>(v: V)
    ensures Insert(Nil, 3, v).Ok? && Insert(Insert(Nil, 3, v).value, 2, v).Ok?
    ensures Insert(Insert(Insert(Nil, 3, v).value, 2, v).value, 1, v) == Ok(Three(v))
  {
    var one := Node(Nil, 3, v, 0, Nil);
    var two := Node(Node(Nil, 2, v, 0, Nil), 3, v, 1, Nil);
    assert Insert(Nil, 3, v) == Ok(one);
    assert Insert(one, 2, v) == Ok(two);
    var u := Node(Node(Node(Nil, 1, v, 0, Nil), 2, v, 1, Nil), 3, v, 2, Nil);
    assert Insert(two.left, 1, v) == Ok(Node(Node(Nil, 1, v, 0, Nil), 2, v, 1, Nil));
    assert BalanceFix(u) == Three(v);
  }

  /**
   * Removing the root 2 of the three-node tree: its predecessor 1 takes its
   * place, with 3 as its right child and height 1.
   */
  lemma RemoveRootOfThree<V>(v: V)
    ensures RemoveNow(Three(v), 2) == Ok(Node(Nil, 1, v, 1, Node(Nil, 3, v, 0, Nil)))
  {
    var t := Three(v);
    assert MaxTree(t.left) == t.left && RemoveMax(t.left) == Nil;
    var u := Node(Nil, 1, v, 0, Node(Nil, 3, v, 0, Nil));
    assert RemoveNode(t) == BalanceFix(Refresh(u));
  }
}
