/**
 * What the treap functions of Treap guarantee: rotations and `balanceFix`
 * keep the in-order keys, the bindings and every key's priority; insertion
 * into a heap-ordered treap keeps it heap-ordered; insertion and removal
 * keep binary-search order and change the bindings and the priorities by
 * exactly the key concerned.  Removal does not keep heap order, and
 * `RemoveBreaksHeap` shows a tree where it is lost.
 */
module TreapProofs {
  import opened OrderedMap
  import opened SearchTree
  import opened Treap

  // ----- rotations and balanceFix -----

  /** `rightRotate` keeps the in-order keys, and in a search tree the bindings and each key's priority. */
  lemma RightRotateKeeps<V>(t: Tree<V>)
    requires t.Node? && t.left.Node?
    ensures Inorder(RightRotate(t)) == Inorder(t)
    ensures Bst(RightRotate(t)) <==> Bst(t)
    ensures Bst(t) ==> Contents(RightRotate(t)) == Contents(t) && Ranks(RightRotate(t)) == Ranks(t)
  {
    var l := t.left;
    assert t == Lean(l.left, l.key, l.value, l.rank, l.right, t.key, t.value, t.rank, t.right);
    assert RightRotate(t) == Lift(l.left, l.key, l.value, l.rank, l.right, t.key, t.value, t.rank, t.right);
    RegroupInorder(l.left, l.key, l.value, l.right, t.key, t.value, t.right, l.rank, t.rank, l.rank, t.rank);
    RegroupBst(l.left, l.key, l.value, l.right, t.key, t.value, t.right, l.rank, t.rank, l.rank, t.rank);
    if Bst(t) {
      RegroupContents(l.left, l.key, l.value, l.right, t.key, t.value, t.right, l.rank, t.rank, l.rank, t.rank);
      RegroupRanks(l.left, l.key, l.value, l.right, t.key, t.value, t.right, l.rank, t.rank);
    }
  }

  /** `leftRotate` keeps the in-order keys, and in a search tree the bindings and each key's priority. */
  lemma LeftRotateKeeps<V>(t: Tree<V>)
    requires t.Node? && t.right.Node?
    ensures Inorder(LeftRotate(t)) == Inorder(t)
    ensures Bst(LeftRotate(t)) <==> Bst(t)
    ensures Bst(t) ==> Contents(LeftRotate(t)) == Contents(t) && Ranks(LeftRotate(t)) == Ranks(t)
  {
    var rt := t.right;
    assert t == Lift(t.left, t.key, t.value, t.rank, rt.left, rt.key, rt.value, rt.rank, rt.right);
    assert LeftRotate(t) == Lean(t.left, t.key, t.value, t.rank, rt.left, rt.key, rt.value, rt.rank, rt.right);
    RegroupInorder(t.left, t.key, t.value, rt.left, rt.key, rt.value, rt.right, t.rank, rt.rank, t.rank, rt.rank);
    RegroupBst(t.left, t.key, t.value, rt.left, rt.key, rt.value, rt.right, t.rank, rt.rank, t.rank, rt.rank);
    if Bst(t) {
      RegroupContents(t.left, t.key, t.value, rt.left, rt.key, rt.value, rt.right, t.rank, rt.rank, t.rank, rt.rank);
      RegroupRanks(t.left, t.key, t.value, rt.left, rt.key, rt.value, rt.right, t.rank, rt.rank);
    }
  }

  /**
   * `balanceFix` keeps the in-order keys, and in a search tree the bindings
   * and each key's priority; the priority at the top never drops.
   */
  lemma BalanceFixKeeps<V>(t: Tree<V>)
    requires t.Node?
    ensures Inorder(BalanceFix(t)) == Inorder(t)
    ensures Bst(BalanceFix(t)) <==> Bst(t)
    ensures Bst(t) ==> Contents(BalanceFix(t)) == Contents(t) && Ranks(BalanceFix(t)) == Ranks(t)
    ensures BalanceFix(t).rank >= t.rank
  {
    if LeftOutranks(t) {
      RightRotateKeeps(t);
    } else if RightOutranks(t) {
      LeftRotateKeeps(t);
    }
  }

  /** On a heap-ordered node `balanceFix` rotates nothing. */
  lemma BalanceFixOnHeap<V>(t: Tree<V>)
    requires t.Node? && Heap(t)
    ensures BalanceFix(t) == t
  {
  }

  // ----- heap order and priority bounds -----

  /** A heap-ordered tree whose top priority is at most `b` has all its priorities at most `b`. */
  lemma {:induction false} HeapBound<V>(t: Tree<V>, b: int)
    requires Heap(t) && (t.Node? ==> t.rank <= b)
    ensures RanksAtMost(t, b)
  {
    match t
    case Nil =>
    case Node(l, _, _, _, r) =>
      HeapBound(l, b);
      HeapBound(r, b);
  }

  /** A priority bound can be loosened. */
  lemma {:induction false} RanksAtMostMono<V>(t: Tree<V>, a: int, b: int)
    requires RanksAtMost(t, a) && a <= b
    ensures RanksAtMost(t, b)
  {
    match t
    case Nil =>
    case Node(l, _, _, _, r) =>
      RanksAtMostMono(l, a, b);
      RanksAtMostMono(r, a, b);
  }

  /** Heap order depends only on the shape, so rewriting a value keeps it. */
  lemma {:induction false} HeapOfShape<V>(t: Tree<V>)
    ensures Heap(Shape(t)) <==> Heap(t)
  {
    match t
    case Nil =>
    case Node(l, _, _, _, r) =>
      HeapOfShape(l);
      HeapOfShape(r);
  }

  /** The node `find` stops at in a heap-ordered tree heads a heap-ordered subtree. */
  lemma {:induction false} FindNodeHeap<V>(t: Tree<V>, k: int)
    requires Heap(t)
    ensures Heap(FindNode(t, k))
  {
    match t
    case Nil =>
    case Node(l, x, _, _, r) =>
      if k < x {
        FindNodeHeap(l, k);
      } else if k > x {
        FindNodeHeap(r, k);
      }
  }

  // ----- insertCheck / insertPriCheck -----

  /**
   * The priority `InsertPri` leaves at `k`: a present key keeps its own,
   * an absent key gets the one supplied.
   */
  function RankAfterInsert<V>(t: Tree<V>, k: int, pri: int): int
  {
    if k in Ranks(t) then Ranks(t)[k] else pri
  }

  /**
   * Insertion keeps binary-search order and binds `k` to `v` on top of the
   * old bindings; an absent key gets priority `pri` and every other priority
   * stays as it was.
   */
  lemma {:induction false} InsertPriContents<V>(t: Tree<V>, k: int, v: V, pri: int)
    requires Bst(t)
    ensures Bst(InsertPri(t, k, v, pri))
    ensures Contents(InsertPri(t, k, v, pri)) == Contents(t)[k := v]
    ensures Ranks(InsertPri(t, k, v, pri)) == Ranks(t)[k := RankAfterInsert(t, k, pri)]
  {
    match t
    case Nil =>
    case Node(l, x, w, p, rt) =>
      if k < x {
        InsertPriContents(l, k, v, pri);
        InsertPriLeft(l, x, w, p, rt, k, v, pri);
      } else if k > x {
        InsertPriContents(rt, k, v, pri);
        InsertPriRight(l, x, w, p, rt, k, v, pri);
      } else {
        InsertAtNode(l, x, w, p, rt, v, pri);
      }
  }

  /** The case of `InsertPriContents` where the key goes to the left. */
  lemma InsertPriLeft<V>(l: Tree<V>, x: int, w: V, p: int, rt: Tree<V>, k: int, v: V, pri: int)
    requires Bst(Node(l, x, w, p, rt)) && k < x
    requires Bst(InsertPri(l, k, v, pri))
    requires Contents(InsertPri(l, k, v, pri)) == Contents(l)[k := v]
    requires Ranks(InsertPri(l, k, v, pri)) == Ranks(l)[k := RankAfterInsert(l, k, pri)]
    ensures var t := Node(l, x, w, p, rt);
      Bst(InsertPri(t, k, v, pri)) && Contents(InsertPri(t, k, v, pri)) == Contents(t)[k := v] &&
      Ranks(InsertPri(t, k, v, pri)) == Ranks(t)[k := RankAfterInsert(t, k, pri)]
  {
    var t := Node(l, x, w, p, rt);
    RankAfterDescent(t, k, pri);
    InsertBelow(l, x, w, p, rt, InsertPri(l, k, v, pri), k, v, RankAfterInsert(t, k, pri));
  }

  /** The case of `InsertPriContents` where the key goes to the right. */
  lemma InsertPriRight<V>(l: Tree<V>, x: int, w: V, p: int, rt: Tree<V>, k: int, v: V, pri: int)
    requires Bst(Node(l, x, w, p, rt)) && k > x
    requires Bst(InsertPri(rt, k, v, pri))
    requires Contents(InsertPri(rt, k, v, pri)) == Contents(rt)[k := v]
    requires Ranks(InsertPri(rt, k, v, pri)) == Ranks(rt)[k := RankAfterInsert(rt, k, pri)]
    ensures var t := Node(l, x, w, p, rt);
      Bst(InsertPri(t, k, v, pri)) && Contents(InsertPri(t, k, v, pri)) == Contents(t)[k := v] &&
      Ranks(InsertPri(t, k, v, pri)) == Ranks(t)[k := RankAfterInsert(t, k, pri)]
  {
    var t := Node(l, x, w, p, rt);
    RankAfterDescent(t, k, pri);
    InsertAbove(l, x, w, p, rt, InsertPri(rt, k, v, pri), k, v, RankAfterInsert(t, k, pri));
  }

  /**
   * Inserting an absent key adds exactly one node: the map gains `k` bound
   * to `v` with priority `pri`, and nothing else changes.
   */
  lemma InsertPriAbsent<V>(t: Tree<V>, k: int, v: V, pri: int)
    requires Bst(t) && k !in Contents(t)
    ensures var r := InsertPri(t, k, v, pri);
      Bst(r) && Contents(r) == Contents(t)[k := v] && Ranks(r) == Ranks(t)[k := pri] &&
      Count(r) == Count(t) + 1
  {
    InsertPriContents(t, k, v, pri);
    var r := InsertPri(t, k, v, pri);
    assert RankAfterInsert(t, k, pri) == pri;
    CountIsSize(t);
    CountIsSize(r);
  }

  /** The case of `InsertPriContents` where the key is found: only the value changes. */
  lemma InsertAtNode<V>(l: Tree<V>, x: int, w: V, p: int, rt: Tree<V>, v: V, pri: int)
    ensures var t := Node(l, x, w, p, rt);
      Contents(InsertPri(t, x, v, pri)) == Contents(t)[x := v] &&
      Ranks(InsertPri(t, x, v, pri)) == Ranks(t)[x := RankAfterInsert(t, x, pri)]
  {
    var t := Node(l, x, w, p, rt);
    assert InsertPri(t, x, v, pri) == Node(l, x, v, p, rt);
    assert RankAfterInsert(t, x, pri) == p;
  }

  /** The priority left at `k` is decided in the subtree the search descends into. */
  lemma RankAfterDescent<V>(t: Tree<V>, k: int, pri: int)
    requires t.Node? && Bst(t) && k != t.key
    ensures RankAfterInsert(t, k, pri) == RankAfterInsert(if k < t.key then t.left else t.right, k, pri)
  {
    if k < t.key {
      assert k !in KeySet(t.right);
    } else {
      assert k !in KeySet(t.left);
    }
  }

  /** The step of `InsertPriContents` for a key inserted below the node on the left. */
  lemma InsertBelow<V>(l: Tree<V>, x: int, w: V, p: int, rt: Tree<V>, l': Tree<V>, k: int, v: V, q: int)
    requires Bst(Node(l, x, w, p, rt)) && k < x
    requires Bst(l') && Contents(l') == Contents(l)[k := v] && Ranks(l') == Ranks(l)[k := q]
    ensures var r := BalanceFix(BalanceFix(Node(l', x, w, p, rt)));
      Bst(r) && Contents(r) == Contents(Node(l, x, w, p, rt))[k := v] &&
      Ranks(r) == Ranks(Node(l, x, w, p, rt))[k := q]
  {
    assert KeySet(l') == KeySet(l) + {k} by {
      assert Contents(l').Keys == Contents(l).Keys + {k};
    }
    var u := Node(l', x, w, p, rt);
    assert Bst(u);
    BalanceFixKeeps(u);
    BalanceFixKeeps(BalanceFix(u));
    assert k !in KeySet(rt);
    UpdateLeftOfMerge(Contents(l), Contents(rt), x, w, k, v);
    UpdateLeftOfMerge(Ranks(l), Ranks(rt), x, p, k, q);
  }

  /** The step of `InsertPriContents` for a key inserted below the node on the right. */
  lemma InsertAbove<V>(l: Tree<V>, x: int, w: V, p: int, rt: Tree<V>, rt': Tree<V>, k: int, v: V, q: int)
    requires Bst(Node(l, x, w, p, rt)) && k > x
    requires Bst(rt') && Contents(rt') == Contents(rt)[k := v] && Ranks(rt') == Ranks(rt)[k := q]
    ensures var r := BalanceFix(BalanceFix(Node(l, x, w, p, rt')));
      Bst(r) && Contents(r) == Contents(Node(l, x, w, p, rt))[k := v] &&
      Ranks(r) == Ranks(Node(l, x, w, p, rt))[k := q]
  {
    assert KeySet(rt') == KeySet(rt) + {k} by {
      assert Contents(rt').Keys == Contents(rt).Keys + {k};
    }
    var u := Node(l, x, w, p, rt');
    assert Bst(u);
    BalanceFixKeeps(u);
    BalanceFixKeeps(BalanceFix(u));
    UpdateRightOfMerge(Contents(l), Contents(rt), x, w, k, v);
    UpdateRightOfMerge(Ranks(l), Ranks(rt), x, p, k, q);
  }

  /**
   * Insertion into a heap-ordered tree whose priorities are at most `b`
   * gives a heap-ordered tree whose top is an old priority or the new one
   * `pri`, and whose children keep within `b`: only the new node can rise
   * above the old bound, and only to the top.
   */
  lemma {:induction false} InsertPriHeap<V>(t: Tree<V>, k: int, v: V, pri: int, b: int)
    requires Heap(t) && RanksAtMost(t, b)
    ensures var r := InsertPri(t, k, v, pri);
      Heap(r) && RanksAtMost(r.left, b) && RanksAtMost(r.right, b) &&
      (r.rank <= b || r.rank == pri)
  {
    match t
    case Nil =>
    case Node(l, x, w, p, rt) =>
      if k < x {
        HeapBound(l, p);
        InsertPriHeap(l, k, v, pri, p);
        HeapStepLeft(InsertPri(l, k, v, pri), x, w, p, rt, pri, b);
      } else if k > x {
        HeapBound(rt, p);
        InsertPriHeap(rt, k, v, pri, p);
        HeapStepRight(l, x, w, p, InsertPri(rt, k, v, pri), pri, b);
      }
  }

  /**
   * The step of `InsertPriHeap` on the way back up from the left: the new
   * left subtree may outrank the node only with the new priority at its
   * top, and then one right rotation restores heap order.
   */
  lemma HeapStepLeft<V>(l': Tree<V>, x: int, w: V, p: int, rt: Tree<V>, pri: int, b: int)
    requires l'.Node? && Heap(l') && RanksAtMost(l'.left, p) && RanksAtMost(l'.right, p)
    requires l'.rank <= p || l'.rank == pri
    requires Heap(rt) && (rt.Node? ==> rt.rank <= p) && RanksAtMost(rt, b) && p <= b
    ensures var r := BalanceFix(BalanceFix(Node(l', x, w, p, rt)));
      Heap(r) && RanksAtMost(r.left, b) && RanksAtMost(r.right, b) &&
      (r.rank <= b || r.rank == pri)
  {
    var u := Node(l', x, w, p, rt);
    if l'.rank <= p {
      assert Heap(u);
      BalanceFixOnHeap(u);
      HeapBound(l', b);
    } else {
      var f := RightRotate(u);
      var inner := Node(l'.right, x, w, p, rt);
      assert f == Node(l'.left, l'.key, l'.value, l'.rank, inner);
      assert l'.right.Node? ==> l'.right.rank <= p;
      assert l'.left.Node? ==> l'.left.rank <= p;
      assert Heap(inner);
      assert Heap(f);
      BalanceFixOnHeap(f);
      RanksAtMostMono(l'.left, p, b);
      RanksAtMostMono(l'.right, p, b);
    }
  }

  /** The mirror image of `HeapStepLeft`: one left rotation restores heap order. */
  lemma HeapStepRight<V>(l: Tree<V>, x: int, w: V, p: int, rt': Tree<V>, pri: int, b: int)
    requires rt'.Node? && Heap(rt') && RanksAtMost(rt'.left, p) && RanksAtMost(rt'.right, p)
    requires rt'.rank <= p || rt'.rank == pri
    requires Heap(l) && (l.Node? ==> l.rank <= p) && RanksAtMost(l, b) && p <= b
    ensures var r := BalanceFix(BalanceFix(Node(l, x, w, p, rt')));
      Heap(r) && RanksAtMost(r.left, b) && RanksAtMost(r.right, b) &&
      (r.rank <= b || r.rank == pri)
  {
    var u := Node(l, x, w, p, rt');
    if rt'.rank <= p {
      assert Heap(u);
      BalanceFixOnHeap(u);
      HeapBound(rt', b);
    } else {
      assert !LeftOutranks(u);
      var f := LeftRotate(u);
      var inner := Node(l, x, w, p, rt'.left);
      assert f == Node(inner, rt'.key, rt'.value, rt'.rank, rt'.right);
      assert rt'.left.Node? ==> rt'.left.rank <= p;
      assert rt'.right.Node? ==> rt'.right.rank <= p;
      assert Heap(inner);
      assert Heap(f);
      BalanceFixOnHeap(f);
      RanksAtMostMono(rt'.left, p, b);
      RanksAtMostMono(rt'.right, p, b);
    }
  }

  /** Inserting into a heap-ordered treap yields a heap-ordered treap. */
  lemma InsertPriKeepsHeap<V>(t: Tree<V>, k: int, v: V, pri: int)
    requires Heap(t)
    ensures Heap(InsertPri(t, k, v, pri))
  {
    if t.Node? {
      HeapBound(t, t.rank);
      InsertPriHeap(t, k, v, pri, t.rank);
    }
  }

  /**
   * The concrete case: into an empty treap insert `a` with priority `pa`,
   * then a larger key `b` with a higher priority `pb`.  The left rotation
   * puts `b` at the root with `a` as its left child.
   */
  lemma TwoInsertsRotate<V>(a: int, va: V, pa: int, b: int, vb: V, pb: int)
    requires a < b && pa < pb
    ensures InsertPri(InsertPri(Nil, a, va, pa), b, vb, pb) ==
            Node(Node(Nil, a, va, pa, Nil), b, vb, pb, Nil)
  {
    var one := InsertPri(Nil, a, va, pa);
    assert one == Node(Nil, a, va, pa, Nil);
    var u := Node(Nil, a, va, pa, Node(Nil, b, vb, pb, Nil));
    assert InsertPri(one, b, vb, pb) == BalanceFix(BalanceFix(u));
    assert BalanceFix(u) == LeftRotate(u);
  }

  // ----- removeMax, removeNode, removeNow -----

  /** `removeMax` drops exactly the key `maxTree` finds, with its value and priority. */
  lemma {:induction false} RemoveMaxContents<V>(t: Tree<V>)
    requires t.Node? && Bst(t)
    ensures Bst(RemoveMax(t))
    ensures Contents(RemoveMax(t)) == Contents(t) - {MaxTree(t).key}
    ensures Ranks(RemoveMax(t)) == Ranks(t) - {MaxTree(t).key}
  {
    if t.right.Nil? {
      DropLonely(t.left, t.key, t.value, t.rank, false);
    } else {
      RemoveMaxContents(t.right);
      RemoveRightStep(t.left, t.key, t.value, t.rank, t.right, RemoveMax(t.right), MaxTree(t.right).key);
    }
  }

  /**
   * A step on the way back up from a removal below the node: the node over
   * its right subtree with `m` dropped, then fixed, drops just `m`.
   */
  lemma RemoveRightStep<V>(l: Tree<V>, x: int, w: V, p: int, rt: Tree<V>, rt': Tree<V>, m: int)
    requires Bst(Node(l, x, w, p, rt)) && m in KeySet(rt)
    requires Bst(rt') && Contents(rt') == Contents(rt) - {m} && Ranks(rt') == Ranks(rt) - {m}
    ensures var r := BalanceFix(Node(l, x, w, p, rt'));
      Bst(r) && Contents(r) == Contents(Node(l, x, w, p, rt)) - {m} &&
      Ranks(r) == Ranks(Node(l, x, w, p, rt)) - {m}
  {
    assert KeySet(rt') <= KeySet(rt) by {
      assert Contents(rt').Keys <= Contents(rt).Keys;
    }
    var u := Node(l, x, w, p, rt');
    assert Bst(u);
    BalanceFixKeeps(u);
    assert m != x && m !in KeySet(l);
    RemoveRightOfMerge(Contents(l), Contents(rt), x, w, m);
    RemoveRightOfMerge(Ranks(l), Ranks(rt), x, p, m);
  }

  /** The mirror image of `RemoveRightStep`, for a removal in the left subtree. */
  lemma RemoveLeftStep<V>(l: Tree<V>, x: int, w: V, p: int, rt: Tree<V>, l': Tree<V>, m: int)
    requires Bst(Node(l, x, w, p, rt)) && m in KeySet(l)
    requires Bst(l') && Contents(l') == Contents(l) - {m} && Ranks(l') == Ranks(l) - {m}
    ensures var r := BalanceFix(Node(l', x, w, p, rt));
      Bst(r) && Contents(r) == Contents(Node(l, x, w, p, rt)) - {m} &&
      Ranks(r) == Ranks(Node(l, x, w, p, rt)) - {m}
  {
    assert KeySet(l') <= KeySet(l) by {
      assert Contents(l').Keys <= Contents(l).Keys;
    }
    var u := Node(l', x, w, p, rt);
    assert Bst(u);
    BalanceFixKeeps(u);
    assert m != x && m !in KeySet(rt);
    RemoveLeftOfMerge(Contents(l), Contents(rt), x, w, m);
    RemoveLeftOfMerge(Ranks(l), Ranks(rt), x, p, m);
  }

  /** `removeNode` drops exactly the node's own key, with its value and priority. */
  lemma RemoveNodeContents<V>(t: Tree<V>)
    requires t.Node? && Bst(t)
    ensures Bst(RemoveNode(t))
    ensures Contents(RemoveNode(t)) == Contents(t) - {t.key}
    ensures Ranks(RemoveNode(t)) == Ranks(t) - {t.key}
  {
    if t.left.Nil? {
      DropLonely(t.right, t.key, t.value, t.rank, true);
    } else if t.right.Nil? {
      DropLonely(t.left, t.key, t.value, t.rank, false);
    } else {
      RemoveNodeSplice(t.left, t.key, t.value, t.rank, t.right);
    }
  }

  /** The case of `RemoveNodeContents` where the maximum of the left subtree takes the node's place. */
  lemma RemoveNodeSplice<V>(l: Tree<V>, x: int, w: V, p: int, rt: Tree<V>)
    requires l.Node? && Bst(Node(l, x, w, p, rt))
    ensures var m := MaxTree(l);
      var r := BalanceFix(Node(RemoveMax(l), m.key, m.value, m.rank, rt));
      Bst(r) && Contents(r) == Contents(Node(l, x, w, p, rt)) - {x} &&
      Ranks(r) == Ranks(Node(l, x, w, p, rt)) - {x}
  {
    var m := MaxTree(l);
    SpliceBst(l, x, w, p, rt);
    var u := Node(RemoveMax(l), m.key, m.value, m.rank, rt);
    BalanceFixKeeps(u);
    RemoveMaxContents(l);
    SpliceOfMerge(Contents(l), Contents(rt), x, w, m.key);
    SpliceOfMerge(Ranks(l), Ranks(rt), x, p, m.key);
  }

  /** The spliced node is a search tree, and the key facts `SpliceOfMerge` needs. */
  lemma SpliceBst<V>(l: Tree<V>, x: int, w: V, p: int, rt: Tree<V>)
    requires l.Node? && Bst(Node(l, x, w, p, rt))
    ensures var m := MaxTree(l);
      Bst(Node(RemoveMax(l), m.key, m.value, m.rank, rt)) &&
      Contents(l)[m.key] == m.value && Ranks(l)[m.key] == m.rank &&
      m.key !in KeySet(rt) && x !in KeySet(l) && x !in KeySet(rt)
  {
    var m := MaxTree(l);
    MaxTreeIsMax(l);
    RemoveMaxContents(l);
    var l' := RemoveMax(l);
    assert KeySet(l') == KeySet(l) - {m.key} by {
      assert Contents(l').Keys == Contents(l).Keys - {m.key};
    }
    forall z | z in KeySet(l') ensures z < m.key {
      assert z in KeySet(l) && z != m.key;
    }
    forall z | z in KeySet(rt) ensures z > m.key {
      assert m.key < x < z;
    }
  }

  /**
   * `removeNow` reports exactly the absent keys as not found; otherwise the
   * result is a search tree with `k` dropped from the bindings and from the
   * priorities, all others as they were.
   */
  lemma {:induction false} RemoveNowContents<V>(t: Tree<V>, k: int)
    requires Bst(t)
    ensures RemoveNow(t, k).Err? <==> k !in KeySet(t)
    ensures RemoveNow(t, k).Ok? ==>
      Bst(RemoveNow(t, k).value) &&
      Contents(RemoveNow(t, k).value) == Contents(t) - {k} &&
      Ranks(RemoveNow(t, k).value) == Ranks(t) - {k}
  {
    match t
    case Nil =>
    case Node(l, x, w, p, rt) =>
      if k < x {
        RemoveNowContents(l, k);
        RemoveNowLeft(l, x, w, p, rt, k);
      } else if k > x {
        RemoveNowContents(rt, k);
        RemoveNowRight(l, x, w, p, rt, k);
      } else {
        RemoveNowHere(t);
      }
  }

  /** The case of `RemoveNowContents` where the key lies to the left. */
  lemma RemoveNowLeft<V>(l: Tree<V>, x: int, w: V, p: int, rt: Tree<V>, k: int)
    requires Bst(Node(l, x, w, p, rt)) && k < x
    requires RemoveNow(l, k).Err? <==> k !in KeySet(l)
    requires RemoveNow(l, k).Ok? ==>
      Bst(RemoveNow(l, k).value) &&
      Contents(RemoveNow(l, k).value) == Contents(l) - {k} &&
      Ranks(RemoveNow(l, k).value) == Ranks(l) - {k}
    ensures var t := Node(l, x, w, p, rt);
      (RemoveNow(t, k).Err? <==> k !in KeySet(t)) &&
      (RemoveNow(t, k).Ok? ==>
        Bst(RemoveNow(t, k).value) &&
        Contents(RemoveNow(t, k).value) == Contents(t) - {k} &&
        Ranks(RemoveNow(t, k).value) == Ranks(t) - {k})
  {
    assert k !in KeySet(rt);
    if RemoveNow(l, k).Ok? {
      RemoveLeftStep(l, x, w, p, rt, RemoveNow(l, k).value, k);
    }
  }

  /** The case of `RemoveNowContents` where the key lies to the right. */
  lemma RemoveNowRight<V>(l: Tree<V>, x: int, w: V, p: int, rt: Tree<V>, k: int)
    requires Bst(Node(l, x, w, p, rt)) && k > x
    requires RemoveNow(rt, k).Err? <==> k !in KeySet(rt)
    requires RemoveNow(rt, k).Ok? ==>
      Bst(RemoveNow(rt, k).value) &&
      Contents(RemoveNow(rt, k).value) == Contents(rt) - {k} &&
      Ranks(RemoveNow(rt, k).value) == Ranks(rt) - {k}
    ensures var t := Node(l, x, w, p, rt);
      (RemoveNow(t, k).Err? <==> k !in KeySet(t)) &&
      (RemoveNow(t, k).Ok? ==>
        Bst(RemoveNow(t, k).value) &&
        Contents(RemoveNow(t, k).value) == Contents(t) - {k} &&
        Ranks(RemoveNow(t, k).value) == Ranks(t) - {k})
  {
    assert k !in KeySet(l);
    if RemoveNow(rt, k).Ok? {
      RemoveRightStep(l, x, w, p, rt, RemoveNow(rt, k).value, k);
    }
  }

  /** The case of `RemoveNowContents` where the key is at the node. */
  lemma RemoveNowHere<V>(t: Tree<V>)
    requires t.Node? && Bst(t)
    ensures RemoveNow(t, t.key).Ok?
    ensures Bst(RemoveNow(t, t.key).value)
    ensures Contents(RemoveNow(t, t.key).value) == Contents(t) - {t.key}
    ensures Ranks(RemoveNow(t, t.key).value) == Ranks(t) - {t.key}
  {
    RemoveNodeContents(t);
    var u := RemoveNode(t);
    if u.Node? {
      BalanceFixKeeps(u);
    }
  }

  /**
   * Inserting an absent key and then removing it gives back the bindings
   * and the priorities held before (the shape may differ).
   */
  lemma InsertRemoveRoundTrip<V>(t: Tree<V>, k: int, v: V, pri: int)
    requires Bst(t) && k !in Contents(t)
    ensures var u := InsertPri(t, k, v, pri);
      RemoveNow(u, k).Ok? && Bst(RemoveNow(u, k).value) &&
      Contents(RemoveNow(u, k).value) == Contents(t) && Ranks(RemoveNow(u, k).value) == Ranks(t)
  {
    InsertPriContents(t, k, v, pri);
    var u := InsertPri(t, k, v, pri);
    assert k in KeySet(u) by {
      assert k in Contents(u);
    }
    RemoveNowContents(u, k);
    assert RankAfterInsert(t, k, pri) == pri;
    UpdateThenRemove(Contents(t), k, v);
    UpdateThenRemove(Ranks(t), k, pri);
  }

  /**
   * A heap-ordered search tree: 5 (priority 100) over 1 (10) on the left
   * and 8 (90) on the right, which has 7 (80) and 9 (70) below it.
   */
  function HeapedFive(): Tree<()>
  {
    Node(Node(Nil, 1, (), 10, Nil), 5, (), 100,
         Node(Node(Nil, 7, (), 80, Nil), 8, (), 90, Node(Nil, 9, (), 70, Nil)))
  }

  /**
   * Removal does not keep heap order: removing the root 5 of `HeapedFive`
   * splices in its predecessor 1, one left rotation lifts 8 above it, and
   * 1 (priority 10) is left with the child 7 (priority 80).
   */
  lemma RemoveBreaksHeap()
    ensures Heap(HeapedFive()) && Bst(HeapedFive())
    ensures RemoveNow(HeapedFive(), 5).Ok? && !Heap(RemoveNow(HeapedFive(), 5).value)
  {
    HeapedFiveIsTreap();
    var a := Node(Nil, 1, (), 10, Nil);
    var c := Node(Node(Nil, 7, (), 80, Nil), 8, (), 90, Node(Nil, 9, (), 70, Nil));
    var t := Node(a, 5, (), 100, c);
    assert t == HeapedFive();
    assert MaxTree(a) == a && RemoveMax(a) == Nil;
    var u := Node(Nil, 1, (), 10, c);
    assert RemoveNode(t) == BalanceFix(u);
    var d := Node(Nil, 1, (), 10, Node(Nil, 7, (), 80, Nil));
    var s := Node(d, 8, (), 90, Node(Nil, 9, (), 70, Nil));
    assert BalanceFix(u) == LeftRotate(u) == s;
    assert BalanceFix(s) == s;
    assert RemoveNow(t, 5) == Ok(s);
    assert !Heap(d);
  }

  /** `HeapedFive` is heap-ordered and in binary-search order. */
  lemma HeapedFiveIsTreap()
    ensures Heap(HeapedFive()) && Bst(HeapedFive())
  {
    var a := Node(Nil, 1, (), 10, Nil);
    var c := Node(Node(Nil, 7, (), 80, Nil), 8, (), 90, Node(Nil, 9, (), 70, Nil));
    assert KeySet(a) == {1};
    assert KeySet(c) == {7, 8, 9};
    assert Bst(c);
  }
}
