/**
 * The public face of TreapMap.java: a map object with the fields `root`
 * and `size`, whose operations check their arguments and then hand the
 * tree to the private recursive methods (the functions of Treap).  The
 * tree is held as its value; a Java `null` key is `None` and a thrown
 * `IllegalArgumentException` is an `Err`/`Fail` carrying its reason.  The
 * priority `new Node(k, v)` draws at random is a parameter of `Insert`.
 */
module TreapMapModel {
  import opened OrderedMap
  import opened SearchTree
  import opened Treap
  import opened TreapProofs
  import opened Walks

  class TreapMap<V> {
    var root: Tree<V>
    var size: int

    /**
     * A search tree, and `size` counts its nodes.  Heap order is not part
     * of it, because `remove` does not keep it (see `RemoveBreaksHeap`);
     * the operations that keep it say so.
     */
    ghost predicate Valid()
      reads this
    {
      Bst(root) && size == Count(root)
    }

    /** The bindings the map holds. */
    ghost function Bindings(): map<int, V>
      reads this
    {
      Contents(root)
    }

    /** The priority of each key's node. */
    ghost function Priorities(): map<int, int>
      reads this
    {
      Ranks(root)
    }

    /** The implicit default constructor: no nodes. */
    constructor ()
      ensures Valid() && Heap(root) && root == Nil && size == 0 && Bindings() == map[]
    {
      root := Nil;
      size := 0;
    }

    /** `size()`: the number of bindings. */
    method Size() returns (s: int)
      requires Valid()
      ensures s == |Bindings()|
    {
      CountIsSize(root);
      s := size;
    }

    /** Private `find`: refuses a null key, else the node the search stops at (`Nil` for null). */
    method Find(k: Option<int>) returns (r: Result<Tree<V>>)
      requires Valid()
      ensures k.None? ==> r == Err(NullKey)
      ensures k.Some? ==> r.Ok? && r.value == FindNode(root, k.value)
      ensures k.Some? ==> (r.value.Node? <==> k.value in Bindings())
      ensures k.Some? && r.value.Node? ==>
        r.value.key == k.value && r.value.value == Bindings()[k.value] &&
        r.value.rank == Priorities()[k.value]
    {
      if k.None? {
        return Err(NullKey);
      }
      var n := Search(root, k.value);
      FindNodeCorrect(root, k.value);
      r := Ok(n);
    }

    /** `has(k)`: false for a null key, else whether `k` is bound. */
    method Has(k: Option<int>) returns (b: bool)
      requires Valid()
      ensures b <==> k.Some? && k.value in Bindings()
    {
      if k.None? {
        return false;
      }
      var n := Find(k);
      b := n.value.Node?;
    }

    /** Private `findForSure`: like `Find`, but an absent key is an error too. */
    method FindForSure(k: Option<int>) returns (r: Result<Tree<V>>)
      requires Valid()
      ensures k.None? ==> r == Err(NullKey)
      ensures k.Some? && k.value !in Bindings() ==> r == Err(KeyNotFound)
      ensures k.Some? && k.value in Bindings() ==>
        r.Ok? && r.value == FindNode(root, k.value) && r.value.Node? &&
        r.value.key == k.value && r.value.value == Bindings()[k.value] &&
        r.value.rank == Priorities()[k.value]
    {
      var n := Find(k);
      if n.Err? {
        return n;
      }
      if n.value.Nil? {
        return Err(KeyNotFound);
      }
      r := n;
    }

    /** `get(k)`: the value bound to `k`; a null or absent key is refused. */
    method Get(k: Option<int>) returns (r: Result<V>)
      requires Valid()
      ensures k.None? ==> r == Err(NullKey)
      ensures k.Some? && k.value !in Bindings() ==> r == Err(KeyNotFound)
      ensures k.Some? && k.value in Bindings() ==> r == Ok(Bindings()[k.value])
    {
      if k.None? {
        return Err(NullKey);
      }
      var n := FindForSure(k);
      if n.Err? {
        return Err(n.error);
      }
      r := Ok(n.value.value);
    }

    /**
     * `put(k, v)`: rebind a present key.  A null or absent key is refused
     * with nothing changed; otherwise only the value of `k` changes, and
     * keys, priorities, shape and heap order stay as they were.
     */
    method Put(k: Option<int>, v: V) returns (o: Outcome)
      requires Valid()
      modifies this
      ensures Valid()
      ensures k.None? ==> o == Fail(NullKey) && root == old(root) && size == old(size)
      ensures k.Some? && k.value !in old(Bindings()) ==>
        o == Fail(KeyNotFound) && root == old(root) && size == old(size)
      ensures k.Some? && k.value in old(Bindings()) ==>
        o == Pass && root == SetValue(old(root), k.value, v) && size == old(size) &&
        Bindings() == old(Bindings())[k.value := v] && Priorities() == old(Priorities()) &&
        Shape(root) == Shape(old(root))
      ensures Heap(root) <==> old(Heap(root))
    {
      if k.None? {
        return Fail(NullKey);
      }
      var n := FindForSure(k);
      if n.Err? {
        return Fail(n.error);
      }
      SetValueBst(root, k.value, v);
      SetValueContents(root, k.value, v);
      SetValueShape(root, k.value, v);
      HeapOfShape(root);
      HeapOfShape(SetValue(root, k.value, v));
      root := SetValue(root, k.value, v);
      o := Pass;
    }

    /**
     * `insertPri(pri, k, v)`: a null key or a key already present is
     * refused before anything changes; otherwise the map gains exactly `k`
     * bound to `v` with priority `pri`, every other priority stays as it
     * was, `size` grows by one, and a heap-ordered treap stays heap-ordered.
     */
    method InsertPri(pri: int, k: Option<int>, v: V) returns (o: Outcome)
      requires Valid()
      modifies this
      ensures Valid()
      ensures k.None? ==> o == Fail(NullKey) && root == old(root) && size == old(size)
      ensures k.Some? && k.value in old(Bindings()) ==>
        o == Fail(DuplicateKey) && root == old(root) && size == old(size)
      ensures k.Some? && k.value !in old(Bindings()) ==>
        o == Pass && root == Treap.InsertPri(old(root), k.value, v, pri) &&
        Bindings() == old(Bindings())[k.value := v] &&
        Priorities() == old(Priorities())[k.value := pri] && size == old(size) + 1
      ensures old(Heap(root)) ==> Heap(root)
    {
      if k.None? {
        return Fail(NullKey);
      }
      var present := Has(k);
      if present {
        return Fail(DuplicateKey);
      }
      InsertPriAbsent(root, k.value, v, pri);
      if Heap(root) {
        InsertPriKeepsHeap(root, k.value, v, pri);
      }
      root := Treap.InsertPri(root, k.value, v, pri);
      size := size + 1;
      o := Pass;
    }

    /**
     * Public `insert(k, v)`, where `drawn` is the priority the new node
     * draws: the same outcome as `InsertPri(drawn, k, v)`.
     */
    method Insert(k: Option<int>, v: V, drawn: int) returns (o: Outcome)
      requires Valid()
      modifies this
      ensures Valid()
      ensures k.None? ==> o == Fail(NullKey) && root == old(root) && size == old(size)
      ensures k.Some? && k.value in old(Bindings()) ==>
        o == Fail(DuplicateKey) && root == old(root) && size == old(size)
      ensures k.Some? && k.value !in old(Bindings()) ==>
        o == Pass && root == Treap.InsertPri(old(root), k.value, v, drawn) &&
        Bindings() == old(Bindings())[k.value := v] &&
        Priorities() == old(Priorities())[k.value := drawn] && size == old(size) + 1
      ensures old(Heap(root)) ==> Heap(root)
    {
      o := InsertPri(drawn, k, v);
    }

    /**
     * `remove(k)`: a null or absent key is refused with nothing changed;
     * otherwise the old value is returned, only `k` loses its binding and
     * its priority, and `size` drops by one.
     */
    method Remove(k: Option<int>) returns (r: Result<V>)
      requires Valid()
      modifies this
      ensures Valid()
      ensures k.None? ==> r == Err(NullKey) && root == old(root) && size == old(size)
      ensures k.Some? && k.value !in old(Bindings()) ==>
        r == Err(KeyNotFound) && root == old(root) && size == old(size)
      ensures k.Some? && k.value in old(Bindings()) ==>
        r == Ok(old(Bindings())[k.value]) && Treap.RemoveNow(old(root), k.value) == Ok(root) &&
        Bindings() == old(Bindings()) - {k.value} &&
        Priorities() == old(Priorities()) - {k.value} && size == old(size) - 1
    {
      var n := FindForSure(k);
      if n.Err? {
        return Err(n.error);
      }
      var v := n.value.value;
      RemoveNowContents(root, k.value);
      var t := Treap.RemoveNow(root, k.value).value;
      root := t;
      size := size - 1;
      r := Ok(v);
    }

    /** `iterator()`: the keys in ascending order, one per binding. */
    method Iterator() returns (keys: seq<int>)
      requires Valid()
      ensures keys == Inorder(root)
      ensures StrictlyAscending(keys) && |keys| == size
      ensures forall x :: x in keys <==> x in Bindings()
    {
      keys := IteratorHelper(root, []);
      BstIffAscending(root);
      InorderKeys(root);
    }

    /**
     * `leftPriority(k)`: the priority of the left child of the node holding
     * `k`; a null or absent key, or a missing left child, is refused.  In a
     * heap-ordered treap it is at most the priority of `k`.
     */
    method LeftPriority(k: Option<int>) returns (r: Result<int>)
      requires Valid()
      ensures k.None? ==> r == Err(NullKey)
      ensures k.Some? && k.value !in Bindings() ==> r == Err(KeyNotFound)
      ensures k.Some? && k.value in Bindings() ==>
        var n := FindNode(root, k.value);
        n.Node? &&
        (n.left.Nil? ==> r == Err(NoChild)) &&
        (n.left.Node? ==> r == Ok(n.left.rank) && n.left.key < k.value && n.left.key in Bindings())
      ensures Heap(root) && r.Ok? ==> k.Some? && r.value <= Priorities()[k.value]
    {
      var n := FindForSure(k);
      if n.Err? {
        return Err(n.error);
      }
      FindNodeSubtree(root, k.value);
      if Heap(root) {
        FindNodeHeap(root, k.value);
      }
      if n.value.left.Nil? {
        return Err(NoChild);
      }
      r := Ok(n.value.left.rank);
    }

    /**
     * `rightPriority(k)`: the priority of the right child of the node
     * holding `k`; a null or absent key, or a missing right child, is
     * refused.  In a heap-ordered treap it is at most the priority of `k`.
     */
    method RightPriority(k: Option<int>) returns (r: Result<int>)
      requires Valid()
      ensures k.None? ==> r == Err(NullKey)
      ensures k.Some? && k.value !in Bindings() ==> r == Err(KeyNotFound)
      ensures k.Some? && k.value in Bindings() ==>
        var n := FindNode(root, k.value);
        n.Node? &&
        (n.right.Nil? ==> r == Err(NoChild)) &&
        (n.right.Node? ==> r == Ok(n.right.rank) && n.right.key > k.value && n.right.key in Bindings())
      ensures Heap(root) && r.Ok? ==> k.Some? && r.value <= Priorities()[k.value]
    {
      var n := FindForSure(k);
      if n.Err? {
        return Err(n.error);
      }
      FindNodeSubtree(root, k.value);
      if Heap(root) {
        FindNodeHeap(root, k.value);
      }
      if n.value.right.Nil? {
        return Err(NoChild);
      }
      r := Ok(n.value.right.rank);
    }
  }
}
