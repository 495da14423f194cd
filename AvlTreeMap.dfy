/**
 * The public face of AvlTreeMap.java: a map object with the fields `root`
 * and `size`, whose operations check their arguments and then hand the
 * tree to the private recursive methods (the functions of AvlTree).  The
 * tree is held as its value; a Java `null` key is `None` and a thrown
 * `IllegalArgumentException` is an `Err`/`Fail` carrying its reason.
 */
module AvlMap {
  import opened OrderedMap
  import opened SearchTree
  import opened AvlTree
  import opened AvlProofs
  import opened Walks

  class AvlTreeMap<V> {
    var root: Tree<V>
    var size: int

    /** A search tree with the AVL shape, and `size` counts its nodes. */
    ghost predicate Valid()
      reads this
    {
      Invariant(root) && size == Count(root)
    }

    /** The bindings the map holds. */
    ghost function Bindings(): map<int, V>
      reads this
    {
      Contents(root)
    }

    /** The default constructor: no nodes. */
    constructor ()
      ensures Valid() && root == Nil && size == 0 && Bindings() == map[]
    {
      root := Nil;
      size := 0;
    }

    /** `size()`: the number of bindings. */
    method Size() returns (s: int)
      requires Valid()
      ensures s == |Bindings()|
    {
      CountIsSize(root);
      s := size;
    }

    /** Private `find`: refuses a null key, else the node the search stops at (`Nil` for null). */
    method Find(k: Option<int>) returns (r: Result<Tree<V>>)
      requires Valid()
      ensures k.None? ==> r == Err(NullKey)
      ensures k.Some? ==> r.Ok? && r.value == FindNode(root, k.value)
      ensures k.Some? ==> (r.value.Node? <==> k.value in Bindings())
      ensures k.Some? && r.value.Node? ==> r.value.key == k.value && r.value.value == Bindings()[k.value]
    {
      if k.None? {
        return Err(NullKey);
      }
      var n := Search(root, k.value);
      FindNodeCorrect(root, k.value);
      r := Ok(n);
    }

    /** `has(k)`: false for a null key, else whether `k` is bound. */
    method Has(k: Option<int>) returns (b: bool)
      requires Valid()
      ensures b <==> k.Some? && k.value in Bindings()
    {
      if k.None? {
        return false;
      }
      var n := Find(k);
      b := n.value.Node?;
    }

    /** Private `findForSure`: like `Find`, but an absent key is an error too. */
    method FindForSure(k: Option<int>) returns (r: Result<Tree<V>>)
      requires Valid()
      ensures k.None? ==> r == Err(NullKey)
      ensures k.Some? && k.value !in Bindings() ==> r == Err(KeyNotFound)
      ensures k.Some? && k.value in Bindings() ==>
        r.Ok? && r.value == FindNode(root, k.value) && r.value.Node? &&
        r.value.key == k.value && r.value.value == Bindings()[k.value]
    {
      var n := Find(k);
      if n.Err? {
        return n;
      }
      if n.value.Nil? {
        return Err(KeyNotFound);
      }
      r := n;
    }

    /** `get(k)`: the value bound to `k`; a null or absent key is refused. */
    method Get(k: Option<int>) returns (r: Result<V>)
      requires Valid()
      ensures k.None? ==> r == Err(NullKey)
      ensures k.Some? && k.value !in Bindings() ==> r == Err(KeyNotFound)
      ensures k.Some? && k.value in Bindings() ==> r == Ok(Bindings()[k.value])
    {
      if k.None? {
        return Err(NullKey);
      }
      var n := FindForSure(k);
      if n.Err? {
        return Err(n.error);
      }
      r := Ok(n.value.value);
    }

    /**
     * `put(k, v)`: rebind a present key.  A null or absent key is refused
     * with nothing changed; otherwise only the value of `k` changes, and
     * keys, heights and shape stay as they were.
     */
    method Put(k: Option<int>, v: V) returns (o: Outcome)
      requires Valid()
      modifies this
      ensures Valid()
      ensures k.None? ==> o == Fail(NullKey) && root == old(root) && size == old(size)
      ensures k.Some? && k.value !in old(Bindings()) ==>
        o == Fail(KeyNotFound) && root == old(root) && size == old(size)
      ensures k.Some? && k.value in old(Bindings()) ==>
        o == Pass && root == SetValue(old(root), k.value, v) && size == old(size) &&
        Bindings() == old(Bindings())[k.value := v] && Shape(root) == Shape(old(root))
    {
      if k.None? {
        return Fail(NullKey);
      }
      var n := FindForSure(k);
      if n.Err? {
        return Fail(n.error);
      }
      SetValueBst(root, k.value, v);
      SetValueContents(root, k.value, v);
      SetValueAvl(root, k.value, v);
      SetValueShape(root, k.value, v);
      root := SetValue(root, k.value, v);
      o := Pass;
    }

    /**
     * Public `insert(k, v)`: a null key or a key already present is refused
     * before anything changes; otherwise the map gains exactly `k` bound to
     * `v` and `size` grows by one.
     */
    method Insert(k: Option<int>, v: V) returns (o: Outcome)
      requires Valid()
      modifies this
      ensures Valid()
      ensures k.None? ==> o == Fail(NullKey) && root == old(root) && size == old(size)
      ensures k.Some? && k.value in old(Bindings()) ==>
        o == Fail(DuplicateKey) && root == old(root) && size == old(size)
      ensures k.Some? && k.value !in old(Bindings()) ==>
        o == Pass && AvlTree.Insert(old(root), k.value, v) == Ok(root) &&
        Bindings() == old(Bindings())[k.value := v] && size == old(size) + 1
    {
      if k.None? {
        return Fail(NullKey);
      }
      var present := Has(k);
      if present {
        return Fail(DuplicateKey);
      }
      InsertContents(root, k.value, v);
      InsertAvl(root, k.value, v);
      var t := AvlTree.Insert(root, k.value, v).value;
      root := t;
      size := size + 1;
      o := Pass;
    }

    /**
     * `remove(k)`: a null or absent key is refused with nothing changed;
     * otherwise the old value is returned, only `k` loses its binding and
     * `size` drops by one.
     */
    method Remove(k: Option<int>) returns (r: Result<V>)
      requires Valid()
      modifies this
      ensures Valid()
      ensures k.None? ==> r == Err(NullKey) && root == old(root) && size == old(size)
      ensures k.Some? && k.value !in old(Bindings()) ==>
        r == Err(KeyNotFound) && root == old(root) && size == old(size)
      ensures k.Some? && k.value in old(Bindings()) ==>
        r == Ok(old(Bindings())[k.value]) && AvlTree.RemoveNow(old(root), k.value) == Ok(root) &&
        Bindings() == old(Bindings()) - {k.value} && size == old(size) - 1
    {
      var n := FindForSure(k);
      if n.Err? {
        return Err(n.error);
      }
      var v := n.value.value;
      RemoveNowContents(root, k.value);
      RemoveNowAvl(root, k.value);
      var t := AvlTree.RemoveNow(root, k.value).value;
      root := t;
      size := size - 1;
      r := Ok(v);
    }

    /** `iterator()`: the keys in ascending order, one per binding. */
    method Iterator() returns (keys: seq<int>)
      requires Valid()
      ensures keys == Inorder(root)
      ensures StrictlyAscending(keys) && |keys| == size
      ensures forall x :: x in keys <==> x in Bindings()
    {
      keys := IteratorHelper(root, []);
      BstIffAscending(root);
      InorderKeys(root);
    }

    /** `getBalance(k)`: the balance factor of the node holding `k`, which lies in [-1, 1]. */
    method GetBalance(k: Option<int>) returns (r: Result<int>)
      requires Valid()
      ensures k.None? ==> r == Err(NullKey)
      ensures k.Some? && k.value !in Bindings() ==> r == Err(KeyNotFound)
      ensures k.Some? && k.value in Bindings() ==>
        r.Ok? && FindNode(root, k.value).Node? &&
        r.value == Balance(FindNode(root, k.value)) && -1 <= r.value <= 1
    {
      var n := FindForSure(k);
      if n.Err? {
        return Err(n.error);
      }
      FindNodeAvl(root, k.value);
      r := Ok(Height(n.value.left) - Height(n.value.right));
    }

    /**
     * `getHeight(k)`: one more than the larger child height of the node
     * holding `k`, which is the height that node stores.
     */
    method GetHeight(k: Option<int>) returns (r: Result<int>)
      requires Valid()
      ensures k.None? ==> r == Err(NullKey)
      ensures k.Some? && k.value !in Bindings() ==> r == Err(KeyNotFound)
      ensures k.Some? && k.value in Bindings() ==>
        r.Ok? && r.value == Height(FindNode(root, k.value)) && r.value >= 0
    {
      var n := FindForSure(k);
      if n.Err? {
        return Err(n.error);
      }
      FindNodeAvl(root, k.value);
      r := Ok(1 + MaxChildHeight(n.value));
    }
  }
}
