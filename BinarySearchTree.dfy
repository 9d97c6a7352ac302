/**
 * The pointer tree of BST.go as it is updated in place: `Node` objects owning
 * their children, and the `BST` object owning the root link.  Every node
 * carries, as ghost state, the value-level `Tree` its subtree stands for and
 * the set of objects it owns; each operation is proved to change that ghost
 * tree exactly as the corresponding function of module SearchTree does.
 */
module BinarySearchTree {
  import opened SearchTree

  class Node<V> {
    var key: int
    var value: V
    var left: Node?<V>
    var right: Node?<V>

    ghost var Model: Tree<V>      // the subtree rooted here, as a value
    ghost var Repr: set<object>   // a superset of the nodes of that subtree

    /** Strict ownership: each child owns a part of `Repr` of its own, the two parts disjoint; `Model` mirrors the fields. */
    ghost predicate Valid()
      reads this, Repr
      ensures Valid() ==> this in Repr
      decreases Repr
    {
      && this in Repr
      && (left != null ==>
            left in Repr && left.Repr <= Repr && this !in left.Repr && left.Valid())
      && (right != null ==>
            right in Repr && right.Repr <= Repr && this !in right.Repr && right.Valid())
      && (left != null && right != null ==> left.Repr !! right.Repr)
      && Model == Branch(ModelOf(left), key, value, ModelOf(right))
    }

    /** `&Node{Key: key, Value: value}`: a node with two empty children. */
    constructor (key: int, value: V)
      ensures Valid() && fresh(Repr)
      ensures Model == Branch(Leaf, key, value, Leaf)
      ensures this.key == key && this.value == value && left == null && right == null
    {
      this.key := key;
      this.value := value;
      left := null;
      right := null;
      Model := Branch(Leaf, key, value, Leaf);
      Repr := {this};
    }
  }

  /** The value a link stands for: `Leaf` for nil. */
  ghost function ModelOf<V>(n: Node?<V>): Tree<V>
    reads n
  {
    if n == null then Leaf else n.Model
  }

  /** The objects a link owns. */
  ghost function ReprOf<V>(n: Node?<V>): set<object>
    reads n
  {
    if n == null then {} else n.Repr
  }

  ghost predicate ValidLink<V>(n: Node?<V>)
    reads n, ReprOf(n)
  {
    n != null ==> n.Valid()
  }

  /**
   * `insert`: returns the new subtree root.  A nil link becomes a fresh node
   * holding the pair; otherwise the same node is returned, updated in place by
   * InsertBelow.
   */
  method InsertAt<V>(node: Node?<V>, key: int, value: V) returns (r: Node<V>)
    requires ValidLink(node)
    modifies ReprOf(node)
    ensures r.Valid()
    ensures r.Model == SearchTree.Insert(old(ModelOf(node)), key, value)
    ensures node != null ==> r == node
    ensures fresh(r.Repr - old(ReprOf(node)))
    decreases ReprOf(node), 1
  {
    if node == null {
      r := new Node(key, value);
    } else {
      InsertBelow(node, key, value);
      r := node;
    }
  }

  /**
   * The body of `insert` at a non-nil node: rewrite the left or the right
   * child link with the result of inserting there, or overwrite the value on an
   * equal key.  The only new object is the node created at the empty slot.
   */
  method InsertBelow<V>(node: Node<V>, key: int, value: V)
    requires node.Valid()
    modifies node.Repr
    ensures node.Valid()
    ensures node.Model == SearchTree.Insert(old(node.Model), key, value)
    ensures fresh(node.Repr - old(node.Repr))
    decreases node.Repr, 0
  {
    if key < node.key {
      var l := InsertAt(node.left, key, value);
      node.left := l;
      node.Repr := node.Repr + l.Repr;
      node.Model := Branch(l.Model, node.key, node.value, ModelOf(node.right));
    } else if key > node.key {
      var rt := InsertAt(node.right, key, value);
      node.right := rt;
      node.Repr := node.Repr + rt.Repr;
      node.Model := Branch(ModelOf(node.left), node.key, node.value, rt.Model);
    } else {
      node.value := value;
      node.Model := Branch(ModelOf(node.left), node.key, value, ModelOf(node.right));
    }
  }

  /** `find`: a read-only descent by comparison; `zero` is what Go's `var zero V` gives. */
  function FindAt<V>(node: Node?<V>, key: int, zero: V): (r: (V, bool))
    requires ValidLink(node)
    reads ReprOf(node)
    ensures r == SearchTree.Find(ModelOf(node), key, zero)
    decreases ReprOf(node)
  {
    if node == null then (zero, false)
    else if key < node.key then FindAt(node.left, key, zero)
    else if key > node.key then FindAt(node.right, key, zero)
    else (node.value, true)
  }

  /** The node reached from `n` by following left links until there is none. */
  ghost function Leftmost<V>(n: Node<V>): Node<V>
    requires n.Valid()
    reads n, n.Repr
    decreases n.Repr
  {
    if n.left == null then n else Leftmost(n.left)
  }

  /** `findMin`: follow left links from a non-nil node to the leftmost node. */
  method FindMin<V>(node: Node<V>) returns (m: Node<V>)
    requires node.Valid()
    ensures m == Leftmost(node) && m.left == null
    ensures m in node.Repr
    ensures (m.key, m.value) == MinEntry(node.Model)
  {
    m := node;
    while m.left != null
      invariant m in node.Repr && m.Valid()
      invariant Leftmost(m) == Leftmost(node)
      invariant MinEntry(m.Model) == MinEntry(node.Model)
      decreases m.Repr
    {
      m := m.left;
    }
  }

  /**
   * `delete`: returns the new subtree root.  A nil link stays nil (the key was
   * absent); otherwise DeleteBelow decides.  No object is created.
   */
  method DeleteAt<V>(node: Node?<V>, key: int) returns (r: Node?<V>)
    requires ValidLink(node)
    modifies ReprOf(node)
    ensures ValidLink(r)
    ensures ModelOf(r) == SearchTree.Delete(old(ModelOf(node)), key)
    ensures ReprOf(r) <= old(ReprOf(node))
    decreases ReprOf(node), 2
  {
    if node == null {
      r := null;
    } else {
      r := DeleteBelow(node, key);
    }
  }

  /**
   * The body of `delete` at a non-nil node: on a smaller or greater key,
   * rewrite the child link on that side with the result of deleting there; on
   * an equal key, RemoveNode decides what replaces this node.
   */
  method DeleteBelow<V>(node: Node<V>, key: int) returns (r: Node?<V>)
    requires node.Valid()
    modifies node.Repr
    ensures ValidLink(r)
    ensures ModelOf(r) == SearchTree.Delete(old(node.Model), key)
    ensures ReprOf(r) <= old(node.Repr)
    ensures key != old(node.key) ==> r == node
    decreases node.Repr, 1
  {
    if key < node.key {
      var l := DeleteAt(node.left, key);
      node.left := l;
      node.Model := Branch(ModelOf(l), node.key, node.value, ModelOf(node.right));
      r := node;
    } else if key > node.key {
      var rt := DeleteAt(node.right, key);
      node.right := rt;
      node.Model := Branch(ModelOf(node.left), node.key, node.value, ModelOf(rt));
      r := node;
    } else {
      r := RemoveNode(node);
    }
  }

  /**
   * `delete` at the node holding the key: a node without a left child is
   * replaced by its right subtree, one without a right child by its left
   * subtree; a node with two children copies the key and value of the leftmost
   * node of its right subtree and deletes that key from the right subtree.
   */
  method RemoveNode<V>(node: Node<V>) returns (r: Node?<V>)
    requires node.Valid()
    modifies node.Repr
    ensures ValidLink(r)
    ensures ModelOf(r) == SearchTree.Delete(old(node.Model), old(node.key))
    ensures ReprOf(r) <= old(node.Repr)
    ensures old(node.left) != null && old(node.right) != null ==> r == node
    decreases node.Repr, 0
  {
    if node.left == null {
      return node.right;
    } else if node.right == null {
      return node.left;
    }
    var m := FindMin(node.right);
    node.key := m.key;
    node.value := m.value;
    var rt := DeleteAt(node.right, m.key);
    node.right := rt;
    node.Model := Branch(ModelOf(node.left), node.key, node.value, ModelOf(rt));
    r := node;
  }

  /** `inOrder`: left subtree, then `consumer`, then right subtree; a `false` anywhere is passed straight back up. */
  function InOrderAt<V>(node: Node?<V>, consumer: Consumer<V>, before: seq<(int, V)>): (r: (seq<(int, V)>, bool))
    requires ValidLink(node)
    reads ReprOf(node)
    ensures r == Walk(ModelOf(node), consumer, before)
    decreases ReprOf(node)
  {
    if node == null then ([], true)
    else
      var (ls, go) := InOrderAt(node.left, consumer, before);
      if !go then (ls, false)
      else if !consumer(before + ls + [(node.key, node.value)]) then (ls + [(node.key, node.value)], false)
      else
        var (rs, go') := InOrderAt(node.right, consumer, before + ls + [(node.key, node.value)]);
        (ls + [(node.key, node.value)] + rs, go')
  }

  /** `BST[K, V]`: the owner of the root link; the ordering invariant is part of its validity. */
  class BST<V> {
    var root: Node?<V>
    const zero: V                 // the zero value of V, which `Find` returns on a miss
    ghost var Repr: set<object>

    ghost predicate Valid()
      reads this, Repr
      ensures Valid() ==> this in Repr
    {
      && this in Repr
      && (root != null ==> root in Repr && root.Repr <= Repr && this !in root.Repr && root.Valid())
      && IsBST(ModelOf(root))
    }

    /** The tree as a value. */
    ghost function Model(): Tree<V>
      reads this, Repr
      requires Valid()
    {
      ModelOf(root)
    }

    /** The key-to-value map the tree stands for. */
    ghost function Contents(): map<int, V>
      reads this, Repr
      requires Valid()
    {
      SearchTree.Contents(ModelOf(root))
    }

    /** `&BST[K, V]{}`: an empty tree; `zero` stands for Go's zero value of V. */
    constructor (zero: V)
      ensures Valid() && fresh(Repr)
      ensures Model() == Leaf && Contents() == map[] && this.zero == zero
    {
      this.zero := zero;
      root := null;
      Repr := {this};
    }

    /** `Insert`: `Root = insert(Root, key, value)`. */
    method Insert(key: int, value: V)
      requires Valid()
      modifies Repr
      ensures Valid() && fresh(Repr - old(Repr))
      ensures Model() == SearchTree.Insert(old(Model()), key, value)
      ensures Contents() == old(Contents())[key := value]
    {
      ghost var t := ModelOf(root);
      var r := InsertAt(root, key, value);
      root := r;
      Repr := Repr + r.Repr;
      InsertCorrect(t, key, value);
    }

    /** `Find`: the value stored under `key` and `true`, or `zero` and `false` when `key` is absent. */
    method Find(key: int) returns (value: V, found: bool)
      requires Valid()
      ensures found <==> key in Contents()
      ensures found ==> value == Contents()[key]
      ensures !found ==> value == zero
    {
      var r := FindAt(root, key, zero);
      value, found := r.0, r.1;
      FindCorrect(ModelOf(root), key, zero);
    }

    /** `Delete`: `Root = delete(Root, key)`. */
    method Delete(key: int)
      requires Valid()
      modifies Repr
      ensures Valid() && Repr == old(Repr)
      ensures Model() == SearchTree.Delete(old(Model()), key)
      ensures Contents() == old(Contents()) - {key}
    {
      ghost var t := ModelOf(root);
      root := DeleteAt(root, key);
      DeleteCorrect(t, key);
    }

    /**
     * The sequence `InOrder` returns, run with `consumer` as its `yield`: the
     * pairs the consumer is given.  They come in strictly ascending key order,
     * each key with its value; they are a prefix of all pairs; every pair but the
     * last was accepted; and unless all pairs were given, the last one was refused.
     */
    method InOrder(consumer: Consumer<V>) returns (yielded: seq<(int, V)>)
      requires Valid()
      ensures yielded <= Entries(Model())
      ensures Ascending(yielded)
      ensures forall p <- yielded :: p.0 in Contents() && Contents()[p.0] == p.1
      ensures forall i | 0 < i < |yielded| :: consumer(yielded[..i])
      ensures yielded != Entries(Model()) ==> yielded != [] && !consumer(yielded)
    {
      var r := InOrderAt(root, consumer, []);
      yielded := r.0;
      InOrderYieldsSortedPrefix(ModelOf(root), consumer);
    }
  }
}
