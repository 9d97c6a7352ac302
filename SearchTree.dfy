/**
 * Value-level model of the unbalanced binary search tree map of BST.go.
 *
 * A `Tree` is the subtree owned by one `*Node` link: `Leaf` is a nil link and
 * `Branch` a node with its key, its value and the two subtrees it owns.  The
 * functions below follow the recursive Go functions `insert`, `find`,
 * `delete` and `inOrder` branch for branch, and compute the leftmost node that
 * the loop of `findMin` reaches as a recursion; they serve as the
 * specification of the in-place heap implementation in BinarySearchTree.dfy.
 * Keys are `int`, the instantiation the program uses; values are any type.
 */
module SearchTree {

  datatype Tree<V> = Leaf | Branch(left: Tree<V>, key: int, value: V, right: Tree<V>)

  /** The keys stored in `t`. */
  function Keys<V>(t: Tree<V>): set<int>
  {
    match t
    case Leaf => {}
    case Branch(l, k, _, r) => Keys(l) + {k} + Keys(r)
  }

  /** The number of nodes of `t`. */
  function Size<V>(t: Tree<V>): nat
  {
    match t
    case Leaf => 0
    case Branch(l, _, _, r) => Size(l) + 1 + Size(r)
  }

  /** The ordering invariant: every key of a left subtree is below its node's key, every key of a right subtree above. */
  predicate IsBST<V>(t: Tree<V>)
  {
    match t
    case Leaf => true
    case Branch(l, k, _, r) =>
      && IsBST(l) && IsBST(r)
      && (forall x <- Keys(l) :: x < k)
      && (forall y <- Keys(r) :: k < y)
  }

  /** The key-to-value map a tree stands for. */
  function Contents<V>(t: Tree<V>): (m: map<int, V>)
    ensures m.Keys == Keys(t)
  {
    match t
    case Leaf => map[]
    case Branch(l, k, v, r) => (Contents(l) + Contents(r))[k := v]
  }

  /** The (key, value) pairs of `t` in in-order: left subtree, node, right subtree. */
  function Entries<V>(t: Tree<V>): (es: seq<(int, V)>)
    ensures |es| == Size(t)
  {
    match t
    case Leaf => []
    case Branch(l, k, v, r) => Entries(l) + [(k, v)] + Entries(r)
  }

  /** Keys strictly ascending along a sequence of pairs. */
  predicate Ascending<V>(es: seq<(int, V)>)
  {
    forall i, j | 0 <= i < j < |es| :: es[i].0 < es[j].0
  }

  /** Two trees with the same nodes in the same places, whatever the values. */
  predicate SameShape<V>(a: Tree<V>, b: Tree<V>)
  {
    match (a, b)
    case (Leaf, Leaf) => true
    case (Branch(al, ak, _, ar), Branch(bl, bk, _, br)) => ak == bk && SameShape(al, bl) && SameShape(ar, br)
    case _ => false
  }

  // ---------------------------------------------------------------------------
  // The operations
  // ---------------------------------------------------------------------------

  /** `insert`: descend by comparison, create a node at the empty slot, overwrite the value on an equal key. */
  function Insert<V>(t: Tree<V>, key: int, value: V): (r: Tree<V>)
    ensures Keys(r) == Keys(t) + {key}
  {
    match t
    case Leaf => Branch(Leaf, key, value, Leaf)
    case Branch(l, k, v, rt) =>
      if key < k then Branch(Insert(l, key, value), k, v, rt)
      else if key > k then Branch(l, k, v, Insert(rt, key, value))
      else Branch(l, k, value, rt)
  }

  /** `find`: the value and `true` at the node holding `key`, `zero` (Go's zero value) and `false` at an empty slot. */
  function Find<V>(t: Tree<V>, key: int, zero: V): (r: (V, bool))
    ensures r.1 ==> key in Keys(t)
    ensures !r.1 ==> r.0 == zero
  {
    match t
    case Leaf => (zero, false)
    case Branch(l, k, v, rt) =>
      if key < k then Find(l, key, zero)
      else if key > k then Find(rt, key, zero)
      else (v, true)
  }

  /** `findMin`: the key and value of the leftmost node of a non-empty tree. */
  function MinEntry<V>(t: Tree<V>): (r: (int, V))
    requires t.Branch?
    ensures r.0 in Keys(t)
  {
    if t.left.Leaf? then (t.key, t.value) else MinEntry(t.left)
  }

  /**
   * `delete`: descend by comparison; an absent key changes nothing; a node with
   * at most one child is replaced by that child; a node with two children takes
   * over the key and value of the leftmost node of its right subtree, whose key
   * is then deleted from that right subtree.
   */
  function Delete<V>(t: Tree<V>, key: int): (r: Tree<V>)
    ensures Keys(r) <= Keys(t)
    ensures Size(r) <= Size(t)
  {
    match t
    case Leaf => Leaf
    case Branch(l, k, v, rt) =>
      if key < k then Branch(Delete(l, key), k, v, rt)
      else if key > k then Branch(l, k, v, Delete(rt, key))
      else if l.Leaf? then rt
      else if rt.Leaf? then l
      else
        var (mk, mv) := MinEntry(rt);
        Branch(l, mk, mv, Delete(rt, mk))
  }

  /**
   * A `yield` callback.  It may keep state of its own, so its answer is modelled
   * as a function of every pair it has been given so far, the current pair last;
   * `false` asks the traversal to stop.
   */
  type Consumer<!V> = seq<(int, V)> -> bool

  /**
   * `inOrder`: the pairs handed to `yield` while walking `t`, and the flag the
   * walk returns (`false` once `yield` has refused a pair).  `before` is what
   * `yield` was given before this subtree was entered.
   */
  function Walk<V>(t: Tree<V>, consumer: Consumer<V>, before: seq<(int, V)>): (r: (seq<(int, V)>, bool))
    ensures |r.0| <= Size(t)
    ensures r.1 ==> |r.0| == Size(t)
  {
    match t
    case Leaf => ([], true)
    case Branch(l, k, v, r) =>
      var (ls, go) := Walk(l, consumer, before);
      if !go then (ls, false)
      else if !consumer(before + ls + [(k, v)]) then (ls + [(k, v)], false)
      else
        var (rs, go') := Walk(r, consumer, before + ls + [(k, v)]);
        (ls + [(k, v)] + rs, go')
  }

  // ---------------------------------------------------------------------------
  // Properties of the operations
  // ---------------------------------------------------------------------------

  /** A search tree holds each key once, so its node count is its key count. */
  lemma {:induction false} SizeIsKeyCount<V>(t: Tree<V>)
    requires IsBST(t)
    ensures |Keys(t)| == Size(t)
  {
    match t
    case Leaf =>
    case Branch(l, k, _, r) =>
      SizeIsKeyCount(l);
      SizeIsKeyCount(r);
      forall x | x in Keys(l)
        ensures x !in Keys(r)
      {
        assert x < k;
      }
      assert Keys(l) * Keys(r) == {};
      assert (Keys(l) + Keys(r)) * {k} == {};
  }

  /** Inserting keeps the ordering invariant and maps `key` to `value`, leaving every other key's value alone. */
  lemma {:induction false} InsertCorrect<V>(t: Tree<V>, key: int, value: V)
    requires IsBST(t)
    ensures IsBST(Insert(t, key, value))
    ensures Contents(Insert(t, key, value)) == Contents(t)[key := value]
  {
    match t
    case Leaf =>
    case Branch(l, k, v, r) =>
      if key < k {
        InsertCorrect(l, key, value);
        assert key !in Keys(r);
        UpdateUnionLeft(Contents(l), Contents(r), key, value);
        UpdatesCommute(Contents(l) + Contents(r), key, value, k, v);
      } else if key > k {
        InsertCorrect(r, key, value);
        assert key !in Keys(l);
        UpdateUnionRight(Contents(l), Contents(r), key, value);
        UpdatesCommute(Contents(l) + Contents(r), key, value, k, v);
      }
  }

  lemma UpdateUnionLeft<V>(a: map<int, V>, b: map<int, V>, key: int, value: V)
    requires key !in b
    ensures a[key := value] + b == (a + b)[key := value]
  {
  }

  lemma UpdateUnionRight<V>(a: map<int, V>, b: map<int, V>, key: int, value: V)
    ensures a + b[key := value] == (a + b)[key := value]
  {
  }

  lemma RestoreRemoved<V>(a: map<int, V>, b: map<int, V>, key: int)
    requires key in b
    ensures (a + (b - {key}))[key := b[key]] == a + b
  {
  }

  lemma RemoveUpdated<V>(m: map<int, V>, key: int, value: V)
    requires key !in m
    ensures m[key := value] - {key} == m
  {
  }

  lemma RemoveUnionLeft<V>(a: map<int, V>, b: map<int, V>, key: int)
    requires key !in b
    ensures (a - {key}) + b == (a + b) - {key}
  {
  }

  lemma RemoveUnionRight<V>(a: map<int, V>, b: map<int, V>, key: int)
    requires key !in a
    ensures a + (b - {key}) == (a + b) - {key}
  {
  }

  lemma RemoveUpdateCommute<V>(m: map<int, V>, key: int, k: int, v: V)
    requires key != k
    ensures (m - {key})[k := v] == m[k := v] - {key}
  {
  }

  lemma UpdatesCommute<V>(m: map<int, V>, k1: int, v1: V, k2: int, v2: V)
    requires k1 != k2
    ensures m[k1 := v1][k2 := v2] == m[k2 := v2][k1 := v1]
  {
  }

  /** Inserting a key that is already present only overwrites a value: same keys in the same places, same node count. */
  lemma {:induction false} InsertPresentKeepsShape<V>(t: Tree<V>, key: int, value: V)
    requires IsBST(t) && key in Keys(t)
    ensures SameShape(Insert(t, key, value), t)
    ensures Keys(Insert(t, key, value)) == Keys(t)
    ensures Size(Insert(t, key, value)) == Size(t)
  {
    match t
    case Branch(l, k, v, r) =>
      if key < k {
        InsertPresentKeepsShape(l, key, value);
        SameShapeReflexive(r);
      } else if key > k {
        InsertPresentKeepsShape(r, key, value);
        SameShapeReflexive(l);
      } else {
        SameShapeReflexive(l);
        SameShapeReflexive(r);
      }
  }

  lemma {:induction false} SameShapeReflexive<V>(t: Tree<V>)
    ensures SameShape(t, t)
  {
    match t
    case Leaf =>
    case Branch(l, _, _, r) =>
      SameShapeReflexive(l);
      SameShapeReflexive(r);
  }

  /** After inserting `key` with `value`, finding `key` returns `value` (on any tree: both descend along the same path). */
  lemma {:induction false} FindAfterInsert<V>(t: Tree<V>, key: int, value: V, zero: V)
    ensures Find(Insert(t, key, value), key, zero) == (value, true)
  {
    match t
    case Leaf =>
    case Branch(l, k, _, r) =>
      if key < k {
        FindAfterInsert(l, key, value, zero);
      } else if key > k {
        FindAfterInsert(r, key, value, zero);
      }
  }

  /** Inserting the same key twice: the second value wins and no node is added. */
  lemma OverwriteKeepsSize<V>(t: Tree<V>, key: int, v1: V, v2: V, zero: V)
    requires IsBST(t)
    ensures Find(Insert(Insert(t, key, v1), key, v2), key, zero) == (v2, true)
    ensures Size(Insert(Insert(t, key, v1), key, v2)) == Size(Insert(t, key, v1))
  {
    FindAfterInsert(Insert(t, key, v1), key, v2, zero);
    InsertCorrect(t, key, v1);
    InsertPresentKeepsShape(Insert(t, key, v1), key, v2);
  }

  /** On a search tree, `find` is map lookup: the stored value and `true`, or `zero` and `false` when absent. */
  lemma {:induction false} FindCorrect<V>(t: Tree<V>, key: int, zero: V)
    requires IsBST(t)
    ensures Find(t, key, zero) == if key in Contents(t) then (Contents(t)[key], true) else (zero, false)
  {
    match t
    case Leaf =>
    case Branch(l, k, v, r) =>
      if key < k {
        FindCorrect(l, key, zero);
        assert key !in Keys(r);
      } else if key > k {
        FindCorrect(r, key, zero);
        assert key !in Keys(l);
      }
  }

  /** The leftmost node of a search tree holds its least key, with that key's value. */
  lemma {:induction false} MinEntryIsLeast<V>(t: Tree<V>)
    requires t.Branch? && IsBST(t)
    ensures forall x <- Keys(t) :: MinEntry(t).0 <= x
    ensures Contents(t)[MinEntry(t).0] == MinEntry(t).1
  {
    if t.left.Branch? {
      MinEntryIsLeast(t.left);
      assert MinEntry(t).0 !in Keys(t.right);
    }
  }

  /** Deleting keeps the ordering invariant and removes exactly `key` from the map. */
  lemma {:induction false} DeleteCorrect<V>(t: Tree<V>, key: int)
    requires IsBST(t)
    ensures IsBST(Delete(t, key))
    ensures Contents(Delete(t, key)) == Contents(t) - {key}
  {
    match t
    case Leaf =>
    case Branch(l, k, v, r) =>
      var m := Contents(l) + Contents(r);
      assert Contents(t) == m[k := v];
      if key < k {
        DeleteCorrect(l, key);
        assert key !in Keys(r);
        RemoveUnionLeft(Contents(l), Contents(r), key);
        RemoveUpdateCommute(m, key, k, v);
      } else if key > k {
        DeleteCorrect(r, key);
        assert key !in Keys(l);
        RemoveUnionRight(Contents(l), Contents(r), key);
        RemoveUpdateCommute(m, key, k, v);
      } else {
        assert k !in m;
        RemoveUpdated(m, k, v);
        if l.Branch? && r.Branch? {
          DeleteCorrect(r, MinEntry(r).0);
          DeleteTwoChildren(l, k, v, r);
        }
      }
  }

  /** The two-child case of DeleteCorrect, once the right subtree's own deletion is known correct. */
  lemma DeleteTwoChildren<V>(l: Tree<V>, k: int, v: V, r: Tree<V>)
    requires IsBST(Branch(l, k, v, r)) && l.Branch? && r.Branch?
    requires IsBST(Delete(r, MinEntry(r).0))
    requires Contents(Delete(r, MinEntry(r).0)) == Contents(r) - {MinEntry(r).0}
    ensures IsBST(Branch(l, MinEntry(r).0, MinEntry(r).1, Delete(r, MinEntry(r).0)))
    ensures Contents(Branch(l, MinEntry(r).0, MinEntry(r).1, Delete(r, MinEntry(r).0))) == Contents(l) + Contents(r)
  {
    var (mk, mv) := MinEntry(r);
    MinEntryIsLeast(r);
    var r' := Delete(r, mk);
    assert forall x <- Keys(l) :: x < mk;
    assert Keys(r') == Keys(r) - {mk};
    assert forall y <- Keys(r') :: mk < y;
    RestoreRemoved(Contents(l), Contents(r), mk);
  }

  /**
   * The two-child case of `delete`: the key adopted from the right subtree's
   * leftmost node is above every key on the left and below every key that stays
   * on the right, and the right subtree loses exactly that one key and node.
   */
  lemma SuccessorSplice<V>(l: Tree<V>, k: int, v: V, r: Tree<V>)
    requires IsBST(Branch(l, k, v, r)) && l.Branch? && r.Branch?
    ensures forall x <- Keys(l) :: x < MinEntry(r).0
    ensures forall y <- Keys(Delete(r, MinEntry(r).0)) :: MinEntry(r).0 < y
    ensures Keys(Delete(r, MinEntry(r).0)) == Keys(r) - {MinEntry(r).0}
    ensures Size(Delete(r, MinEntry(r).0)) + 1 == Size(r)
  {
    var mk := MinEntry(r).0;
    var r' := Delete(r, mk);
    MinEntryIsLeast(r);
    DeleteCorrect(r, mk);
    assert Keys(r') == Contents(r').Keys == (Contents(r) - {mk}).Keys == Keys(r) - {mk};
    DeletePresentSize(r, mk);
  }

  /** Deleting an absent key returns the tree unchanged (on any tree: the descent ends at an empty slot). */
  lemma {:induction false} DeleteAbsent<V>(t: Tree<V>, key: int)
    requires key !in Keys(t)
    ensures Delete(t, key) == t
  {
    match t
    case Leaf =>
    case Branch(l, k, _, r) =>
      if key < k {
        DeleteAbsent(l, key);
      } else if key > k {
        DeleteAbsent(r, key);
      }
  }

  /** After deleting `key`, finding it fails; deleting it again changes nothing. */
  lemma DeleteThenFind<V>(t: Tree<V>, key: int, zero: V)
    requires IsBST(t)
    ensures Find(Delete(t, key), key, zero) == (zero, false)
    ensures Delete(Delete(t, key), key) == Delete(t, key)
  {
    DeleteCorrect(t, key);
    DeleteAbsent(Delete(t, key), key);
  }

  /** Deleting a present key removes exactly one node. */
  lemma DeletePresentSize<V>(t: Tree<V>, key: int)
    requires IsBST(t) && key in Keys(t)
    ensures Size(Delete(t, key)) + 1 == Size(t)
  {
    DeleteCorrect(t, key);
    SizeIsKeyCount(t);
    SizeIsKeyCount(Delete(t, key));
  }

  // ---------------------------------------------------------------------------
  // Properties of the traversal
  // ---------------------------------------------------------------------------

  /** In a search tree the node's value is found at its key, a child's at its own keys. */
  lemma ContentsOfBranch<V>(l: Tree<V>, k: int, v: V, r: Tree<V>)
    requires IsBST(Branch(l, k, v, r))
    ensures forall x <- Keys(l) :: Contents(Branch(l, k, v, r))[x] == Contents(l)[x]
    ensures forall y <- Keys(r) :: Contents(Branch(l, k, v, r))[y] == Contents(r)[y]
    ensures Contents(Branch(l, k, v, r))[k] == v
  {
    forall x | x in Keys(l)
      ensures Contents(Branch(l, k, v, r))[x] == Contents(l)[x]
    {
      assert x < k && x !in Keys(r);
    }
  }

  lemma {:induction false} EntriesHaveKeys<V>(t: Tree<V>)
    ensures forall p <- Entries(t) :: p.0 in Keys(t)
  {
    match t
    case Leaf =>
    case Branch(l, k, v, r) =>
      EntriesHaveKeys(l);
      EntriesHaveKeys(r);
  }

  /**
   * In a search tree the in-order pairs are in strictly ascending key order, and
   * they are exactly the pairs of the map: each key with its value.
   */
  lemma {:induction false} EntriesSortedContents<V>(t: Tree<V>)
    requires IsBST(t)
    ensures Ascending(Entries(t))
    ensures forall p :: p in Entries(t) <==> p.0 in Contents(t) && Contents(t)[p.0] == p.1
  {
    match t
    case Leaf =>
    case Branch(l, k, v, r) =>
      EntriesSortedContents(l);
      EntriesSortedContents(r);
      EntriesHaveKeys(l);
      EntriesHaveKeys(r);
      ContentsOfBranch(l, k, v, r);
      var el, er := Entries(l), Entries(r);
      var es := Entries(t);
      assert es == el + [(k, v)] + er;
      forall i, j | 0 <= i < j < |es|
        ensures es[i].0 < es[j].0
      {
        if j < |el| {
          assert es[i] == el[i] && es[j] == el[j];
        } else if i > |el| {
          assert es[i] == er[i - |el| - 1] && es[j] == er[j - |el| - 1];
        } else {
          assert i < |el| ==> es[i] == el[i] && el[i] in el;
          assert j > |el| ==> es[j] == er[j - |el| - 1] && er[j - |el| - 1] in er;
        }
      }
      forall p
        ensures p in es <==> p.0 in Contents(t) && Contents(t)[p.0] == p.1
      {
        if p.0 < k {
          assert p !in er && p != (k, v);
        } else if p.0 > k {
          assert p !in el && p != (k, v);
        } else {
          assert p !in el && p !in er;
        }
      }
  }

  /**
   * What a consumer that starts after `before` is shown by a walk over the
   * in-order pairs `es`: the pairs `ys` handed over are a prefix of `es`; every
   * pair but the last was accepted; when the walk returns `go == true` it handed
   * over all of `es` and each was accepted; when it returns `false` it stopped
   * right after the first refused pair.
   */
  ghost predicate StopsAtFirstRefusal<V>(es: seq<(int, V)>, consumer: Consumer<V>, before: seq<(int, V)>,
                                         ys: seq<(int, V)>, go: bool)
  {
    && ys <= es
    && (forall i | 0 < i < |ys| :: consumer(before + ys[..i]))
    && (go ==> ys == es && (es != [] ==> consumer(before + es)))
    && (!go ==> ys != [] && !consumer(before + ys))
  }

  /** `inOrder` meets StopsAtFirstRefusal for every consumer: a refusal anywhere ends the whole walk. */
  lemma {:induction false} WalkStopsAtFirstRefusal<V>(t: Tree<V>, consumer: Consumer<V>, before: seq<(int, V)>)
    ensures StopsAtFirstRefusal(Entries(t), consumer, before, Walk(t, consumer, before).0, Walk(t, consumer, before).1)
  {
    match t
    case Leaf =>
    case Branch(l, k, v, r) =>
      WalkStopsAtFirstRefusal(l, consumer, before);
      var (ls, go) := Walk(l, consumer, before);
      var el, er := Entries(l), Entries(r);
      assert Entries(t) == el + [(k, v)] + er;
      if !go {
        LeftRefused(el, (k, v), er, consumer, before, ls);
      } else {
        var h := before + el + [(k, v)];
        if consumer(h) {
          WalkStopsAtFirstRefusal(r, consumer, h);
          var (rs, go') := Walk(r, consumer, h);
          assert Walk(t, consumer, before) == (el + [(k, v)] + rs, go');
          RightContinues(el, (k, v), er, consumer, before, rs, go');
        } else {
          assert Walk(t, consumer, before) == (el + [(k, v)], false);
          NodeRefused(el, (k, v), er, consumer, before);
        }
      }
  }

  lemma LeftRefused<V>(el: seq<(int, V)>, p: (int, V), er: seq<(int, V)>, consumer: Consumer<V>,
                       before: seq<(int, V)>, ls: seq<(int, V)>)
    requires StopsAtFirstRefusal(el, consumer, before, ls, false)
    ensures StopsAtFirstRefusal(el + [p] + er, consumer, before, ls, false)
  {
    assert ls <= el + [p] + er;
  }

  lemma NodeRefused<V>(el: seq<(int, V)>, p: (int, V), er: seq<(int, V)>, consumer: Consumer<V>,
                       before: seq<(int, V)>)
    requires StopsAtFirstRefusal(el, consumer, before, el, true)
    requires !consumer(before + el + [p])
    ensures StopsAtFirstRefusal(el + [p] + er, consumer, before, el + [p], false)
  {
    var mid := el + [p];
    forall i | 0 < i < |mid|
      ensures consumer(before + mid[..i])
    {
      if i < |el| {
        assert mid[..i] == el[..i];
      } else {
        assert mid[..i] == el;
      }
    }
    assert before + mid == before + el + [p];
  }

  lemma RightContinues<V>(el: seq<(int, V)>, p: (int, V), er: seq<(int, V)>, consumer: Consumer<V>,
                          before: seq<(int, V)>, rs: seq<(int, V)>, go: bool)
    requires StopsAtFirstRefusal(el, consumer, before, el, true)
    requires consumer(before + el + [p])
    requires StopsAtFirstRefusal(er, consumer, before + el + [p], rs, go)
    ensures StopsAtFirstRefusal(el + [p] + er, consumer, before, el + [p] + rs, go)
  {
    var mid := el + [p];
    var h := before + mid;
    var ys := mid + rs;
    assert h == before + el + [p];
    forall i | 0 < i < |ys|
      ensures consumer(before + ys[..i])
    {
      if i < |el| {
        assert ys[..i] == el[..i];
      } else if i == |el| {
        assert ys[..i] == el;
      } else if i == |mid| {
        assert before + ys[..i] == h;
      } else {
        assert ys[..i] == mid + rs[..i - |mid|];
        assert before + ys[..i] == h + rs[..i - |mid|];
      }
    }
    assert before + ys == h + rs;
    if rs == [] {
      assert before + ys == h;
    }
    assert el + [p] + rs == ys;
  }

  /**
   * A whole traversal seen by its consumer, on a search tree: the pairs it is
   * given are a prefix of the in-order pairs, in strictly ascending key order,
   * each key with its value in the map; every pair but the last was accepted;
   * and unless all pairs were given, the last one was refused.
   */
  lemma InOrderYieldsSortedPrefix<V>(t: Tree<V>, consumer: Consumer<V>)
    requires IsBST(t)
    ensures Walk(t, consumer, []).0 <= Entries(t)
    ensures Ascending(Walk(t, consumer, []).0)
    ensures forall p <- Walk(t, consumer, []).0 :: p.0 in Contents(t) && Contents(t)[p.0] == p.1
    ensures forall i | 0 < i < |Walk(t, consumer, []).0| :: consumer(Walk(t, consumer, []).0[..i])
    ensures Walk(t, consumer, []).0 != Entries(t) ==>
              Walk(t, consumer, []).0 != [] && !consumer(Walk(t, consumer, []).0)
  {
    var (ys, go) := Walk(t, consumer, []);
    WalkStopsAtFirstRefusal(t, consumer, []);
    FromStart(Entries(t), consumer, ys, go);
    SortedPrefix(t, ys);
  }

  /** StopsAtFirstRefusal for a consumer that has been given nothing before. */
  lemma FromStart<V>(es: seq<(int, V)>, consumer: Consumer<V>, ys: seq<(int, V)>, go: bool)
    requires StopsAtFirstRefusal(es, consumer, [], ys, go)
    ensures forall i | 0 < i < |ys| :: consumer(ys[..i])
    ensures ys != es ==> ys != [] && !consumer(ys)
  {
    forall i | 0 < i < |ys|
      ensures consumer(ys[..i])
    {
      assert [] + ys[..i] == ys[..i];
    }
    assert [] + ys == ys;
  }

  /** A prefix of the in-order pairs of a search tree is ascending and holds pairs of its map. */
  lemma SortedPrefix<V>(t: Tree<V>, ys: seq<(int, V)>)
    requires IsBST(t) && ys <= Entries(t)
    ensures Ascending(ys)
    ensures forall p <- ys :: p.0 in Contents(t) && Contents(t)[p.0] == p.1
  {
    EntriesSortedContents(t);
    PrefixOfAscending(ys, Entries(t));
  }

  /** A prefix of an ascending sequence is ascending and holds only pairs of the sequence. */
  lemma PrefixOfAscending<V>(ys: seq<(int, V)>, es: seq<(int, V)>)
    requires ys <= es && Ascending(es)
    ensures Ascending(ys)
    ensures forall p <- ys :: p in es
  {
    assert forall i | 0 <= i < |ys| :: ys[i] == es[i];
  }

  /** A consumer that never stops receives every pair of the tree, in order, and the walk returns `true`. */
  lemma WalkToEnd<V>(t: Tree<V>)
    ensures Walk(t, (_: seq<(int, V)>) => true, []) == (Entries(t), true)
  {
    WalkStopsAtFirstRefusal(t, (_: seq<(int, V)>) => true, []);
  }

  /** The consumer that refuses the `n`-th pair it is given. */
  function StopAt<V>(n: nat): Consumer<V>
  {
    (h: seq<(int, V)>) => |h| < n
  }

  /**
   * Stopping at the `n`-th pair: exactly the first `n` in-order pairs are handed
   * over and the walk returns `false`; a tree with fewer than `n` pairs is walked
   * to the end and the walk returns `true`.
   */
  lemma WalkStopsAt<V>(t: Tree<V>, n: nat)
    requires 1 <= n
    ensures Walk(t, StopAt(n), []) == if n <= Size(t) then (Entries(t)[..n], false) else (Entries(t), true)
  {
    WalkStopsAtFirstRefusal(t, StopAt(n), []);
    var (ys, go) := Walk(t, StopAt<V>(n), []);
    if go {
      assert Entries(t) != [] ==> |Entries(t)| < n;
    } else {
      assert n <= |ys|;
      if 1 < |ys| {
        assert StopAt<V>(n)([] + ys[..|ys| - 1]);
      }
      assert ys == Entries(t)[..n];
    }
  }

  /**
   * The two-child example: keys 5, 2, 8, 7, 9 inserted in that order, then 5
   * deleted.  The root takes over 7 from its right subtree.
   */
  lemma DeleteRootExample()
    ensures var t := Insert(Insert(Insert(Insert(Insert(Leaf, 5, "a"), 2, "b"), 8, "c"), 7, "d"), 9, "e");
            && Find(Delete(t, 5), 5, "") == ("", false)
            && Find(Delete(t, 5), 7, "") == ("d", true)
            && Entries(Delete(t, 5)) == [(2, "b"), (7, "d"), (8, "c"), (9, "e")]
            && Delete(t, 5).key == 7
  {
  }
}
