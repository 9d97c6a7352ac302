# Unbalanced binary search tree map (BST.go)

This project models `BST.go`, a generic, unbalanced binary search tree map. A `BST` holds a
root link to `Node`s. Each node has a key, a value and left and right child links. The map
has these operations:

- `Insert` overwrites the value of an existing key.
- `Find` returns the value and `true`, or the zero value and `false`.
- `Delete` replaces a node that has two children with its in-order successor.
- `InOrder` hands every pair to a `yield` callback in ascending key order and stops as
  soon as the callback returns `false`.

The model has two layers:

- `SearchTree.dfy` (module `SearchTree`) describes the trees as values.
  - `Tree` is the subtree behind one link.
  - `Insert`, `Find`, `Delete` and `Walk` follow the recursive Go functions `insert`,
    `find`, `delete` and `inOrder`, branch for branch.
  - `MinEntry` computes, as a recursion, the leftmost node that the loop of `findMin`
    reaches.
  - `Contents` gives the key-to-value map a tree stands for. `Entries` gives the in-order
    sequence of its pairs.
  - The lemmas prove what the program promises about these functions: the ordering
    invariant is kept, insert and delete change the map as a map update or removal, find
    is a map lookup, the successor splice is correct, and the traversal is sorted and
    stops early.
- `BinarySearchTree.dfy` (module `BinarySearchTree`) is the pointer structure, updated in
  place.
  - `Node` objects own their subtrees. Each node carries its value-level tree and its
    object set as ghost state.
  - `InsertAt`/`InsertBelow` and `DeleteAt`/`DeleteBelow`/`RemoveNode` rewrite child links
    and node fields the way `insert` and `delete` do.
  - `FindMin` is the `for current.Left != nil` loop.
  - `FindAt` and `InOrderAt` are the read-only recursions.
  - Class `BST` owns the root link and keeps the ordering invariant as part of its validity.
  - Every method is proved to change the ghost tree exactly as the corresponding
    `SearchTree` function does. Its public methods state their effect on the key-to-value
    map.

## Model

| member | source | states |
|---|---|---|
| SearchTree.Insert | BST.go:30-42 | the keys after insertion are the old keys plus the inserted key |
| SearchTree.InsertCorrect | BST.go:30-42 | insertion keeps the ordering invariant and turns the map `M` into `M[key := value]` |
| SearchTree.InsertPresentKeepsShape | BST.go:38-40 | inserting a key that is already present only overwrites its value: same shape, same keys, same node count |
| SearchTree.OverwriteKeepsSize | BST.go:38-40 | inserting the same key twice leaves one entry holding the second value, with the node count of a single insertion |
| SearchTree.FindAfterInsert | BST.go:30-60 | after inserting `key` with `value`, find returns `value` and `true` |
| SearchTree.SizeIsKeyCount | BST.go:15-24 | in an ordered tree no key appears twice: the node count equals the number of distinct keys |
| SearchTree.Find | BST.go:48-60 | a hit names a stored key; a miss returns the zero value |
| SearchTree.FindCorrect | BST.go:48-60 | on an ordered tree, find is exactly map lookup: `(M[key], true)` when `key` is in `M`, else `(zero, false)` |
| SearchTree.MinEntry | BST.go:89-95 | the leftmost node of a non-empty tree holds one of its keys |
| SearchTree.MinEntryIsLeast | BST.go:89-95 | on an ordered tree, the leftmost key is the least key and its value is the one the map stores for it |
| SearchTree.Delete | BST.go:66-87 | deletion never adds a key and never adds a node |
| SearchTree.DeleteCorrect | BST.go:66-87 | deletion keeps the ordering invariant and turns the map `M` into `M - {key}` |
| SearchTree.DeleteTwoChildren | BST.go:81-84 | the node rebuilt with the successor's key and value, over the left subtree and the right subtree minus the successor, is ordered and stands for the union of both subtrees' maps |
| SearchTree.SuccessorSplice | BST.go:81-84 | the adopted key is above every left key and below every key left in the right subtree; the right subtree loses exactly that key and exactly one node |
| SearchTree.DeleteAbsent | BST.go:66-73 | deleting an absent key gives back the same tree |
| SearchTree.DeletePresentSize | BST.go:66-87 | deleting a present key removes exactly one node |
| SearchTree.DeleteThenFind | BST.go:44-87 | after deleting `key`, find misses it, and deleting it again changes nothing |
| SearchTree.DeleteRootExample | BST.go:62-87 | inserting 5, 2, 8, 7, 9 and deleting 5 leaves 7 at the root, misses 5, finds 7, and lists 2, 7, 8, 9 in order |
| SearchTree.Walk | BST.go:102-116 | computes the pairs handed to `yield` (left subtree, node, right subtree) and the flag the walk returns, `false` once `yield` refuses a pair; its own contract says at most one pair per node is handed over, and exactly one per node when the flag is `true`; WalkStopsAtFirstRefusal states the rest |
| SearchTree.Entries | BST.go:102-116 | the in-order listing has one pair per node |
| SearchTree.EntriesSortedContents | BST.go:102-116 | on an ordered tree, the in-order listing is strictly ascending by key, and a pair appears in it exactly when the map stores that value under that key |
| SearchTree.WalkStopsAtFirstRefusal | BST.go:102-116 | the pairs handed to `yield` are a prefix of the in-order listing; every pair but the last was accepted; the walk returns `true` only after handing over all pairs with the last accepted, and `false` right after the first refusal |
| SearchTree.InOrderYieldsSortedPrefix | BST.go:97-116 | from the root of an ordered tree, the yielded pairs are an ascending prefix of the listing, each pair is in the map, every earlier pair was accepted, and the last one was refused unless all pairs were yielded |
| SearchTree.WalkToEnd | BST.go:102-116 | a callback that always accepts receives every pair in order, and the walk returns `true` |
| SearchTree.WalkStopsAt | BST.go:102-116 | a callback that refuses its `n`-th pair receives exactly the first `n` pairs and the walk returns `false`; with fewer than `n` pairs the whole listing is yielded and the walk returns `true` |
| BinarySearchTree.Node.constructor | BST.go:32 | a fresh node with the given key and value, no children, standing for a one-node tree |
| BinarySearchTree.InsertAt | BST.go:30-42 | a nil link becomes a fresh node; a non-nil link keeps its node; the subtree afterwards is `SearchTree.Insert` of the one before, and only the new node is fresh |
| BinarySearchTree.InsertBelow | BST.go:34-41 | at a non-nil node, the child link on the key's side is rewritten, or the value is overwritten on an equal key; the subtree becomes `SearchTree.Insert` of the old one |
| BinarySearchTree.FindAt | BST.go:48-60 | the descent by comparison over the nodes returns what `SearchTree.Find` returns on the subtree |
| BinarySearchTree.FindMin | BST.go:89-95 | the loop that follows left links ends at the leftmost node, the one reached by following left links until there is none; that node has no left child, and its key and value are `SearchTree.MinEntry` of the subtree |
| BinarySearchTree.DeleteAt | BST.go:66-69 | a nil link stays nil; otherwise the subtree after the call is `SearchTree.Delete` of the one before, and the result owns no object the old subtree did not own |
| BinarySearchTree.DeleteBelow | BST.go:70-86 | a smaller or greater key rewrites the child link on that side and returns the same node; on an equal key `RemoveNode` decides, and the key leaves the subtree; the result stands for `SearchTree.Delete` of the old subtree |
| BinarySearchTree.RemoveNode | BST.go:74-85 | the node holding the key is replaced by its right child, by its left child, or, with two children, overwritten in place with the successor found by `FindMin`, whose key is deleted from the right subtree, and returned itself; the result stands for `SearchTree.Delete` of the old subtree at that key |
| BinarySearchTree.InOrderAt | BST.go:102-116 | the recursion over the nodes hands `yield` the same pairs, and returns the same flag, as `SearchTree.Walk` on the subtree |
| BinarySearchTree.BST.constructor | BST.go:22-24 | a new tree is empty: its map is empty |
| BinarySearchTree.BST.Insert | BST.go:26-28 | the root link is replaced by the result of `insert`; the tree stays ordered and its map `M` becomes `M[key := value]` |
| BinarySearchTree.BST.Find | BST.go:44-46 | `found` holds exactly when the key is in the map; then `value` is the stored value, otherwise the zero value |
| BinarySearchTree.BST.Delete | BST.go:62-64 | the root link is replaced by the result of `delete`; the tree stays ordered, no object is added, and its map `M` becomes `M - {key}` |
| BinarySearchTree.BST.InOrder | BST.go:97-101 | running the sequence with a callback yields an ascending prefix of the in-order pairs, each as stored in the map; every pair but the last was accepted, and the last was refused unless all pairs were yielded |

## Left out

- `main` (BST.go:118-166), the line-oriented command interpreter, is not modelled: it consists only of standard input, output and string parsing.
- Keys are `int`, the type `main` instantiates. Go's generic `cmp.Ordered` key type is not modelled, so neither are floating-point NaN keys or string ordering. Values are any type `V`.
- Go's `var zero V` has no Dafny counterpart. The zero value is given explicitly: as a parameter of `SearchTree.Find`, and as a constant fixed when a `BST` is constructed.
- `Seq2` and the closure that `InOrder` returns (BST.go:13, 97-101) are modelled as a method that runs the traversal once with a given callback and returns the pairs handed to it. As in the closure, the flag returned by `inOrder` is dropped.
- The `yield` callback is modelled as a total function of the pairs it has received so far, so its answer may depend on its whole history. Side effects it has beyond that answer are not modelled.
- Each of `insert` and `delete` is written as two or three methods that together make the same branches: one for the nil link, one for a non-nil node and, for `delete`, one for the node holding the key. This keeps each proof small. It changes no behaviour.
- Aliasing: the model assumes the tree is a proper tree in which no node is shared, which is all the program ever builds. Recursion depth and stack exhaustion on degenerate trees are not modelled.
- Concurrent use of one tree is not modelled; the program has none.
