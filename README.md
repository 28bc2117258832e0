# BinarySearchTreeMap in Dafny

This project models `BinarySearchTreeMap<K, V>` from `BinaryTree.cpp`. It is an ordered key-to-value
map kept in a plain, unbalanced binary search tree of uniquely owned nodes, with a running element
count. The map offers:

- `put`: insert a new leaf, or replace the value of a present key and return the old value;
- `get`: look a key up;
- `remove`: delete a key, but only when its node is a leaf. A node with a child is refused with an
  `invalid_argument` error, and nothing has been changed when that happens;
- `size` and `isEmpty`;
- `toString`: an in-order dump that uses an explicit stack.

Keys are fixed to `int`. Values are generic.

## Structure

- `results.dfy`, module `Results`: `Option` (for `std::optional`) and `Result` (for the exception
  thrown by `remove`).
- `trees.dfy`, module `Trees`: the node structure as a datatype, `Tree<V> = Empty | Node(left, key,
  value, right)`. It also holds:
  - the abstract content: `Keys`, `AsMap`, `NodeCount` and `InOrder`;
  - the ordering invariant `IsBST`;
  - reference definitions of the three descents: `FindNode` (lookup), `Insert` (put) and `Detach`
    (emptying the slot of the node found);
  - the lemmas that tie these together.

  Every descent uses the source's comparison rule. Equal keys stop the walk. A greater search key goes
  right. Anything else goes left.
- `tree_map.dfy`, module `TreeMaps`: the class `BinarySearchTreeMap<V>`. Its fields are `size: nat`
  and `root: Tree<V>`. Its invariant `Valid()` is "`root` is a search tree and `size` is its node
  count".
  - `Put`, `Get` and `Remove` walk down from the root in a `while` loop, one comparison per node,
    as the source's pointer-to-slot loop does. The walk carries the subtree in the current slot
    (`focus`) and the way back to the root (a `Path`). The source overwrites the slot it reached in
    place; here that becomes `root := Plug(path, newSubtree)`.
  - Each method is proved equal to its reference definition (`root == Insert(old(root), key,
    value)`, and so on). Each is also proved against the abstract map `Contents()`.
  - `ToString` pushes and pops an explicit stack of nodes, as the source does. It is proved to
    produce `Dump(InOrder(root), show)`.
- `render.dfy`, module `Render`: the text of the dump. `IntToString` prints an `int` the way a
  character stream does, and it has a parse-back round trip. `Dump` produces `"[ "`, then
  `"(k, v) "` for each entry in order, then `"]"`.
- `scenario.dfy`, module `Scenario`: the demonstration in `main`. It makes eight insertions, then
  runs `remove(2)`, `remove(8)` and the refused `remove(4)`, checking the size after each step. Then `get(5)`, `get(8)` and the final dump are shown to produce exactly the values the
  demonstration asserts and prints.

The refused removal throws `std::invalid_argument` with the message `"ERROR: Only leaf nodes can
be removed."` (BinaryTree.cpp:87). The model returns `Err(InvalidArgument(LeafOnlyMessage))`.

## Model

| member | source | states |
|---|---|---|
| `TreeMaps.BinarySearchTreeMap.constructor` | BinaryTree.cpp:52 | a new map is valid, its root slot is empty, its count is 0 and its content is the empty map |
| `TreeMaps.BinarySearchTreeMap.Size` | BinaryTree.cpp:54-56 | returns the maintained count, and that count equals the number of stored keys |
| `TreeMaps.BinarySearchTreeMap.IsEmpty` | BinaryTree.cpp:136 | true exactly when the count is 0, and exactly when the map holds no key |
| `TreeMaps.BinarySearchTreeMap.Put` | BinaryTree.cpp:58-79 | keeps the ordering invariant and count = node count; the new root is the reference insertion; returns the previous value of the key, or none; afterwards the key maps to the new value and every other key is unchanged; the count grows by one exactly when the key was absent; for a present key the tree shape is unchanged; for an absent key the key sits in a new leaf |
| `TreeMaps.BinarySearchTreeMap.Get` | BinaryTree.cpp:101-112 | changes nothing; returns the stored value when the key is present and none when it is absent |
| `TreeMaps.BinarySearchTreeMap.Remove` | BinaryTree.cpp:81-99 | keeps the invariant; absent key: returns none, root and count unchanged; node with a child: the invalid-argument error with the source's message, root and count unchanged; leaf: returns its value, its slot is emptied, the count drops by one, and the content loses exactly that key |
| `TreeMaps.BinarySearchTreeMap.ToString` | BinaryTree.cpp:114-134 | the explicit-stack walk produces `"[ "`, `"(k, v) "` for each in-order entry and `"]"`; an empty map gives `"[ ]"` |
| `Trees.FindNode` | BinaryTree.cpp:103-110 | the descent (equal stops, greater goes right, else left) stops at a node holding the searched key, or falls off the tree |
| `Trees.FindNodeMatchesMap` | BinaryTree.cpp:101-112 | in a search tree, the descent finds a node exactly when the key is stored, and that node holds the stored value |
| `Trees.FindNodeIsLookup` | BinaryTree.cpp:105 | the answer of the descent equals a lookup in the abstract map |
| `Trees.KeysMatchMap` | BinaryTree.cpp:21-24 | the keys of the nodes are exactly the keys of the map the tree stands for |
| `Trees.CountIsKeySetSize` | BinaryTree.cpp:48 | in a search tree the node count equals the number of distinct keys, so no two nodes share a key |
| `Trees.CountIsKeyCount` | BinaryTree.cpp:48 | in a search tree, node count = number of distinct keys = size of the abstract map |
| `Trees.InsertKeys` | BinaryTree.cpp:62-75 | insertion adds the key to the key set and nothing else |
| `Trees.InsertPreservesBST` | BinaryTree.cpp:70-75 | going right on a greater key and left otherwise keeps the ordering invariant |
| `Trees.InsertMap` | BinaryTree.cpp:35-39 | after put the key maps to the new value and every other entry is unchanged (both the in-place `setValue` and the new leaf) |
| `Trees.InsertCount` | BinaryTree.cpp:77 | put adds one node when the descent falls off the tree and none when it finds the key |
| `Trees.InsertExistingKeepsShape` | BinaryTree.cpp:65-69 | replacing the value of a present key leaves the shape and every key in place |
| `Trees.InsertNewIsLeaf` | BinaryTree.cpp:75 | an absent key ends up in a new leaf, where the descent for it now stops |
| `Trees.DetachKeys` | BinaryTree.cpp:89 | emptying a slot never adds keys |
| `Trees.DetachPreservesBST` | BinaryTree.cpp:89 | emptying the slot reached by the descent keeps the ordering invariant |
| `Trees.DetachLeafMap` | BinaryTree.cpp:85-91 | detaching the leaf holding the key removes exactly that key, and the other entries keep their values |
| `Trees.DetachLeafCount` | BinaryTree.cpp:89-90 | detaching a leaf removes exactly one node, matching `--size_` |
| `Trees.InOrderKeysIn` | BinaryTree.cpp:118-131 | the in-order walk visits every node once, and only keys of the tree |
| `Trees.InOrderAscending` | BinaryTree.cpp:118-131 | in a search tree the in-order walk lists keys in strictly ascending order |
| `Trees.InOrderEntries` | BinaryTree.cpp:127-128 | every (key, value) the walk emits is an entry of the map |
| `Trees.InOrderLength` | BinaryTree.cpp:118-131 | the walk emits as many entries as the map has keys |
| `Trees.InOrderCovers` | BinaryTree.cpp:118-131 | every entry stored in a search tree appears in the in-order walk, with its stored value: together with `InOrderEntries` the walk lists exactly the map's entries |
| `Trees.EmptyInOrder` | BinaryTree.cpp:120 | a tree standing for the empty map has nothing to walk |
| `Render.NatToString` | BinaryTree.cpp:127 | decimal digits of a natural number: at least one digit, no leading zero (a leading `0` only in the numeral `"0"`) |
| `Render.IntToString` | BinaryTree.cpp:127 | printing an int key gives a numeral: a minus sign exactly when the key is negative, then at least one digit with no leading zero |
| `Render.NatToStringRoundTrip` | BinaryTree.cpp:127 | reading the printed digits back gives the number |
| `Render.IntToStringRoundTrip` | BinaryTree.cpp:127 | parsing the printed key gives back the key |
| `Render.Dump` | BinaryTree.cpp:119-132 | the dump starts with `"[ "` and ends with `"]"`; with no entries it is `"[ ]"` |
| `Render.OpenedAppend` | BinaryTree.cpp:127-128 | writing one more entry extends the text by exactly `"(k, v) "` |
| `Scenario.BuildTree` | BinaryTree.cpp:140-149 | the eight insertions 4, 5, 3, 1, 6, 0, 7, 2 give a valid map with the expected tree |
| `Scenario.MainScenario` | BinaryTree.cpp:139-167 | the demonstration's results: size 0, then 8; `remove(2)` gives "two" and size 7; `remove(8)` gives none and size 7; `remove(4)` is refused and size stays 7; `get(5)` is "five"; `get(8)` is none; the dump is `[ (0, zero) (1, one) (3, three) (4, four) (5, five) (6, six) (7, seven) ]` |

## Left out

- Console output in `main` (`std::cout`, BinaryTree.cpp:167) is I/O. `MainScenario` returns the
  dump string instead.
- The RTTI check on the caught exception (`dynamic_cast`, BinaryTree.cpp:159-162) is left out. The
  error is a `Result` value carrying the same message.
- C++ exceptions are left out. The refused removal returns `Err(InvalidArgument(LeafOnlyMessage))`
  and leaves the state unchanged.
- Rendering of a generic `V` through `std::stringstream` (BinaryTree.cpp:115, 127) is a
  caller-supplied `show: V -> string` parameter of `ToString`. Only `int` keys get a concrete
  decimal rendering.
- `unique_ptr` ownership and memory release (BinaryTree.cpp:23-24, 60, 75, 89) are left out. Tree
  values cannot be shared, so the single-owner property holds by construction. Releasing a node is
  just replacing its slot with `Empty`.
- The `Node` accessors and `Node::setValue` (BinaryTree.cpp:29-45) are datatype destructors and the
  update `focus.(value := value)` inside `Put`. They are not separate members.
- The four-argument `Node` constructor with pre-built children (BinaryTree.cpp:27) is never used with
  non-empty children by the map, so it is not modelled separately.
- Template genericity over `K` and its comparison operators is left out. Keys are `int`, on which
  `==` and `>` form a strict total order.
- The thread-safety remark at BinaryTree.cpp:114 is left out: no concurrency is modelled.
- `TreeMaps.BinarySearchTreeMap.Put`: does not model wrap-around of the `size_t` count at 2^64. The
  count is an unbounded `nat`, because that many nodes cannot be allocated.
