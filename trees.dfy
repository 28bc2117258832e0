/**
 * The node structure of the map, as an immutable value: a plain, unbalanced
 * binary search tree over `int` keys. This module gives the tree's abstract
 * content (key set, entry map, node count, in-order sequence), the ordering
 * invariant, and reference definitions of the three descents the map performs
 * (lookup, insert-or-replace, leaf detachment), with the lemmas that connect them.
 *
 * Every descent follows the map's own comparison rule: an equal key stops the
 * walk, a greater search key goes right, anything else goes left.
 */
module Trees {
  import opened Results

  /** A slot: either empty, or a node that owns its two child slots. */
  datatype Tree<V> = Empty | Node(left: Tree<V>, key: int, value: V, right: Tree<V>)

  /**
   * Where a descent stands, seen from below: the nodes passed on the way down,
   * innermost first. `LeftOf` records that the walk went into a node's left
   * slot, `RightOf` that it went into the right one.
   */
  datatype Path<V> =
    | Top
    | LeftOf(key: int, value: V, right: Tree<V>, up: Path<V>)
    | RightOf(left: Tree<V>, key: int, value: V, up: Path<V>)

  /** Stores `t` in the slot that `p` leads to and rebuilds the tree up to the root. */
  function Plug<V>(p: Path<V>, t: Tree<V>): Tree<V>
    decreases p
  {
    match p
    case Top => t
    case LeftOf(k, v, r, up) => Plug(up, Node(t, k, v, r))
    case RightOf(l, k, v, up) => Plug(up, Node(l, k, v, t))
  }

  // ---------------------------------------------------------------------------
  // Abstract content

  ghost function Keys<V>(t: Tree<V>): set<int> {
    match t
    case Empty => {}
    case Node(l, k, _, r) => Keys(l) + {k} + Keys(r)
  }

  function NodeCount<V>(t: Tree<V>): nat {
    match t
    case Empty => 0
    case Node(l, _, _, r) => NodeCount(l) + 1 + NodeCount(r)
  }

  /** The key-to-value map a tree stands for. */
  ghost function AsMap<V>(t: Tree<V>): map<int, V> {
    match t
    case Empty => map[]
    case Node(l, k, v, r) => (AsMap(l) + AsMap(r))[k := v]
  }

  /** The ordering invariant: left subtree keys are smaller, right subtree keys greater. */
  ghost predicate IsBST<V>(t: Tree<V>) {
    match t
    case Empty => true
    case Node(l, k, _, r) =>
      && IsBST(l) && IsBST(r)
      && (forall x :: x in Keys(l) ==> x < k)
      && (forall x :: x in Keys(r) ==> k < x)
  }

  /** The entries in the order an in-order walk visits them. */
  ghost function InOrder<V>(t: Tree<V>): seq<(int, V)> {
    match t
    case Empty => []
    case Node(l, k, v, r) => InOrder(l) + [(k, v)] + InOrder(r)
  }

  ghost predicate StrictlyAscending<V>(s: seq<(int, V)>) {
    forall i, j :: 0 <= i < j < |s| ==> s[i].0 < s[j].0
  }

  /** The shape of a tree and its keys, with the values forgotten. */
  ghost function Skeleton<V>(t: Tree<V>): Tree<()> {
    match t
    case Empty => Empty
    case Node(l, k, _, r) => Node(Skeleton(l), k, (), Skeleton(r))
  }

  predicate IsLeaf<V>(t: Tree<V>) {
    t.Node? && t.left.Empty? && t.right.Empty?
  }

  /** What a lookup in the map `m` answers for `k`. */
  function Lookup<V>(m: map<int, V>, k: int): Option<V> {
    if k in m then Some(m[k]) else None
  }

  // ---------------------------------------------------------------------------
  // Reference definitions of the descents

  /** The subtree whose root the descent for `k` stops at; `Empty` when the walk falls off the tree. */
  function FindNode<V>(t: Tree<V>, k: int): (n: Tree<V>)
    ensures n.Empty? || n.key == k
    ensures NodeCount(n) <= NodeCount(t)
  {
    match t
    case Empty => Empty
    case Node(l, key, _, r) =>
      if key == k then t
      else if k > key then FindNode(r, k)
      else FindNode(l, k)
  }

  /** Replace the value at `k`, or hang a new leaf holding `k` in the empty slot the descent reaches. */
  function Insert<V>(t: Tree<V>, k: int, v: V): Tree<V> {
    match t
    case Empty => Node(Empty, k, v, Empty)
    case Node(l, key, val, r) =>
      if key == k then Node(l, k, v, r)
      else if k > key then Node(l, key, val, Insert(r, k, v))
      else Node(Insert(l, k, v), key, val, r)
  }

  /** Empty the slot holding the node the descent for `k` stops at (no change when there is none). */
  function Detach<V>(t: Tree<V>, k: int): Tree<V> {
    match t
    case Empty => Empty
    case Node(l, key, val, r) =>
      if key == k then Empty
      else if k > key then Node(l, key, val, Detach(r, k))
      else Node(Detach(l, k), key, val, r)
  }

  // ---------------------------------------------------------------------------
  // Content lemmas

  lemma {:induction false} KeysMatchMap<V>(t: Tree<V>)
    ensures Keys(t) == AsMap(t).Keys
  {
    match t
    case Empty =>
    case Node(l, _, _, r) =>
      KeysMatchMap(l);
      KeysMatchMap(r);
  }

  lemma {:induction false} CountIsKeySetSize<V>(t: Tree<V>)
    requires IsBST(t)
    ensures NodeCount(t) == |Keys(t)|
  {
    match t
    case Empty =>
    case Node(l, k, _, r) =>
      CountIsKeySetSize(l);
      CountIsKeySetSize(r);
      var kl, kr := Keys(l), Keys(r);
      assert k !in kl;
      assert |kl + {k}| == |kl| + 1;
      assert forall x :: x in kl + {k} ==> x <= k;
      assert (kl + {k}) !! kr;
      assert |(kl + {k}) + kr| == |kl + {k}| + |kr|;
  }

  /** Uniqueness of keys: in a search tree there are as many nodes as distinct keys. */
  lemma CountIsKeyCount<V>(t: Tree<V>)
    requires IsBST(t)
    ensures NodeCount(t) == |Keys(t)| == |AsMap(t)|
  {
    CountIsKeySetSize(t);
    KeysMatchMap(t);
  }

  /** The descent for `k` finds a node exactly when `k` is stored, and that node holds the stored value. */
  lemma {:induction false} FindNodeMatchesMap<V>(t: Tree<V>, k: int)
    requires IsBST(t)
    ensures FindNode(t, k).Node? <==> k in AsMap(t)
    ensures FindNode(t, k).Node? ==> FindNode(t, k).value == AsMap(t)[k]
  {
    match t
    case Empty =>
    case Node(l, key, _, r) =>
      KeysMatchMap(l);
      KeysMatchMap(r);
      if key == k {
      } else if k > key {
        assert k !in AsMap(l);
        FindNodeMatchesMap(r, k);
      } else {
        assert k !in AsMap(r);
        FindNodeMatchesMap(l, k);
      }
  }

  /** Lookup through the descent agrees with the abstract map. */
  lemma FindNodeIsLookup<V>(t: Tree<V>, k: int)
    requires IsBST(t)
    ensures Lookup(AsMap(t), k) == (if FindNode(t, k).Node? then Some(FindNode(t, k).value) else None)
  {
    FindNodeMatchesMap(t, k);
  }

  // ---------------------------------------------------------------------------
  // Insert

  lemma {:induction false} InsertKeys<V>(t: Tree<V>, k: int, v: V)
    ensures Keys(Insert(t, k, v)) == Keys(t) + {k}
  {
    match t
    case Empty =>
    case Node(l, key, _, r) =>
      if key == k {
      } else if k > key {
        InsertKeys(r, k, v);
      } else {
        InsertKeys(l, k, v);
      }
  }

  lemma {:induction false} InsertPreservesBST<V>(t: Tree<V>, k: int, v: V)
    requires IsBST(t)
    ensures IsBST(Insert(t, k, v))
  {
    match t
    case Empty =>
    case Node(l, key, _, r) =>
      if key == k {
      } else if k > key {
        InsertKeys(r, k, v);
        InsertPreservesBST(r, k, v);
      } else {
        InsertKeys(l, k, v);
        InsertPreservesBST(l, k, v);
      }
  }

  /** After insert-or-replace, `k` maps to `v` and every other key keeps its value. */
  lemma {:induction false} InsertMap<V>(t: Tree<V>, k: int, v: V)
    requires IsBST(t)
    ensures AsMap(Insert(t, k, v)) == AsMap(t)[k := v]
  {
    match t
    case Empty =>
    case Node(l, key, val, r) =>
      if key == k {
        UpdateTwice(AsMap(l) + AsMap(r), k, val, v);
      } else if k > key {
        InsertMap(r, k, v);
        UpdateInRight(AsMap(l), AsMap(r), key, val, k, v);
      } else {
        InsertMap(l, k, v);
        KeysMatchMap(r);
        UpdateInLeft(AsMap(l), AsMap(r), key, val, k, v);
      }
  }

  lemma UpdateTwice<V>(m: map<int, V>, k: int, a: V, b: V)
    ensures m[k := a][k := b] == m[k := b]
  {
  }

  /** Updating a key in the right operand of a union, below a different root key. */
  lemma UpdateInRight<V>(ml: map<int, V>, mr: map<int, V>, key: int, val: V, k: int, v: V)
    requires k != key
    ensures (ml + mr[k := v])[key := val] == (ml + mr)[key := val][k := v]
  {
  }

  /** Updating a key in the left operand of a union, when the right one does not hold it. */
  lemma UpdateInLeft<V>(ml: map<int, V>, mr: map<int, V>, key: int, val: V, k: int, v: V)
    requires k != key && k !in mr
    ensures (ml[k := v] + mr)[key := val] == (ml + mr)[key := val][k := v]
  {
  }

  /** A new key adds exactly one node; an existing key adds none. */
  lemma {:induction false} InsertCount<V>(t: Tree<V>, k: int, v: V)
    ensures NodeCount(Insert(t, k, v)) == NodeCount(t) + (if FindNode(t, k).Empty? then 1 else 0)
  {
    match t
    case Empty =>
    case Node(l, key, _, r) =>
      if key == k {
      } else if k > key {
        InsertCount(r, k, v);
      } else {
        InsertCount(l, k, v);
      }
  }

  /** Replacing the value of a present key leaves the shape and every key where it was. */
  lemma {:induction false} InsertExistingKeepsShape<V>(t: Tree<V>, k: int, v: V)
    requires FindNode(t, k).Node?
    ensures Skeleton(Insert(t, k, v)) == Skeleton(t)
  {
    match t
    case Node(l, key, _, r) =>
      if key == k {
      } else if k > key {
        InsertExistingKeepsShape(r, k, v);
      } else {
        InsertExistingKeepsShape(l, k, v);
      }
  }

  /** A key that was absent ends up in a new leaf, where the descent for it now stops. */
  lemma {:induction false} InsertNewIsLeaf<V>(t: Tree<V>, k: int, v: V)
    requires FindNode(t, k).Empty?
    ensures FindNode(Insert(t, k, v), k) == Node(Empty, k, v, Empty)
  {
    match t
    case Empty =>
    case Node(l, key, _, r) =>
      if k > key {
        InsertNewIsLeaf(r, k, v);
      } else {
        InsertNewIsLeaf(l, k, v);
      }
  }

  // ---------------------------------------------------------------------------
  // Detach

  lemma {:induction false} DetachKeys<V>(t: Tree<V>, k: int)
    ensures Keys(Detach(t, k)) <= Keys(t)
  {
    match t
    case Empty =>
    case Node(l, key, _, r) =>
      if key == k {
      } else if k > key {
        DetachKeys(r, k);
      } else {
        DetachKeys(l, k);
      }
  }

  lemma {:induction false} DetachPreservesBST<V>(t: Tree<V>, k: int)
    requires IsBST(t)
    ensures IsBST(Detach(t, k))
  {
    match t
    case Empty =>
    case Node(l, key, _, r) =>
      if key == k {
      } else if k > key {
        DetachKeys(r, k);
        DetachPreservesBST(r, k);
      } else {
        DetachKeys(l, k);
        DetachPreservesBST(l, k);
      }
  }

  /** Detaching the leaf that holds `k` removes `k` and keeps every other entry. */
  lemma {:induction false} DetachLeafMap<V>(t: Tree<V>, k: int)
    requires IsBST(t) && IsLeaf(FindNode(t, k))
    ensures AsMap(Detach(t, k)) == AsMap(t) - {k}
  {
    match t
    case Node(l, key, val, r) =>
      if key == k {
        assert AsMap(t) == map[k := val];
      } else if k > key {
        DetachLeafMap(r, k);
        KeysMatchMap(l);
        RemoveFromRight(AsMap(l), AsMap(r), key, val, k);
      } else {
        DetachLeafMap(l, k);
        KeysMatchMap(r);
        RemoveFromLeft(AsMap(l), AsMap(r), key, val, k);
      }
  }

  /** Removing a key from the right operand of a union, when the left one does not hold it. */
  lemma RemoveFromRight<V>(ml: map<int, V>, mr: map<int, V>, key: int, val: V, k: int)
    requires k != key && k !in ml
    ensures (ml + (mr - {k}))[key := val] == (ml + mr)[key := val] - {k}
  {
  }

  /** Removing a key from the left operand of a union, when the right one does not hold it. */
  lemma RemoveFromLeft<V>(ml: map<int, V>, mr: map<int, V>, key: int, val: V, k: int)
    requires k != key && k !in mr
    ensures ((ml - {k}) + mr)[key := val] == (ml + mr)[key := val] - {k}
  {
  }

  /** Detaching a leaf removes exactly one node. */
  lemma {:induction false} DetachLeafCount<V>(t: Tree<V>, k: int)
    requires IsLeaf(FindNode(t, k))
    ensures NodeCount(Detach(t, k)) == NodeCount(t) - 1
  {
    match t
    case Node(l, key, _, r) =>
      if key == k {
      } else if k > key {
        DetachLeafCount(r, k);
      } else {
        DetachLeafCount(l, k);
      }
  }

  // ---------------------------------------------------------------------------
  // In-order sequence

  lemma {:induction false} InOrderKeysIn<V>(t: Tree<V>)
    ensures |InOrder(t)| == NodeCount(t)
    ensures forall i :: 0 <= i < |InOrder(t)| ==> InOrder(t)[i].0 in Keys(t)
  {
    match t
    case Empty =>
    case Node(l, k, v, r) =>
      InOrderKeysIn(l);
      InOrderKeysIn(r);
      var s, sl, sr := InOrder(t), InOrder(l), InOrder(r);
      forall i | 0 <= i < |s| ensures s[i].0 in Keys(t) {
        if i < |sl| {
          assert s[i] == sl[i];
        } else if i > |sl| {
          assert s[i] == sr[i - |sl| - 1];
        }
      }
  }

  /** The in-order walk of a search tree visits keys in strictly ascending order. */
  lemma {:induction false} InOrderAscending<V>(t: Tree<V>)
    requires IsBST(t)
    ensures StrictlyAscending(InOrder(t))
  {
    match t
    case Empty =>
    case Node(l, k, v, r) =>
      InOrderAscending(l);
      InOrderAscending(r);
      InOrderKeysIn(l);
      InOrderKeysIn(r);
      var s, sl, sr := InOrder(t), InOrder(l), InOrder(r);
      var n := |sl|;
      forall i, j | 0 <= i < j < |s| ensures s[i].0 < s[j].0 {
        if j < n {
          assert s[i] == sl[i] && s[j] == sl[j];
        } else if i > n {
          assert s[i] == sr[i - n - 1] && s[j] == sr[j - n - 1];
        } else {
          if i < n {
            assert s[i] == sl[i];
            assert s[i].0 < k;
          } else {
            assert s[i].0 == k;
          }
          if j > n {
            assert s[j] == sr[j - n - 1];
            assert k < s[j].0;
          } else {
            assert s[j].0 == k;
          }
        }
      }
  }

  /** A tree that stands for the empty map has nothing to walk. */
  lemma EmptyInOrder<V>(t: Tree<V>)
    requires AsMap(t) == map[]
    ensures InOrder(t) == []
  {
    KeysMatchMap(t);
  }

  /** A key of the left subtree keeps its value in the whole tree. */
  lemma LeftEntryStays<V>(t: Tree<V>, x: int)
    requires IsBST(t) && t.Node? && x in AsMap(t.left)
    ensures x in AsMap(t) && AsMap(t)[x] == AsMap(t.left)[x]
  {
    KeysMatchMap(t.left);
    KeysMatchMap(t.right);
  }

  /** A key of the right subtree keeps its value in the whole tree. */
  lemma RightEntryStays<V>(t: Tree<V>, x: int)
    requires IsBST(t) && t.Node? && x in AsMap(t.right)
    ensures x in AsMap(t) && AsMap(t)[x] == AsMap(t.right)[x]
  {
    KeysMatchMap(t.right);
  }

  /** The in-order walk has one entry per stored key. */
  lemma InOrderLength<V>(t: Tree<V>)
    requires IsBST(t)
    ensures |InOrder(t)| == |AsMap(t)|
  {
    InOrderKeysIn(t);
    CountIsKeyCount(t);
  }

  /** `e` is one of the entries of `m`. */
  ghost predicate IsEntry<V>(m: map<int, V>, e: (int, V)) {
    e.0 in m && m[e.0] == e.1
  }

  /** Every entry of the in-order walk is an entry of the map. */
  lemma {:induction false} InOrderEntries<V>(t: Tree<V>)
    requires IsBST(t)
    ensures forall i :: 0 <= i < |InOrder(t)| ==> IsEntry(AsMap(t), InOrder(t)[i])
  {
    match t
    case Empty =>
    case Node(l, k, v, r) =>
      InOrderEntries(l);
      InOrderEntries(r);
      var s, sl, sr := InOrder(t), InOrder(l), InOrder(r);
      var n := |sl|;
      forall i | 0 <= i < |s| ensures IsEntry(AsMap(t), s[i]) {
        if i < n {
          assert s[i] == sl[i] && IsEntry(AsMap(l), sl[i]);
          LeftEntryStays(t, sl[i].0);
        } else if i > n {
          assert s[i] == sr[i - n - 1] && IsEntry(AsMap(r), sr[i - n - 1]);
          RightEntryStays(t, sr[i - n - 1].0);
        } else {
          assert s[i] == (k, v);
        }
      }
  }

  /** Every stored entry appears in the in-order walk: the walk misses nothing. */
  lemma {:induction false} InOrderCovers<V>(t: Tree<V>, x: int)
    requires IsBST(t) && x in AsMap(t)
    ensures exists i :: 0 <= i < |InOrder(t)| && InOrder(t)[i] == (x, AsMap(t)[x])
  {
    match t
    case Node(l, k, v, r) =>
      var s, sl, sr := InOrder(t), InOrder(l), InOrder(r);
      var n := |sl|;
      if x == k {
        assert s[n] == (x, AsMap(t)[x]);
      } else if x in AsMap(r) {
        InOrderCovers(r, x);
        RightEntryStays(t, x);
        var j :| 0 <= j < |sr| && sr[j] == (x, AsMap(r)[x]);
        assert s[n + 1 + j] == sr[j];
      } else {
        assert x in AsMap(l);
        InOrderCovers(l, x);
        LeftEntryStays(t, x);
        var j :| 0 <= j < |sl| && sl[j] == (x, AsMap(l)[x]);
        assert s[j] == sl[j];
      }
  }
}
