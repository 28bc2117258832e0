/**
 * The public container: a root slot and a running element count, with
 * put / get / remove / size / isEmpty / toString. The lookups and updates walk
 * down from the root slot in a loop, one comparison per node; an update then
 * overwrites the slot the walk stopped at. The walk carries the subtree in the
 * current slot (`focus`) together with the way back to the root (`path`), so
 * the overwrite is `root := Plug(path, newSubtree)`.
 */
module TreeMaps {
  import opened Results
  import opened Trees
  import opened Render

  /** The message of the error raised when a node with a child is asked to be removed. */
  const LeafOnlyMessage: string := "ERROR: Only leaf nodes can be removed."

  datatype MapError = InvalidArgument(message: string)

  class BinarySearchTreeMap<V> {
    var size: nat
    var root: Tree<V>

    /** The ordering invariant, and the count equal to the number of nodes. */
    ghost predicate Valid()
      reads this
    {
      IsBST(root) && size == NodeCount(root)
    }

    /** The map's abstract content. */
    ghost function Contents(): map<int, V>
      reads this
    {
      AsMap(root)
    }

    constructor ()
      ensures Valid()
      ensures root == Empty && size == 0 && Contents() == map[]
    {
      size := 0;
      root := Empty;
    }

    /** The number of stored keys. */
    method Size() returns (n: nat)
      requires Valid()
      ensures n == size && n == |Contents()|
    {
      CountIsKeyCount(root);
      n := size;
    }

    method IsEmpty() returns (empty: bool)
      requires Valid()
      ensures empty <==> Contents() == map[]
      ensures empty <==> size == 0
    {
      CountIsKeyCount(root);
      empty := size == 0;
    }

    /**
     * Stores `value` under `key`. A present key keeps its node and gets the new
     * value, and its old value is returned; an absent key gets a new leaf in the
     * empty slot the descent reaches, and the count grows by one.
     */
    method Put(key: int, value: V) returns (previous: Option<V>)
      requires Valid()
      modifies this
      ensures Valid()
      ensures root == Insert(old(root), key, value)
      ensures previous == Lookup(old(Contents()), key)
      ensures Contents() == old(Contents())[key := value]
      ensures size == old(size) + (if key in old(Contents()) then 0 else 1)
      ensures key in old(Contents()) ==> Skeleton(root) == Skeleton(old(root))
      ensures key !in old(Contents()) ==> FindNode(root, key) == Node(Empty, key, value, Empty)
    {
      ghost var start := root;
      FindNodeMatchesMap(start, key);
      InsertPreservesBST(start, key, value);
      InsertMap(start, key, value);
      InsertCount(start, key, value);
      if root.Empty? {
        root := Node(Empty, key, value, Empty);
        previous := None;
        InsertNewIsLeaf(start, key, value);
      } else {
        var focus := root;
        var path: Path<V> := Top;
        while focus.Node?
          invariant Plug(path, Insert(focus, key, value)) == Insert(start, key, value)
          invariant FindNode(focus, key) == FindNode(start, key)
          decreases focus
        {
          var current := focus.key;
          if current == key {
            previous := Some(focus.value);
            root := Plug(path, focus.(value := value));
            InsertExistingKeepsShape(start, key, value);
            return;
          }
          if key > current {
            path := RightOf(focus.left, current, focus.value, path);
            focus := focus.right;
          } else {
            path := LeftOf(current, focus.value, focus.right, path);
            focus := focus.left;
          }
        }
        root := Plug(path, Node(Empty, key, value, Empty));
        previous := None;
        InsertNewIsLeaf(start, key, value);
      }
      size := size + 1;
    }

    /** The value stored under `key`, or `None`; nothing is changed. */
    method Get(key: int) returns (found: Option<V>)
      requires Valid()
      ensures found == Lookup(Contents(), key)
    {
      var focus := root;
      while focus.Node?
        invariant FindNode(focus, key) == FindNode(root, key)
        decreases focus
      {
        var current := focus.key;
        if current == key {
          FindNodeIsLookup(root, key);
          return Some(focus.value);
        }
        if key > current {
          focus := focus.right;
        } else {
          focus := focus.left;
        }
      }
      FindNodeIsLookup(root, key);
      return None;
    }

    /**
     * Removes `key` when its node is a leaf and returns its value. An absent key
     * gives `None`. A node with a child is refused with an error, before anything
     * is written.
     */
    method Remove(key: int) returns (result: Result<Option<V>, MapError>)
      requires Valid()
      modifies this
      ensures Valid()
      ensures var n := FindNode(old(root), key);
        if n.Empty? then
          result == Ok(None) && root == old(root) && size == old(size)
        else if !IsLeaf(n) then
          result == Err(InvalidArgument(LeafOnlyMessage)) && root == old(root) && size == old(size)
        else
          result == Ok(Some(n.value)) && root == Detach(old(root), key) && size == old(size) - 1
      ensures result.Ok? ==> result.value == Lookup(old(Contents()), key)
      ensures result.Ok? ==> Contents() == old(Contents()) - {key}
      ensures result.Err? ==> key in old(Contents()) && Contents() == old(Contents())
    {
      ghost var start := root;
      FindNodeMatchesMap(start, key);
      var focus := root;
      var path: Path<V> := Top;
      while focus.Node?
        invariant Plug(path, Detach(focus, key)) == Detach(start, key)
        invariant FindNode(focus, key) == FindNode(start, key)
        invariant root == start && size == old(size)
        decreases focus
      {
        var current := focus.key;
        if current == key {
          if focus.right.Node? || focus.left.Node? {
            return Err(InvalidArgument(LeafOnlyMessage));
          }
          var removed := focus.value;
          root := Plug(path, Empty);
          DetachPreservesBST(start, key);
          DetachLeafMap(start, key);
          DetachLeafCount(start, key);
          size := size - 1;
          return Ok(Some(removed));
        }
        if key > current {
          path := RightOf(focus.left, current, focus.value, path);
          focus := focus.right;
        } else {
          path := LeftOf(current, focus.value, focus.right, path);
          focus := focus.left;
        }
      }
      return Ok(None);
    }

    /**
     * The ordered dump: `[ `, then `(key, value) ` for every entry in ascending
     * key order, then `]`. The in-order walk keeps the nodes whose left subtree
     * is being visited on an explicit stack.
     */
    method ToString(show: V -> string) returns (s: string)
      requires Valid()
      ensures s == Dump(InOrder(root), show)
      ensures Contents() == map[] ==> s == "[ ]"
    {
      var node := root;
      var stack: seq<Tree<V>> := [];
      ghost var emitted: seq<(int, V)> := [];
      s := "[ ";
      while stack != [] || node.Node?
        invariant forall i :: 0 <= i < |stack| ==> stack[i].Node?
        invariant emitted + Remaining(node, stack) == InOrder(root)
        invariant s == Opened(emitted, show)
        decreases |Remaining(node, stack)|, NodeCount(node)
      {
        if node.Node? {
          RemainingPush(node, stack);
          stack := stack + [node];
          node := node.left;
        } else {
          var top := stack[|stack| - 1];
          ghost var e := (top.key, top.value);
          RemainingPop(emitted, stack);
          node := top;
          stack := stack[..|stack| - 1];
          OpenedAppend(emitted, e, show);
          s := s + Entry(node.key, node.value, show);
          emitted := emitted + [e];
          node := node.right;
        }
      }
      assert emitted == InOrder(root);
      s := s + "]";
      if Contents() == map[] {
        EmptyInOrder(root);
      }
    }
  }

  /** The entries the in-order walk has still to emit, given its current node and stack. */
  ghost function Remaining<V>(node: Tree<V>, stack: seq<Tree<V>>): seq<(int, V)> {
    InOrder(node) + Pending(stack)
  }

  /** The entries still owed by the nodes on the stack: each one's own entry, then its right subtree; top first. */
  ghost function Pending<V>(stack: seq<Tree<V>>): seq<(int, V)> {
    if stack == [] then []
    else
      var top := stack[|stack| - 1];
      (if top.Node? then [(top.key, top.value)] + InOrder(top.right) else []) + Pending(stack[..|stack| - 1])
  }

  /** Descending into the left slot of a node pushes the node: nothing is lost or reordered. */
  lemma RemainingPush<V>(node: Tree<V>, stack: seq<Tree<V>>)
    requires node.Node?
    ensures Remaining(node, stack) == Remaining(node.left, stack + [node])
  {
    assert (stack + [node])[..|stack|] == stack;
  }

  /** Popping a node emits its entry first, then its right subtree, then the rest. */
  lemma RemainingPop<V>(emitted: seq<(int, V)>, stack: seq<Tree<V>>)
    requires stack != [] && stack[|stack| - 1].Node?
    ensures var top := stack[|stack| - 1];
      emitted + Remaining(Empty, stack)
        == (emitted + [(top.key, top.value)]) + Remaining(top.right, stack[..|stack| - 1])
  {
  }
}
