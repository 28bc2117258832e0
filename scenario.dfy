/**
 * The demonstration run: eight insertions, a leaf removal, a removal of an
 * absent key, a refused removal of an inner node, two lookups and the final
 * ordered dump, with the outcomes the demonstration asserts.
 */
module Scenario {
  import opened Results
  import opened Trees
  import opened Render
  import opened TreeMaps

  function Leaf(k: int, v: string): Tree<string> {
    Node(Empty, k, v, Empty)
  }

  /** Values are strings and print as themselves. */
  function ShowString(v: string): string {
    v
  }

  /** The left subtree of the root once key 2 is gone. */
  function LeftPart(): Tree<string> {
    Node(Node(Leaf(0, "zero"), 1, "one", Empty), 3, "three", Empty)
  }

  function RightPart(): Tree<string> {
    Node(Empty, 5, "five", Node(Empty, 6, "six", Leaf(7, "seven")))
  }

  /** The tree after the eight insertions. */
  function Built(): Tree<string> {
    Node(Node(Node(Leaf(0, "zero"), 1, "one", Leaf(2, "two")), 3, "three", Empty), 4, "four", RightPart())
  }

  /** The tree after key 2 is removed. */
  function Pruned(): Tree<string> {
    Node(LeftPart(), 4, "four", RightPart())
  }

  /** The trees the eight insertions go through, in order. */
  lemma InsertionSteps()
    ensures Insert(Empty, 4, "four") == Leaf(4, "four")
    ensures Insert(Leaf(4, "four"), 5, "five") == Node(Empty, 4, "four", Leaf(5, "five"))
    ensures Insert(Node(Empty, 4, "four", Leaf(5, "five")), 3, "three")
         == Node(Leaf(3, "three"), 4, "four", Leaf(5, "five"))
    ensures Insert(Node(Leaf(3, "three"), 4, "four", Leaf(5, "five")), 1, "one")
         == Node(Node(Leaf(1, "one"), 3, "three", Empty), 4, "four", Leaf(5, "five"))
    ensures Insert(Node(Node(Leaf(1, "one"), 3, "three", Empty), 4, "four", Leaf(5, "five")), 6, "six")
         == Node(Node(Leaf(1, "one"), 3, "three", Empty), 4, "four", Node(Empty, 5, "five", Leaf(6, "six")))
    ensures Insert(Node(Node(Leaf(1, "one"), 3, "three", Empty), 4, "four", Node(Empty, 5, "five", Leaf(6, "six"))), 0, "zero")
         == Node(LeftPart(), 4, "four", Node(Empty, 5, "five", Leaf(6, "six")))
    ensures Insert(Node(LeftPart(), 4, "four", Node(Empty, 5, "five", Leaf(6, "six"))), 7, "seven") == Pruned()
    ensures Insert(Pruned(), 2, "two") == Built()
  {
  }

  /** The first four insertions: 4, 5, 3, 1. */
  method BuildTop() returns (tree: BinarySearchTreeMap<string>)
    ensures fresh(tree) && tree.Valid()
    ensures tree.root == Node(Node(Leaf(1, "one"), 3, "three", Empty), 4, "four", Leaf(5, "five"))
  {
    InsertionSteps();
    tree := new BinarySearchTreeMap<string>();
    var previous := tree.Put(4, "four");
    previous := tree.Put(5, "five");
    previous := tree.Put(3, "three");
    previous := tree.Put(1, "one");
  }

  /** The remaining four insertions: 6, 0, 7, 2. */
  method BuildTree() returns (tree: BinarySearchTreeMap<string>)
    ensures fresh(tree) && tree.Valid() && tree.root == Built()
  {
    InsertionSteps();
    tree := BuildTop();
    var previous := tree.Put(6, "six");
    previous := tree.Put(0, "zero");
    previous := tree.Put(7, "seven");
    previous := tree.Put(2, "two");
  }

  lemma PrunedInOrder()
    ensures InOrder(Pruned())
         == [(0, "zero"), (1, "one"), (3, "three"), (4, "four"), (5, "five"), (6, "six"), (7, "seven")]
  {
    assert InOrder(LeftPart()) == [(0, "zero"), (1, "one"), (3, "three")];
    assert InOrder(RightPart()) == [(5, "five"), (6, "six"), (7, "seven")];
  }

  lemma EntryTexts()
    ensures Entry(0, "zero", ShowString) == "(0, zero) "
    ensures Entry(1, "one", ShowString) == "(1, one) "
    ensures Entry(3, "three", ShowString) == "(3, three) "
    ensures Entry(4, "four", ShowString) == "(4, four) "
    ensures Entry(5, "five", ShowString) == "(5, five) "
    ensures Entry(6, "six", ShowString) == "(6, six) "
    ensures Entry(7, "seven", ShowString) == "(7, seven) "
  {
  }

  /** The entries of the final tree, rendered one after another. */
  lemma PrunedEntries()
    ensures Entries(InOrder(Pruned()), ShowString)
         == "(0, zero) " + "(1, one) " + "(3, three) " + "(4, four) " + "(5, five) " + "(6, six) " + "(7, seven) "
  {
    PrunedInOrder();
    EntryTexts();
    var p1 := [(0, "zero")];
    var p2 := p1 + [(1, "one")];
    var p3 := p2 + [(3, "three")];
    var p4 := p3 + [(4, "four")];
    var p5 := p4 + [(5, "five")];
    var p6 := p5 + [(6, "six")];
    var p7 := p6 + [(7, "seven")];
    assert InOrder(Pruned()) == p7;
    EntriesAppend([], (0, "zero"), ShowString);
    assert [] + [(0, "zero")] == p1;
    EntriesAppend(p1, (1, "one"), ShowString);
    EntriesAppend(p2, (3, "three"), ShowString);
    EntriesAppend(p3, (4, "four"), ShowString);
    EntriesAppend(p4, (5, "five"), ShowString);
    EntriesAppend(p5, (6, "six"), ShowString);
    EntriesAppend(p6, (7, "seven"), ShowString);
  }

  /** The dump of the final tree is the line the demonstration prints. */
  lemma PrunedDump()
    ensures Dump(InOrder(Pruned()), ShowString) == ExpectedDump()
  {
    PrunedEntries();
  }

  /** The line the demonstration prints: `[ (0, zero) (1, one) (3, three) (4, four) (5, five) (6, six) (7, seven) ]`. */
  function ExpectedDump(): string {
    "[ " + ("(0, zero) " + "(1, one) " + "(3, three) " + "(4, four) " + "(5, five) " + "(6, six) " + "(7, seven) ") + "]"
  }

  /** What the descents find in the two trees the demonstration inspects. */
  lemma ScenarioFacts()
    ensures NodeCount(Built()) == 8 && NodeCount(Pruned()) == 7
    ensures FindNode(Built(), 2) == Leaf(2, "two") && Detach(Built(), 2) == Pruned()
    ensures FindNode(Pruned(), 8) == Empty
    ensures FindNode(Pruned(), 4) == Pruned() && !IsLeaf(Pruned())
    ensures FindNode(Pruned(), 5) == RightPart()
  {
  }

  method MainScenario() returns (dump: string)
    ensures dump == ExpectedDump()
  {
    ScenarioFacts();
    var empty := new BinarySearchTreeMap<string>();
    var n := empty.Size();
    assert n == 0;
    var tree := BuildTree();
    n := tree.Size();
    assert n == 8;
    var removed := tree.Remove(2);
    assert removed == Ok(Some("two"));
    n := tree.Size();
    assert n == 7;
    removed := tree.Remove(8);
    assert removed == Ok(None);
    n := tree.Size();
    assert n == 7;
    removed := tree.Remove(4);
    assert removed == Err(InvalidArgument(LeafOnlyMessage));
    n := tree.Size();
    assert n == 7;
    FindNodeIsLookup(Pruned(), 5);
    FindNodeIsLookup(Pruned(), 8);
    var found := tree.Get(5);
    assert found == Some("five");
    found := tree.Get(8);
    assert found == None;
    dump := tree.ToString(ShowString);
    PrunedDump();
  }
}
