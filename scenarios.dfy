/**
 * The expectations of the traversal, rendering and range tests, stated about
 * the model. The traversal and rendering tests build this tree by inserting
 * 3, 2, 1 and 4:
 *
 *       2
 *      / \
 *     1   3
 *          \
 *           4
 */
module Scenarios {
  import AvlNode
  import RangeIteration

  /** Decimal rendering of a one-digit key, as `i32::to_string` gives it. */
  function Digit(k: int): string
  {
    if 0 <= k <= 9 then [(('0' as int) + k) as char] else "?"
  }

  function Leaf(k: int, v: char): AvlNode.Tree<char>
  {
    AvlNode.Node(k, v, 1, AvlNode.Nil, AvlNode.Nil)
  }

  function Sample(): AvlNode.Tree<char>
  {
    AvlNode.Node(2, 'b', 3, Leaf(1, 'a'), AvlNode.Node(3, 'c', 2, AvlNode.Nil, Leaf(4, 'd')))
  }

  /** Pre-, in- and post-order keys of the sample tree. */
  lemma DepthFirstOrdersOfSample()
    ensures AvlNode.PreOrderKeys(Sample()) == [2, 1, 3, 4]
    ensures AvlNode.InOrderKeys(Sample()) == [1, 2, 3, 4]
    ensures AvlNode.PostOrderKeys(Sample()) == [1, 4, 3, 2]
  {
  }

  /** Level-order keys of the sample tree, one queue step at a time. */
  lemma LevelOrderOfSample()
    ensures AvlNode.LevelOrderKeys(Sample()) == [2, 1, 3, 4]
  {
    var t := Sample();
    var q0 := [t];
    AvlNode.BreadthFirstStep(q0);
    var q1 := [t.left, t.right];
    assert q0[1..] + AvlNode.Children(t) == q1;
    AvlNode.BreadthFirstStep(q1);
    var q2 := [t.right];
    assert q1[1..] + AvlNode.Children(q1[0]) == q2;
    AvlNode.BreadthFirstStep(q2);
    var q3 := [t.right.right];
    assert q2[1..] + AvlNode.Children(q2[0]) == q3;
    AvlNode.BreadthFirstStep(q3);
    assert q3[1..] + AvlNode.Children(q3[0]) == [];
  }

  /** The rendering of a leaf. */
  lemma LeafRendering()
    ensures AvlNode.LinkToString(Leaf(1, 'a'), Digit, c => [c]) == "[K: 1, V: a, L: Ø, R: Ø]"
  {
  }

  /** A node renders as its four pieces in brackets, whatever the pieces are. */
  lemma NodeRendersAsPieces(t: AvlNode.Tree<char>, k: string, v: string, l: string, r: string)
    requires t.Node? && Digit(t.key) == k && [t.value] == v
    requires AvlNode.LinkToString(t.left, Digit, c => [c]) == l
    requires AvlNode.LinkToString(t.right, Digit, c => [c]) == r
    ensures AvlNode.LinkToString(t, Digit, c => [c]) == "[K: " + k + ", V: " + v + ", L: " + l + ", R: " + r + "]"
  {
  }

  /** The pieces of the leaf 4 joined. */
  lemma LeafFourJoined()
    ensures "[K: " + "4" + ", V: " + "d" + ", L: " + "Ø" + ", R: " + "Ø" + "]" == "[K: 4, V: d, L: Ø, R: Ø]"
  {
  }

  /** The pieces of the node 3 before its right subtree joined. */
  lemma NodeThreeHeadJoined()
    ensures "[K: " + "3" + ", V: " + "c" + ", L: " + "Ø" + ", R: " == "[K: 3, V: c, L: Ø, R: "
  {
  }

  /** The node 3 around its rendered right subtree. */
  lemma NodeThreeJoined()
    ensures "[K: 3, V: c, L: Ø, R: " + "[K: 4, V: d, L: Ø, R: Ø]" + "]"
         == "[K: 3, V: c, L: Ø, R: [K: 4, V: d, L: Ø, R: Ø]]"
  {
  }

  /** The pieces of the root before its left subtree joined. */
  lemma RootHeadJoined()
    ensures "[K: " + "2" + ", V: " + "b" + ", L: " == "[K: 2, V: b, L: "
  {
  }

  /** The root's left half: its head, the leaf 1 and the right label. */
  lemma RootLeftJoined()
    ensures "[K: 2, V: b, L: " + "[K: 1, V: a, L: Ø, R: Ø]" + ", R: "
         == "[K: 2, V: b, L: [K: 1, V: a, L: Ø, R: Ø], R: "
  {
  }

  /** The root's right half: the node 3 and the closing bracket. */
  lemma RootRightJoined()
    ensures "[K: 3, V: c, L: Ø, R: [K: 4, V: d, L: Ø, R: Ø]]" + "]"
         == "[K: 3, V: c, L: Ø, R: [K: 4, V: d, L: Ø, R: Ø]]]"
  {
  }

  /** The rendering of the sample's right subtree, 3 with the leaf 4 on its right. */
  lemma RightSubtreeRendering()
    ensures AvlNode.LinkToString(Sample().right, Digit, c => [c])
         == "[K: 3, V: c, L: Ø, R: [K: 4, V: d, L: Ø, R: Ø]]"
  {
    NodeRendersAsPieces(Leaf(4, 'd'), "4", "d", "Ø", "Ø");
    LeafFourJoined();
    NodeRendersAsPieces(Sample().right, "3", "c", "Ø", "[K: 4, V: d, L: Ø, R: Ø]");
    NodeThreeHeadJoined();
    NodeThreeJoined();
  }

  /** Splits a rendering after the right piece's label. */
  lemma Regroup(p: string, l: string, r: string)
    ensures p + l + ", R: " + r + "]" == (p + l + ", R: ") + (r + "]")
  {
  }

  /** The rendering of the whole sample tree, built up from its subtrees. */
  lemma SampleRendering()
    ensures AvlNode.LinkToString(Sample(), Digit, c => [c])
         == "[K: 2, V: b, L: [K: 1, V: a, L: Ø, R: Ø], R: "
          + "[K: 3, V: c, L: Ø, R: [K: 4, V: d, L: Ø, R: Ø]]]"
  {
    LeafRendering();
    RightSubtreeRendering();
    NodeRendersAsPieces(Sample(), "2", "b", "[K: 1, V: a, L: Ø, R: Ø]", "[K: 3, V: c, L: Ø, R: [K: 4, V: d, L: Ø, R: Ø]]");
    RootHeadJoined();
    Regroup("[K: 2, V: b, L: ", "[K: 1, V: a, L: Ø, R: Ø]", "[K: 3, V: c, L: Ø, R: [K: 4, V: d, L: Ø, R: Ø]]");
    RootLeftJoined();
    RootRightJoined();
  }

  /** The in-order keys of the range tests' tree, which holds the keys 1 to 10. */
  function TenKeys(): seq<int>
  {
    [1, 2, 3, 4, 5, 6, 7, 8, 9, 10]
  }

  /** An unbounded range yields every key. */
  lemma UnboundedWindow()
    ensures RangeIteration.Window(TenKeys(), RangeIteration.Unbounded, RangeIteration.Unbounded) == TenKeys()
  {
    RangeIteration.WindowAllInside(TenKeys(), RangeIteration.Unbounded, RangeIteration.Unbounded);
  }

  /** Keys 1 to 4 inclusive. */
  lemma IncludedWindow()
    ensures RangeIteration.Window([1, 2, 3, 4, 5, 6, 7, 8, 9, 10], RangeIteration.Included(1), RangeIteration.Included(4)) == [1, 2, 3, 4]
  {
  }

  /** A lower bound below every key cuts nothing off. */
  lemma IncludedFromZeroWindow()
    ensures RangeIteration.Window([1, 2, 3, 4, 5, 6, 7, 8, 9, 10], RangeIteration.Included(0), RangeIteration.Included(4)) == [1, 2, 3, 4]
  {
  }

  /** Keys strictly between 1 and 5. */
  lemma ExcludedWindow()
    ensures RangeIteration.Window([1, 2, 3, 4, 5, 6, 7, 8, 9, 10], RangeIteration.Excluded(1), RangeIteration.Excluded(5)) == [2, 3, 4]
  {
  }
}
