/**
 * `AVLTree`: the public map type. It owns an optional root node and delegates
 * every operation to the node engine; the traversal iterators are built by
 * collecting keys first and then looking each key up again.
 */
module Facade {
  import opened Wrappers
  import AvlNode
  import TraverseIteration

  /**
   * The pairs that looking up `keys` one after the other finds in `m`, in the
   * order of `keys`; keys that are not stored contribute nothing.
   */
  ghost function FoundPairs<V>(m: map<int, V>, keys: seq<int>): seq<(int, V)>
  {
    if keys == [] then []
    else
      var k := keys[|keys| - 1];
      FoundPairs(m, keys[..|keys| - 1]) + (if k in m then [(k, m[k])] else [])
  }

  /** Looking up keys that are all stored finds one pair per key, in the same order. */
  lemma {:induction false} StoredKeysFindPairs<V>(m: map<int, V>, keys: seq<int>)
    requires forall i | 0 <= i < |keys| :: keys[i] in m
    ensures var ps := FoundPairs(m, keys);
      |ps| == |keys| && forall i | 0 <= i < |ps| :: ps[i] == (keys[i], m[keys[i]])
  {
    if keys != [] {
      StoredKeysFindPairs(m, keys[..|keys| - 1]);
    }
  }

  /** `ps` lists every pair of `m` exactly once, each key with its stored value. */
  ghost predicate ListsEachPairOnce<V>(m: map<int, V>, ps: seq<(int, V)>)
  {
    && (forall i | 0 <= i < |ps| :: ps[i].0 in m && m[ps[i].0] == ps[i].1)
    && (forall i, j | 0 <= i < j < |ps| :: ps[i].0 != ps[j].0)
    && (forall k | k in m :: exists i | 0 <= i < |ps| :: ps[i].0 == k)
  }

  /** Looking up distinct keys that cover exactly the stored keys lists each pair once. */
  lemma DistinctStoredKeysListEachPairOnce<V>(m: map<int, V>, keys: seq<int>)
    requires AvlNode.Distinct(keys)
    requires forall k :: k in keys <==> k in m
    ensures ListsEachPairOnce(m, FoundPairs(m, keys))
  {
    StoredKeysFindPairs(m, keys);
    var ps := FoundPairs(m, keys);
    forall k | k in m ensures exists i | 0 <= i < |ps| :: ps[i].0 == k {
      var i :| 0 <= i < |keys| && keys[i] == k;
      assert ps[i].0 == k;
    }
  }

  /**
   * Collecting the pairs of any rearrangement of the in-order keys of an AVL
   * tree lists each stored pair exactly once.
   */
  lemma TraversalListsEachPairOnce<V>(t: AvlNode.Tree<V>, keys: seq<int>)
    requires AvlNode.Avl(t) && multiset(keys) == multiset(AvlNode.InOrderKeys(t))
    ensures ListsEachPairOnce(AvlNode.Contents(t), FoundPairs(AvlNode.Contents(t), keys))
  {
    var inOrder := AvlNode.InOrderKeys(t);
    assert AvlNode.Distinct(inOrder) by {
      AvlNode.OrderedIffInOrderIncreasing(t);
      AvlNode.IncreasingIsDistinct(inOrder);
    }
    AvlNode.PermutationKeepsDistinct(keys, inOrder);
    AvlNode.InOrderKeysAreKeys(t);
    DistinctStoredKeysListEachPairOnce(AvlNode.Contents(t), keys);
  }

  class AvlTree<V> {
    /** The root link; `Nil` for an empty tree. */
    var root: AvlNode.Tree<V>

    /** The invariant every public operation keeps. */
    ghost predicate Valid()
      reads this
    {
      AvlNode.Avl(root)
    }

    /** The key/value map the tree represents. */
    ghost function Contents(): map<int, V>
      reads this
    {
      AvlNode.Contents(root)
    }

    /** `AVLTree::new` (and `Default`): an empty tree. */
    constructor()
      ensures Valid() && Contents() == map[]
    {
      root := AvlNode.Nil;
    }

    /** `insert`: store `value` under `key`, replacing an older value. */
    method Insert(key: int, value: V)
      requires Valid()
      modifies this
      ensures Valid() && Contents() == old(Contents())[key := value]
      ensures key in old(Contents()) ==> root == AvlNode.Overwrite(old(root), key, value)
    {
      match root
      case Nil =>
        root := AvlNode.NewNode(key, value);
      case Node(_, _, _, _, _) =>
        if key in AvlNode.Keys(root) {
          AvlNode.InsertStoredOnlyOverwrites(root, key, value);
        }
        root := AvlNode.Insert(root, key, value);
    }

    /** `delete`: remove `key`; an absent key is ignored. */
    method Delete(key: int)
      requires Valid()
      modifies this
      ensures Valid() && Contents() == old(Contents()) - {key}
      ensures key !in old(Contents()) ==> root == old(root)
    {
      if root.Node? {
        root := AvlNode.Delete(root, key);
      }
    }

    /** `is_empty`. */
    function IsEmpty(): (r: bool)
      reads this
      ensures r <==> Contents() == map[]
    {
      assert root.Node? ==> root.key in Contents();
      root.Nil?
    }

    /** `get_pair`: the stored pair of `key`, if any. */
    function GetPair(key: int): (r: Option<(int, V)>)
      reads this
      requires Valid()
      ensures r == if key in Contents() then Some((key, Contents()[key])) else None
    {
      if root.Nil? then None
      else
        AvlNode.SearchPairFinds(root, key);
        AvlNode.SearchPair(root, key)
    }

    /** `get`: the stored value of `key`, if any. */
    function Get(key: int): (r: Option<V>)
      reads this
      requires Valid()
      ensures r == if key in Contents() then Some(Contents()[key]) else None
    {
      if root.Nil? then None
      else
        AvlNode.Search(root, key)
    }

    /** `get_or`: the stored value of `key`, or `default` when it is absent. */
    function GetOr(key: int, default: V): (r: V)
      reads this
      requires Valid()
      ensures r == if key in Contents() then Contents()[key] else default
    {
      match Get(key)
      case None => default
      case Some(data) => data
    }

    /** `contains`. */
    function Contains(key: int): (r: bool)
      reads this
      requires Valid()
      ensures r <==> key in Contents()
    {
      Get(key).Some?
    }

    /** `min_pair`: the pair with the least key; `None` for an empty tree. */
    function MinPair(): (r: Option<(int, V)>)
      reads this
      requires Valid()
      ensures r.None? <==> Contents() == map[]
      ensures r.Some? ==> var (k, v) := r.value;
        k in Contents() && Contents()[k] == v && forall x | x in Contents() :: k <= x
    {
      if root.Nil? then None
      else
        AvlNode.MinPairIsLeast(root);
        Some(AvlNode.MinPair(root))
    }

    /** `max_pair`: the pair with the greatest key; `None` for an empty tree. */
    function MaxPair(): (r: Option<(int, V)>)
      reads this
      requires Valid()
      ensures r.None? <==> Contents() == map[]
      ensures r.Some? ==> var (k, v) := r.value;
        k in Contents() && Contents()[k] == v && forall x | x in Contents() :: x <= k
    {
      if root.Nil? then None
      else
        AvlNode.MaxPairIsGreatest(root);
        Some(AvlNode.MaxPair(root))
    }

    /**
     * `is_avl_tree`: an empty tree answers false; otherwise the whole tree is
     * checked, with the corrected check in place of the node-local one. On a
     * tree that keeps the invariant both checks answer alike, and the answer
     * is whether the tree has any node.
     */
    function IsAvlTree(): (r: bool)
      reads this
      ensures r <==> root.Node? && AvlNode.Avl(root)
      ensures Valid() ==> (r <==> root.Node? && AvlNode.IsAvlTree(root))
      ensures Valid() ==> (r <==> Contents() != map[])
    {
      assert root.Node? ==> root.key in Contents();
      if root.Nil? then false else AvlNode.CheckAvlTree(root)
    }

    /** `successor`: the stored pair with the least key above `key`. */
    function Successor(key: int): (r: Option<(int, V)>)
      reads this
      requires Valid()
      ensures r.None? <==> forall x | x in Contents() :: x <= key
      ensures r.Some? ==> var (s, v) := r.value;
        s in Contents() && Contents()[s] == v && key < s
        && forall x | x in Contents() && key < x :: s <= x
    {
      if root.Nil? then None
      else
        AvlNode.SuccessorIsLeastAbove(root, key);
        assert forall x :: x in Contents() <==> x in AvlNode.Keys(root);
        AvlNode.Successor(root, key)
    }

    /** `predecessor`: the stored pair with the greatest key below `key`. */
    function Predecessor(key: int): (r: Option<(int, V)>)
      reads this
      requires Valid()
      ensures r.None? <==> forall x | x in Contents() :: key <= x
      ensures r.Some? ==> var (p, v) := r.value;
        p in Contents() && Contents()[p] == v && p < key
        && forall x | x in Contents() && x < key :: x <= p
    {
      if root.Nil? then None
      else
        AvlNode.PredecessorIsGreatestBelow(root, key);
        assert forall x :: x in Contents() <==> x in AvlNode.Keys(root);
        AvlNode.Predecessor(root, key)
    }

    /** The private `prev_order`: the keys in pre-order. */
    method PrevOrder() returns (keys: seq<int>)
      ensures keys == AvlNode.PreOrderKeys(root)
    {
      keys := AvlNode.PrevOrder(root, []);
    }

    /** The private `in_order`: the keys in ascending order. */
    method InOrder() returns (keys: seq<int>)
      ensures keys == AvlNode.InOrderKeys(root)
    {
      keys := AvlNode.InOrder(root, []);
    }

    /** The private `post_order`: the keys in post-order. */
    method PostOrder() returns (keys: seq<int>)
      ensures keys == AvlNode.PostOrderKeys(root)
    {
      keys := AvlNode.PostOrder(root, []);
    }

    /** The private `level_order`: the keys level by level. */
    method LevelOrder() returns (keys: seq<int>)
      ensures keys == AvlNode.LevelOrderKeys(root)
    {
      keys := AvlNode.LevelOrder(root, []);
    }

    /**
     * The loop shared by the four `*_iter` builders: look every key up with
     * `get_pair` and queue the pairs found.
     */
    method QueuePairs(keys: seq<int>) returns (queue: seq<(int, V)>)
      requires Valid()
      ensures queue == FoundPairs(Contents(), keys)
    {
      queue := [];
      var i := 0;
      while i < |keys|
        invariant 0 <= i <= |keys|
        invariant queue == FoundPairs(Contents(), keys[..i])
      {
        assert keys[..i + 1][..i] == keys[..i];
        var p := GetPair(keys[i]);
        if p.Some? {
          queue := queue + [p.value];
        }
        i := i + 1;
      }
      assert keys[..|keys|] == keys;
    }

    /** `preorder_iter`: the stored pairs in pre-order. */
    method PreorderIter() returns (it: TraverseIteration.TraverseIter<V>)
      requires Valid()
      ensures fresh(it) && it.data == FoundPairs(Contents(), AvlNode.PreOrderKeys(root))
    {
      var keys := PrevOrder();
      var queue := QueuePairs(keys);
      it := new TraverseIteration.TraverseIter(queue);
    }

    /** `inorder_iter`: the stored pairs in ascending key order. */
    method InorderIter() returns (it: TraverseIteration.TraverseIter<V>)
      requires Valid()
      ensures fresh(it) && it.data == FoundPairs(Contents(), AvlNode.InOrderKeys(root))
    {
      var keys := InOrder();
      var queue := QueuePairs(keys);
      it := new TraverseIteration.TraverseIter(queue);
    }

    /** `postorder_iter`: the stored pairs in post-order. */
    method PostorderIter() returns (it: TraverseIteration.TraverseIter<V>)
      requires Valid()
      ensures fresh(it) && it.data == FoundPairs(Contents(), AvlNode.PostOrderKeys(root))
    {
      var keys := PostOrder();
      var queue := QueuePairs(keys);
      it := new TraverseIteration.TraverseIter(queue);
    }

    /** `levelorder_iter`: the stored pairs level by level. */
    method LevelorderIter() returns (it: TraverseIteration.TraverseIter<V>)
      requires Valid()
      ensures fresh(it) && it.data == FoundPairs(Contents(), AvlNode.LevelOrderKeys(root))
    {
      var keys := LevelOrder();
      var queue := QueuePairs(keys);
      it := new TraverseIteration.TraverseIter(queue);
    }

    /**
     * `to_string`: `None` for an empty tree, the root's rendering otherwise;
     * the key and value renderings are parameters.
     */
    function ToString(keyStr: int -> string, valStr: V -> string): (r: string)
      reads this
      ensures root.Nil? <==> r == "None"
      ensures root.Node? ==> r == AvlNode.LinkToString(root, keyStr, valStr)
    {
      if root.Nil? then "None" else AvlNode.NodeToString(root, keyStr, valStr)
    }
  }

  /** Every traversal iterator hands out each stored pair exactly once. */
  lemma TraversalsListEachPairOnce<V>(t: AvlNode.Tree<V>)
    requires AvlNode.Avl(t)
    ensures ListsEachPairOnce(AvlNode.Contents(t), FoundPairs(AvlNode.Contents(t), AvlNode.PreOrderKeys(t)))
    ensures ListsEachPairOnce(AvlNode.Contents(t), FoundPairs(AvlNode.Contents(t), AvlNode.InOrderKeys(t)))
    ensures ListsEachPairOnce(AvlNode.Contents(t), FoundPairs(AvlNode.Contents(t), AvlNode.PostOrderKeys(t)))
    ensures ListsEachPairOnce(AvlNode.Contents(t), FoundPairs(AvlNode.Contents(t), AvlNode.LevelOrderKeys(t)))
  {
    AvlNode.TraversalsPermute(t);
    AvlNode.LevelOrderPermutes(t);
    TraversalListsEachPairOnce(t, AvlNode.PreOrderKeys(t));
    TraversalListsEachPairOnce(t, AvlNode.InOrderKeys(t));
    TraversalListsEachPairOnce(t, AvlNode.PostOrderKeys(t));
    TraversalListsEachPairOnce(t, AvlNode.LevelOrderKeys(t));
  }

  /** `inorder_iter` hands out the stored pairs in strictly ascending key order. */
  lemma InOrderPairsAscend<V>(t: AvlNode.Tree<V>)
    requires AvlNode.Avl(t)
    ensures var ps := FoundPairs(AvlNode.Contents(t), AvlNode.InOrderKeys(t));
      forall i, j | 0 <= i < j < |ps| :: ps[i].0 < ps[j].0
  {
    AvlNode.OrderedIffInOrderIncreasing(t);
    AvlNode.InOrderKeysAreKeys(t);
    StoredKeysFindPairs(AvlNode.Contents(t), AvlNode.InOrderKeys(t));
  }
}
