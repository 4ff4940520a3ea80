/**
 * The node engine: an AVL node owns its key, value, cached height and two
 * optional children. Every mutating operation consumes a subtree and returns
 * the (possibly different) root of the rebuilt subtree, so each one is a
 * function from trees to trees here.
 */
module AvlNode {
  import opened Wrappers

  /** `Link<K, V>`: an absent child (`Nil`) or an owned node. */
  datatype Tree<V> = Nil | Node(key: int, value: V, height: nat, left: Tree<V>, right: Tree<V>)

  function Max(a: nat, b: nat): nat { if a < b then b else a }

  // ---------------------------------------------------------------------------
  // Abstract view and the ghost AVL invariant
  // ---------------------------------------------------------------------------

  ghost function Keys<V>(t: Tree<V>): set<int>
  {
    match t
    case Nil => {}
    case Node(k, _, _, l, r) => Keys(l) + {k} + Keys(r)
  }

  /** The key/value map a tree stores. */
  ghost function Contents<V>(t: Tree<V>): (m: map<int, V>)
    ensures m.Keys == Keys(t)
  {
    match t
    case Nil => map[]
    case Node(k, v, _, l, r) => (Contents(l) + Contents(r))[k := v]
  }

  function Size<V>(t: Tree<V>): nat
  {
    match t
    case Nil => 0
    case Node(_, _, _, l, r) => Size(l) + 1 + Size(r)
  }

  /** Global binary-search-tree order: every key on the left is smaller, every key on the right larger. */
  ghost predicate Ordered<V>(t: Tree<V>)
  {
    match t
    case Nil => true
    case Node(k, _, _, l, r) =>
      && Ordered(l) && Ordered(r)
      && (forall x | x in Keys(l) :: x < k)
      && (forall x | x in Keys(r) :: k < x)
  }

  /** Every cached height is one more than the larger child height (an absent child has height 0). */
  ghost predicate HeightsCached<V>(t: Tree<V>)
  {
    match t
    case Nil => true
    case Node(_, _, h, l, r) => HeightsCached(l) && HeightsCached(r) && h == 1 + Max(Height(l), Height(r))
  }

  /** The AVL balance condition at every node. */
  ghost predicate Balanced<V>(t: Tree<V>)
  {
    match t
    case Nil => true
    case Node(_, _, _, l, r) => Balanced(l) && Balanced(r) && -1 <= Height(l) - Height(r) <= 1
  }

  /** The invariant that insert and delete keep: order, correct cached heights and balance. */
  ghost predicate Avl<V>(t: Tree<V>)
  {
    Ordered(t) && HeightsCached(t) && Balanced(t)
  }

  /** A node whose children are AVL trees on either side of its key; its own height and balance may be off. */
  ghost predicate ChildrenAvl<V>(t: Tree<V>)
    requires t.Node?
  {
    && Avl(t.left) && Avl(t.right)
    && (forall x | x in Keys(t.left) :: x < t.key)
    && (forall x | x in Keys(t.right) :: t.key < x)
  }

  // ---------------------------------------------------------------------------
  // Heights and rotations
  // ---------------------------------------------------------------------------

  /** `Node::new`: a fresh leaf. */
  function NewNode<V>(k: int, v: V): (r: Tree<V>)
    ensures Avl(r) && Height(r) == 1 && Contents(r) == map[k := v]
  {
    Node(k, v, 1, Nil, Nil)
  }

  /** `is_leaf`: a node without children. */
  /** `is_leaf`: exactly the nodes that hold a single key. */
  function IsLeaf<V>(t: Tree<V>): (r: bool)
    requires t.Node?
    ensures r <==> Size(t) == 1
  {
    t.left.Nil? && t.right.Nil?
  }

  /** A leaf whose height is cached correctly has height 1. */
  lemma LeafHasHeightOne<V>(t: Tree<V>)
    requires t.Node? && HeightsCached(t) && IsLeaf(t)
    ensures Height(t) == 1
  {
  }

  /** `Node::height`: the cached height of a link, 0 for an absent child. */
  function Height<V>(t: Tree<V>): nat
  {
    if t.Nil? then 0 else t.height
  }

  /** With correct caches, a link has height 0 exactly when it is absent. */
  lemma HeightZeroOnlyWhenNil<V>(t: Tree<V>)
    requires HeightsCached(t)
    ensures Height(t) == 0 <==> t.Nil?
  {
  }

  /**
   * `update_height`: recompute this node's cached height from its children.
   * A node whose children cache theirs correctly becomes correct, higher
   * than both children, with every key and value kept.
   */
  function UpdateHeight<V>(t: Tree<V>): (r: Tree<V>)
    requires t.Node?
    ensures HeightsCached(t.left) && HeightsCached(t.right) ==> HeightsCached(r)
    ensures Height(t.left) < Height(r) && Height(t.right) < Height(r)
    ensures Contents(r) == Contents(t)
  {
    t.(height := 1 + Max(Height(t.left), Height(t.right)))
  }

  /** `diff_of_height`: left height minus right height; within one at a balanced node. */
  function Diff<V>(t: Tree<V>): (r: int)
    requires t.Node?
    ensures Balanced(t) ==> -1 <= r <= 1
  {
    Height(t.left) - Height(t.right)
  }

  /**
   * `left_rotate`: the right child becomes the root. The precondition is the
   * `expect("AVL broken")` on the missing right child.
   */
  function LeftRotate<V>(t: Tree<V>): (r: Tree<V>)
    requires t.Node? && t.right.Node?
    ensures r.Node? && r.left.Node?
    ensures InOrderKeys(r) == InOrderKeys(t)
  {
    var newRoot := t.right;
    var demoted := UpdateHeight(t.(right := newRoot.left));
    UpdateHeight(newRoot.(left := demoted))
  }

  /** `right_rotate`: the mirror image; panics when the left child is missing. */
  function RightRotate<V>(t: Tree<V>): (r: Tree<V>)
    requires t.Node? && t.left.Node?
    ensures r.Node? && r.right.Node?
    ensures InOrderKeys(r) == InOrderKeys(t)
  {
    var newRoot := t.left;
    var demoted := UpdateHeight(t.(left := newRoot.right));
    UpdateHeight(newRoot.(right := demoted))
  }

  /**
   * `left_balance`: the left subtree is two higher than the right. A
   * right-heavy left child is first rotated left, then the node rotates right.
   */
  function LeftBalance<V>(t: Tree<V>): (r: Tree<V>)
    requires t.Node? && t.left.Node?
    ensures InOrderKeys(r) == InOrderKeys(t)
  {
    var left := t.left;
    if Height(left.left) < Height(left.right) then
      RightRotate(UpdateHeight(t.(left := LeftRotate(left))))
    else
      RightRotate(t)
  }

  /** `right_balance`: the mirror image of `LeftBalance`. */
  function RightBalance<V>(t: Tree<V>): (r: Tree<V>)
    requires t.Node? && t.right.Node?
    ensures InOrderKeys(r) == InOrderKeys(t)
  {
    var right := t.right;
    if Height(right.left) > Height(right.right) then
      LeftRotate(UpdateHeight(t.(right := RightRotate(right))))
    else
      LeftRotate(t)
  }

  /**
   * `rotate_if_necessary`. The source hits `unreachable!()` for a difference
   * outside [-2, 2]; the precondition excludes it, leaving 2 for the last arm.
   */
  function RotateIfNecessary<V>(t: Tree<V>): (r: Tree<V>)
    requires t.Node? && -2 <= Diff(t) <= 2
    ensures InOrderKeys(r) == InOrderKeys(t)
  {
    var diff := Diff(t);
    if -1 <= diff <= 1 then t
    else if diff == -2 then RightBalance(t)
    else LeftBalance(t)
  }

  /** `update_node`: refresh the height, then rebalance. */
  function UpdateNode<V>(t: Tree<V>): (r: Tree<V>)
    requires t.Node? && -2 <= Diff(t) <= 2
    ensures InOrderKeys(r) == InOrderKeys(t)
  {
    RotateIfNecessary(UpdateHeight(t))
  }

  // ---------------------------------------------------------------------------
  // Traversal orders (specifications of the buffer-filling procedures)
  // ---------------------------------------------------------------------------

  function PreOrderKeys<V>(t: Tree<V>): seq<int>
  {
    match t
    case Nil => []
    case Node(k, _, _, l, r) => [k] + PreOrderKeys(l) + PreOrderKeys(r)
  }

  function InOrderKeys<V>(t: Tree<V>): seq<int>
  {
    match t
    case Nil => []
    case Node(k, _, _, l, r) => InOrderKeys(l) + [k] + InOrderKeys(r)
  }

  function PostOrderKeys<V>(t: Tree<V>): seq<int>
  {
    match t
    case Nil => []
    case Node(k, _, _, l, r) => PostOrderKeys(l) + PostOrderKeys(r) + [k]
  }

  // ---------------------------------------------------------------------------
  // Rebalancing restores the invariant
  // ---------------------------------------------------------------------------

  /** The map identity behind a single rotation: the two roots trade places. */
  lemma RotatedMaps<V>(a: map<int, V>, b: map<int, V>, c: map<int, V>, lk: int, lv: V, k: int, v: V)
    requires lk != k && lk !in c
    ensures ((a + b)[lk := lv] + c)[k := v] == (a + (b + c)[k := v])[lk := lv]
  {
    var lhs := ((a + b)[lk := lv] + c)[k := v];
    var rhs := (a + (b + c)[k := v])[lk := lv];
    assert lhs.Keys == rhs.Keys;
    forall x | x in lhs ensures lhs[x] == rhs[x] {
    }
  }

  /** A right rotation keeps BST order and the stored map. */
  lemma RightRotateKeepsOrderAndContents<V>(t: Tree<V>)
    requires t.Node? && t.left.Node? && Ordered(t)
    ensures Ordered(RightRotate(t)) && Contents(RightRotate(t)) == Contents(t)
  {
    var l := t.left;
    assert Keys(l) == Keys(l.left) + {l.key} + Keys(l.right);
    RotatedMaps(Contents(l.left), Contents(l.right), Contents(t.right), l.key, l.value, t.key, t.value);
  }

  /** A left rotation keeps BST order and the stored map. */
  lemma LeftRotateKeepsOrderAndContents<V>(t: Tree<V>)
    requires t.Node? && t.right.Node? && Ordered(t)
    ensures Ordered(LeftRotate(t)) && Contents(LeftRotate(t)) == Contents(t)
  {
    var r := t.right;
    assert Keys(r) == Keys(r.left) + {r.key} + Keys(r.right);
    RotatedMaps(Contents(t.left), Contents(r.left), Contents(r.right), t.key, t.value, r.key, r.value);
  }

  /** Left-heavy by two with a left child that is not right-heavy: one right rotation. */
  lemma SingleRightRotationRestores<V>(t: Tree<V>)
    requires t.Node? && t.left.Node? && ChildrenAvl(t)
    requires Height(t.left) == Height(t.right) + 2
    requires Height(t.left.left) >= Height(t.left.right)
    ensures var r := RightRotate(t);
      && Avl(r) && Contents(r) == Contents(t)
      && Height(t.left) <= Height(r) <= Height(t.left) + 1
  {
    RightRotateKeepsOrderAndContents(t);
    var l := t.left;
    var r := RightRotate(t);
    var demoted := r.right;
    assert demoted == Node(t.key, t.value, 1 + Max(Height(l.right), Height(t.right)), l.right, t.right);
    assert HeightsCached(demoted) && Balanced(demoted);
    assert HeightsCached(r) && Balanced(r);
  }

  /** Right-heavy by two with a right child that is not left-heavy: one left rotation. */
  lemma SingleLeftRotationRestores<V>(t: Tree<V>)
    requires t.Node? && t.right.Node? && ChildrenAvl(t)
    requires Height(t.right) == Height(t.left) + 2
    requires Height(t.right.right) >= Height(t.right.left)
    ensures var r := LeftRotate(t);
      && Avl(r) && Contents(r) == Contents(t)
      && Height(t.right) <= Height(r) <= Height(t.right) + 1
  {
    LeftRotateKeepsOrderAndContents(t);
    var rt := t.right;
    var r := LeftRotate(t);
    var demoted := r.left;
    assert demoted == Node(t.key, t.value, 1 + Max(Height(t.left), Height(rt.left)), t.left, rt.left);
    assert HeightsCached(demoted) && Balanced(demoted);
    assert HeightsCached(r) && Balanced(r);
  }

  lemma DoubleRightRotationKeepsContents<V>(t: Tree<V>)
    requires t.Node? && t.left.Node? && t.left.right.Node? && Ordered(t)
    ensures var r := RightRotate(UpdateHeight(t.(left := LeftRotate(t.left))));
      Ordered(r) && Contents(r) == Contents(t)
  {
    LeftRotateKeepsOrderAndContents(t.left);
    var t2 := UpdateHeight(t.(left := LeftRotate(t.left)));
    assert Ordered(t2);
    RightRotateKeepsOrderAndContents(t2);
  }

  lemma DoubleLeftRotationKeepsContents<V>(t: Tree<V>)
    requires t.Node? && t.right.Node? && t.right.left.Node? && Ordered(t)
    ensures var r := LeftRotate(UpdateHeight(t.(right := RightRotate(t.right))));
      Ordered(r) && Contents(r) == Contents(t)
  {
    RightRotateKeepsOrderAndContents(t.right);
    var t2 := UpdateHeight(t.(right := RightRotate(t.right)));
    assert Ordered(t2);
    LeftRotateKeepsOrderAndContents(t2);
  }

  /** The tree `left_balance` builds when the left child is right-heavy. */
  lemma DoubleRightRotationShape<V>(t: Tree<V>, hr: nat)
    requires t.Node? && t.left.Node? && t.left.right.Node?
    requires Height(t.right) == hr && Height(t.left.left) == hr && Height(t.left.right) == hr + 1
    requires Height(t.left.right.left) <= hr && Height(t.left.right.right) <= hr
    ensures var l, m := t.left, t.left.right;
      LeftBalance(t) == Node(m.key, m.value, hr + 2,
                             Node(l.key, l.value, hr + 1, l.left, m.left),
                             Node(t.key, t.value, hr + 1, m.right, t.right))
  {
  }

  /** The tree `right_balance` builds when the right child is left-heavy. */
  lemma DoubleLeftRotationShape<V>(t: Tree<V>, hl: nat)
    requires t.Node? && t.right.Node? && t.right.left.Node?
    requires Height(t.left) == hl && Height(t.right.right) == hl && Height(t.right.left) == hl + 1
    requires Height(t.right.left.left) <= hl && Height(t.right.left.right) <= hl
    ensures var r, m := t.right, t.right.left;
      RightBalance(t) == Node(m.key, m.value, hl + 2,
                              Node(t.key, t.value, hl + 1, t.left, m.left),
                              Node(r.key, r.value, hl + 1, m.right, r.right))
  {
  }

  /** Left-heavy by two with a right-heavy left child: rotate the child left, then the node right. */
  lemma DoubleRightRotationRestores<V>(t: Tree<V>)
    requires t.Node? && t.left.Node? && ChildrenAvl(t)
    requires Height(t.left) == Height(t.right) + 2
    requires Height(t.left.left) < Height(t.left.right)
    ensures var r := LeftBalance(t);
      && Avl(r) && Contents(r) == Contents(t)
      && Height(r) == Height(t.left)
  {
    var l := t.left;
    var m := l.right;
    var hr := Height(t.right);
    assert Height(l.left) == hr && Height(m) == hr + 1;
    assert HeightsCached(m) && Balanced(m);
    DoubleRightRotationShape(t, hr);
    DoubleRightRotationKeepsContents(t);
    var a := Node(l.key, l.value, hr + 1, l.left, m.left);
    var b := Node(t.key, t.value, hr + 1, m.right, t.right);
    assert HeightsCached(a) && Balanced(a);
    assert HeightsCached(b) && Balanced(b);
  }

  /** Right-heavy by two with a left-heavy right child: rotate the child right, then the node left. */
  lemma DoubleLeftRotationRestores<V>(t: Tree<V>)
    requires t.Node? && t.right.Node? && ChildrenAvl(t)
    requires Height(t.right) == Height(t.left) + 2
    requires Height(t.right.left) > Height(t.right.right)
    ensures var r := RightBalance(t);
      && Avl(r) && Contents(r) == Contents(t)
      && Height(r) == Height(t.right)
  {
    var rt := t.right;
    var m := rt.left;
    var hl := Height(t.left);
    assert Height(rt.right) == hl && Height(m) == hl + 1;
    assert HeightsCached(m) && Balanced(m);
    DoubleLeftRotationShape(t, hl);
    DoubleLeftRotationKeepsContents(t);
    var a := Node(t.key, t.value, hl + 1, t.left, m.left);
    var b := Node(rt.key, rt.value, hl + 1, m.right, rt.right);
    assert HeightsCached(a) && Balanced(a);
    assert HeightsCached(b) && Balanced(b);
  }

  /**
   * `update_node` on a node whose children are AVL trees with heights at
   * most two apart yields an AVL tree with the same contents. Without a
   * rotation the height is 1 + the larger child height; a rotation may make
   * it one lower.
   */
  lemma UpdateNodeRestoresAvl<V>(t: Tree<V>)
    requires t.Node? && ChildrenAvl(t) && -2 <= Diff(t) <= 2
    ensures var r, h := UpdateNode(t), 1 + Max(Height(t.left), Height(t.right));
      && Avl(r) && Contents(r) == Contents(t)
      && (if -1 <= Diff(t) <= 1 then Height(r) == h else h - 1 <= Height(r) <= h)
  {
    var u := UpdateHeight(t);
    if Diff(t) == 2 {
      if Height(u.left.left) < Height(u.left.right) {
        DoubleRightRotationRestores(u);
      } else {
        SingleRightRotationRestores(u);
      }
    } else if Diff(t) == -2 {
      if Height(u.right.left) > Height(u.right.right) {
        DoubleLeftRotationRestores(u);
      } else {
        SingleLeftRotationRestores(u);
      }
    }
  }

  /** On a node that already satisfies the invariant, `update_node` changes nothing. */
  lemma UpdateNodeKeepsAvlNode<V>(t: Tree<V>)
    requires t.Node? && -2 <= Diff(t) <= 2
    ensures Avl(t) ==> UpdateNode(t) == t
  {
  }

  // ---------------------------------------------------------------------------
  // Insertion and deletion
  // ---------------------------------------------------------------------------

  /** Updating a key that lies on the left of a node commutes with building the node. */
  lemma UpdateLeftOfNode<V>(a: map<int, V>, c: map<int, V>, k: int, kv: V, x: int, xv: V)
    requires x != k && x !in c
    ensures (a[x := xv] + c)[k := kv] == ((a + c)[k := kv])[x := xv]
  {
    var lhs := (a[x := xv] + c)[k := kv];
    var rhs := ((a + c)[k := kv])[x := xv];
    assert lhs.Keys == rhs.Keys;
    forall y | y in lhs ensures lhs[y] == rhs[y] {
    }
  }

  /** Updating a key that lies on the right of a node commutes with building the node. */
  lemma UpdateRightOfNode<V>(a: map<int, V>, c: map<int, V>, k: int, kv: V, x: int, xv: V)
    requires x != k
    ensures (a + c[x := xv])[k := kv] == ((a + c)[k := kv])[x := xv]
  {
    var lhs := (a + c[x := xv])[k := kv];
    var rhs := ((a + c)[k := kv])[x := xv];
    assert lhs.Keys == rhs.Keys;
    forall y | y in lhs ensures lhs[y] == rhs[y] {
    }
  }

  /** Rebalancing after the left subtree was replaced by one at most one level higher or lower. */
  lemma UpdateAfterLeftChange<V>(t: Tree<V>, l: Tree<V>)
    requires t.Node? && Avl(t) && Avl(l) && (forall x | x in Keys(l) :: x < t.key)
    requires Height(t.left) - 1 <= Height(l) <= Height(t.left) + 1
    ensures -2 <= Diff(t.(left := l)) <= 2
    ensures var r := UpdateNode(t.(left := l));
      && r.Node? && Avl(r) && Contents(r) == (Contents(l) + Contents(t.right))[t.key := t.value]
      && (Height(l) >= Height(t.left) ==> Height(t) <= Height(r) <= Height(t) + 1)
      && (Height(l) <= Height(t.left) ==> Height(t) - 1 <= Height(r) <= Height(t))
  {
    UpdateNodeRestoresAvl(t.(left := l));
  }

  /** Rebalancing after the right subtree was replaced by one at most one level higher or lower. */
  lemma UpdateAfterRightChange<V>(t: Tree<V>, r: Tree<V>)
    requires t.Node? && Avl(t) && Avl(r) && (forall x | x in Keys(r) :: t.key < x)
    requires Height(t.right) - 1 <= Height(r) <= Height(t.right) + 1
    ensures -2 <= Diff(t.(right := r)) <= 2
    ensures var u := UpdateNode(t.(right := r));
      && u.Node? && Avl(u) && Contents(u) == (Contents(t.left) + Contents(r))[t.key := t.value]
      && (Height(r) >= Height(t.right) ==> Height(t) <= Height(u) <= Height(t) + 1)
      && (Height(r) <= Height(t.right) ==> Height(t) - 1 <= Height(u) <= Height(t))
  {
    UpdateNodeRestoresAvl(t.(right := r));
  }

  /**
   * `insert`: descend by key, put a fresh leaf where the key is missing and
   * rebalance every node on the way back; an existing key only gets its value
   * replaced, and that node returns without `update_node`.
   */
  function Insert<V>(t: Tree<V>, k: int, v: V): (r: Tree<V>)
    requires t.Node? && Avl(t)
    ensures r.Node? && Avl(r) && Contents(r) == Contents(t)[k := v]
    ensures Height(t) <= Height(r) <= Height(t) + 1
    decreases t
  {
    if t.key > k then
      var left := if t.left.Nil? then NewNode(k, v) else Insert(t.left, k, v);
      InsertedOnLeft(t, left, k, v);
      UpdateNode(t.(left := left))
    else if t.key < k then
      var right := if t.right.Nil? then NewNode(k, v) else Insert(t.right, k, v);
      InsertedOnRight(t, right, k, v);
      UpdateNode(t.(right := right))
    else
      t.(value := v)
  }

  /** One step of `insert` on the way back up, when the key went left. */
  lemma InsertedOnLeft<V>(t: Tree<V>, left: Tree<V>, k: int, v: V)
    requires t.Node? && Avl(t) && k < t.key
    requires Avl(left) && Contents(left) == Contents(t.left)[k := v]
    requires Height(t.left) <= Height(left) <= Height(t.left) + 1
    ensures -2 <= Diff(t.(left := left)) <= 2
    ensures var r := UpdateNode(t.(left := left));
      r.Node? && Avl(r) && Contents(r) == Contents(t)[k := v] && Height(t) <= Height(r) <= Height(t) + 1
  {
    assert Keys(left) == Keys(t.left) + {k};
    UpdateAfterLeftChange(t, left);
    UpdateLeftOfNode(Contents(t.left), Contents(t.right), t.key, t.value, k, v);
  }

  /** One step of `insert` on the way back up, when the key went right. */
  lemma InsertedOnRight<V>(t: Tree<V>, right: Tree<V>, k: int, v: V)
    requires t.Node? && Avl(t) && t.key < k
    requires Avl(right) && Contents(right) == Contents(t.right)[k := v]
    requires Height(t.right) <= Height(right) <= Height(t.right) + 1
    ensures -2 <= Diff(t.(right := right)) <= 2
    ensures var r := UpdateNode(t.(right := right));
      r.Node? && Avl(r) && Contents(r) == Contents(t)[k := v] && Height(t) <= Height(r) <= Height(t) + 1
  {
    assert Keys(right) == Keys(t.right) + {k};
    UpdateAfterRightChange(t, right);
    UpdateRightOfNode(Contents(t.left), Contents(t.right), t.key, t.value, k, v);
  }

  /**
   * `remove_min`: detach the leftmost node. Returns the rebalanced remainder
   * and the detached node, whose children have been taken.
   */
  function RemoveMin<V>(t: Tree<V>): (res: (Tree<V>, Tree<V>))
    requires t.Node? && Avl(t)
    ensures var (rest, min) := res;
      && min.Node? && min.left.Nil? && min.right.Nil?
      && min.key in Keys(t) && (forall x | x in Keys(t) :: min.key <= x)
      && min.key !in Keys(rest) && Contents(t) == Contents(rest)[min.key := min.value]
      && Avl(rest)
      && Height(t) - 1 <= Height(rest) <= Height(t)
    decreases t
  {
    if t.left.Node? then
      var (newLeft, min) := RemoveMin(t.left);
      assert Keys(newLeft) <= Keys(t.left);
      UpdateAfterLeftChange(t, newLeft);
      var rest := UpdateNode(t.(left := newLeft));
      LeastOnLeft(t, min.key);
      MinRemovedOnLeft(Contents(t), Contents(t.left), Contents(newLeft), Contents(t.right), Contents(rest),
        t.key, t.value, min.key, min.value);
      (rest, min)
    else
      LeftmostDetaches(t);
      (t.right, t.(right := Nil))
  }

  /** The least key of a node's left subtree is the least key of the node. */
  lemma LeastOnLeft<V>(t: Tree<V>, m: int)
    requires t.Node? && Ordered(t)
    requires m in Keys(t.left) && (forall x | x in Keys(t.left) :: m <= x)
    ensures m < t.key && m !in Keys(t.right) && (forall x | x in Keys(t) :: m <= x)
  {
  }

  /**
   * One step of `remove_min` on the way back up, on the contents: the node
   * `whole` had `l0` on its left, which lost its minimum `mk` and became `l`;
   * the rebuilt node `rest` holds everything of `whole` but `mk`.
   */
  lemma MinRemovedOnLeft<V>(whole: map<int, V>, l0: map<int, V>, l: map<int, V>, r: map<int, V>,
                            rest: map<int, V>, k: int, v: V, mk: int, mv: V)
    requires whole == (l0 + r)[k := v] && l0 == l[mk := mv] && rest == (l + r)[k := v]
    requires mk != k && mk !in l && mk !in r
    ensures mk !in rest && whole == rest[mk := mv]
  {
    UpdateLeftOfNode(l, r, k, v, mk, mv);
  }

  /** A node without a left child is the minimum; detaching it leaves its right subtree. */
  lemma LeftmostDetaches<V>(t: Tree<V>)
    requires t.Node? && t.left.Nil? && Avl(t)
    ensures forall x | x in Keys(t) :: t.key <= x
    ensures t.key !in Keys(t.right) && Contents(t) == Contents(t.right)[t.key := t.value]
    ensures Height(t.right) == Height(t) - 1
  {
  }

  /**
   * `combine_two_subtrees`: the minimum of the right subtree becomes the root
   * over the left subtree and the rest of the right one.
   */
  function CombineTwoSubtrees<V>(left: Tree<V>, right: Tree<V>): (r: Tree<V>)
    requires left.Node? && right.Node? && Avl(left) && Avl(right)
    requires forall x, y | x in Keys(left) && y in Keys(right) :: x < y
    requires -1 <= Height(left) - Height(right) <= 1
    ensures Avl(r) && Contents(r) == Contents(left) + Contents(right)
    ensures var h := 1 + Max(Height(left), Height(right)); h - 1 <= Height(r) <= h
  {
    CombineRestoresAvl(left, right);
    var (remain, min) := RemoveMin(right);
    UpdateNode(min.(right := remain).(left := left))
  }

  lemma CombineRestoresAvl<V>(left: Tree<V>, right: Tree<V>)
    requires left.Node? && right.Node? && Avl(left) && Avl(right)
    requires forall x, y | x in Keys(left) && y in Keys(right) :: x < y
    requires -1 <= Height(left) - Height(right) <= 1
    ensures var (remain, min) := RemoveMin(right);
      var newRoot := min.(right := remain).(left := left);
      && -2 <= Diff(newRoot) <= 2
      && var r := UpdateNode(newRoot);
      && Avl(r) && Contents(r) == Contents(left) + Contents(right)
      && var h := 1 + Max(Height(left), Height(right)); h - 1 <= Height(r) <= h
  {
    var (remain, min) := RemoveMin(right);
    var newRoot := min.(right := remain).(left := left);
    MinSeparates(left, right, remain, min.key);
    UpdateNodeRestoresAvl(newRoot);
    MergeThenUpdate(Contents(left), Contents(remain), min.key, min.value);
  }

  /** The minimum of the right subtree lies between the left subtree and what remains of the right one. */
  lemma MinSeparates<V>(left: Tree<V>, right: Tree<V>, remain: Tree<V>, mk: int)
    requires forall x, y | x in Keys(left) && y in Keys(right) :: x < y
    requires mk in Keys(right) && (forall x | x in Keys(right) :: mk <= x)
    requires mk !in Keys(remain) && Keys(right) == Keys(remain) + {mk}
    ensures forall x | x in Keys(left) :: x < mk
    ensures forall x | x in Keys(remain) :: mk < x
  {
    forall x | x in Keys(remain) ensures mk < x {
      assert x in Keys(right) && x != mk;
    }
  }

  lemma MergeThenUpdate<V>(a: map<int, V>, b: map<int, V>, k: int, v: V)
    ensures (a + b)[k := v] == a + b[k := v]
  {
    var lhs := (a + b)[k := v];
    var rhs := a + b[k := v];
    assert lhs.Keys == rhs.Keys;
  }

  /**
   * `delete_root`: a leaf disappears, a node with one child is replaced by it,
   * and a node with two children by the combination of its subtrees.
   */
  function DeleteRoot<V>(t: Tree<V>): (r: Tree<V>)
    requires t.Node? && Avl(t)
    ensures Avl(r) && Contents(r) == Contents(t) - {t.key}
    ensures Height(t) - 1 <= Height(r) <= Height(t)
  {
    RootRemovedContents(t);
    match (t.left, t.right)
    case (Nil, Nil) => Nil
    case (Node(_, _, _, _, _), Nil) => t.left
    case (Nil, Node(_, _, _, _, _)) => t.right
    case (Node(_, _, _, _, _), Node(_, _, _, _, _)) => CombineTwoSubtrees(t.left, t.right)
  }

  lemma RootRemovedContents<V>(t: Tree<V>)
    requires t.Node? && Ordered(t)
    ensures Contents(t) - {t.key} == Contents(t.left) + Contents(t.right)
  {
    var lhs := Contents(t) - {t.key};
    var rhs := Contents(t.left) + Contents(t.right);
    assert lhs.Keys == rhs.Keys;
  }

  /** Removing a key on the left of a node commutes with building the node. */
  lemma RemoveBelowNode<V>(a: map<int, V>, a': map<int, V>, c: map<int, V>, k: int, kv: V, x: int)
    requires x != k && x !in c && a' == a - {x}
    ensures (a' + c)[k := kv] == ((a + c)[k := kv]) - {x}
  {
    var lhs := (a' + c)[k := kv];
    var rhs := ((a + c)[k := kv]) - {x};
    assert lhs.Keys == rhs.Keys;
  }

  /** Removing a key on the right of a node commutes with building the node. */
  lemma RemoveAboveNode<V>(a: map<int, V>, c: map<int, V>, c': map<int, V>, k: int, kv: V, x: int)
    requires x != k && x !in a && c' == c - {x}
    ensures (a + c')[k := kv] == ((a + c)[k := kv]) - {x}
  {
    var lhs := (a + c')[k := kv];
    var rhs := ((a + c)[k := kv]) - {x};
    assert lhs.Keys == rhs.Keys;
  }

  /**
   * `delete`: descend by key and delete the matching node; every node on a
   * path that continued into a child is passed to `update_node`. A key absent
   * from the subtree leaves it as it was.
   */
  function Delete<V>(t: Tree<V>, k: int): (r: Tree<V>)
    requires t.Node? && Avl(t)
    ensures Avl(r) && Contents(r) == Contents(t) - {k}
    ensures Height(t) - 1 <= Height(r) <= Height(t)
    ensures k !in Keys(t) ==> r == t
    decreases t
  {
    if t.key < k then
      if t.right.Nil? then
        t
      else
        var right := Delete(t.right, k);
        UpdateAfterRightChange(t, right);
        UpdateNodeKeepsAvlNode(t.(right := right));
        RemoveAboveNode(Contents(t.left), Contents(t.right), Contents(right), t.key, t.value, k);
        UpdateNode(t.(right := right))
    else if t.key > k then
      if t.left.Nil? then
        t
      else
        var left := Delete(t.left, k);
        UpdateAfterLeftChange(t, left);
        UpdateNodeKeepsAvlNode(t.(left := left));
        RemoveBelowNode(Contents(t.left), Contents(left), Contents(t.right), t.key, t.value, k);
        UpdateNode(t.(left := left))
    else
      DeleteRoot(t)
  }


  // ---------------------------------------------------------------------------
  // Lookups
  // ---------------------------------------------------------------------------

  /** `search_pair`: descend by key to the node holding it; only a stored key is answered. */
  function SearchPair<V>(t: Tree<V>, k: int): (r: Option<(int, V)>)
    requires t.Node?
    ensures r.Some? ==> r.value.0 == k && k in Keys(t)
  {
    if t.key < k then
      if t.right.Nil? then None else SearchPair(t.right, k)
    else if t.key > k then
      if t.left.Nil? then None else SearchPair(t.left, k)
    else
      Some((t.key, t.value))
  }

  /** In an ordered tree `search_pair` finds exactly the stored keys, with their values. */
  lemma {:induction false} SearchPairFinds<V>(t: Tree<V>, k: int)
    requires t.Node?
    ensures Ordered(t) ==> SearchPair(t, k) == if k in Contents(t) then Some((k, Contents(t)[k])) else None
  {
    if Ordered(t) {
      if t.key < k {
        assert k !in Keys(t.left);
        if t.right.Node? {
          SearchPairFinds(t.right, k);
        }
      } else if t.key > k {
        assert k !in Keys(t.right);
        if t.left.Node? {
          SearchPairFinds(t.left, k);
        }
      }
    }
  }

  /** `search`: the value half of `search_pair`; in an ordered tree, lookup in the stored map. */
  function Search<V>(t: Tree<V>, k: int): (r: Option<V>)
    requires t.Node?
    ensures Ordered(t) ==> r == if k in Contents(t) then Some(Contents(t)[k]) else None
  {
    SearchPairFinds(t, k);
    match SearchPair(t, k)
    case None => None
    case Some((_, v)) => Some(v)
  }

  /** `min_pair`: follow left children to the end. */
  function MinPair<V>(t: Tree<V>): (r: (int, V))
    requires t.Node?
    ensures r.0 in Keys(t)
  {
    if t.left.Nil? then (t.key, t.value) else MinPair(t.left)
  }

  /** `max_pair`: follow right children to the end. */
  function MaxPair<V>(t: Tree<V>): (r: (int, V))
    requires t.Node?
    ensures r.0 in Keys(t)
  {
    if t.right.Nil? then (t.key, t.value) else MaxPair(t.right)
  }

  /** In an ordered tree `min_pair` is the stored pair with the least key. */
  lemma {:induction false} MinPairIsLeast<V>(t: Tree<V>)
    requires t.Node? && Ordered(t)
    ensures var (k, v) := MinPair(t);
      k in Contents(t) && Contents(t)[k] == v && forall x | x in Keys(t) :: k <= x
  {
    if t.left.Node? {
      MinPairIsLeast(t.left);
      assert MinPair(t).0 < t.key && MinPair(t).0 !in Keys(t.right);
    }
  }

  /** In an ordered tree `max_pair` is the stored pair with the greatest key. */
  lemma {:induction false} MaxPairIsGreatest<V>(t: Tree<V>)
    requires t.Node? && Ordered(t)
    ensures var (k, v) := MaxPair(t);
      k in Contents(t) && Contents(t)[k] == v && forall x | x in Keys(t) :: x <= k
  {
    if t.right.Node? {
      MaxPairIsGreatest(t.right);
      assert t.key < MaxPair(t).0;
    }
  }

  /**
   * `successor`: the pair with the least key greater than `k`, which need not
   * be stored. A node above `k` is the fallback when its left subtree has none.
   */
  function Successor<V>(t: Tree<V>, k: int): (r: Option<(int, V)>)
    requires t.Node?
    ensures r.Some? ==> r.value.0 in Keys(t)
  {
    if t.key > k then
      if t.left.Nil? then Some((t.key, t.value))
      else Successor(t.left, k).Or(Some((t.key, t.value)))
    else if t.key < k then
      if t.right.Nil? then None else Successor(t.right, k)
    else
      if t.right.Nil? then None else Some(MinPair(t.right))
  }

  /** `predecessor`: the mirror image of `Successor`. */
  function Predecessor<V>(t: Tree<V>, k: int): (r: Option<(int, V)>)
    requires t.Node?
    ensures r.Some? ==> r.value.0 in Keys(t)
  {
    if t.key < k then
      if t.right.Nil? then Some((t.key, t.value))
      else Predecessor(t.right, k).Or(Some((t.key, t.value)))
    else if t.key > k then
      if t.left.Nil? then None else Predecessor(t.left, k)
    else
      if t.left.Nil? then None else Some(MaxPair(t.left))
  }

  /** No stored key lies above `k`. */
  ghost predicate NoneAbove<V>(t: Tree<V>, k: int)
  {
    forall x | x in Keys(t) :: x <= k
  }

  /** No stored key lies below `k`. */
  ghost predicate NoneBelow<V>(t: Tree<V>, k: int)
  {
    forall x | x in Keys(t) :: k <= x
  }

  /** `s` is the least stored key above `k`. */
  ghost predicate IsSuccessor<V>(t: Tree<V>, k: int, s: int)
  {
    s in Keys(t) && k < s && forall x | x in Keys(t) && k < x :: s <= x
  }

  /** `p` is the greatest stored key below `k`. */
  ghost predicate IsPredecessor<V>(t: Tree<V>, k: int, p: int)
  {
    p in Keys(t) && p < k && forall x | x in Keys(t) && x < k :: x <= p
  }

  /** A key stored on the left of an ordered node keeps its value in the whole tree. */
  lemma LookupLeft<V>(t: Tree<V>, x: int)
    requires t.Node? && Ordered(t) && x in Keys(t.left)
    ensures x < t.key && x in Contents(t) && Contents(t)[x] == Contents(t.left)[x]
  {
    assert x !in Keys(t.right);
  }

  /** A key stored on the right of an ordered node keeps its value in the whole tree. */
  lemma LookupRight<V>(t: Tree<V>, x: int)
    requires t.Node? && Ordered(t) && x in Keys(t.right)
    ensures t.key < x && x in Contents(t) && Contents(t)[x] == Contents(t.right)[x]
  {
  }

  /** `Successor` only answers stored keys above `k`, and none below an answer. */
  lemma {:induction false} SuccessorKey<V>(t: Tree<V>, k: int)
    requires t.Node? && Ordered(t)
    ensures Successor(t, k).None? ==> NoneAbove(t, k)
    ensures Successor(t, k).Some? ==> IsSuccessor(t, k, Successor(t, k).value.0)
  {
    var r := Successor(t, k);
    if t.key > k {
      if t.left.Node? {
        SuccessorKey(t.left, k);
        if Successor(t.left, k).None? {
          assert forall x | x in Keys(t.left) :: x <= k;
          assert IsSuccessor(t, k, t.key);
        } else {
          var s := r.value.0;
          assert s in Keys(t.left) && s < t.key;
          assert IsSuccessor(t, k, s);
        }
      } else {
        assert IsSuccessor(t, k, t.key);
      }
    } else if t.key < k {
      if t.right.Node? {
        SuccessorKey(t.right, k);
      }
    } else if t.right.Node? {
      MinPairIsLeast(t.right);
      assert IsSuccessor(t, k, r.value.0);
    }
  }

  /** `Predecessor` only answers stored keys below `k`, and none above an answer. */
  lemma {:induction false} PredecessorKey<V>(t: Tree<V>, k: int)
    requires t.Node? && Ordered(t)
    ensures Predecessor(t, k).None? ==> NoneBelow(t, k)
    ensures Predecessor(t, k).Some? ==> IsPredecessor(t, k, Predecessor(t, k).value.0)
  {
    var r := Predecessor(t, k);
    if t.key < k {
      if t.right.Node? {
        PredecessorKey(t.right, k);
        if Predecessor(t.right, k).None? {
          assert forall x | x in Keys(t.right) :: k <= x;
          assert IsPredecessor(t, k, t.key);
        } else {
          var p := r.value.0;
          assert p in Keys(t.right) && t.key < p;
          assert IsPredecessor(t, k, p);
        }
      } else {
        assert IsPredecessor(t, k, t.key);
      }
    } else if t.key > k {
      if t.left.Node? {
        PredecessorKey(t.left, k);
      }
    } else if t.left.Node? {
      MaxPairIsGreatest(t.left);
      assert IsPredecessor(t, k, r.value.0);
    }
  }

  /** Every pair `successor` answers is stored in the tree. */
  lemma {:induction false} SuccessorStored<V>(t: Tree<V>, k: int)
    requires t.Node? && Ordered(t)
    ensures Successor(t, k).Some? ==> var (s, v) := Successor(t, k).value; s in Contents(t) && Contents(t)[s] == v
  {
    var r := Successor(t, k);
    if t.key > k && t.left.Node? && Successor(t.left, k).Some? {
      SuccessorStored(t.left, k);
      LookupLeft(t, r.value.0);
    } else if t.key < k && t.right.Node? {
      SuccessorStored(t.right, k);
      if r.Some? {
        LookupRight(t, r.value.0);
      }
    } else if t.key == k && t.right.Node? {
      MinPairIsLeast(t.right);
      LookupRight(t, r.value.0);
    }
  }

  /** Every pair `predecessor` answers is stored in the tree. */
  lemma {:induction false} PredecessorStored<V>(t: Tree<V>, k: int)
    requires t.Node? && Ordered(t)
    ensures Predecessor(t, k).Some? ==> var (p, v) := Predecessor(t, k).value; p in Contents(t) && Contents(t)[p] == v
  {
    var r := Predecessor(t, k);
    if t.key < k && t.right.Node? && Predecessor(t.right, k).Some? {
      PredecessorStored(t.right, k);
      LookupRight(t, r.value.0);
    } else if t.key > k && t.left.Node? {
      PredecessorStored(t.left, k);
      if r.Some? {
        LookupLeft(t, r.value.0);
      }
    } else if t.key == k && t.left.Node? {
      MaxPairIsGreatest(t.left);
      LookupLeft(t, r.value.0);
    }
  }

  /**
   * In an ordered tree `successor` answers nothing exactly when no stored key
   * lies above `k`, and otherwise the stored pair of the least such key.
   */
  lemma SuccessorIsLeastAbove<V>(t: Tree<V>, k: int)
    requires t.Node? && Ordered(t)
    ensures Successor(t, k).None? <==> NoneAbove(t, k)
    ensures Successor(t, k).Some? ==> var (s, v) := Successor(t, k).value;
      IsSuccessor(t, k, s) && s in Contents(t) && Contents(t)[s] == v
  {
    SuccessorKey(t, k);
    SuccessorStored(t, k);
    if Successor(t, k).Some? {
      var s := Successor(t, k).value.0;
      assert s in Keys(t) && k < s;
    }
  }

  /**
   * In an ordered tree `predecessor` answers nothing exactly when no stored key
   * lies below `k`, and otherwise the stored pair of the greatest such key.
   */
  lemma PredecessorIsGreatestBelow<V>(t: Tree<V>, k: int)
    requires t.Node? && Ordered(t)
    ensures Predecessor(t, k).None? <==> NoneBelow(t, k)
    ensures Predecessor(t, k).Some? ==> var (p, v) := Predecessor(t, k).value;
      IsPredecessor(t, k, p) && p in Contents(t) && Contents(t)[p] == v
  {
    PredecessorKey(t, k);
    PredecessorStored(t, k);
    if Predecessor(t, k).Some? {
      var p := Predecessor(t, k).value.0;
      assert p in Keys(t) && p < k;
    }
  }

  // ---------------------------------------------------------------------------
  // Inserting a stored key only replaces its value
  // ---------------------------------------------------------------------------

  /** The same tree with the value of key `k` replaced, wherever it is stored. */
  function Overwrite<V>(t: Tree<V>, k: int, v: V): (r: Tree<V>)
    ensures Keys(r) == Keys(t) && Height(r) == Height(t)
    ensures Avl(t) ==> Avl(r)
    ensures k !in Keys(t) ==> r == t
  {
    match t
    case Nil => Nil
    case Node(key, value, h, l, r) =>
      Node(key, if key == k then v else value, h, Overwrite(l, k, v), Overwrite(r, k, v))
  }

  /**
   * `insert` of a key that is already stored keeps every node where it was and
   * only replaces that key's value: no height changes and no rotation happens.
   */
  lemma {:induction false} InsertStoredOnlyOverwrites<V>(t: Tree<V>, k: int, v: V)
    requires t.Node? && Avl(t) && k in Keys(t)
    ensures Insert(t, k, v) == Overwrite(t, k, v)
  {
    if t.key > k {
      assert k in Keys(t.left) && k !in Keys(t.right);
      InsertStoredOnlyOverwrites(t.left, k, v);
      UpdateNodeKeepsAvlNode(t.(left := Overwrite(t.left, k, v)));
    } else if t.key < k {
      assert k in Keys(t.right) && k !in Keys(t.left);
      InsertStoredOnlyOverwrites(t.right, k, v);
      UpdateNodeKeepsAvlNode(t.(right := Overwrite(t.right, k, v)));
    } else {
      assert k !in Keys(t.left) && k !in Keys(t.right);
    }
  }

  // ---------------------------------------------------------------------------
  // The structural self-check
  // ---------------------------------------------------------------------------

  /**
   * `is_avl_node` as written: a leaf passes; otherwise each present child's key
   * must lie on the right side of this key and the cached heights of the
   * children may differ by at most one.
   */
  function IsAvlNode<V>(t: Tree<V>): (r: bool)
    requires t.Node?
    ensures Avl(t) ==> r
  {
    assert t.left.Node? ==> t.left.key in Keys(t.left);
    assert t.right.Node? ==> t.right.key in Keys(t.right);
    if IsLeaf(t) then true
    else if !(t.left.Nil? || t.left.key < t.key) then false
    else if !(t.right.Nil? || t.right.key > t.key) then false
    else -1 <= Diff(t) <= 1
  }

  /**
   * `is_avl_tree` as written: `is_avl_node` at every node. Every tree that
   * keeps the AVL invariant passes it.
   */
  function IsAvlTree<V>(t: Tree<V>): (r: bool)
    ensures Avl(t) ==> r
  {
    match t
    case Nil => true
    case Node(_, _, _, left, right) => IsAvlNode(t) && IsAvlTree(left) && IsAvlTree(right)
  }

  /**
   * The check only compares a node with its children: key 7 below the left
   * child of 5 breaks the search order, and the tree still passes.
   */
  lemma CheckMissesDeepDisorder()
    ensures var bad := Node(5, 0, 3, Node(2, 0, 2, Nil, Node(7, 0, 1, Nil, Nil)), Node(8, 0, 1, Nil, Nil));
      IsAvlTree(bad) && !Avl(bad)
  {
    var bad := Node(5, 0, 3, Node(2, 0, 2, Nil, Node(7, 0, 1, Nil, Nil)), Node(8, 0, 1, Nil, Nil));
    assert 7 in Keys(bad.left);
  }

  /**
   * The check trusts cached heights: a lone node claiming height 3 is no
   * correct AVL node, and still passes.
   */
  lemma CheckTrustsCachedHeights()
    ensures IsAvlTree(Node(1, 0, 3, Nil, Nil)) && !Avl(Node(1, 0, 3, Nil, Nil))
  {
  }

  /**
   * The full check `is_avl_tree` is meant to be: every key within the bounds
   * inherited from its ancestors, every cached height one more than the larger
   * child height, and every balance factor within one.
   */
  function IsAvlWithin<V>(t: Tree<V>, lo: Option<int>, hi: Option<int>): bool
  {
    match t
    case Nil => true
    case Node(k, _, h, l, r) =>
      && (lo.None? || lo.value < k) && (hi.None? || k < hi.value)
      && h == 1 + Max(Height(l), Height(r)) && -1 <= Diff(t) <= 1
      && IsAvlWithin(l, lo, Some(k)) && IsAvlWithin(r, Some(k), hi)
  }

  /** Every key of `t` lies strictly between the optional bounds. */
  ghost predicate KeysWithin<V>(t: Tree<V>, lo: Option<int>, hi: Option<int>)
  {
    forall x | x in Keys(t) :: (lo.None? || lo.value < x) && (hi.None? || x < hi.value)
  }

  /** The bounded check accepts exactly the AVL trees whose keys lie within the bounds. */
  lemma {:induction false} IsAvlWithinExact<V>(t: Tree<V>, lo: Option<int>, hi: Option<int>)
    ensures IsAvlWithin(t, lo, hi) <==> Avl(t) && KeysWithin(t, lo, hi)
  {
    if t.Node? {
      var k := t.key;
      IsAvlWithinExact(t.left, lo, Some(k));
      IsAvlWithinExact(t.right, Some(k), hi);
      if IsAvlWithin(t, lo, hi) {
        assert KeysWithin(t, lo, hi) by {
          forall x | x in Keys(t) ensures (lo.None? || lo.value < x) && (hi.None? || x < hi.value) {
            if x in Keys(t.left) {
              assert x < k;
            } else if x in Keys(t.right) {
              assert k < x;
            }
          }
        }
      }
      if Avl(t) && KeysWithin(t, lo, hi) {
        assert k in Keys(t);
        assert KeysWithin(t.left, lo, Some(k));
        assert KeysWithin(t.right, Some(k), hi);
      }
    }
  }

  /**
   * The corrected `is_avl_tree`: the bounded check with no bounds, which
   * accepts exactly the trees that keep the AVL invariant.
   */
  function CheckAvlTree<V>(t: Tree<V>): (r: bool)
    ensures r <==> Avl(t)
  {
    IsAvlWithinExact(t, None, None);
    IsAvlWithin(t, None, None)
  }

  // ---------------------------------------------------------------------------
  // Traversals
  // ---------------------------------------------------------------------------

  /** `prev_order`: append the keys in pre-order (node, left, right) to `buf`. */
  method PrevOrder<V>(t: Tree<V>, buf: seq<int>) returns (out: seq<int>)
    ensures out == buf + PreOrderKeys(t)
  {
    out := buf;
    if t.Node? {
      out := out + [t.key];
      out := PrevOrder(t.left, out);
      out := PrevOrder(t.right, out);
    }
  }

  /** `in_order`: append the keys in in-order (left, node, right) to `buf`. */
  method InOrder<V>(t: Tree<V>, buf: seq<int>) returns (out: seq<int>)
    ensures out == buf + InOrderKeys(t)
  {
    out := buf;
    if t.Node? {
      out := InOrder(t.left, out);
      out := out + [t.key];
      out := InOrder(t.right, out);
    }
  }

  /** `post_order`: append the keys in post-order (left, right, node) to `buf`. */
  method PostOrder<V>(t: Tree<V>, buf: seq<int>) returns (out: seq<int>)
    ensures out == buf + PostOrderKeys(t)
  {
    out := buf;
    if t.Node? {
      out := PostOrder(t.left, out);
      out := PostOrder(t.right, out);
      out := out + [t.key];
    }
  }

  /** The number of nodes in a queue of subtrees. */
  function TotalSize<V>(q: seq<Tree<V>>): nat
  {
    if q == [] then 0 else Size(q[0]) + TotalSize(q[1..])
  }

  lemma {:induction false} TotalSizeAppend<V>(a: seq<Tree<V>>, b: seq<Tree<V>>)
    ensures TotalSize(a + b) == TotalSize(a) + TotalSize(b)
  {
    if a == [] {
      assert a + b == b;
    } else {
      assert (a + b)[1..] == a[1..] + b;
      TotalSizeAppend(a[1..], b);
    }
  }

  /** The children of a node that are present, left first. */
  function Children<V>(t: Tree<V>): (q: seq<Tree<V>>)
    requires t.Node?
    ensures forall i | 0 <= i < |q| :: q[i].Node?
    ensures TotalSize(q) == Size(t) - 1
  {
    var l := if t.left.Node? then [t.left] else [];
    var r := if t.right.Node? then [t.right] else [];
    TotalSizeAppend(l, r);
    l + r
  }

  /**
   * The keys a breadth-first walk emits from a queue of subtrees: take the
   * front node, emit its key and queue its present children at the back.
   */
  function BreadthFirst<V>(q: seq<Tree<V>>): seq<int>
    decreases TotalSize(q), |q|
  {
    if q == [] then []
    else if q[0].Nil? then
      TotalSizeAppend([q[0]], q[1..]);
      assert [q[0]] + q[1..] == q;
      BreadthFirst(q[1..])
    else
      TotalSizeAppend([q[0]], q[1..]);
      assert [q[0]] + q[1..] == q;
      TotalSizeAppend(q[1..], Children(q[0]));
      [q[0].key] + BreadthFirst(q[1..] + Children(q[0]))
  }

  /** One step of the breadth-first walk from a queue whose front is a node. */
  lemma BreadthFirstStep<V>(q: seq<Tree<V>>)
    requires q != [] && q[0].Node?
    ensures TotalSize(q[1..] + Children(q[0])) < TotalSize(q)
    ensures BreadthFirst(q) == [q[0].key] + BreadthFirst(q[1..] + Children(q[0]))
  {
    TotalSizeAppend([q[0]], q[1..]);
    assert [q[0]] + q[1..] == q;
    TotalSizeAppend(q[1..], Children(q[0]));
  }

  /** The level order of a tree: breadth-first from its root. */
  function LevelOrderKeys<V>(t: Tree<V>): seq<int>
  {
    BreadthFirst(if t.Node? then [t] else [])
  }

  /** `level_order`: append the keys in level order to `buf`, using a FIFO queue. */
  method LevelOrder<V>(t: Tree<V>, buf: seq<int>) returns (out: seq<int>)
    ensures out == buf + LevelOrderKeys(t)
  {
    out := buf;
    var queue: seq<Tree<V>> := if t.Node? then [t] else [];
    while queue != []
      invariant forall i | 0 <= i < |queue| :: queue[i].Node?
      invariant out + BreadthFirst(queue) == buf + LevelOrderKeys(t)
      decreases TotalSize(queue), |queue|
    {
      var node := queue[0];
      BreadthFirstStep(queue);
      ghost var next := queue[1..] + Children(node);
      assert out + [node.key] + BreadthFirst(next) == buf + LevelOrderKeys(t);
      queue := queue[1..];
      out := out + [node.key];
      if node.left.Node? {
        queue := queue + [node.left];
      }
      if node.right.Node? {
        queue := queue + [node.right];
      }
      assert queue == next;
    }
  }

  // ---------------------------------------------------------------------------
  // What the traversals visit
  // ---------------------------------------------------------------------------

  predicate StrictlyIncreasing(s: seq<int>)
  {
    forall i, j | 0 <= i < j < |s| :: s[i] < s[j]
  }

  /** Each traversal lists exactly the stored keys. */
  lemma {:induction false} InOrderKeysAreKeys<V>(t: Tree<V>)
    ensures forall x :: x in InOrderKeys(t) <==> x in Keys(t)
  {
    if t.Node? {
      InOrderKeysAreKeys(t.left);
      InOrderKeysAreKeys(t.right);
    }
  }

  /** Two increasing runs separated by `k` make one increasing run. */
  lemma JoinIncreasing(a: seq<int>, k: int, b: seq<int>)
    requires StrictlyIncreasing(a) && StrictlyIncreasing(b)
    requires (forall x | x in a :: x < k) && (forall x | x in b :: k < x)
    ensures StrictlyIncreasing(a + [k] + b)
  {
    var s := a + [k] + b;
    forall i, j | 0 <= i < j < |s| ensures s[i] < s[j] {
      if j < |a| {
      } else if i < |a| {
        assert s[i] in a;
        if j > |a| {
          assert s[j] == b[j - |a| - 1] && s[j] in b;
        }
      } else if i == |a| {
        assert s[j] == b[j - |a| - 1] && s[j] in b;
      } else {
        assert s[i] == b[i - |a| - 1] && s[j] == b[j - |a| - 1];
      }
    }
  }

  /** An increasing run around `k` splits into increasing runs below and above `k`. */
  lemma SplitIncreasing(a: seq<int>, k: int, b: seq<int>)
    requires StrictlyIncreasing(a + [k] + b)
    ensures StrictlyIncreasing(a) && StrictlyIncreasing(b)
    ensures (forall x | x in a :: x < k) && (forall x | x in b :: k < x)
  {
    var s := a + [k] + b;
    assert forall i | 0 <= i < |a| :: s[i] == a[i];
    assert forall i | 0 <= i < |b| :: s[|a| + 1 + i] == b[i];
    assert s[|a|] == k;
    forall x | x in b ensures k < x {
      var i :| 0 <= i < |b| && b[i] == x;
      assert s[|a| + 1 + i] == x;
    }
  }

  /**
   * A tree is a binary search tree exactly when its in-order listing is
   * strictly increasing: `in_order` yields the keys in ascending order.
   */
  lemma {:induction false} OrderedIffInOrderIncreasing<V>(t: Tree<V>)
    ensures Ordered(t) <==> StrictlyIncreasing(InOrderKeys(t))
  {
    if t.Node? {
      OrderedIffInOrderIncreasing(t.left);
      OrderedIffInOrderIncreasing(t.right);
      InOrderKeysAreKeys(t.left);
      InOrderKeysAreKeys(t.right);
      if Ordered(t) {
        JoinIncreasing(InOrderKeys(t.left), t.key, InOrderKeys(t.right));
      }
      if StrictlyIncreasing(InOrderKeys(t)) {
        SplitIncreasing(InOrderKeys(t.left), t.key, InOrderKeys(t.right));
      }
    }
  }

  /** No element occurs twice. */
  predicate Distinct(s: seq<int>)
  {
    forall i, j | 0 <= i < j < |s| :: s[i] != s[j]
  }

  /** A sequence has no repeats exactly when each element occurs at most once in its multiset. */
  lemma {:induction false} DistinctIffOnce(s: seq<int>)
    ensures Distinct(s) <==> forall x :: multiset(s)[x] <= 1
  {
    if s != [] {
      var a, rest := s[0], s[1..];
      assert s == [a] + rest;
      DistinctIffOnce(rest);
      if Distinct(s) {
        assert a !in rest;
        assert Distinct(rest) by {
          forall i, j | 0 <= i < j < |rest| ensures rest[i] != rest[j] {
            assert rest[i] == s[i + 1] && rest[j] == s[j + 1];
          }
        }
      }
      if forall x :: multiset(s)[x] <= 1 {
        assert multiset(s)[a] == 1 + multiset(rest)[a];
        assert forall x :: multiset(rest)[x] <= multiset(s)[x];
        forall i, j | 0 <= i < j < |s| ensures s[i] != s[j] {
          if i == 0 {
            assert s[j] in rest;
          } else {
            assert s[i] == rest[i - 1] && s[j] == rest[j - 1];
          }
        }
      }
    }
  }

  /** A rearrangement of a sequence without repeats has no repeats and the same elements. */
  lemma PermutationKeepsDistinct(a: seq<int>, b: seq<int>)
    requires multiset(a) == multiset(b) && Distinct(b)
    ensures Distinct(a) && forall x :: x in a <==> x in b
  {
    DistinctIffOnce(a);
    DistinctIffOnce(b);
    forall x ensures x in a <==> x in b {
      assert x in a <==> x in multiset(a);
      assert x in b <==> x in multiset(b);
    }
  }

  /** An increasing sequence has no repeats. */
  lemma IncreasingIsDistinct(s: seq<int>)
    requires StrictlyIncreasing(s)
    ensures Distinct(s)
  {
  }

  /** Pre-order and post-order list the same keys as in-order, each as often. */
  lemma {:induction false} TraversalsPermute<V>(t: Tree<V>)
    ensures multiset(PreOrderKeys(t)) == multiset(InOrderKeys(t))
    ensures multiset(PostOrderKeys(t)) == multiset(InOrderKeys(t))
  {
    if t.Node? {
      TraversalsPermute(t.left);
      TraversalsPermute(t.right);
    }
  }

  /** The keys held by a queue of subtrees, with multiplicity. */
  function QueueKeys<V>(q: seq<Tree<V>>): multiset<int>
  {
    if q == [] then multiset{} else multiset(InOrderKeys(q[0])) + QueueKeys(q[1..])
  }

  lemma {:induction false} QueueKeysAppend<V>(a: seq<Tree<V>>, b: seq<Tree<V>>)
    ensures QueueKeys(a + b) == QueueKeys(a) + QueueKeys(b)
  {
    if a == [] {
      assert a + b == b;
    } else {
      assert (a + b)[1..] == a[1..] + b;
      QueueKeysAppend(a[1..], b);
    }
  }

  /** The keys queued for a node's children are the keys of its two subtrees. */
  lemma ChildrenKeys<V>(n: Tree<V>)
    requires n.Node?
    ensures QueueKeys(Children(n)) == multiset(InOrderKeys(n.left)) + multiset(InOrderKeys(n.right))
  {
    var l := if n.left.Node? then [n.left] else [];
    var r := if n.right.Node? then [n.right] else [];
    QueueKeysAppend(l, r);
    assert QueueKeys(l) == multiset(InOrderKeys(n.left));
    assert QueueKeys(r) == multiset(InOrderKeys(n.right));
  }

  /** A breadth-first walk emits every key in its queue once. */
  lemma {:induction false} BreadthFirstPermutes<V>(q: seq<Tree<V>>)
    ensures multiset(BreadthFirst(q)) == QueueKeys(q)
    decreases TotalSize(q), |q|
  {
    if q != [] {
      var n := q[0];
      if n.Nil? {
        TotalSizeAppend([n], q[1..]);
        assert [n] + q[1..] == q;
        BreadthFirstPermutes(q[1..]);
      } else {
        var next := q[1..] + Children(n);
        BreadthFirstStep(q);
        BreadthFirstPermutes(next);
        QueueKeysAppend(q[1..], Children(n));
        ChildrenKeys(n);
        calc {
          multiset(BreadthFirst(q));
          multiset([n.key]) + multiset(BreadthFirst(next));
          multiset([n.key]) + QueueKeys(q[1..]) + multiset(InOrderKeys(n.left)) + multiset(InOrderKeys(n.right));
          multiset(InOrderKeys(n)) + QueueKeys(q[1..]);
        }
      }
    }
  }

  /** `level_order` lists the same keys as `in_order`, each as often. */
  lemma LevelOrderPermutes<V>(t: Tree<V>)
    ensures multiset(LevelOrderKeys(t)) == multiset(InOrderKeys(t))
  {
    var q := if t.Node? then [t] else [];
    BreadthFirstPermutes(q);
    assert QueueKeys(q) == multiset(InOrderKeys(t));
  }

  // ---------------------------------------------------------------------------
  // Rendering
  // ---------------------------------------------------------------------------

  /**
   * `to_string` of a link: `Ø` for an absent child, the node's rendering
   * otherwise. The key and value renderings are parameters.
   */
  function LinkToString<V>(t: Tree<V>, keyStr: int -> string, valStr: V -> string): (r: string)
    ensures r == "Ø" <==> t.Nil?
    decreases t, 1
  {
    match t
    case Nil => "Ø"
    case Node(_, _, _, _, _) => NodeToString(t, keyStr, valStr)
  }

  /** `Node::to_string`: `[K: key, V: value, L: left, R: right]`. */
  function NodeToString<V>(t: Tree<V>, keyStr: int -> string, valStr: V -> string): (r: string)
    requires t.Node?
    ensures |r| >= 2 && r[0] == '[' && r[|r| - 1] == ']'
    decreases t, 0
  {
    "[K: " + keyStr(t.key) + ", V: " + valStr(t.value)
      + ", L: " + LinkToString(t.left, keyStr, valStr)
      + ", R: " + LinkToString(t.right, keyStr, valStr) + "]"
  }

  /** How often `c` occurs in `s`. */
  function Count(s: string, c: char): nat
  {
    if s == [] then 0 else (if s[0] == c then 1 else 0) + Count(s[1..], c)
  }

  lemma {:induction false} CountAppend(a: string, b: string, c: char)
    ensures Count(a + b, c) == Count(a, c) + Count(b, c)
  {
    if a == [] {
      assert a + b == b;
    } else {
      assert (a + b)[1..] == a[1..] + b;
      CountAppend(a[1..], b, c);
    }
  }

  /** Neither rendering function ever produces `c`. */
  ghost predicate Avoids<V(!new)>(keyStr: int -> string, valStr: V -> string, c: char)
  {
    (forall k :: Count(keyStr(k), c) == 0) && (forall v :: Count(valStr(v), c) == 0)
  }

  /**
   * When keys and values render without brackets and without `Ø`, the
   * rendering opens one bracket per node and shows one `Ø` per absent child,
   * of which a tree of n nodes has n + 1.
   */
  lemma {:induction false} RenderingCounts<V(!new)>(t: Tree<V>, keyStr: int -> string, valStr: V -> string)
    requires Avoids(keyStr, valStr, '[') && Avoids(keyStr, valStr, 'Ø')
    ensures Count(LinkToString(t, keyStr, valStr), '[') == Size(t)
    ensures Count(LinkToString(t, keyStr, valStr), 'Ø') == Size(t) + 1
  {
    if t.Node? {
      RenderingCounts(t.left, keyStr, valStr);
      RenderingCounts(t.right, keyStr, valStr);
      NodeCount(t, keyStr, valStr, '[');
      NodeCount(t, keyStr, valStr, 'Ø');
      SeparatorCounts();
    }
  }

  /** The fixed pieces of a node's rendering hold one `[` and no `Ø`. */
  lemma SeparatorCounts()
    ensures Count("[K: ", '[') == 1 && Count("[K: ", 'Ø') == 0
    ensures Count(", V: ", '[') == 0 && Count(", V: ", 'Ø') == 0
    ensures Count(", L: ", '[') == 0 && Count(", L: ", 'Ø') == 0
    ensures Count(", R: ", '[') == 0 && Count(", R: ", 'Ø') == 0
    ensures Count("]", '[') == 0 && Count("]", 'Ø') == 0
    ensures Count("Ø", '[') == 0 && Count("Ø", 'Ø') == 1
  {
  }

  /** The count of a character in a node's rendering, piece by piece. */
  lemma NodeCount<V>(t: Tree<V>, keyStr: int -> string, valStr: V -> string, c: char)
    requires t.Node?
    ensures Count(NodeToString(t, keyStr, valStr), c)
      == Count("[K: ", c) + Count(keyStr(t.key), c) + Count(", V: ", c) + Count(valStr(t.value), c)
       + Count(", L: ", c) + Count(LinkToString(t.left, keyStr, valStr), c)
       + Count(", R: ", c) + Count(LinkToString(t.right, keyStr, valStr), c) + Count("]", c)
  {
    var s0 := "[K: " + keyStr(t.key);
    var s1 := s0 + ", V: ";
    var s2 := s1 + valStr(t.value);
    var s3 := s2 + ", L: ";
    var s4 := s3 + LinkToString(t.left, keyStr, valStr);
    var s5 := s4 + ", R: ";
    var s6 := s5 + LinkToString(t.right, keyStr, valStr);
    CountAppend("[K: ", keyStr(t.key), c);
    CountAppend(s0, ", V: ", c);
    CountAppend(s1, valStr(t.value), c);
    CountAppend(s2, ", L: ", c);
    CountAppend(s3, LinkToString(t.left, keyStr, valStr), c);
    CountAppend(s4, ", R: ", c);
    CountAppend(s5, LinkToString(t.right, keyStr, valStr), c);
    CountAppend(s6, "]", c);
  }
}
