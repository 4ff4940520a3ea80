/**
 * `TraverseIter`: the iterator behind the four traversal orders. It owns a
 * queue of key/value pairs collected up front and hands them out from the
 * front.
 */
module TraverseIteration {
  import opened Wrappers

  class TraverseIter<V> {
    /** The pairs not yet handed out, front first. */
    var data: seq<(int, V)>

    /** `TraverseIter::new`: take over the collected queue. */
    constructor(queue: seq<(int, V)>)
      ensures data == queue
    {
      data := queue;
    }

    /**
     * `next`: pop the front pair; an exhausted iterator answers `None` and
     * stays exhausted.
     */
    method Next() returns (r: Option<(int, V)>)
      modifies this
      ensures old(data) == [] ==> r.None? && data == []
      ensures old(data) != [] ==> r == Some(old(data)[0]) && data == old(data)[1..]
    {
      if data == [] {
        r := None;
      } else {
        r := Some(data[0]);
        data := data[1..];
      }
    }
  }
}

/**
 * `RangePairIter`: walks the stored pairs whose keys lie between two bounds,
 * in ascending order, by remembering the last key it handed out and asking
 * the tree for that key's successor.
 */
module RangeIteration {
  import opened Wrappers
  import AvlNode
  import Facade

  /** `std::collections::Bound` over integer keys. */
  datatype Bound = Unbounded | Included(key: int) | Excluded(key: int)

  /** `x` satisfies `lo` taken as a lower bound. */
  predicate AboveLower(lo: Bound, x: int)
  {
    match lo
    case Unbounded => true
    case Included(k) => k <= x
    case Excluded(k) => k < x
  }

  /** `x` satisfies `hi` taken as an upper bound. */
  predicate BelowUpper(hi: Bound, x: int)
  {
    match hi
    case Unbounded => true
    case Included(k) => x <= k
    case Excluded(k) => x < k
  }

  /** The elements of `s` between the two bounds, in the order of `s`. */
  function Window(s: seq<int>, lo: Bound, hi: Bound): seq<int>
  {
    if s == [] then []
    else (if AboveLower(lo, s[0]) && BelowUpper(hi, s[0]) then [s[0]] else []) + Window(s[1..], lo, hi)
  }

  /** The window holds exactly the elements of `s` between the bounds. */
  lemma {:induction false} WindowMembers(s: seq<int>, lo: Bound, hi: Bound)
    ensures forall x :: x in Window(s, lo, hi) <==> x in s && AboveLower(lo, x) && BelowUpper(hi, x)
  {
    if s != [] {
      WindowMembers(s[1..], lo, hi);
      assert s == [s[0]] + s[1..];
    }
  }

  /** A window of an increasing sequence is increasing. */
  lemma {:induction false} WindowIncreasing(s: seq<int>, lo: Bound, hi: Bound)
    requires AvlNode.StrictlyIncreasing(s)
    ensures AvlNode.StrictlyIncreasing(Window(s, lo, hi))
  {
    if s != [] {
      WindowIncreasing(s[1..], lo, hi);
      WindowMembers(s[1..], lo, hi);
      var w := Window(s[1..], lo, hi);
      forall x | x in w ensures s[0] < x {
        var j :| 0 <= j < |s[1..]| && s[1..][j] == x;
        assert s[j + 1] == x;
      }
      AvlNode.JoinIncreasing([], s[0], w);
      assert [] + [s[0]] + w == [s[0]] + w;
    }
  }

  /** Lower bounds that agree on every element give the same window. */
  lemma {:induction false} WindowSameLower(s: seq<int>, lo: Bound, lo': Bound, hi: Bound)
    requires forall i | 0 <= i < |s| :: AboveLower(lo, s[i]) == AboveLower(lo', s[i])
    ensures Window(s, lo, hi) == Window(s, lo', hi)
  {
    if s != [] {
      WindowSameLower(s[1..], lo, lo', hi);
    }
  }

  /** Every element between the bounds: the window is the whole sequence. */
  lemma {:induction false} WindowAllInside(s: seq<int>, lo: Bound, hi: Bound)
    requires forall i | 0 <= i < |s| :: AboveLower(lo, s[i]) && BelowUpper(hi, s[i])
    ensures Window(s, lo, hi) == s
  {
    if s != [] {
      WindowAllInside(s[1..], lo, hi);
    }
  }

  /** The window of a concatenation is the concatenation of the windows. */
  lemma {:induction false} WindowConcat(a: seq<int>, b: seq<int>, lo: Bound, hi: Bound)
    ensures Window(a + b, lo, hi) == Window(a, lo, hi) + Window(b, lo, hi)
  {
    if a == [] {
      assert a + b == b;
    } else {
      assert (a + b)[0] == a[0] && (a + b)[1..] == a[1..] + b;
      WindowConcat(a[1..], b, lo, hi);
      var front := if AboveLower(lo, a[0]) && BelowUpper(hi, a[0]) then [a[0]] else [];
      assert front + (Window(a[1..], lo, hi) + Window(b, lo, hi))
          == (front + Window(a[1..], lo, hi)) + Window(b, lo, hi);
    }
  }

  /** Nothing passes an upper bound that every element exceeds. */
  lemma {:induction false} WindowAboveUpper(s: seq<int>, lo: Bound, hi: Bound)
    requires forall i | 0 <= i < |s| :: !BelowUpper(hi, s[i])
    ensures Window(s, lo, hi) == []
  {
    if s != [] {
      WindowAboveUpper(s[1..], lo, hi);
    }
  }

  /** Nothing passes a lower bound that no element reaches. */
  lemma {:induction false} WindowBelowLower(s: seq<int>, lo: Bound, hi: Bound)
    requires forall i | 0 <= i < |s| :: !AboveLower(lo, s[i])
    ensures Window(s, lo, hi) == []
  {
    if s != [] {
      WindowBelowLower(s[1..], lo, hi);
    }
  }

  /**
   * In an increasing sequence the window starts at the least element `c` that
   * passes the lower bound, provided `c` passes the upper bound, and goes on
   * with the window above `c`; otherwise it is empty.
   */
  lemma {:induction false} WindowFront(s: seq<int>, lo: Bound, hi: Bound, c: int)
    requires AvlNode.StrictlyIncreasing(s)
    requires c in s && AboveLower(lo, c)
    requires forall i | 0 <= i < |s| :: AboveLower(lo, s[i]) ==> c <= s[i]
    ensures Window(s, lo, hi) == if BelowUpper(hi, c) then [c] + Window(s, Excluded(c), hi) else []
  {
    var a, rest := s[0], s[1..];
    assert a <= c;
    assert Window(s, lo, hi) == (if AboveLower(lo, a) && BelowUpper(hi, a) then [a] else []) + Window(rest, lo, hi);
    assert Window(s, Excluded(c), hi) == Window(rest, Excluded(c), hi);
    assert forall i | 0 <= i < |rest| :: rest[i] == s[i + 1] && a < rest[i];
    if a == c {
      assert forall i | 0 <= i < |rest| :: AboveLower(lo, rest[i]) && c < rest[i];
      WindowSameLower(rest, lo, Excluded(c), hi);
      if !BelowUpper(hi, c) {
        WindowAboveUpper(rest, lo, hi);
      }
    } else {
      assert c in rest;
      assert AvlNode.StrictlyIncreasing(rest);
      WindowFront(rest, lo, hi, c);
    }
  }

  /**
   * `r` is the stored pair with the least key passing `lo`, and `None` when
   * no stored key passes it.
   */
  ghost predicate FirstFrom<V>(m: map<int, V>, lo: Bound, r: Option<(int, V)>)
  {
    && (r.None? <==> forall x | x in m :: !AboveLower(lo, x))
    && (r.Some? ==>
      && r.value.0 in m && m[r.value.0] == r.value.1 && AboveLower(lo, r.value.0)
      && forall x | x in m && AboveLower(lo, x) :: r.value.0 <= x)
  }

  /**
   * One step of the range walk: when `first` is the first stored pair from
   * `lo`, the window over the ascending keys either is empty or starts with
   * that pair's key and continues above it.
   */
  lemma WindowStep<V>(s: seq<int>, m: map<int, V>, lo: Bound, hi: Bound, first: Option<(int, V)>)
    requires AvlNode.StrictlyIncreasing(s) && (forall x :: x in s <==> x in m)
    requires FirstFrom(m, lo, first)
    ensures first.None? ==> Window(s, lo, hi) == []
    ensures first.Some? ==>
      Window(s, lo, hi) == (if BelowUpper(hi, first.value.0) then [first.value.0] + Window(s, Excluded(first.value.0), hi) else [])
  {
    if first.None? {
      assert forall i | 0 <= i < |s| :: s[i] in m;
      WindowBelowLower(s, lo, hi);
    } else {
      var c := first.value.0;
      assert forall i | 0 <= i < |s| :: s[i] in m;
      WindowFront(s, lo, hi, c);
    }
  }

  class RangePairIter<V> {
    /** The tree being walked; Rust's borrow keeps it unchanged meanwhile. */
    const tree: Facade.AvlTree<V>
    /** The lower bound. */
    const from: Bound
    /** The upper bound. */
    const to: Bound
    /** The key handed out last, if any. */
    var prev: Option<int>

    /** `RangePairIter::new`, which `AVLTree::range_pair_iter` calls. */
    constructor(tree: Facade.AvlTree<V>, lower: Bound, upper: Bound)
      ensures this.tree == tree && from == lower && to == upper && prev.None?
    {
      this.tree := tree;
      from := lower;
      to := upper;
      prev := None;
    }

    ghost predicate Valid()
      reads this, tree
    {
      tree.Valid()
    }

    /** Where the walk resumes: the lower bound, then strictly above the last key. */
    function Cursor(): Bound
      reads this
    {
      match prev
      case None => from
      case Some(k) => Excluded(k)
    }

    /** The keys still to be handed out, in the order they will come. */
    ghost function Pending(): seq<int>
      reads this, tree
    {
      Window(AvlNode.InOrderKeys(tree.root), Cursor(), to)
    }

    /** `get_lower_bound_pair`: the first stored pair from the lower bound. */
    function GetLowerBoundPair(): (r: Option<(int, V)>)
      reads this, tree
      requires Valid()
      ensures FirstFrom(tree.Contents(), from, r)
    {
      match from
      case Included(key) => tree.GetPair(key).Or(tree.Successor(key))
      case Excluded(key) => tree.Successor(key)
      case Unbounded => tree.MinPair()
    }

    /** `get_next_pair`: the first stored pair from where the walk resumes. */
    function GetNextPair(): (r: Option<(int, V)>)
      reads this, tree
      requires Valid()
      ensures FirstFrom(tree.Contents(), Cursor(), r)
    {
      match prev
      case None => GetLowerBoundPair()
      case Some(key) => tree.Successor(key)
    }

    /** `check_upper_bound`: keep `current` only when its key passes the upper bound. */
    function CheckUpperBound(current: (int, V)): (r: Option<(int, V)>)
      reads this
      ensures r.Some? <==> BelowUpper(to, current.0)
      ensures r.Some? ==> r.value == current
    {
      if BelowUpper(to, current.0) then Some(current) else None
    }

    /**
     * `get_next_key_under`: hand out the next pair within the bounds and
     * remember its key; past the end it answers `None` and stays there.
     */
    method GetNextKeyUnder() returns (r: Option<(int, V)>)
      requires Valid()
      modifies this
      ensures Valid()
      ensures old(Pending()) == [] ==> r.None? && prev == old(prev)
      ensures old(Pending()) != [] ==>
        && r.Some? && r.value.0 == old(Pending())[0]
        && r.value.0 in tree.Contents() && tree.Contents()[r.value.0] == r.value.1
        && Pending() == old(Pending())[1..]
    {
      var current := GetNextPair();
      r := if current.None? then None else CheckUpperBound(current.value);
      ghost var s := AvlNode.InOrderKeys(tree.root);
      AvlNode.OrderedIffInOrderIncreasing(tree.root);
      AvlNode.InOrderKeysAreKeys(tree.root);
      WindowStep(s, tree.Contents(), Cursor(), to, current);
      if r.Some? {
        prev := Some(r.value.0);
      }
    }

    /** `Iterator::next`. */
    method Next() returns (r: Option<(int, V)>)
      requires Valid()
      modifies this
      ensures Valid()
      ensures old(Pending()) == [] ==> r.None? && prev == old(prev)
      ensures old(Pending()) != [] ==>
        && r.Some? && r.value.0 == old(Pending())[0]
        && r.value.0 in tree.Contents() && tree.Contents()[r.value.0] == r.value.1
        && Pending() == old(Pending())[1..]
    {
      r := GetNextKeyUnder();
    }
  }

  /**
   * A fresh range iterator will hand out, in strictly ascending order, exactly
   * the stored keys between the two bounds.
   */
  lemma RangeCoversBounds<V>(t: AvlNode.Tree<V>, lower: Bound, upper: Bound)
    requires AvlNode.Avl(t)
    ensures var w := Window(AvlNode.InOrderKeys(t), lower, upper);
      && AvlNode.StrictlyIncreasing(w)
      && forall x :: x in w <==> x in AvlNode.Contents(t) && AboveLower(lower, x) && BelowUpper(upper, x)
  {
    AvlNode.OrderedIffInOrderIncreasing(t);
    AvlNode.InOrderKeysAreKeys(t);
    WindowIncreasing(AvlNode.InOrderKeys(t), lower, upper);
    WindowMembers(AvlNode.InOrderKeys(t), lower, upper);
  }
}
