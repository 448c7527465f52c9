/**
 * `Tree::BinaryTreeNode`: a node whose child array holds at most two
 * positional slots, left (position 0) and right (position 1). The operations
 * act on the node arena of `NodeCore`.
 */
module BinaryTree {
  import opened Wrappers
  import opened NodeCore

  /** `n` nil slots. */
  function Nils(n: nat): (r: seq<Slot>)
    ensures |r| == n && forall j :: 0 <= j < n ==> r[j].None?
  {
    if n == 0 then [] else Nils(n - 1) + [None]
  }

  /** Ruby's `a[i] = x`: overwrite position i, padding with nil when the array is shorter. */
  function PutSlot(kids: seq<Slot>, i: nat, x: Slot): (r: seq<Slot>)
    ensures |r| == if i < |kids| then |kids| else i + 1
    ensures r[i] == x
    ensures forall j :: 0 <= j < |r| && j != i ==> r[j] == (if j < |kids| then kids[j] else None)
  {
    if i < |kids| then kids[i := x] else kids + Nils(i - |kids|) + [x]
  }

  /** The array holds at most the two positional slots. */
  predicate AtMostTwo<C>(m: Heap<C>, p: Id)
    requires p in m
  {
    |m[p].children| <= 2
  }

  /** `leftChild`: the first element, nil when there is none. */
  function LeftChild<C>(m: Heap<C>, p: Id): (r: Slot)
    requires p in m
    ensures Get(m, p, At(0)) == Ok(r)
  {
    FirstChild(m, p)
  }

  /** `rightChild`: the element at position 1, nil when there is none. */
  function RightChild<C>(m: Heap<C>, p: Id): (r: Slot)
    requires p in m
    ensures Get(m, p, At(1)) == Ok(r)
  {
    if |m[p].children| > 1 then m[p].children[1] else None
  }

  /**
   * The heap after the raw setter writes `x` at position i of `p`: the slot is
   * overwritten and a non-nil child's name is indexed; no parent link changes.
   */
  function PutSpec<C>(m: Heap<C>, p: Id, i: nat, x: Slot): (m': Heap<C>)
    requires p in m && (x.Some? ==> x.value in m)
    ensures m'.Keys == m.Keys
    ensures m'[p].name == m[p].name && m'[p].content == m[p].content && m'[p].parent == m[p].parent
  {
    var rp := m[p];
    m[p := rp.(children := PutSlot(rp.children, i, x),
               index := if x.Some? then rp.index[m[x.value].name := x.value] else rp.index)]
  }

  lemma PutKeepsClosed<C>(m: Heap<C>, p: Id, i: nat, x: Slot)
    requires Closed(m) && p in m && (x.Some? ==> x.value in m)
    ensures Closed(PutSpec(m, p, i, x)) && PutSpec(m, p, i, x).Keys == m.Keys
  {
    var m' := PutSpec(m, p, i, x);
    assert m'.Keys == m.Keys;
    forall y | y in m' ensures RecClosed(m', m'[y]) {
      assert RecClosed(m, m[y]);
      if y == p {
        var kids := m[p].children;
        forall j | 0 <= j < |m'[p].children| && m'[p].children[j].Some?
          ensures m'[p].children[j].value in m'
        {
          if j != i { assert m'[p].children[j] == kids[j]; }
        }
      }
    }
  }

  /**
   * `leftChild=` / `rightChild=` read back: the written slot holds the new
   * child, the other slot is as before, and at most two slots remain.
   */
  lemma PutReadBack<C>(m: Heap<C>, p: Id, i: nat, x: Slot)
    requires p in m && (x.Some? ==> x.value in m) && i <= 1
    ensures var m' := PutSpec(m, p, i, x);
      && (i == 0 ==> LeftChild(m', p) == x && RightChild(m', p) == RightChild(m, p))
      && (i == 1 ==> RightChild(m', p) == x && LeftChild(m', p) == LeftChild(m, p))
      && (AtMostTwo(m, p) ==> AtMostTwo(m', p))
  {
  }

  /** `add`: raises once the array has two slots (nil slots count), else `TreeNode#add`. */
  method Add<C>(a: Arena<C>, p: Id, c: Id) returns (r: Result<Id>)
    requires a.Valid() && p in a.nodes && c in a.nodes
    modifies a
    ensures a.Valid()
    ensures |old(a.nodes)[p].children| == 2 ==> r == Err(CapacityExceeded) && a.nodes == old(a.nodes)
    ensures |old(a.nodes)[p].children| != 2 && old(a.nodes)[c].name in old(a.nodes)[p].index ==>
      r == Err(DuplicateName) && a.nodes == old(a.nodes)
    ensures |old(a.nodes)[p].children| != 2 && old(a.nodes)[c].name !in old(a.nodes)[p].index ==>
      r == Ok(c) && a.nodes == AddSpec(old(a.nodes), p, c)
    ensures AtMostTwo(old(a.nodes), p) ==> AtMostTwo(a.nodes, p)
  {
    if |a.nodes[p].children| == 2 {
      return Err(CapacityExceeded);
    }
    r := a.Add(p, c);
  }

  /** `leftChild=`: overwrite slot 0 and index a non-nil child; the parent link is not set. */
  method SetLeft<C>(a: Arena<C>, p: Id, x: Slot)
    requires a.Valid() && p in a.nodes && (x.Some? ==> x.value in a.nodes)
    modifies a
    ensures a.Valid() && a.next == old(a.next)
    ensures a.nodes == PutSpec(old(a.nodes), p, 0, x)
    ensures LeftChild(a.nodes, p) == x && RightChild(a.nodes, p) == RightChild(old(a.nodes), p)
    ensures AtMostTwo(old(a.nodes), p) ==> AtMostTwo(a.nodes, p)
  {
    PutKeepsClosed(a.nodes, p, 0, x);
    PutReadBack(a.nodes, p, 0, x);
    a.nodes := PutSpec(a.nodes, p, 0, x);
  }

  /** `rightChild=`: overwrite slot 1 (padding slot 0 with nil) and index a non-nil child. */
  method SetRight<C>(a: Arena<C>, p: Id, x: Slot)
    requires a.Valid() && p in a.nodes && (x.Some? ==> x.value in a.nodes)
    modifies a
    ensures a.Valid() && a.next == old(a.next)
    ensures a.nodes == PutSpec(old(a.nodes), p, 1, x)
    ensures RightChild(a.nodes, p) == x && LeftChild(a.nodes, p) == LeftChild(old(a.nodes), p)
    ensures AtMostTwo(old(a.nodes), p) ==> AtMostTwo(a.nodes, p)
  {
    PutKeepsClosed(a.nodes, p, 1, x);
    PutReadBack(a.nodes, p, 1, x);
    a.nodes := PutSpec(a.nodes, p, 1, x);
  }

  /** The heap after `swap_children`. */
  function SwapSpec<C>(m: Heap<C>, p: Id): Heap<C>
    requires p in m && Closed(m)
  {
    var l := LeftChild(m, p);
    var r := RightChild(m, p);
    PutSpec(PutSpec(m, p, 0, r), p, 1, l)
  }

  /**
   * `swap_children`: the new left is the old right and the new right is the
   * old left; an array of at most two slots ends with exactly two.
   */
  method SwapChildren<C>(a: Arena<C>, p: Id)
    requires a.Valid() && p in a.nodes
    modifies a
    ensures a.Valid() && a.next == old(a.next)
    ensures a.nodes == SwapSpec(old(a.nodes), p)
    ensures LeftChild(a.nodes, p) == RightChild(old(a.nodes), p)
    ensures RightChild(a.nodes, p) == LeftChild(old(a.nodes), p)
    ensures AtMostTwo(old(a.nodes), p) ==>
      a.nodes[p].children == [RightChild(old(a.nodes), p), LeftChild(old(a.nodes), p)]
  {
    var temp := LeftChild(a.nodes, p);
    var right := RightChild(a.nodes, p);
    assert right.Some? ==> right.value in a.nodes by {
      assert RecClosed(a.nodes, a.nodes[p]);
    }
    assert temp.Some? ==> temp.value in a.nodes by {
      assert RecClosed(a.nodes, a.nodes[p]);
    }
    SetLeft(a, p, right);
    SetRight(a, p, temp);
    if |old(a.nodes)[p].children| <= 2 {
      assert |a.nodes[p].children| == 2;
    }
  }

  /**
   * Swapping twice restores a node whose array has both slots; an array with
   * fewer slots comes back padded to two.
   */
  lemma SwapTwice<C>(m: Heap<C>, p: Id)
    requires p in m && Closed(m) && AtMostTwo(m, p)
    ensures var kids := m[p].children;
      && SwapSpec(m, p).Keys == m.Keys
      && SwapSpec(SwapSpec(m, p), p)[p].children == [LeftChild(m, p), RightChild(m, p)]
      && (|kids| == 2 ==> SwapSpec(SwapSpec(m, p), p)[p].children == kids)
  {
    var kids := m[p].children;
    SwapOnce(m, p);
    var m1 := SwapSpec(m, p);
    SwapOnce(m1, p);
    assert LeftChild(m1, p) == RightChild(m, p) && RightChild(m1, p) == LeftChild(m, p);
    if |kids| == 2 {
      assert kids == [kids[0], kids[1]];
    }
  }

  /** One swap keeps the heap closed and leaves the node with the two slots exchanged. */
  lemma SwapOnce<C>(m: Heap<C>, p: Id)
    requires p in m && Closed(m)
    ensures Closed(SwapSpec(m, p)) && SwapSpec(m, p).Keys == m.Keys
    ensures AtMostTwo(m, p) ==> SwapSpec(m, p)[p].children == [RightChild(m, p), LeftChild(m, p)]
  {
    assert RecClosed(m, m[p]);
    var m0 := PutSpec(m, p, 0, RightChild(m, p));
    PutKeepsClosed(m, p, 0, RightChild(m, p));
    PutKeepsClosed(m0, p, 1, LeftChild(m, p));
  }

  /** `isLeftChild?`: nil for a root, else whether the receiver sits in its parent's slot 0. */
  function IsLeftChild<C>(m: Heap<C>, n: Id): (r: Option<bool>)
    requires n in m && Closed(m)
    ensures r.None? <==> m[n].parent.None?
    ensures r == Some(true) <==>
      m[n].parent.Some? && m[m[n].parent.value].children != [] && m[m[n].parent.value].children[0] == Some(n)
  {
    if m[n].parent.None? then None else Some(LeftChild(m, m[n].parent.value) == Some(n))
  }

  /** `isRightChild?`: nil for a root, else whether the receiver sits in its parent's slot 1. */
  function IsRightChild<C>(m: Heap<C>, n: Id): (r: Option<bool>)
    requires n in m && Closed(m)
    ensures r.None? <==> m[n].parent.None?
    ensures r == Some(true) <==>
      m[n].parent.Some? && |m[m[n].parent.value].children| > 1 && m[m[n].parent.value].children[1] == Some(n)
  {
    if m[n].parent.None? then None else Some(RightChild(m, m[n].parent.value) == Some(n))
  }

  /** After the parent swaps its children, a left child reports as right and vice versa. */
  lemma SwapExchangesSides<C>(m: Heap<C>, p: Id, n: Id)
    requires p in m && n in m && Closed(m) && m[n].parent == Some(p)
    ensures Closed(SwapSpec(m, p)) && n in SwapSpec(m, p)
    ensures IsLeftChild(SwapSpec(m, p), n) == IsRightChild(m, n)
    ensures IsRightChild(SwapSpec(m, p), n) == IsLeftChild(m, n)
  {
    PutKeepsClosed(m, p, 0, RightChild(m, p));
    assert RecClosed(m, m[p]);
    PutKeepsClosed(PutSpec(m, p, 0, RightChild(m, p)), p, 1, LeftChild(m, p));
  }

  /**
   * The raw setters neither re-parent nor unindex the child they displace:
   * it keeps its parent link and its name entry but is no longer listed.
   */
  lemma SetterStrandsDisplaced<C>(m: Heap<C>, p: Id, y: Id, x: Slot)
    requires p in m && y in m && (x.Some? ==> x.value in m) && y != p
    requires |m[p].children| > 0 && m[p].children[0] == Some(y) && Some(y) !in m[p].children[1..]
    requires m[y].parent == Some(p)
    requires m[y].name in m[p].index && m[p].index[m[y].name] == y
    requires x != Some(y) && (x.Some? ==> m[x.value].name != m[y].name)
    ensures var m' := PutSpec(m, p, 0, x);
      && m'[y].parent == Some(p)
      && Some(y) !in m'[p].children
      && m[y].name in m'[p].index && m'[p].index[m[y].name] == y
  {
    var kids := m[p].children;
    var kids' := PutSpec(m, p, 0, x)[p].children;
    forall j | 0 <= j < |kids'|
      ensures kids'[j] != Some(y)
    {
      if j > 0 { assert kids'[j] == kids[1..][j - 1]; }
    }
  }
}
