/**
 * A (sub)tree as a value: what a TreeNode and everything below it denote.
 * Metrics, traversals and the codecs are stated on this view.
 */
module TreeValue {
  import opened Wrappers

  datatype Tree<C> = Node(name: string, content: C, kids: seq<Tree<C>>)

  // ---------------------------------------------------------------- size

  /** `size`: the receiver plus the sizes of all its children. */
  function Size<C>(t: Tree<C>): (n: nat)
    ensures n >= 1
    decreases t
  {
    1 + ForestSize(t.kids)
  }

  function ForestSize<C>(ts: seq<Tree<C>>): nat
    decreases ts
  {
    if ts == [] then 0 else Size(ts[0]) + ForestSize(ts[1..])
  }

  lemma {:induction false} ForestSizeAppend<C>(a: seq<Tree<C>>, b: seq<Tree<C>>)
    ensures ForestSize(a + b) == ForestSize(a) + ForestSize(b)
    decreases |a|
  {
    if a == [] {
      assert a + b == b;
    } else {
      assert (a + b)[1..] == a[1..] + b;
      ForestSizeAppend(a[1..], b);
    }
  }

  // ---------------------------------------------------------------- height

  /** `nodeHeight`: 0 for a leaf, else one more than the tallest child. */
  function Height<C>(t: Tree<C>): (h: nat)
    ensures h == 0 <==> t.kids == []
    decreases t
  {
    if t.kids == [] then 0 else 1 + MaxHeight(t.kids)
  }

  function MaxHeight<C>(ts: seq<Tree<C>>): nat
    decreases ts
  {
    if ts == [] then 0
    else
      var h := Height(ts[0]);
      var rest := MaxHeight(ts[1..]);
      if h < rest then rest else h
  }

  /** Every child is strictly lower than its parent, and the height is attained by some child. */
  lemma {:induction false} HeightOfChildren<C>(t: Tree<C>)
    requires t.kids != []
    ensures forall i :: 0 <= i < |t.kids| ==> Height(t.kids[i]) < Height(t)
    ensures exists i :: 0 <= i < |t.kids| && Height(t) == 1 + Height(t.kids[i])
  {
    MaxHeightBounds(t.kids);
  }

  lemma {:induction false} MaxHeightBounds<C>(ts: seq<Tree<C>>)
    requires ts != []
    ensures forall i :: 0 <= i < |ts| ==> Height(ts[i]) <= MaxHeight(ts)
    ensures exists i :: 0 <= i < |ts| && MaxHeight(ts) == Height(ts[i])
    decreases |ts|
  {
    var rest := ts[1..];
    if |ts| > 1 {
      MaxHeightBounds(rest);
      var j :| 0 <= j < |rest| && MaxHeight(rest) == Height(rest[j]);
      forall i | 1 <= i < |ts| ensures Height(ts[i]) <= MaxHeight(ts) {
        assert ts[i] == rest[i - 1];
      }
      if Height(ts[0]) < MaxHeight(rest) {
        assert ts[j + 1] == rest[j];
        assert MaxHeight(ts) == Height(ts[j + 1]);
      } else {
        assert MaxHeight(ts) == Height(ts[0]);
      }
    } else {
      assert MaxHeight(rest) == 0;
      assert MaxHeight(ts) == Height(ts[0]);
    }
  }

  /** The height is always below the number of nodes. */
  lemma {:induction false} HeightBelowSize<C>(t: Tree<C>)
    ensures Height(t) < Size(t)
    decreases t
  {
    if t.kids != [] {
      HeightOfChildren(t);
      var i :| 0 <= i < |t.kids| && Height(t) == 1 + Height(t.kids[i]);
      HeightBelowSize(t.kids[i]);
      SizeOfMember(t.kids, i);
    }
  }

  lemma {:induction false} SizeOfMember<C>(ts: seq<Tree<C>>, i: nat)
    requires i < |ts|
    ensures Size(ts[i]) <= ForestSize(ts)
    decreases |ts|
  {
    if i > 0 { SizeOfMember(ts[1..], i - 1); }
  }

  // ---------------------------------------------------------------- pre-order

  /** `each`: the receiver, then each child's pre-order sequence, left to right. */
  function PreOrder<C>(t: Tree<C>): (r: seq<Tree<C>>)
    ensures |r| >= 1 && r[0] == t
    decreases t
  {
    [t] + ForestPreOrder(t.kids)
  }

  function ForestPreOrder<C>(ts: seq<Tree<C>>): seq<Tree<C>>
    decreases ts
  {
    if ts == [] then [] else PreOrder(ts[0]) + ForestPreOrder(ts[1..])
  }

  /** `each` yields exactly `size` nodes, the receiver first. */
  lemma {:induction false} PreOrderLength<C>(t: Tree<C>)
    ensures |PreOrder(t)| == Size(t) && PreOrder(t)[0] == t
    decreases t
  {
    ForestPreOrderLength(t.kids);
  }

  lemma {:induction false} ForestPreOrderLength<C>(ts: seq<Tree<C>>)
    ensures |ForestPreOrder(ts)| == ForestSize(ts)
    decreases ts
  {
    if ts != [] {
      PreOrderLength(ts[0]);
      ForestPreOrderLength(ts[1..]);
    }
  }

  lemma {:induction false} ForestPreOrderAppend<C>(a: seq<Tree<C>>, b: seq<Tree<C>>)
    ensures ForestPreOrder(a + b) == ForestPreOrder(a) + ForestPreOrder(b)
    decreases |a|
  {
    if a == [] {
      assert a + b == b;
    } else {
      assert (a + b)[1..] == a[1..] + b;
      ForestPreOrderAppend(a[1..], b);
    }
  }

  // ---------------------------------------------------------------- leaves

  predicate IsLeaf<C>(t: Tree<C>) { t.kids == [] }

  function LeavesOf<C>(s: seq<Tree<C>>): seq<Tree<C>>
  {
    if s == [] then [] else (if IsLeaf(s[0]) then [s[0]] else []) + LeavesOf(s[1..])
  }

  /** `each_leaf`: the pre-order sequence restricted to childless nodes. */
  function EachLeaf<C>(t: Tree<C>): (r: seq<Tree<C>>)
    ensures forall x :: x in r ==> IsLeaf(x)
  {
    LeavesAreLeaves(PreOrder(t));
    LeavesOf(PreOrder(t))
  }

  /** The leaf frontier read off the shape directly, independent of `each`. */
  function Frontier<C>(t: Tree<C>): seq<Tree<C>>
    decreases t
  {
    if t.kids == [] then [t] else ForestFrontier(t.kids)
  }

  function ForestFrontier<C>(ts: seq<Tree<C>>): seq<Tree<C>>
    decreases ts
  {
    if ts == [] then [] else Frontier(ts[0]) + ForestFrontier(ts[1..])
  }

  lemma {:induction false} LeavesOfAppend<C>(a: seq<Tree<C>>, b: seq<Tree<C>>)
    ensures LeavesOf(a + b) == LeavesOf(a) + LeavesOf(b)
    decreases |a|
  {
    if a == [] {
      assert a + b == b;
    } else {
      assert (a + b)[1..] == a[1..] + b;
      LeavesOfAppend(a[1..], b);
    }
  }

  /** `each_leaf` yields the leaf frontier, left to right, and never an inner node. */
  lemma {:induction false} EachLeafIsFrontier<C>(t: Tree<C>)
    ensures EachLeaf(t) == Frontier(t)
    ensures forall x :: x in EachLeaf(t) ==> IsLeaf(x)
    decreases t
  {
    ForestLeaves(t.kids);
    LeavesOfAppend([t], ForestPreOrder(t.kids));
    if t.kids == [] {
      assert ForestPreOrder(t.kids) == [];
    }
    LeavesAreLeaves(PreOrder(t));
  }

  lemma {:induction false} ForestLeaves<C>(ts: seq<Tree<C>>)
    ensures LeavesOf(ForestPreOrder(ts)) == ForestFrontier(ts)
    decreases ts
  {
    if ts != [] {
      EachLeafIsFrontier(ts[0]);
      ForestLeaves(ts[1..]);
      LeavesOfAppend(PreOrder(ts[0]), ForestPreOrder(ts[1..]));
    }
  }

  lemma {:induction false} LeavesAreLeaves<C>(s: seq<Tree<C>>)
    ensures forall x :: x in LeavesOf(s) ==> IsLeaf(x)
    decreases |s|
  {
    if s != [] { LeavesAreLeaves(s[1..]); }
  }

  // ---------------------------------------------------------------- breadth-first

  /** FIFO level order of a queue of subtrees: take the head, enqueue its children. */
  function LevelOrder<C>(queue: seq<Tree<C>>): (r: seq<Tree<C>>)
    ensures |r| == ForestSize(queue)
    decreases ForestSize(queue)
  {
    if queue == [] then []
    else
      ForestSizeAppend(queue[1..], queue[0].kids);
      assert ForestSize(queue) == Size(queue[0]) + ForestSize(queue[1..]);
      [queue[0]] + LevelOrder(queue[1..] + queue[0].kids)
  }

  /** The children of a row of subtrees, left to right: the row one level down. */
  function NextLevel<C>(ts: seq<Tree<C>>): (r: seq<Tree<C>>)
    ensures ts != [] ==> ForestSize(r) < ForestSize(ts)
    decreases |ts|
  {
    if ts == [] then []
    else
      var r := ts[0].kids + NextLevel(ts[1..]);
      ForestSizeAppend(ts[0].kids, NextLevel(ts[1..]));
      r
  }

  /**
   * The reference order of a breadth-first walk, independent of any queue:
   * a whole row left to right, then the rows below it.
   */
  function Levels<C>(ts: seq<Tree<C>>): seq<Tree<C>>
    decreases ForestSize(ts)
  {
    if ts == [] then [] else ts + Levels(NextLevel(ts))
  }

  /** Draining the row `xs` ahead of `ys` leaves `ys` followed by the row below `xs` in the queue. */
  lemma {:induction false} LevelOrderShift<C>(xs: seq<Tree<C>>, ys: seq<Tree<C>>)
    ensures LevelOrder(xs + ys) == xs + LevelOrder(ys + NextLevel(xs))
    decreases |xs|
  {
    if xs == [] {
      assert xs + ys == ys && ys + NextLevel(xs) == ys;
    } else {
      var x, rest := xs[0], xs[1..];
      LevelOrderStep(xs, ys);
      LevelOrderShift(rest, ys + x.kids);
      NextLevelStep(xs, ys);
      var l := LevelOrder(ys + NextLevel(xs));
      assert [x] + (rest + l) == xs + l by { assert [x] + rest == xs; }
    }
  }

  /** One shift and push on a queue that starts with the row `xs`. */
  lemma LevelOrderStep<C>(xs: seq<Tree<C>>, ys: seq<Tree<C>>)
    requires xs != []
    ensures LevelOrder(xs + ys) == [xs[0]] + LevelOrder(xs[1..] + (ys + xs[0].kids))
  {
    LevelOrderUnfold(xs + ys);
    QueueAfterShift(xs, ys);
  }

  lemma QueueAfterShift<C>(xs: seq<Tree<C>>, ys: seq<Tree<C>>)
    requires xs != []
    ensures (xs + ys)[0] == xs[0]
    ensures (xs + ys)[1..] + (xs + ys)[0].kids == xs[1..] + (ys + xs[0].kids)
  {
    assert (xs + ys)[1..] == xs[1..] + ys;
  }

  lemma LevelOrderUnfold<C>(q: seq<Tree<C>>)
    requires q != []
    ensures LevelOrder(q) == [q[0]] + LevelOrder(q[1..] + q[0].kids)
  {
  }

  lemma NextLevelStep<C>(xs: seq<Tree<C>>, ys: seq<Tree<C>>)
    requires xs != []
    ensures (ys + xs[0].kids) + NextLevel(xs[1..]) == ys + NextLevel(xs)
  {
  }

  /** The queue visits the subtrees level by level, each level left to right. */
  lemma {:induction false} LevelOrderIsLevels<C>(ts: seq<Tree<C>>)
    ensures LevelOrder(ts) == Levels(ts)
    decreases ForestSize(ts)
  {
    if ts != [] {
      LevelOrderShift(ts, []);
      assert ts + [] == ts && [] + NextLevel(ts) == NextLevel(ts);
      LevelOrderIsLevels(NextLevel(ts));
    }
  }

  /** `breadth_each`: the shift/push queue loop, yielding nodes in the order visited. */
  method BreadthEach<C>(t: Tree<C>) returns (visited: seq<Tree<C>>)
    ensures visited == LevelOrder([t])
    ensures visited == Levels([t]) == [t] + Levels(t.kids)
  {
    var queue := [t];
    visited := [];
    while queue != []
      invariant visited + LevelOrder(queue) == LevelOrder([t])
      decreases ForestSize(queue)
    {
      var node := queue[0];
      assert ForestSize(queue) == Size(node) + ForestSize(queue[1..]);
      queue := queue[1..];
      visited := visited + [node];
      ForestSizeAppend(queue, node.kids);
      queue := queue + node.kids;
    }
    LevelOrderIsLevels([t]);
    assert NextLevel([t]) == t.kids + NextLevel([t][1..]);
    assert [t][1..] == [] && t.kids + [] == t.kids;
  }

  /** The level order of a queue visits the same nodes, as often, as its pre-order. */
  lemma {:induction false} LevelOrderPermutes<C>(queue: seq<Tree<C>>)
    ensures multiset(LevelOrder(queue)) == multiset(ForestPreOrder(queue))
    ensures |LevelOrder(queue)| == ForestSize(queue)
    decreases ForestSize(queue)
  {
    if queue != [] {
      var head, rest := queue[0], queue[1..];
      ForestSizeAppend(rest, head.kids);
      assert ForestSize(queue) == Size(head) + ForestSize(rest);
      LevelOrderPermutes(rest + head.kids);
      ForestPreOrderAppend(rest, head.kids);
      assert LevelOrder(queue) == [head] + LevelOrder(rest + head.kids);
      assert ForestPreOrder(queue) == [head] + ForestPreOrder(head.kids) + ForestPreOrder(rest);
      PermutedCons(head, LevelOrder(rest + head.kids), ForestPreOrder(rest), ForestPreOrder(head.kids));
    }
  }

  lemma PermutedCons<T>(h: T, s: seq<T>, a: seq<T>, b: seq<T>)
    requires multiset(s) == multiset(a + b)
    ensures multiset([h] + s) == multiset([h] + b + a)
  {
  }

  /** `breadth_each` starts at the receiver and yields every node of `each` exactly once. */
  lemma BreadthEachCoversTree<C>(t: Tree<C>)
    ensures LevelOrder([t])[0] == t
    ensures |LevelOrder([t])| == Size(t)
    ensures multiset(LevelOrder([t])) == multiset(PreOrder(t))
  {
    LevelOrderPermutes([t]);
    var none: seq<Tree<C>> := [];
    assert [t][1..] == none;
    assert ForestPreOrder([t]) == PreOrder(t) + ForestPreOrder(none);
    assert ForestSize([t]) == Size(t) + ForestSize(none);
  }

  // ---------------------------------------------------------------- names and `<<`

  function KidNames<C>(ts: seq<Tree<C>>): seq<string>
  {
    if ts == [] then [] else [ts[0].name] + KidNames(ts[1..])
  }

  /** `<<` on a value: refuse a name already among the children, else append the child last. */
  function AddChild<C>(t: Tree<C>, child: Tree<C>): (r: Result<Tree<C>>)
    ensures r.Err? <==> child.name in KidNames(t.kids)
    ensures r.Err? ==> r.error == DuplicateName
    ensures r.Ok? ==> r.value == Node(t.name, t.content, t.kids + [child])
  {
    if child.name in KidNames(t.kids) then Err(DuplicateName)
    else Ok(Node(t.name, t.content, t.kids + [child]))
  }

  /** No two children of any node share a name: what `add` keeps true. */
  predicate SiblingNamesDistinct<C>(t: Tree<C>)
    decreases t
  {
    && (forall i, j :: 0 <= i < j < |t.kids| ==> t.kids[i].name != t.kids[j].name)
    && forall i :: 0 <= i < |t.kids| ==> SiblingNamesDistinct(t.kids[i])
  }

  lemma {:induction false} KidNamesSpec<C>(ts: seq<Tree<C>>, x: string)
    ensures |KidNames(ts)| == |ts|
    ensures x in KidNames(ts) <==> exists i :: 0 <= i < |ts| && ts[i].name == x
    decreases |ts|
  {
    if ts != [] {
      KidNamesSpec(ts[1..], x);
      if x in KidNames(ts[1..]) {
        var i :| 0 <= i < |ts[1..]| && ts[1..][i].name == x;
        assert ts[i + 1].name == x;
      }
      if exists i :: 0 <= i < |ts| && ts[i].name == x {
        var i :| 0 <= i < |ts| && ts[i].name == x;
        if i > 0 { assert ts[1..][i - 1].name == x; }
      }
    }
  }

  /** Appending a child whose name is new never fails, and keeps sibling names distinct. */
  lemma AddChildFresh<C>(t: Tree<C>, child: Tree<C>)
    requires SiblingNamesDistinct(t) && SiblingNamesDistinct(child)
    requires forall i :: 0 <= i < |t.kids| ==> t.kids[i].name != child.name
    ensures AddChild(t, child).Ok?
    ensures SiblingNamesDistinct(AddChild(t, child).value)
  {
    KidNamesSpec(t.kids, child.name);
    var kids := t.kids + [child];
    assert forall i :: 0 <= i < |t.kids| ==> kids[i] == t.kids[i];
  }
}
