/**
 * The mutable node graph of `Tree::TreeNode`. Every node object is a record
 * in an arena keyed by object identity; a record holds the node's name, its
 * content, its parent link, its ordered child array and its name->child index.
 * Queries are functions of the arena's map; mutations are methods of `Arena`.
 */
module NodeCore {
  import opened Wrappers
  import opened TreeValue

  type Id = nat

  /** One entry of a child array; `None` is a nil slot (only binary setters write those). */
  type Slot = Option<Id>

  datatype NodeRec<C> = NodeRec(
    name: string,
    content: C,
    parent: Option<Id>,
    children: seq<Slot>,
    index: map<string, Id>)

  type Heap<C> = map<Id, NodeRec<C>>

  // ================================================================ sequence helpers

  /** `Array#delete`: every entry equal to `x` removed, the rest in order. */
  function Without(s: seq<Slot>, x: Slot): (r: seq<Slot>)
    ensures x !in r && |r| <= |s|
  {
    if s == [] then []
    else (if s[0] == x then [] else [s[0]]) + Without(s[1..], x)
  }

  /** `Array#delete` keeps exactly the entries different from `x`. */
  lemma {:induction false} WithoutMembers(s: seq<Slot>, x: Slot, y: Slot)
    requires y != x
    ensures y in Without(s, x) <==> y in s
  {
    if s != [] {
      WithoutMembers(s[1..], x, y);
      assert s == [s[0]] + s[1..];
    }
  }

  /** `Array#index`: the first position holding `x`. */
  function IndexOf(s: seq<Slot>, x: Slot): (r: Option<nat>)
    ensures r.None? <==> x !in s
    ensures r.Some? ==> r.value < |s| && s[r.value] == x && x !in s[..r.value]
  {
    if s == [] then None
    else if s[0] == x then Some(0)
    else match IndexOf(s[1..], x)
      case None => None
      case Some(i) =>
        assert s[..i + 1] == [s[0]] + s[1..][..i];
        Some(i + 1)
  }

  /** The first position holding a value is the one `Array#index` reports. */
  lemma {:induction false} IndexOfFirst(s: seq<Slot>, i: nat)
    requires i < |s| && s[i] !in s[..i]
    ensures IndexOf(s, s[i]) == Some(i)
  {
    if i > 0 {
      assert s[0] in s[..i];
      assert s[1..][i - 1] == s[i];
      assert s[1..][..i - 1] == s[1..i];
      assert forall y :: y in s[1..i] ==> y in s[..i];
      IndexOfFirst(s[1..], i - 1);
    }
  }

  /** A slot array in which no node occurs twice. */
  predicate NoRepeats(s: seq<Slot>)
  {
    forall i, j :: 0 <= i < j < |s| && s[i].Some? ==> s[i] != s[j]
  }

  lemma {:induction false} WithoutSingle(s: seq<Slot>, i: nat)
    requires i < |s| && s[i] !in s[..i] && s[i] !in s[i + 1..]
    ensures Without(s, s[i]) == s[..i] + s[i + 1..]
  {
    if i == 0 {
      assert s[1..] == s[i + 1..];
      WithoutAbsent(s[1..], s[0]);
    } else {
      var t := s[1..];
      assert s[0] in s[..i];
      assert t[i - 1] == s[i];
      assert t[..i - 1] == s[1..i];
      assert forall y :: y in s[1..i] ==> y in s[..i];
      assert t[i..] == s[i + 1..];
      WithoutSingle(t, i - 1);
      assert s[..i] == [s[0]] + t[..i - 1];
    }
  }

  lemma {:induction false} WithoutAbsent(s: seq<Slot>, x: Slot)
    requires x !in s
    ensures Without(s, x) == s
  {
    if s != [] {
      WithoutAbsent(s[1..], x);
    }
  }

  lemma {:induction false} WithoutAppend(a: seq<Slot>, b: seq<Slot>, x: Slot)
    ensures Without(a + b, x) == Without(a, x) + Without(b, x)
    decreases |a|
  {
    if a == [] {
      assert a + b == b;
    } else {
      assert (a + b)[0] == a[0];
      assert (a + b)[1..] == a[1..] + b;
      WithoutAppend(a[1..], b, x);
    }
  }

  // ================================================================ well-formedness

  ghost predicate RecClosed<C>(m: Heap<C>, r: NodeRec<C>)
  {
    && (r.parent.Some? ==> r.parent.value in m)
    && (forall i :: 0 <= i < |r.children| && r.children[i].Some? ==> r.children[i].value in m)
    && (forall k :: k in r.index ==> r.index[k] in m)
  }

  /** Every link of every node leads to a node of the arena. */
  ghost predicate Closed<C>(m: Heap<C>)
  {
    forall id :: id in m ==> RecClosed(m, m[id])
  }

  /**
   * The child array and the name index of `p` are in step: every index entry
   * names a listed child of that name, and every listed child is indexed.
   */
  ghost predicate InStep<C>(m: Heap<C>, p: Id)
    requires p in m
  {
    IndexListed(m, p) && ListedIndexed(m, p)
  }

  /** Every index entry names a listed child of that name. */
  ghost predicate IndexListed<C>(m: Heap<C>, p: Id)
    requires p in m
  {
    forall k :: k in m[p].index ==>
      m[p].index[k] in m && m[m[p].index[k]].name == k && Some(m[p].index[k]) in m[p].children
  }

  /** Every listed child is indexed under its name. */
  ghost predicate ListedIndexed<C>(m: Heap<C>, p: Id)
    requires p in m
  {
    forall i :: 0 <= i < |m[p].children| && m[p].children[i].Some? ==>
      m[p].children[i].value in m
      && m[m[p].children[i].value].name in m[p].index
      && m[p].index[m[m[p].children[i].value].name] == m[p].children[i].value
  }

  /** Every node that names a parent is listed by that parent. */
  ghost predicate ParentsList<C>(m: Heap<C>)
    requires Closed(m)
  {
    forall x :: x in m && m[x].parent.Some? ==> Some(x) in m[m[x].parent.value].children
  }

  // ================================================================ parent chains

  /**
   * The ancestors of `n`, from its parent up to the root, if that root is
   * reached within `fuel` steps (it is not on a parent cycle).
   */
  function ChainFrom<C>(m: Heap<C>, n: Id, fuel: nat): Option<seq<Id>>
    decreases fuel
  {
    if n !in m then None
    else match m[n].parent
      case None => Some([])
      case Some(q) =>
        if fuel == 0 then None
        else match ChainFrom(m, q, fuel - 1)
          case None => None
          case Some(s) => Some([q] + s)
  }

  /** Following parent links from `n` reaches a root: no parent cycle above `n`. */
  ghost predicate Acyclic<C>(m: Heap<C>, n: Id)
  {
    ChainFrom(m, n, |m|).Some?
  }

  /**
   * A chain lists each parent in turn and ends at a parentless node; it is
   * empty exactly for a root.
   */
  lemma {:induction false} ChainShape<C>(m: Heap<C>, n: Id, fuel: nat)
    requires ChainFrom(m, n, fuel).Some?
    ensures var s := ChainFrom(m, n, fuel).value;
      && n in m
      && (s == [] <==> m[n].parent.None?)
      && (s != [] ==> s[0] == m[n].parent.value)
      && (forall i :: 0 <= i < |s| ==> s[i] in m)
      && (forall i :: 0 <= i < |s| - 1 ==> m[s[i]].parent == Some(s[i + 1]))
      && (s != [] ==> m[s[|s| - 1]].parent.None?)
    decreases fuel
  {
    if m[n].parent.Some? {
      var q := m[n].parent.value;
      ChainShape(m, q, fuel - 1);
      var s := ChainFrom(m, n, fuel).value;
      var t := ChainFrom(m, q, fuel - 1).value;
      assert s == [q] + t;
      forall i | 0 <= i < |s| - 1 ensures m[s[i]].parent == Some(s[i + 1]) {
        if i > 0 { assert s[i] == t[i - 1] && s[i + 1] == t[i]; }
        else if t != [] { assert s[1] == t[0]; }
      }
    }
  }

  /** More fuel does not change a chain that was already found. */
  lemma {:induction false} ChainFuel<C>(m: Heap<C>, n: Id, fuel: nat, more: nat)
    requires ChainFrom(m, n, fuel).Some? && fuel <= more
    ensures ChainFrom(m, n, more) == ChainFrom(m, n, fuel)
    decreases fuel
  {
    if m[n].parent.Some? {
      ChainFuel(m, m[n].parent.value, fuel - 1, more - 1);
    }
  }

  /** `root` as a value: the receiver for a root, else the last ancestor. */
  function RootOf<C>(m: Heap<C>, n: Id): (r: Id)
    requires Acyclic(m, n)
    ensures n in m && r in m && m[r].parent.None?
    ensures m[n].parent.None? ==> r == n
  {
    ChainShape(m, n, |m|);
    var s := ChainFrom(m, n, |m|).value;
    if s == [] then n else s[|s| - 1]
  }

  /** A root is its own root; otherwise a node shares its root with its parent. */
  lemma RootOfParent<C>(m: Heap<C>, n: Id)
    requires Acyclic(m, n)
    ensures n in m && RootOf(m, n) in m && m[RootOf(m, n)].parent.None?
    ensures m[n].parent.None? ==> RootOf(m, n) == n
    ensures m[n].parent.Some? ==>
      Acyclic(m, m[n].parent.value) && RootOf(m, m[n].parent.value) == RootOf(m, n)
  {
    ChainShape(m, n, |m|);
    if m[n].parent.Some? {
      var q := m[n].parent.value;
      ChainFuel(m, q, |m| - 1, |m|);
    }
  }

  /** `nodeDepth`: 0 for a root, else one more than the parent's depth. */
  function NodeDepth<C>(m: Heap<C>, n: Id, fuel: nat): (d: nat)
    requires ChainFrom(m, n, fuel).Some?
    ensures d == |ChainFrom(m, n, fuel).value|
    ensures d == 0 <==> m[n].parent.None?
    decreases fuel
  {
    if m[n].parent.None? then 0 else 1 + NodeDepth(m, m[n].parent.value, fuel - 1)
  }

  // ================================================================ navigation

  /** `breadth`: 1 for a root, else the size of the parent's child array. */
  function Breadth<C>(m: Heap<C>, n: Id): (b: nat)
    requires n in m && Closed(m)
    ensures m[n].parent.None? ==> b == 1
    ensures m[n].parent.Some? && Some(n) in m[m[n].parent.value].children ==> b >= 1
  {
    if m[n].parent.None? then 1 else |m[m[n].parent.value].children|
  }

  /** `siblings`: nil for a root, else the parent's child array without the receiver. */
  function Siblings<C>(m: Heap<C>, n: Id): (r: Option<seq<Slot>>)
    requires n in m && Closed(m)
    ensures r.None? <==> m[n].parent.None?
    ensures r.Some? ==> Some(n) !in r.value && |r.value| <= |m[m[n].parent.value].children|
  {
    if m[n].parent.None? then None
    else Some(Without(m[m[n].parent.value].children, Some(n)))
  }

  /** `firstSibling`: the receiver for a root, else the parent's first entry (nil if none). */
  function FirstSibling<C>(m: Heap<C>, n: Id): (r: Slot)
    requires n in m && Closed(m)
    ensures m[n].parent.None? ==> r == Some(n)
    ensures m[n].parent.Some? ==> r == FirstChild(m, m[n].parent.value)
  {
    if m[n].parent.None? then Some(n)
    else
      var kids := m[m[n].parent.value].children;
      if kids == [] then None else kids[0]
  }

  /** `lastSibling`: the receiver for a root, else the parent's last entry (nil if none). */
  function LastSibling<C>(m: Heap<C>, n: Id): (r: Slot)
    requires n in m && Closed(m)
    ensures m[n].parent.None? ==> r == Some(n)
    ensures m[n].parent.Some? ==> r == LastChild(m, m[n].parent.value)
  {
    if m[n].parent.None? then Some(n)
    else
      var kids := m[m[n].parent.value].children;
      if kids == [] then None else kids[|kids| - 1]
  }

  /** `isFirstSibling?`: a root, or the first entry of its parent's array. */
  predicate IsFirstSibling<C>(m: Heap<C>, n: Id): (b: bool)
    requires n in m && Closed(m)
    ensures b <==> (m[n].parent.None? ||
      (m[m[n].parent.value].children != [] && m[m[n].parent.value].children[0] == Some(n)))
  {
    FirstSibling(m, n) == Some(n)
  }

  /** `isLastSibling?`: a root, or the last entry of its parent's array. */
  predicate IsLastSibling<C>(m: Heap<C>, n: Id): (b: bool)
    requires n in m && Closed(m)
    ensures b <==> (m[n].parent.None? || (m[m[n].parent.value].children != [] &&
      m[m[n].parent.value].children[|m[m[n].parent.value].children| - 1] == Some(n)))
  {
    LastSibling(m, n) == Some(n)
  }

  /** `isOnlyChild?` (a root has no parent to ask and fails). */
  predicate IsOnlyChild<C>(m: Heap<C>, n: Id): (b: bool)
    requires n in m && Closed(m) && m[n].parent.Some?
    ensures b <==> Breadth(m, n) == 1
  {
    |m[m[n].parent.value].children| == 1
  }

  /** `nextSibling`: the entry after the receiver's first position in the parent's array. */
  function NextSibling<C>(m: Heap<C>, n: Id): (r: Slot)
    requires n in m && Closed(m) && m[n].parent.Some?
    ensures Some(n) !in m[m[n].parent.value].children ==> r.None?
    ensures r.Some? ==> r in m[m[n].parent.value].children
  {
    var kids := m[m[n].parent.value].children;
    match IndexOf(kids, Some(n))
    case None => None
    case Some(i) => if i + 1 < |kids| then kids[i + 1] else None
  }

  /** `previousSibling`: the entry before the receiver's first position, nil at the left end. */
  function PreviousSibling<C>(m: Heap<C>, n: Id): (r: Slot)
    requires n in m && Closed(m) && m[n].parent.Some?
    ensures Some(n) !in m[m[n].parent.value].children ==> r.None?
    ensures r.Some? ==> r in m[m[n].parent.value].children
  {
    var kids := m[m[n].parent.value].children;
    match IndexOf(kids, Some(n))
    case None => None
    case Some(i) => if i > 0 then kids[i - 1] else None
  }

  /** A root reports itself as its own first and last sibling and has no sibling list. */
  lemma RootSiblings<C>(m: Heap<C>, n: Id)
    requires n in m && Closed(m) && m[n].parent.None?
    ensures IsFirstSibling(m, n) && IsLastSibling(m, n)
    ensures Siblings(m, n).None? && Breadth(m, n) == 1
  {
  }

  /**
   * A child listed once at position i: its siblings are the entries around
   * it, in order, and the breadth counts them plus the child itself.
   */
  lemma SiblingsAround<C>(m: Heap<C>, n: Id, i: nat)
    requires n in m && Closed(m) && m[n].parent.Some?
    requires var kids := m[m[n].parent.value].children;
      i < |kids| && kids[i] == Some(n) && Some(n) !in kids[..i] && Some(n) !in kids[i + 1..]
    ensures var kids := m[m[n].parent.value].children;
      Siblings(m, n) == Some(kids[..i] + kids[i + 1..])
      && Breadth(m, n) == |Siblings(m, n).value| + 1
    ensures IsFirstSibling(m, n) <==> i == 0
    ensures IsLastSibling(m, n) <==> i == |m[m[n].parent.value].children| - 1
  {
    var kids := m[m[n].parent.value].children;
    WithoutSingle(kids, i);
    if 0 < i { assert kids[0] in kids[..i]; }
    if i < |kids| - 1 { assert kids[|kids| - 1] in kids[i + 1..]; }
  }

  /** An only child is both its first and its last sibling, and has no siblings. */
  lemma OnlyChildIsFirstAndLast<C>(m: Heap<C>, n: Id)
    requires n in m && Closed(m) && m[n].parent.Some?
    requires Some(n) in m[m[n].parent.value].children
    requires IsOnlyChild(m, n)
    ensures IsFirstSibling(m, n) && IsLastSibling(m, n)
    ensures Siblings(m, n) == Some([])
  {
    var kids := m[m[n].parent.value].children;
    assert kids == [Some(n)];
    SiblingsAround(m, n, 0);
  }

  /**
   * In a child array without repeats, `nextSibling` and `previousSibling`
   * step to the neighbouring entries and undo each other.
   */
  lemma NextPreviousInverse<C>(m: Heap<C>, n: Id, s: Id, i: nat)
    requires n in m && s in m && Closed(m)
    requires m[n].parent.Some? && m[s].parent == m[n].parent
    requires var kids := m[m[n].parent.value].children;
      NoRepeats(kids) && i + 1 < |kids| && kids[i] == Some(n) && kids[i + 1] == Some(s)
    ensures NextSibling(m, n) == Some(s)
    ensures PreviousSibling(m, s) == Some(n)
  {
    var kids := m[m[n].parent.value].children;
    assert forall j :: 0 <= j < i ==> kids[..i][j] != kids[i];
    IndexOfFirst(kids, i);
    var pre := kids[..i + 1];
    assert forall j :: 0 <= j < |pre| ==> pre[j] != kids[i + 1];
    IndexOfFirst(kids, i + 1);
  }

  /** The last child has no next sibling, provided it is not listed earlier too. */
  lemma NextAtEnd<C>(m: Heap<C>, n: Id)
    requires n in m && Closed(m) && m[n].parent.Some?
    requires var kids := m[m[n].parent.value].children;
      kids != [] && kids[|kids| - 1] == Some(n) && Some(n) !in kids[..|kids| - 1]
    ensures NextSibling(m, n).None?
  {
    var kids := m[m[n].parent.value].children;
    IndexOfFirst(kids, |kids| - 1);
  }

  /** The first child has no previous sibling. */
  lemma PreviousAtStart<C>(m: Heap<C>, n: Id)
    requires n in m && Closed(m) && m[n].parent.Some?
    requires var kids := m[m[n].parent.value].children;
      kids != [] && kids[0] == Some(n)
    ensures PreviousSibling(m, n).None?
  {
  }

  /** The key given to `[]`: nil, an Integer position, or any other value taken as a name. */
  datatype Key = NilKey | At(position: int) | Named(name: string)

  /**
   * `[]`: nil raises; an Integer indexes the child array (negative counts from
   * the end, out of range gives nil); anything else is looked up in the index.
   */
  function Get<C>(m: Heap<C>, n: Id, key: Key): (r: Result<Slot>)
    requires n in m
    ensures r.Err? <==> key.NilKey?
    ensures r.Err? ==> r.error == Error.NilKey
    ensures key.At? && r.Ok? && r.value.Some? ==> r.value in m[n].children
    ensures key.Named? ==> (r == Ok(None) <==> key.name !in m[n].index)
    ensures key.Named? && key.name in m[n].index ==> r == Ok(Some(m[n].index[key.name]))
  {
    var kids := m[n].children;
    match key
    case NilKey => Err(Error.NilKey)
    case At(i) =>
      var j := if i < 0 then i + |kids| else i;
      Ok(if 0 <= j < |kids| then kids[j] else None)
    case Named(k) => Ok(if k in m[n].index then Some(m[n].index[k]) else None)
  }

  /**
   * Position i and position i - size reach the same child; other integers
   * reach nothing; and with array and index in step, a child is reached by
   * its name as well as by its position.
   */
  lemma GetPositions<C>(m: Heap<C>, n: Id, i: int)
    requires n in m && Closed(m) && InStep(m, n)
    ensures var kids := m[n].children;
      && (0 <= i < |kids| ==> Get(m, n, At(i)) == Get(m, n, At(i - |kids|)) == Ok(kids[i]))
      && (i >= |kids| || i < -|kids| ==> Get(m, n, At(i)) == Ok(None))
      && (0 <= i < |kids| && kids[i].Some? ==>
            Get(m, n, Named(m[kids[i].value].name)) == Ok(kids[i]))
  {
  }

  /** `firstChild`: the first entry of the child array, nil when it is empty. */
  function FirstChild<C>(m: Heap<C>, n: Id): (r: Slot)
    requires n in m
    ensures m[n].children == [] ==> r.None?
    ensures m[n].children != [] ==> r in m[n].children && m[n].children[..1] == [r]
  {
    if m[n].children == [] then None else m[n].children[0]
  }

  /** `lastChild`: the last entry of the child array, nil when it is empty. */
  function LastChild<C>(m: Heap<C>, n: Id): (r: Slot)
    requires n in m
    ensures m[n].children == [] ==> r.None?
    ensures m[n].children != [] ==> r in m[n].children && m[n].children == m[n].children[..|m[n].children| - 1] + [r]
  {
    var kids := m[n].children;
    if kids == [] then None else kids[|kids| - 1]
  }

  /**
   * The first and last child are what `[]` returns at positions 0 and -1, and
   * a listed child's first and last sibling are its parent's first and last child.
   */
  lemma EndChildrenByPosition<C>(m: Heap<C>, n: Id)
    requires n in m && Closed(m)
    ensures Get(m, n, At(0)) == Ok(FirstChild(m, n))
    ensures Get(m, n, At(-1)) == Ok(LastChild(m, n))
    ensures m[n].parent.Some? ==>
      FirstSibling(m, n) == FirstChild(m, m[n].parent.value)
      && LastSibling(m, n) == LastChild(m, m[n].parent.value)
  {
  }

  // ================================================================ abstraction

  /**
   * The tree value rooted at `id`, when every slot below it is filled and the
   * structure below is finite within `fuel` levels.
   */
  function Abs<C>(m: Heap<C>, id: Id, fuel: nat): (r: Option<Tree<C>>)
    ensures r.Some? ==> id in m && fuel > 0
    ensures r.Some? ==> r.value.name == m[id].name && r.value.content == m[id].content
    ensures r.Some? ==> |r.value.kids| == |m[id].children|
    decreases fuel, 0
  {
    if id !in m || fuel == 0 then None
    else match AbsSlots(m, m[id].children, fuel - 1)
      case None => None
      case Some(ks) => Some(Node(m[id].name, m[id].content, ks))
  }

  function AbsSlots<C>(m: Heap<C>, slots: seq<Slot>, fuel: nat): (r: Option<seq<Tree<C>>>)
    ensures r.Some? ==> |r.value| == |slots|
    decreases fuel, |slots| + 1
  {
    if slots == [] then Some([])
    else if slots[0].None? then None
    else match Abs(m, slots[0].value, fuel)
      case None => None
      case Some(t) => match AbsSlots(m, slots[1..], fuel)
        case None => None
        case Some(ts) => Some([t] + ts)
  }

  /** A freshly constructed node is a root leaf: size 1, height 0, depth 0, breadth 1. */
  lemma FreshNode<C>(m: Heap<C>, id: Id, name: string, content: C)
    requires Closed(m) && id in m && m[id] == NodeRec(name, content, None, [], map[])
    ensures Abs(m, id, 1) == Some(Node(name, content, []))
    ensures Size(Abs(m, id, 1).value) == 1 && Height(Abs(m, id, 1).value) == 0
    ensures ChainFrom(m, id, 0) == Some([]) && NodeDepth(m, id, 0) == 0
    ensures Breadth(m, id) == 1 && InStep(m, id)
  {
  }

  // ================================================================ mutation, as functions of the heap

  /** The heap after `p.add(c)` succeeds. */
  function AddSpec<C>(m: Heap<C>, p: Id, c: Id): Heap<C>
    requires p in m && c in m
  {
    var rp := m[p];
    var m1 := m[p := rp.(children := rp.children + [Some(c)], index := rp.index[m[c].name := c])];
    m1[c := m1[c].(parent := Some(p))]
  }

  /** The heap after `p.remove!(c)`. */
  function RemoveSpec<C>(m: Heap<C>, p: Id, c: Id): Heap<C>
    requires p in m && c in m
  {
    var rp := m[p];
    var m1 := m[p := rp.(children := Without(rp.children, Some(c)), index := rp.index - {m[c].name})];
    m1[c := m1[c].(parent := None)]
  }

  /** The heap after the children listed in `s` have been made roots, one by one. */
  function Detached<C>(m: Heap<C>, s: seq<Slot>): Heap<C>
  {
    map x | x in m :: if Some(x) in s then m[x].(parent := None) else m[x]
  }

  /** The heap after `p.removeAll!`. */
  function RemoveAllSpec<C>(m: Heap<C>, p: Id): Heap<C>
    requires p in m
  {
    var m1 := Detached(m, m[p].children);
    m1[p := m1[p].(children := [], index := map[])]
  }

  lemma AddKeepsClosed<C>(m: Heap<C>, p: Id, c: Id)
    requires Closed(m) && p in m && c in m
    ensures Closed(AddSpec(m, p, c))
  {
    var m' := AddSpec(m, p, c);
    assert m'.Keys == m.Keys;
    forall x | x in m' ensures RecClosed(m', m'[x]) {
      assert RecClosed(m, m[x]);
      if x == p {
        forall i | 0 <= i < |m'[p].children| && m'[p].children[i].Some?
          ensures m'[p].children[i].value in m'
        {
          if i < |m[p].children| { assert m'[p].children[i] == m[p].children[i]; }
        }
      }
    }
  }

  /** A successful `add` keeps every node's child array and name index in step. */
  lemma AddKeepsInStep<C>(m: Heap<C>, p: Id, c: Id, q: Id)
    requires Closed(m) && p in m && c in m && q in m && m[c].name !in m[p].index
    requires InStep(m, q)
    ensures Closed(AddSpec(m, p, c)) && InStep(AddSpec(m, p, c), q)
  {
    AddKeepsClosed(m, p, c);
    var m' := AddSpec(m, p, c);
    if q == p {
      AddKeepsIndexListed(m, p, c);
      AddKeepsListedIndexed(m, p, c);
    } else {
      SpecShape(m, m', p, c);
      InStepFrame(m, m', q);
    }
  }

  /**
   * `add` and `remove!` rewrite the receiver's array and index and the
   * child's parent link; they drop no node and rename none.
   */
  lemma SpecShape<C>(m: Heap<C>, m': Heap<C>, p: Id, c: Id)
    requires p in m && c in m && (m' == AddSpec(m, p, c) || m' == RemoveSpec(m, p, c))
    ensures forall x :: x in m ==> x in m' && m'[x].name == m[x].name
    ensures forall x :: x in m && x != p ==> m'[x].children == m[x].children && m'[x].index == m[x].index
  {
  }

  /** A node whose array and index are untouched stays in step while no node is renamed or dropped. */
  lemma InStepFrame<C>(m: Heap<C>, m': Heap<C>, q: Id)
    requires q in m && q in m' && InStep(m, q)
    requires m'[q].children == m[q].children && m'[q].index == m[q].index
    requires forall x :: x in m ==> x in m' && m'[x].name == m[x].name
    ensures InStep(m', q)
  {
  }

  lemma AddKeepsIndexListed<C>(m: Heap<C>, p: Id, c: Id)
    requires Closed(m) && p in m && c in m && m[c].name !in m[p].index
    requires IndexListed(m, p) && Closed(AddSpec(m, p, c))
    ensures IndexListed(AddSpec(m, p, c), p)
  {
    var m' := AddSpec(m, p, c);
    forall k | k in m'[p].index
      ensures m'[p].index[k] in m' && m'[m'[p].index[k]].name == k && Some(m'[p].index[k]) in m'[p].children
    {
      if k != m[c].name {
        assert Some(m[p].index[k]) in m[p].children;
        assert m'[m[p].index[k]].name == m[m[p].index[k]].name;
      }
    }
  }

  lemma AddKeepsListedIndexed<C>(m: Heap<C>, p: Id, c: Id)
    requires Closed(m) && p in m && c in m && m[c].name !in m[p].index
    requires ListedIndexed(m, p) && Closed(AddSpec(m, p, c))
    ensures ListedIndexed(AddSpec(m, p, c), p)
  {
    var m' := AddSpec(m, p, c);
    forall i | 0 <= i < |m'[p].children| && m'[p].children[i].Some?
      ensures m'[p].children[i].value in m' && m'[m'[p].children[i].value].name in m'[p].index
      ensures m'[p].index[m'[m'[p].children[i].value].name] == m'[p].children[i].value
    {
      if i < |m[p].children| {
        var y := m[p].children[i].value;
        assert m'[p].children[i] == m[p].children[i];
        assert y in m && m'[y].name == m[y].name;
      }
    }
  }

  /** `add` keeps every parent link listed by the parent it names. */
  lemma AddKeepsParentsList<C>(m: Heap<C>, p: Id, c: Id)
    requires Closed(m) && p in m && c in m && ParentsList(m)
    ensures Closed(AddSpec(m, p, c)) && ParentsList(AddSpec(m, p, c))
  {
    AddKeepsClosed(m, p, c);
    var m' := AddSpec(m, p, c);
    forall x | x in m' && m'[x].parent.Some?
      ensures Some(x) in m'[m'[x].parent.value].children
    {
      if x != c {
        var q := m[x].parent.value;
        assert Some(x) in m[q].children;
        if q == p { assert m'[p].children == m[p].children + [Some(c)]; }
      } else {
        assert m'[p].children == m[p].children + [Some(c)];
      }
    }
  }

  /**
   * `add` does not detach the child from a previous parent: that parent still
   * lists it although the child's parent is now the receiver.
   */
  lemma AddKeepsOldListing<C>(m: Heap<C>, p: Id, c: Id, q: Id)
    requires p in m && c in m && q in m && q != p && q != c
    requires Some(c) in m[q].children
    ensures Some(c) in AddSpec(m, p, c)[q].children
    ensures AddSpec(m, p, c)[c].parent == Some(p)
  {
  }

  lemma RemoveKeepsClosed<C>(m: Heap<C>, p: Id, c: Id)
    requires Closed(m) && p in m && c in m
    ensures Closed(RemoveSpec(m, p, c))
  {
    var m' := RemoveSpec(m, p, c);
    assert m'.Keys == m.Keys;
    forall x | x in m' ensures RecClosed(m', m'[x]) {
      assert RecClosed(m, m[x]);
      if x == p {
        forall i | 0 <= i < |m'[p].children| && m'[p].children[i].Some?
          ensures m'[p].children[i].value in m'
        {
          var y := m'[p].children[i];
          assert y in Without(m[p].children, Some(c));
          WithoutMembers(m[p].children, Some(c), y);
        }
      }
    }
  }

  /**
   * `remove!` of a child that the index maps by its own name keeps the
   * receiver's array and index in step; every other node keeps them too.
   */
  lemma RemoveKeepsInStep<C>(m: Heap<C>, p: Id, c: Id, q: Id)
    requires Closed(m) && p in m && c in m && q in m
    requires m[c].name in m[p].index ==> m[p].index[m[c].name] == c
    requires InStep(m, q)
    ensures Closed(RemoveSpec(m, p, c)) && InStep(RemoveSpec(m, p, c), q)
  {
    RemoveKeepsClosed(m, p, c);
    var m' := RemoveSpec(m, p, c);
    if q == p {
      RemoveKeepsIndexListed(m, p, c);
      RemoveKeepsListedIndexed(m, p, c);
    } else {
      SpecShape(m, m', p, c);
      InStepFrame(m, m', q);
    }
  }

  lemma RemoveKeepsIndexListed<C>(m: Heap<C>, p: Id, c: Id)
    requires Closed(m) && p in m && c in m
    requires m[c].name in m[p].index ==> m[p].index[m[c].name] == c
    requires IndexListed(m, p) && Closed(RemoveSpec(m, p, c))
    ensures IndexListed(RemoveSpec(m, p, c), p)
  {
    var m' := RemoveSpec(m, p, c);
    forall k | k in m'[p].index
      ensures m'[p].index[k] in m' && m'[m'[p].index[k]].name == k && Some(m'[p].index[k]) in m'[p].children
    {
      var y := m[p].index[k];
      assert Some(y) != Some(c);
      WithoutMembers(m[p].children, Some(c), Some(y));
      assert m'[y].name == m[y].name;
    }
  }

  lemma RemoveKeepsListedIndexed<C>(m: Heap<C>, p: Id, c: Id)
    requires Closed(m) && p in m && c in m
    requires m[c].name in m[p].index ==> m[p].index[m[c].name] == c
    requires ListedIndexed(m, p) && Closed(RemoveSpec(m, p, c))
    ensures ListedIndexed(RemoveSpec(m, p, c), p)
  {
    var m' := RemoveSpec(m, p, c);
    forall i | 0 <= i < |m'[p].children| && m'[p].children[i].Some?
      ensures m'[p].children[i].value in m' && m'[m'[p].children[i].value].name in m'[p].index
      ensures m'[p].index[m'[m'[p].children[i].value].name] == m'[p].children[i].value
    {
      var y := m'[p].children[i];
      assert y in Without(m[p].children, Some(c));
      WithoutMembers(m[p].children, Some(c), y);
      var j :| 0 <= j < |m[p].children| && m[p].children[j] == y;
      assert m'[y.value].name == m[y.value].name;
    }
  }

  /** `remove!` keeps every remaining parent link listed by its parent. */
  lemma RemoveKeepsParentsList<C>(m: Heap<C>, p: Id, c: Id)
    requires Closed(m) && p in m && c in m && ParentsList(m)
    ensures Closed(RemoveSpec(m, p, c)) && ParentsList(RemoveSpec(m, p, c))
  {
    RemoveKeepsClosed(m, p, c);
    var m' := RemoveSpec(m, p, c);
    forall x | x in m' && m'[x].parent.Some?
      ensures Some(x) in m'[m'[x].parent.value].children
    {
      var q := m[x].parent.value;
      assert x != c && Some(x) in m[q].children;
      if q == p { WithoutMembers(m[p].children, Some(c), Some(x)); }
    }
  }

  /**
   * `remove!` deletes the index entry by name alone: removing a node that is
   * not a child but shares a child's name drops that child's entry while the
   * child stays in the array.
   */
  lemma RemoveStrangerUnindexes<C>(m: Heap<C>, p: Id, c: Id, k: Id)
    requires p in m && c in m && k in m && k != c && k != p && c != p
    requires Some(k) in m[p].children && Some(c) !in m[p].children
    requires m[k].name == m[c].name
    ensures Some(k) in RemoveSpec(m, p, c)[p].children
    ensures m[k].name !in RemoveSpec(m, p, c)[p].index
  {
    WithoutAbsent(m[p].children, Some(c));
  }

  /**
   * `add` followed by `remove!` of the same child restores the receiver's
   * array and index, and leaves the child a root.
   */
  lemma AddThenRemove<C>(m: Heap<C>, p: Id, c: Id)
    requires p in m && c in m && p != c
    requires m[c].name !in m[p].index && Some(c) !in m[p].children
    ensures var m' := RemoveSpec(AddSpec(m, p, c), p, c);
      && m'[p] == m[p]
      && m'[c] == m[c].(parent := None)
      && forall x :: x in m && x != c ==> m'[x] == m[x]
  {
    var kids := m[p].children;
    WithoutAppend(kids, [Some(c)], Some(c));
    WithoutAbsent(kids, Some(c));
    assert Without([Some(c)], Some(c)) == [];
    assert kids + [] == kids;
    assert m[p].index[m[c].name := c] - {m[c].name} == m[p].index;
  }

  lemma DetachedClosed<C>(m: Heap<C>, s: seq<Slot>)
    requires Closed(m)
    ensures Closed(Detached(m, s)) && Detached(m, s).Keys == m.Keys
  {
    var m' := Detached(m, s);
    assert m'.Keys == m.Keys;
    forall x | x in m' ensures RecClosed(m', m'[x]) {
      assert RecClosed(m, m[x]);
    }
  }

  /** Making one more listed child a root extends the detachment by one slot. */
  lemma DetachedStep<C>(m: Heap<C>, s: seq<Slot>, i: nat)
    requires i < |s| && s[i].Some? && s[i].value in m
    ensures Detached(m, s[..i]).Keys == m.Keys
    ensures var x := s[i].value;
      Detached(m, s[..i + 1]) == Detached(m, s[..i])[x := Detached(m, s[..i])[x].(parent := None)]
  {
    var x := s[i].value;
    assert s[..i + 1] == s[..i] + [Some(x)];
    assert forall y :: y in m ==> (Some(y) in s[..i + 1] <==> Some(y) in s[..i] || y == x);
  }

  lemma RemoveAllKeepsClosed<C>(m: Heap<C>, p: Id)
    requires Closed(m) && p in m
    ensures Closed(RemoveAllSpec(m, p)) && RemoveAllSpec(m, p).Keys == m.Keys
  {
    DetachedClosed(m, m[p].children);
    var m1 := Detached(m, m[p].children);
    var m' := RemoveAllSpec(m, p);
    assert m'.Keys == m.Keys;
    forall x | x in m' ensures RecClosed(m', m'[x]) {
      assert RecClosed(m1, m1[x]);
    }
  }

  /**
   * `removeAll!` leaves the receiver childless with an empty index, every
   * former child a root and every other node untouched.
   */
  lemma RemoveAllEffect<C>(m: Heap<C>, p: Id)
    requires p in m
    ensures var m' := RemoveAllSpec(m, p);
      && m'.Keys == m.Keys
      && m'[p].children == [] && m'[p].index == map[]
      && (forall x :: x in m && Some(x) in m[p].children ==> m'[x].parent == None)
      && (forall x :: x in m && x != p && Some(x) !in m[p].children ==> m'[x] == m[x])
  {
  }

  /** `removeAll!` keeps every remaining parent link listed by its parent. */
  lemma RemoveAllKeepsParentsList<C>(m: Heap<C>, p: Id)
    requires Closed(m) && p in m && ParentsList(m)
    ensures Closed(RemoveAllSpec(m, p)) && ParentsList(RemoveAllSpec(m, p))
  {
    RemoveAllKeepsClosed(m, p);
    var m' := RemoveAllSpec(m, p);
    forall x | x in m' && m'[x].parent.Some?
      ensures Some(x) in m'[m'[x].parent.value].children
    {
      assert Some(x) !in m[p].children && m[x].parent == m'[x].parent;
      ParentsListAt(m, x);
      var q := m[x].parent.value;
      assert q != p;
      assert m'[q].children == m[q].children;
    }
  }

  lemma ParentsListAt<C>(m: Heap<C>, x: Id)
    requires Closed(m) && ParentsList(m) && x in m && m[x].parent.Some?
    ensures m[x].parent.value in m && Some(x) in m[m[x].parent.value].children
  {
  }

  // ================================================================ the arena

  class Arena<C> {
    /** Every node object, by identity. */
    var nodes: Heap<C>
    /** The identity the next constructed node receives. */
    var next: Id

    ghost predicate Valid()
      reads this
    {
      (forall id :: id in nodes ==> id < next) && Closed(nodes)
    }

    constructor ()
      ensures Valid() && nodes == map[]
    {
      nodes := map[];
      next := 0;
    }

    /** `TreeNode.new(name, content)`: raises on a nil name, else a fresh root without children. */
    method NewNode(name: Option<string>, content: C) returns (r: Result<Id>)
      requires Valid()
      modifies this
      ensures Valid()
      ensures name.None? ==> r == Err(InvalidName) && nodes == old(nodes)
      ensures name.Some? ==>
        && r.Ok? && r.value !in old(nodes)
        && nodes == old(nodes)[r.value := NodeRec(name.value, content, None, [], map[])]
    {
      if name.None? {
        return Err(InvalidName);
      }
      var id := next;
      nodes := nodes[id := NodeRec(name.value, content, None, [], map[])];
      next := next + 1;
      r := Ok(id);
    }

    /** `detached_copy`: a new root with the receiver's name and content and no links. */
    method DetachedCopy(n: Id) returns (r: Id)
      requires Valid() && n in nodes
      modifies this
      ensures Valid() && r !in old(nodes)
      ensures nodes == old(nodes)[r := NodeRec(old(nodes)[n].name, old(nodes)[n].content, None, [], map[])]
    {
      var res := NewNode(Some(nodes[n].name), nodes[n].content);
      r := res.value;
    }

    /**
     * `add` / `<<`: raises if the child's name is already indexed; otherwise
     * appends the child last, indexes it, makes the receiver its parent and
     * returns it. Nothing else changes.
     */
    method Add(p: Id, c: Id) returns (r: Result<Id>)
      requires Valid() && p in nodes && c in nodes
      modifies this
      ensures Valid() && next == old(next)
      ensures old(nodes)[c].name in old(nodes)[p].index ==>
        r == Err(DuplicateName) && nodes == old(nodes)
      ensures old(nodes)[c].name !in old(nodes)[p].index ==>
        && r == Ok(c)
        && nodes == AddSpec(old(nodes), p, c)
        && nodes[p].children == old(nodes)[p].children + [Some(c)]
        && nodes[p].index == old(nodes)[p].index[old(nodes)[c].name := c]
        && nodes[c].parent == Some(p)
        && nodes.Keys == old(nodes).Keys
        && (forall x :: x in old(nodes) && x != p && x != c ==> nodes[x] == old(nodes)[x])
    {
      var rp := nodes[p];
      var name := nodes[c].name;
      if name in rp.index {
        return Err(DuplicateName);
      }
      AddKeepsClosed(nodes, p, c);
      nodes := nodes[p := rp.(children := rp.children + [Some(c)], index := rp.index[name := c])];
      nodes := nodes[c := nodes[c].(parent := Some(p))];
      r := Ok(c);
    }

    /**
     * `remove!`: drops the index entry under the child's name and every array
     * entry holding the child, makes the child a root and returns it.
     */
    method Remove(p: Id, c: Id) returns (r: Id)
      requires Valid() && p in nodes && c in nodes
      modifies this
      ensures Valid() && next == old(next) && r == c
      ensures nodes == RemoveSpec(old(nodes), p, c)
      ensures nodes[p].children == Without(old(nodes)[p].children, Some(c))
      ensures nodes[p].index == old(nodes)[p].index - {old(nodes)[c].name}
      ensures nodes[c].parent == None
      ensures nodes.Keys == old(nodes).Keys
      ensures forall x :: x in old(nodes) && x != p && x != c ==> nodes[x] == old(nodes)[x]
    {
      var rp := nodes[p];
      var name := nodes[c].name;
      RemoveKeepsClosed(nodes, p, c);
      nodes := nodes[p := rp.(children := Without(rp.children, Some(c)), index := rp.index - {name})];
      nodes := nodes[c := nodes[c].(parent := None)];
      r := c;
    }

    /** `removeFromParent!`: nothing on a root, else the parent's `remove!` of the receiver. */
    method RemoveFromParent(n: Id) returns (r: Option<Id>)
      requires Valid() && n in nodes
      modifies this
      ensures Valid() && next == old(next)
      ensures old(nodes)[n].parent.None? ==> r == None && nodes == old(nodes)
      ensures old(nodes)[n].parent.Some? ==>
        r == Some(n) && nodes == RemoveSpec(old(nodes), old(nodes)[n].parent.value, n)
    {
      if nodes[n].parent.None? {
        return None;
      }
      var c := Remove(nodes[n].parent.value, n);
      r := Some(c);
    }

    /**
     * `removeAll!`: makes every child a root, then empties the array and the
     * index; returns the receiver. A nil slot would be dereferenced and fail.
     */
    method RemoveAll(p: Id) returns (r: Id)
      requires Valid() && p in nodes
      requires forall i :: 0 <= i < |nodes[p].children| ==> nodes[p].children[i].Some?
      modifies this
      ensures Valid() && next == old(next) && r == p
      ensures nodes == RemoveAllSpec(old(nodes), p)
    {
      var kids := nodes[p].children;
      var m := nodes;
      RemoveAllKeepsClosed(m, p);
      assert RecClosed(m, m[p]);
      for i := 0 to |kids|
        invariant m == Detached(nodes, kids[..i])
        modifies {}
      {
        var x := kids[i].value;
        DetachedStep(nodes, kids, i);
        m := m[x := m[x].(parent := None)];
      }
      assert kids[..|kids|] == kids;
      assert m == Detached(nodes, nodes[p].children);
      nodes := m[p := m[p].(children := [], index := map[])];
      r := p;
    }

    /** `root`: follows parent links to the parentless node. */
    method Root(n: Id) returns (r: Id)
      requires Valid() && n in nodes && Acyclic(nodes, n)
      ensures r == RootOf(nodes, n)
      ensures r in nodes && nodes[r].parent.None?
    {
      r := n;
      ghost var fuel: nat := |nodes|;
      ghost var walked: seq<Id> := [];
      while nodes[r].parent.Some?
        invariant r in nodes && ChainFrom(nodes, r, fuel).Some?
        invariant walked + ChainFrom(nodes, r, fuel).value == ChainFrom(nodes, n, |nodes|).value
        invariant walked == [] ==> r == n
        invariant walked != [] ==> r == walked[|walked| - 1]
        decreases fuel
      {
        var q := nodes[r].parent.value;
        assert ChainFrom(nodes, r, fuel).value == [q] + ChainFrom(nodes, q, fuel - 1).value;
        walked := walked + [q];
        r := q;
        fuel := fuel - 1;
      }
      assert ChainFrom(nodes, r, fuel).value == [];
      assert walked == ChainFrom(nodes, n, |nodes|).value;
      assert r == RootOf(nodes, n);
    }

    /** `parentage`: nil for a root, else the ancestors from the parent up to the root. */
    method Parentage(n: Id) returns (r: Option<seq<Id>>)
      requires Valid() && n in nodes && Acyclic(nodes, n)
      ensures nodes[n].parent.None? ==> r.None?
      ensures nodes[n].parent.Some? ==> r == ChainFrom(nodes, n, |nodes|)
    {
      if nodes[n].parent.None? {
        return None;
      }
      var acc: seq<Id> := [];
      var cur := n;
      ghost var fuel: nat := |nodes|;
      while nodes[cur].parent.Some?
        invariant cur in nodes && ChainFrom(nodes, cur, fuel).Some?
        invariant acc + ChainFrom(nodes, cur, fuel).value == ChainFrom(nodes, n, |nodes|).value
        decreases fuel
      {
        var q := nodes[cur].parent.value;
        assert ChainFrom(nodes, cur, fuel).value == [q] + ChainFrom(nodes, q, fuel - 1).value;
        acc := acc + [q];
        cur := q;
        fuel := fuel - 1;
      }
      assert ChainFrom(nodes, cur, fuel).value == [];
      assert acc == ChainFrom(nodes, n, |nodes|).value;
      r := Some(acc);
    }
  }

}
