/**
 * The link between the arena of `NodeCore` and the tree values of
 * `TreeValue`: `Abs` reads a subtree off the arena, and the in-place `add`,
 * `remove!` and `removeAll!` act on that reading as `<<`, dropping one child
 * and dropping every child act on values.
 */
module NodeAbs {
  import opened Wrappers
  import opened TreeValue
  import opened NodeCore

  /** The nodes `Abs` visits from `id` with `fuel` levels: the node and its descendants. */
  ghost function Reached<C>(m: Heap<C>, id: Id, fuel: nat): set<Id>
    decreases fuel, 0
  {
    if id !in m || fuel == 0 then {}
    else {id} + ReachedSlots(m, m[id].children, fuel - 1)
  }

  ghost function ReachedSlots<C>(m: Heap<C>, slots: seq<Slot>, fuel: nat): set<Id>
    decreases fuel, |slots| + 1
  {
    if slots == [] then {}
    else (if slots[0].Some? then Reached(m, slots[0].value, fuel) else {}) + ReachedSlots(m, slots[1..], fuel)
  }

  /** Two heaps agree on the names, contents and child arrays of the nodes `xs`. */
  ghost predicate SameBelow<C>(m: Heap<C>, m': Heap<C>, xs: set<Id>)
  {
    forall x :: x in xs && x in m ==>
      x in m' && m'[x].name == m[x].name && m'[x].content == m[x].content && m'[x].children == m[x].children
  }

  // ================================================================ reading a child array

  /** A child array reads as a row of trees exactly when every slot holds a node that reads as its tree. */
  lemma {:induction false} AbsSlotsOf<C>(m: Heap<C>, s: seq<Slot>, f: nat, ts: seq<Tree<C>>)
    ensures AbsSlots(m, s, f) == Some(ts) <==>
      |ts| == |s| && forall i :: 0 <= i < |s| ==> s[i].Some? && Abs(m, s[i].value, f) == Some(ts[i])
    decreases |s|
  {
    if s != [] {
      AbsSlotsOf(m, s[1..], f, if ts == [] then [] else ts[1..]);
      if |ts| == |s| && forall i :: 0 <= i < |s| ==> s[i].Some? && Abs(m, s[i].value, f) == Some(ts[i]) {
        assert forall i :: 0 <= i < |s[1..]| ==> s[1..][i] == s[i + 1] && ts[1..][i] == ts[i + 1];
        assert ts == [ts[0]] + ts[1..];
      }
      if AbsSlots(m, s, f) == Some(ts) {
        assert ts != [] && ts == [ts[0]] + ts[1..];
        forall i | 0 < i < |s| ensures s[i].Some? && Abs(m, s[i].value, f) == Some(ts[i]) {
          assert s[1..][i - 1] == s[i] && ts[1..][i - 1] == ts[i];
        }
      }
    }
  }

  /** Every node below one slot is reached from the array. */
  lemma {:induction false} ReachedSlotsAt<C>(m: Heap<C>, s: seq<Slot>, f: nat, i: nat)
    requires i < |s| && s[i].Some?
    ensures Reached(m, s[i].value, f) <= ReachedSlots(m, s, f)
    decreases i
  {
    if i > 0 {
      ReachedSlotsAt(m, s[1..], f, i - 1);
      assert s[1..][i - 1] == s[i];
    }
  }

  /** A node reached from an array is reached from one of its slots. */
  lemma {:induction false} ReachedSlotsWitness<C>(m: Heap<C>, s: seq<Slot>, f: nat, x: Id) returns (i: nat)
    requires x in ReachedSlots(m, s, f)
    ensures i < |s| && s[i].Some? && x in Reached(m, s[i].value, f)
    decreases |s|
  {
    if s[0].Some? && x in Reached(m, s[0].value, f) {
      i := 0;
    } else {
      var j := ReachedSlotsWitness(m, s[1..], f, x);
      i := j + 1;
      assert s[1..][j] == s[i];
    }
  }

  // ================================================================ fuel

  /** More fuel reads the same tree and visits the same nodes. */
  lemma {:induction false} AbsFuel<C>(m: Heap<C>, id: Id, f: nat, g: nat)
    requires Abs(m, id, f).Some? && f <= g
    ensures Abs(m, id, g) == Abs(m, id, f)
    ensures Reached(m, id, g) == Reached(m, id, f)
    decreases f, 0
  {
    var s := m[id].children;
    var ts := AbsSlots(m, s, f - 1).value;
    AbsSlotsOf(m, s, f - 1, ts);
    forall i | 0 <= i < |s| ensures Abs(m, s[i].value, g - 1) == Some(ts[i]) {
      AbsFuel(m, s[i].value, f - 1, g - 1);
    }
    AbsSlotsOf(m, s, g - 1, ts);
    ReachedSlotsFuel(m, s, f - 1, g - 1);
  }

  lemma {:induction false} ReachedSlotsFuel<C>(m: Heap<C>, s: seq<Slot>, f: nat, g: nat)
    requires AbsSlots(m, s, f).Some? && f <= g
    ensures ReachedSlots(m, s, g) == ReachedSlots(m, s, f)
    decreases f, |s| + 1
  {
    if s != [] {
      AbsFuel(m, s[0].value, f, g);
      ReachedSlotsFuel(m, s[1..], f, g);
    }
  }

  // ================================================================ no node lies below itself

  /** A node reached from a readable node reads as a tree no taller than it. */
  lemma {:induction false} ReachedHeight<C>(m: Heap<C>, id: Id, f: nat, x: Id)
    requires Abs(m, id, f).Some? && x in Reached(m, id, f)
    ensures Abs(m, x, f).Some? && Height(Abs(m, x, f).value) <= Height(Abs(m, id, f).value)
    decreases f, 1
  {
    if x != id {
      BelowHeight(m, id, f, x);
    }
  }

  /** A proper descendant of a readable node reads as a strictly lower tree. */
  lemma {:induction false} BelowHeight<C>(m: Heap<C>, id: Id, f: nat, x: Id)
    requires Abs(m, id, f).Some? && x in ReachedSlots(m, m[id].children, f - 1)
    ensures Abs(m, x, f).Some? && Height(Abs(m, x, f).value) < Height(Abs(m, id, f).value)
    decreases f, 0
  {
    var s := m[id].children;
    var t := Abs(m, id, f).value;
    AbsSlotsOf(m, s, f - 1, t.kids);
    var i := ReachedSlotsWitness(m, s, f - 1, x);
    ReachedHeight(m, s[i].value, f - 1, x);
    AbsFuel(m, x, f - 1, f);
    HeightOfChildren(t);
  }

  /** A readable node is not among its own descendants: its subtree has no cycle through it. */
  lemma NotBelowItself<C>(m: Heap<C>, id: Id, f: nat)
    requires Abs(m, id, f).Some?
    ensures id !in ReachedSlots(m, m[id].children, f - 1)
  {
    if id in ReachedSlots(m, m[id].children, f - 1) {
      BelowHeight(m, id, f, id);
      assert false;
    }
  }

  /**
   * Each child of a readable node reads the same with one more level of
   * fuel, and the parent is not below it.
   */
  lemma ChildApart<C>(m: Heap<C>, p: Id, f: nat, i: nat)
    requires Abs(m, p, f).Some? && i < |m[p].children|
    ensures m[p].children[i].Some?
    ensures var k := m[p].children[i].value;
      && Abs(m, k, f) == Some(Abs(m, p, f).value.kids[i])
      && p !in Reached(m, k, f)
  {
    var s := m[p].children;
    AbsSlotsOf(m, s, f - 1, Abs(m, p, f).value.kids);
    var k := s[i].value;
    AbsFuel(m, k, f - 1, f);
    ReachedSlotsAt(m, s, f - 1, i);
    NotBelowItself(m, p, f);
  }

  // ================================================================ frames

  /** `Abs` reads only the names, contents and child arrays of the nodes it visits. */
  lemma {:induction false} AbsFrame<C>(m: Heap<C>, m': Heap<C>, id: Id, f: nat)
    requires Abs(m, id, f).Some? && SameBelow(m, m', Reached(m, id, f))
    ensures Abs(m', id, f) == Abs(m, id, f)
    decreases f
  {
    var s := m[id].children;
    var ts := AbsSlots(m, s, f - 1).value;
    AbsSlotsOf(m, s, f - 1, ts);
    forall i | 0 <= i < |s| ensures Abs(m', s[i].value, f - 1) == Some(ts[i]) {
      ReachedSlotsAt(m, s, f - 1, i);
      AbsFrame(m, m', s[i].value, f - 1);
    }
    AbsSlotsOf(m', s, f - 1, ts);
  }

  /** `add` changes only the receiver's array and index and the child's parent link. */
  lemma AddSpecSame<C>(m: Heap<C>, p: Id, c: Id, xs: set<Id>)
    requires p in m && c in m && p !in xs
    ensures SameBelow(m, AddSpec(m, p, c), xs)
  {
  }

  /** `remove!` changes only the receiver's array and index and the child's parent link. */
  lemma RemoveSpecSame<C>(m: Heap<C>, p: Id, c: Id, xs: set<Id>)
    requires p in m && c in m && p !in xs
    ensures SameBelow(m, RemoveSpec(m, p, c), xs)
  {
  }

  /** `removeAll!` changes only the receiver's array and index and its children's parent links. */
  lemma RemoveAllSpecSame<C>(m: Heap<C>, p: Id, xs: set<Id>)
    requires p in m && p !in xs
    ensures SameBelow(m, RemoveAllSpec(m, p), xs)
  {
  }

  // ================================================================ the mutations on values

  /**
   * The children's names the index answers for are the names among the
   * receiver's child trees: `add`'s duplicate check on the index is `<<`'s
   * check on the value.
   */
  lemma IndexHoldsKidNames<C>(m: Heap<C>, p: Id, f: nat, x: string)
    requires p in m && InStep(m, p) && Abs(m, p, f).Some?
    ensures x in m[p].index <==> x in KidNames(Abs(m, p, f).value.kids)
  {
    var s := m[p].children;
    var ts := Abs(m, p, f).value.kids;
    AbsSlotsOf(m, s, f - 1, ts);
    KidNamesSpec(ts, x);
    if x in m[p].index {
      var i :| 0 <= i < |s| && s[i] == Some(m[p].index[x]);
      assert ts[i].name == x;
    }
    if x in KidNames(ts) {
      var i :| 0 <= i < |ts| && ts[i].name == x;
      assert m[s[i].value].name == x;
    }
  }

  /**
   * `p.add(c)` read off the arena is `<<` on the values: with the child's
   * subtree apart from the receiver, it raises exactly when `<<` does, and
   * otherwise the receiver reads as its old tree with the child's tree
   * appended, and the child's tree is unchanged.
   */
  lemma AddAbs<C>(m: Heap<C>, p: Id, c: Id, f: nat)
    requires p in m && c in m && InStep(m, p)
    requires Abs(m, p, f).Some? && Abs(m, c, f).Some? && p !in Reached(m, c, f)
    ensures var tp, tc := Abs(m, p, f).value, Abs(m, c, f).value;
      && (m[c].name in m[p].index <==> AddChild(tp, tc).Err?)
      && (m[c].name !in m[p].index ==>
        && Abs(AddSpec(m, p, c), p, f + 1) == Some(AddChild(tp, tc).value)
        && Abs(AddSpec(m, p, c), c, f) == Some(tc))
  {
    var tp, tc := Abs(m, p, f).value, Abs(m, c, f).value;
    IndexHoldsKidNames(m, p, f, m[c].name);
    if m[c].name !in m[p].index {
      var m' := AddSpec(m, p, c);
      var s := m[p].children;
      AddSpecSame(m, p, c, Reached(m, c, f));
      AbsFrame(m, m', c, f);
      forall i | 0 <= i < |s| ensures s[i].Some? && Abs(m', s[i].value, f) == Some(tp.kids[i]) {
        ChildApart(m, p, f, i);
        AddSpecSame(m, p, c, Reached(m, s[i].value, f));
        AbsFrame(m, m', s[i].value, f);
      }
      var s' := s + [Some(c)];
      assert m'[p].children == s';
      AbsSlotsOf(m', s', f, tp.kids + [tc]);
    }
  }

  /**
   * After a successful `add`, the receiver's size grows by the child's size,
   * and below the receiver `each` visits the old descendants, then the
   * child's subtree.
   */
  lemma AddAbsSize<C>(m: Heap<C>, p: Id, c: Id, f: nat)
    requires p in m && c in m && InStep(m, p) && m[c].name !in m[p].index
    requires Abs(m, p, f).Some? && Abs(m, c, f).Some? && p !in Reached(m, c, f)
    ensures Abs(AddSpec(m, p, c), p, f + 1).Some?
    ensures Size(Abs(AddSpec(m, p, c), p, f + 1).value) == Size(Abs(m, p, f).value) + Size(Abs(m, c, f).value)
    ensures PreOrder(Abs(AddSpec(m, p, c), p, f + 1).value)[1..] == PreOrder(Abs(m, p, f).value)[1..] + PreOrder(Abs(m, c, f).value)
  {
    var tp, tc := Abs(m, p, f).value, Abs(m, c, f).value;
    AddAbs(m, p, c, f);
    ForestSizeAppend(tp.kids, [tc]);
    ForestPreOrderAppend(tp.kids, [tc]);
    assert ForestPreOrder([tc]) == PreOrder(tc) + ForestPreOrder([tc][1..]);
    assert [tc][1..] == [];
  }

  /**
   * `p.remove!(c)` for a child listed once at position i: the receiver reads
   * as its old tree without the i-th child, and the child, now a root, reads
   * as the subtree it headed.
   */
  lemma RemoveAbs<C>(m: Heap<C>, p: Id, c: Id, f: nat, i: nat)
    requires p in m && c in m && Abs(m, p, f).Some?
    requires var s := m[p].children;
      i < |s| && s[i] == Some(c) && Some(c) !in s[..i] && Some(c) !in s[i + 1..]
    ensures var tp := Abs(m, p, f).value;
      && Abs(RemoveSpec(m, p, c), p, f) == Some(Node(tp.name, tp.content, tp.kids[..i] + tp.kids[i + 1..]))
      && Abs(RemoveSpec(m, p, c), c, f) == Some(tp.kids[i])
  {
    var tp := Abs(m, p, f).value;
    var m' := RemoveSpec(m, p, c);
    var s := m[p].children;
    WithoutSingle(s, i);
    RemoveKeepsKids(m, p, c, f);
    SlotsDropOne(m', s, f - 1, tp.kids, i);
    assert m'[p].children == s[..i] + s[i + 1..];
    ChildApart(m, p, f, i);
    RemoveSpecSame(m, p, c, Reached(m, c, f));
    AbsFrame(m, m', c, f);
  }

  /** After `remove!`, the receiver's old child array still reads as its old child trees. */
  lemma RemoveKeepsKids<C>(m: Heap<C>, p: Id, c: Id, f: nat)
    requires p in m && c in m && Abs(m, p, f).Some?
    ensures AbsSlots(RemoveSpec(m, p, c), m[p].children, f - 1) == Some(Abs(m, p, f).value.kids)
  {
    var m' := RemoveSpec(m, p, c);
    var s := m[p].children;
    var ts := Abs(m, p, f).value.kids;
    AbsSlotsOf(m, s, f - 1, ts);
    forall j | 0 <= j < |s| ensures s[j].Some? && Abs(m', s[j].value, f - 1) == Some(ts[j]) {
      ChildApart(m, p, f, j);
      var k := s[j].value;
      AbsFuel(m, k, f - 1, f);
      RemoveSpecSame(m, p, c, Reached(m, k, f - 1));
      AbsFrame(m, m', k, f - 1);
    }
    AbsSlotsOf(m', s, f - 1, ts);
  }

  /** Dropping one slot of a readable child array drops that tree from its reading. */
  lemma SlotsDropOne<C>(m: Heap<C>, s: seq<Slot>, f: nat, ts: seq<Tree<C>>, i: nat)
    requires AbsSlots(m, s, f) == Some(ts) && i < |s|
    ensures AbsSlots(m, s[..i] + s[i + 1..], f) == Some(ts[..i] + ts[i + 1..])
  {
    AbsSlotsOf(m, s, f, ts);
    var s', ts' := s[..i] + s[i + 1..], ts[..i] + ts[i + 1..];
    forall j | 0 <= j < |s'| ensures s'[j].Some? && Abs(m, s'[j].value, f) == Some(ts'[j]) {
      if j < i {
        assert s'[j] == s[j] && ts'[j] == ts[j];
      } else {
        assert s'[j] == s[j + 1] && ts'[j] == ts[j + 1];
      }
    }
    AbsSlotsOf(m, s', f, ts');
  }

  /**
   * `p.removeAll!`: the receiver reads as a leaf with its name and content,
   * and each former child, now a root, reads as the subtree it headed.
   */
  lemma RemoveAllAbs<C>(m: Heap<C>, p: Id, f: nat)
    requires p in m && Abs(m, p, f).Some?
    ensures Abs(RemoveAllSpec(m, p), p, f) == Some(Node(m[p].name, m[p].content, []))
    ensures forall i :: 0 <= i < |m[p].children| ==>
      m[p].children[i].Some? && Abs(RemoveAllSpec(m, p), m[p].children[i].value, f) == Some(Abs(m, p, f).value.kids[i])
  {
    var m' := RemoveAllSpec(m, p);
    var s := m[p].children;
    assert m'[p].children == [];
    AbsSlotsOf(m', [], f - 1, []);
    forall i | 0 <= i < |s|
      ensures s[i].Some? && Abs(m', s[i].value, f) == Some(Abs(m, p, f).value.kids[i])
    {
      ChildApart(m, p, f, i);
      RemoveAllSpecSame(m, p, Reached(m, s[i].value, f));
      AbsFrame(m, m', s[i].value, f);
    }
  }
}
