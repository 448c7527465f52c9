/**
 * `Tree::BSTNode`: a binary node whose slot is chosen by comparing names.
 * Slot writes go through `set_child_at`, which writes the slot (padding with
 * nil), indexes a non-nil child and makes the receiver its parent.
 */
module Bst {
  import opened Wrappers
  import opened Names
  import opened NodeCore
  import opened BinaryTree

  /** A non-nil left slot names a node below the receiver, a non-nil right slot one above. */
  predicate Ordered<C>(m: Heap<C>, p: Id)
    requires p in m
  {
    var l := LeftChild(m, p);
    var r := RightChild(m, p);
    && (l.Some? ==> l.value in m && Less(m[l.value].name, m[p].name))
    && (r.Some? ==> r.value in m && Less(m[p].name, m[r.value].name))
  }

  /** The heap after `set_child_at(x, i)`. */
  function SetAtSpec<C>(m: Heap<C>, p: Id, i: nat, x: Slot): Heap<C>
    requires p in m && (x.Some? ==> x.value in m)
  {
    var m1 := PutSpec(m, p, i, x);
    if x.Some? then m1[x.value := m1[x.value].(parent := Some(p))] else m1
  }

  /**
   * Reading back after `set_child_at`: slot i holds `x`, the other slot and
   * every name are unchanged, a non-nil `x` has the receiver as parent, and
   * a node that was ordered stays ordered when `x` fits slot i.
   */
  lemma SetAtEffect<C>(m: Heap<C>, p: Id, i: nat, x: Slot)
    requires Closed(m) && p in m && (x.Some? ==> x.value in m) && i <= 1
    ensures var m' := SetAtSpec(m, p, i, x);
      && Closed(m') && m'.Keys == m.Keys
      && (forall y :: y in m ==> m'[y].name == m[y].name)
      && (i == 0 ==> LeftChild(m', p) == x && RightChild(m', p) == RightChild(m, p))
      && (i == 1 ==> RightChild(m', p) == x && LeftChild(m', p) == LeftChild(m, p))
      && (x.Some? ==> m'[x.value].parent == Some(p) && m'[p].index[m[x.value].name] == x.value)
      && (AtMostTwo(m, p) ==> AtMostTwo(m', p))
  {
    PutKeepsClosed(m, p, i, x);
    PutReadBack(m, p, i, x);
    var m1 := PutSpec(m, p, i, x);
    var m' := SetAtSpec(m, p, i, x);
    if x.Some? {
      forall y | y in m' ensures RecClosed(m', m'[y]) {
        assert RecClosed(m1, m1[y]);
      }
    }
  }

  /** `set_child_at(x, i)`. */
  method SetChildAt<C>(a: Arena<C>, p: Id, i: nat, x: Slot)
    requires a.Valid() && p in a.nodes && (x.Some? ==> x.value in a.nodes) && i <= 1
    modifies a
    ensures a.Valid() && a.next == old(a.next)
    ensures a.nodes == SetAtSpec(old(a.nodes), p, i, x)
  {
    SetAtEffect(a.nodes, p, i, x);
    a.nodes := SetAtSpec(a.nodes, p, i, x);
  }

  /**
   * `add`: raises when both slots are filled or when the child has the
   * receiver's name; otherwise a smaller name goes to the left slot and a
   * larger one to the right slot (overwriting whatever was there).
   */
  method Add<C>(a: Arena<C>, p: Id, c: Id) returns (r: Result<Id>)
    requires a.Valid() && p in a.nodes && c in a.nodes
    modifies a
    ensures a.Valid() && a.next == old(a.next)
    ensures var m := old(a.nodes);
      LeftChild(m, p).Some? && RightChild(m, p).Some? ==> r == Err(CapacityExceeded) && a.nodes == m
    ensures var m := old(a.nodes);
      !(LeftChild(m, p).Some? && RightChild(m, p).Some?) && m[c].name == m[p].name ==>
        r == Err(SameName) && a.nodes == m
    ensures var m := old(a.nodes);
      !(LeftChild(m, p).Some? && RightChild(m, p).Some?) && m[c].name != m[p].name ==>
        && r == Ok(c)
        && a.nodes == SetAtSpec(m, p, if Less(m[c].name, m[p].name) then 0 else 1, Some(c))
        && (Less(m[c].name, m[p].name) ==>
              LeftChild(a.nodes, p) == Some(c) && RightChild(a.nodes, p) == RightChild(m, p))
        && (!Less(m[c].name, m[p].name) ==>
              RightChild(a.nodes, p) == Some(c) && LeftChild(a.nodes, p) == LeftChild(m, p))
    ensures Ordered(old(a.nodes), p) ==> Ordered(a.nodes, p)
    ensures AtMostTwo(old(a.nodes), p) ==> AtMostTwo(a.nodes, p)
  {
    var m := a.nodes;
    if LeftChild(m, p).Some? && RightChild(m, p).Some? {
      return Err(CapacityExceeded);
    }
    if m[c].name == m[p].name {
      return Err(SameName);
    }
    var i := if Less(m[c].name, m[p].name) then 0 else 1;
    if i == 1 {
      LessTotal(m[c].name, m[p].name);
    }
    SetAtEffect(m, p, i, Some(c));
    SetChildAt(a, p, i, Some(c));
    r := Ok(c);
  }

  /** A lone larger child leaves slot 0 nil: the array becomes `[nil, child]`. */
  lemma AddLargerToEmpty<C>(m: Heap<C>, p: Id, c: Id)
    requires p in m && c in m && c != p && m[p].children == [] && Less(m[p].name, m[c].name)
    ensures !Less(m[c].name, m[p].name)
    ensures SetAtSpec(m, p, 1, Some(c))[p].children == [None, Some(c)]
  {
    LessAsymmetric(m[p].name, m[c].name);
    var kids := SetAtSpec(m, p, 1, Some(c))[p].children;
    assert |kids| == 2 && kids[0] == None && kids[1] == Some(c);
  }

  /**
   * `left_child=`: a non-nil child whose name is not below the receiver's is
   * refused and nothing changes; nil or a smaller child is written to slot 0.
   */
  method SetLeft<C>(a: Arena<C>, p: Id, x: Slot) returns (r: Result<Slot>)
    requires a.Valid() && p in a.nodes && (x.Some? ==> x.value in a.nodes)
    modifies a
    ensures a.Valid() && a.next == old(a.next)
    ensures var m := old(a.nodes);
      x.Some? && !Less(m[x.value].name, m[p].name) ==> r == Err(OrderingViolation) && a.nodes == m
    ensures var m := old(a.nodes);
      (x.None? || Less(m[x.value].name, m[p].name)) ==>
        && r == Ok(x)
        && a.nodes == SetAtSpec(m, p, 0, x)
        && LeftChild(a.nodes, p) == x && RightChild(a.nodes, p) == RightChild(m, p)
    ensures Ordered(old(a.nodes), p) ==> Ordered(a.nodes, p)
  {
    if x.Some? && !Less(a.nodes[x.value].name, a.nodes[p].name) {
      return Err(OrderingViolation);
    }
    SetAtEffect(a.nodes, p, 0, x);
    SetChildAt(a, p, 0, x);
    r := Ok(x);
  }

  /**
   * `right_child=`: a non-nil child whose name is not above the receiver's is
   * refused and nothing changes; nil or a larger child is written to slot 1.
   */
  method SetRight<C>(a: Arena<C>, p: Id, x: Slot) returns (r: Result<Slot>)
    requires a.Valid() && p in a.nodes && (x.Some? ==> x.value in a.nodes)
    modifies a
    ensures a.Valid() && a.next == old(a.next)
    ensures var m := old(a.nodes);
      x.Some? && !Less(m[p].name, m[x.value].name) ==> r == Err(OrderingViolation) && a.nodes == m
    ensures var m := old(a.nodes);
      (x.None? || Less(m[p].name, m[x.value].name)) ==>
        && r == Ok(x)
        && a.nodes == SetAtSpec(m, p, 1, x)
        && RightChild(a.nodes, p) == x && LeftChild(a.nodes, p) == LeftChild(m, p)
    ensures Ordered(old(a.nodes), p) ==> Ordered(a.nodes, p)
  {
    if x.Some? && !Less(a.nodes[p].name, a.nodes[x.value].name) {
      return Err(OrderingViolation);
    }
    SetAtEffect(a.nodes, p, 1, x);
    SetChildAt(a, p, 1, x);
    r := Ok(x);
  }

  /** `swap_children` is refused on a search-tree node; nothing changes. */
  method SwapChildren<C>(a: Arena<C>, p: Id) returns (r: Result<Id>)
    requires a.Valid() && p in a.nodes
    ensures r == Err(InvalidOperation)
  {
    r := Err(InvalidOperation);
  }

  /**
   * The slot a BST `add` picks agrees with `<=>`: slot 0 exactly when the
   * receiver compares above the child.
   */
  lemma AddSlotBySpaceship(pn: Name, cn: Name)
    requires pn != cn
    ensures Less(cn, pn) <==> Spaceship(pn, Some(cn)) == 1
    ensures !Less(cn, pn) <==> Spaceship(pn, Some(cn)) == -1
  {
    LessTotal(pn, cn);
    if Less(cn, pn) { LessAsymmetric(cn, pn); }
  }
}
