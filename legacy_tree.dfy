/**
 * The older `rubytree/lib/tree.rb` node class. Its `add`, `remove!`,
 * `removeFromParent!`, `removeAll!`, `[]`, `size`, `root`, `each` and `<=>`
 * have the same bodies as in `lib/tree.rb` and are the `NodeCore` and
 * `TreeValue` members; its text dump is `DumpText`. What is left is
 * `siblings`, which treats a root differently depending on whether a block
 * is given.
 */
module LegacyTree {
  import opened Wrappers
  import opened NodeCore

  /** What one call of `siblings` does: the nodes it yields to the block, and what it returns. */
  datatype SiblingsCall = SiblingsCall(yielded: seq<Slot>, returned: Option<seq<Slot>>)

  /**
   * `siblings`. With a block: nil for a root; otherwise every entry of the
   * parent's array other than the receiver is yielded, and the `for` loop's
   * value, the parent's whole array, is returned. Without a block the parent
   * is dereferenced first, so a root fails; otherwise the entries other than
   * the receiver are collected and returned.
   */
  function Siblings<C>(m: Heap<C>, n: Id, blockGiven: bool): (r: Result<SiblingsCall>)
    requires n in m && Closed(m)
    ensures r.Err? <==> !blockGiven && m[n].parent.None?
    ensures r.Ok? && !blockGiven ==> r.value.yielded == []
  {
    if blockGiven then
      if m[n].parent.None? then Ok(SiblingsCall([], None))
      else
        var kids := m[m[n].parent.value].children;
        Ok(SiblingsCall(Without(kids, Some(n)), Some(kids)))
    else if m[n].parent.None? then Err(InvalidOperation)
    else Ok(SiblingsCall([], Some(Without(m[m[n].parent.value].children, Some(n)))))
  }

  /**
   * Off a root, both forms produce the siblings of the later `siblings`
   * (`NodeCore.Siblings`): the block receives them, and without a block they
   * are returned. On a root only the block form answers, with nil, as the
   * later version does in both forms.
   */
  lemma SiblingsAgree<C>(m: Heap<C>, n: Id)
    requires n in m && Closed(m)
    ensures m[n].parent.Some? ==>
      && Siblings(m, n, true).value.yielded == NodeCore.Siblings(m, n).value
      && Siblings(m, n, true).value.returned == Some(m[m[n].parent.value].children)
      && Siblings(m, n, false).value.returned == NodeCore.Siblings(m, n)
    ensures m[n].parent.None? ==>
      && Siblings(m, n, true) == Ok(SiblingsCall([], NodeCore.Siblings(m, n)))
      && Siblings(m, n, false).Err?
  {
  }

  /**
   * A child listed once at position i of its parent's array: the block
   * receives the entries before it and then those after it, and the
   * receiver itself never.
   */
  lemma SiblingsInOrder<C>(m: Heap<C>, n: Id, i: nat)
    requires n in m && Closed(m) && m[n].parent.Some?
    requires var kids := m[m[n].parent.value].children;
      i < |kids| && kids[i] == Some(n) && Some(n) !in kids[..i] && Some(n) !in kids[i + 1..]
    ensures var kids := m[m[n].parent.value].children;
      && Siblings(m, n, true).value.yielded == kids[..i] + kids[i + 1..]
      && Some(n) !in Siblings(m, n, true).value.yielded
      && |Siblings(m, n, true).value.yielded| == |kids| - 1
  {
    SiblingsAround(m, n, i);
  }
}
