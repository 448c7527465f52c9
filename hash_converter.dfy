/**
 * The nested-hash codec of `Tree::Utils::HashConverter`: `to_h` encodes a
 * subtree as a one-entry Hash, `from_hash` and `add_from_hash` decode one.
 * A Ruby Hash is an insertion-ordered sequence of entries. Codecs act on tree
 * values whose content may be nil (`None`).
 */
module HashConverter {
  import opened Wrappers
  import opened TreeValue

  /** A Hash key: a bare name, or a `[name, content]` pair. */
  datatype Key<C> = Bare(name: string) | Pair(name: string, content: Option<C>)

  /** A Hash value as far as the codec distinguishes it: nil, a nested Hash, or anything else. */
  datatype Value<C> = Nil | Scalar | Hash(entries: seq<Entry<C>>)

  datatype Entry<C> = Entry(key: Key<C>, value: Value<C>)

  type Node<C> = Tree<Option<C>>

  /** What `add_from_hash` leaves behind: the receiver as modified so far, and its result. */
  datatype Outcome<C> = Outcome(tree: Node<C>, added: Result<seq<Node<C>>>)

  // ================================================================ decoding

  /**
   * `from_hash`: anything but a Hash raises, a Hash with other than one
   * entry raises, otherwise its single entry is decoded.
   */
  function FromHash<C>(v: Value<C>): (r: Result<Node<C>>)
    ensures !v.Hash? ==> r == Err(NotAHash)
    ensures v.Hash? && |v.entries| != 1 ==> r == Err(NotOneEntry)
    ensures v.Hash? && |v.entries| == 1 ==> r == FromEntry(v.entries[0])
  {
    match v
    case Hash(es) => if |es| != 1 then Err(NotOneEntry) else FromEntry(es[0])
    case _ => Err(NotAHash)
  }

  /**
   * One `key => children` entry: the key gives the name (and the content for
   * a pair); a value other than nil or a Hash raises; a Hash is handed to
   * `add_from_hash` on the new node.
   */
  function FromEntry<C>(e: Entry<C>): (r: Result<Node<C>>)
    ensures r.Ok? ==> r.value.name == e.key.name
    ensures r.Ok? ==> r.value.content == (if e.key.Pair? then e.key.content else None)
    ensures e.value.Scalar? ==> r == Err(InvalidChild)
    decreases e
  {
    var node := Node(e.key.name, if e.key.Pair? then e.key.content else None, []);
    match e.value
    case Scalar => Err(InvalidChild)
    case Nil => Ok(node)
    case Hash(_) =>
      var o := AddEntries(node, e.value, 0);
      if o.added.Err? then Err(o.added.error) else Ok(o.tree)
  }

  /**
   * The entries of `v` from position i on, decoded and appended to `t` with
   * `<<`, stopping at the first failure with the children added so far kept.
   */
  function AddEntries<C>(t: Node<C>, v: Value<C>, i: nat): (o: Outcome<C>)
    requires v.Hash? && i <= |v.entries|
    ensures o.tree.name == t.name && o.tree.content == t.content
    decreases v, |v.entries| - i
  {
    if i == |v.entries| then Outcome(t, Ok([]))
    else match FromEntry(v.entries[i])
      case Err(err) => Outcome(t, Err(err))
      case Ok(c) => match AddChild(t, c)
        case Err(err) => Outcome(t, Err(err))
        case Ok(t2) =>
          var o := AddEntries(t2, v, i + 1);
          Outcome(o.tree, if o.added.Ok? then Ok([c] + o.added.value) else o.added)
  }

  /**
   * `add_from_hash` only appends: the receiver keeps its name, content and
   * earlier children, and on success exactly the returned nodes follow them,
   * one per entry, each the decoding of its entry.
   */
  lemma AddEntriesKeepsRoot<C>(t: Node<C>, v: Value<C>, i: nat)
    requires v.Hash? && i <= |v.entries|
    ensures var o := AddEntries(t, v, i);
      && |t.kids| <= |o.tree.kids| && o.tree.kids[..|t.kids|] == t.kids
      && (o.added.Ok? ==>
            o.tree.kids == t.kids + o.added.value && |o.added.value| == |v.entries| - i)
      && (o.added.Ok? ==> DecodesFrom(v, i, o.added.value))
  {
    AddEntriesAppends(t, v, i);
    AddEntriesDecodes(t, v, i);
  }

  /** The receiver's earlier children are kept, and on success one node per entry follows them. */
  lemma {:induction false} AddEntriesAppends<C>(t: Node<C>, v: Value<C>, i: nat)
    requires v.Hash? && i <= |v.entries|
    ensures var o := AddEntries(t, v, i);
      && |t.kids| <= |o.tree.kids| && o.tree.kids[..|t.kids|] == t.kids
      && (o.added.Ok? ==>
            o.tree.kids == t.kids + o.added.value && |o.added.value| == |v.entries| - i)
    decreases |v.entries| - i
  {
    if i < |v.entries| {
      var fe := FromEntry(v.entries[i]);
      if fe.Ok? && AddChild(t, fe.value).Ok? {
        var t2 := AddChild(t, fe.value).value;
        AddEntriesAppends(t2, v, i + 1);
        var o := AddEntries(t2, v, i + 1);
        assert o.tree.kids[..|t.kids|] == o.tree.kids[..|t2.kids|][..|t.kids|];
        if o.added.Ok? {
          assert o.tree.kids == t.kids + ([fe.value] + o.added.value);
        }
      }
    }
  }

  /** Each of `ks` is the decoding of the entry of `v` at its position from i on. */
  ghost predicate DecodesFrom<C>(v: Value<C>, i: nat, ks: seq<Node<C>>)
    requires v.Hash?
    decreases |ks|
  {
    ks == [] ||
    (i < |v.entries| && FromEntry(v.entries[i]).Ok? && FromEntry(v.entries[i]).value == ks[0]
     && DecodesFrom(v, i + 1, ks[1..]))
  }

  /** Each node `add_from_hash` returns is the decoding of the entry at its position. */
  lemma {:induction false} AddEntriesDecodes<C>(t: Node<C>, v: Value<C>, i: nat)
    requires v.Hash? && i <= |v.entries|
    ensures AddEntries(t, v, i).added.Ok? ==> DecodesFrom(v, i, AddEntries(t, v, i).added.value)
    decreases |v.entries| - i
  {
    if i < |v.entries| {
      var fe := FromEntry(v.entries[i]);
      if fe.Ok? && AddChild(t, fe.value).Ok? {
        var t2 := AddChild(t, fe.value).value;
        AddEntriesDecodes(t2, v, i + 1);
        var rest := AddEntries(t2, v, i + 1).added;
        if rest.Ok? {
          var added := [fe.value] + rest.value;
          assert AddEntries(t, v, i).added == Ok(added);
          assert added[1..] == rest.value;
        } else {
          assert AddEntries(t, v, i).added == rest;
        }
      }
    }
  }

  /** `add_from_hash`: raises for a non-Hash, else decodes and appends each entry in order. */
  function AddFromHashSpec<C>(t: Node<C>, v: Value<C>): Outcome<C>
  {
    if v.Hash? then AddEntries(t, v, 0) else Outcome(t, Err(NotAHash))
  }

  /** `add_from_hash`, with its each-loop appending one decoded child at a time. */
  method AddFromHash<C>(t: Node<C>, v: Value<C>) returns (t': Node<C>, added: Result<seq<Node<C>>>)
    ensures Outcome(t', added) == AddFromHashSpec(t, v)
  {
    if !v.Hash? {
      return t, Err(NotAHash);
    }
    var es := v.entries;
    var acc: seq<Node<C>> := [];
    t' := t;
    var i := 0;
    ghost var o0 := AddEntries(t, v, 0);
    if o0.added.Ok? {
      assert [] + o0.added.value == o0.added.value;
    }
    while i < |es|
      invariant 0 <= i <= |es|
      invariant var o := AddEntries(t', v, i);
        AddEntries(t, v, 0) == Outcome(o.tree, if o.added.Ok? then Ok(acc + o.added.value) else o.added)
    {
      var child := FromEntry(es[i]);
      if child.Err? {
        return t', Err(child.error);
      }
      var next := AddChild(t', child.value);
      if next.Err? {
        return t', Err(next.error);
      }
      ghost var o := AddEntries(next.value, v, i + 1);
      assert AddEntries(t', v, i).tree == o.tree;
      assert o.added.Ok? ==> acc + ([child.value] + o.added.value) == (acc + [child.value]) + o.added.value;
      acc := acc + [child.value];
      t' := next.value;
      i := i + 1;
    }
    assert acc + [] == acc;
    added := Ok(acc);
  }

  /** A nil value and an empty Hash both give a leaf. */
  lemma LeafForms<C>(k: Key<C>)
    ensures FromEntry(Entry(k, Nil)) == FromEntry(Entry(k, Hash([])))
    ensures FromEntry(Entry(k, Nil)) == Ok(Node(k.name, if k.Pair? then k.content else None, []))
  {
  }

  /**
   * Decoding is not atomic: with two sibling keys of the same name, the first
   * child stays attached when the second `<<` raises.
   */
  lemma RepeatedSiblingNameKeepsFirst<C>(t: Node<C>, x: C)
    requires "B" !in KidNames(t.kids)
    ensures AddFromHashSpec(t, Hash([Entry(Bare("B"), Nil), Entry(Pair("B", Some(x)), Nil)]))
      == Outcome(Node(t.name, t.content, t.kids + [Node("B", None, [])]), Err(DuplicateName))
  {
    var v := Hash([Entry(Bare("B"), Nil), Entry(Pair("B", Some(x)), Nil)]);
    var b1: Node<C> := Node("B", None, []);
    var b2: Node<C> := Node("B", Some(x), []);
    var t2 := Node(t.name, t.content, t.kids + [b1]);
    assert FromEntry(v.entries[0]) == Ok(b1);
    assert AddChild(t, b1) == Ok(t2);
    KidNamesSpec(t2.kids, "B");
    assert t2.kids[|t.kids|].name == "B";
    assert FromEntry(v.entries[1]) == Ok(b2);
    assert AddChild(t2, b2) == Err(DuplicateName);
    assert AddEntries(t2, v, 1) == Outcome(t2, Err(DuplicateName));
  }

  // ================================================================ encoding

  /** The key `to_h` writes: `[name, content]` when there is content, else the bare name. */
  function KeyOf<C>(t: Node<C>): (k: Key<C>)
    ensures k.name == t.name
    ensures k.Pair? <==> t.content.Some?
  {
    if t.content.Some? then Pair(t.name, t.content) else Bare(t.name)
  }

  /** The position of the first entry with key `k`. */
  function FindKey<C(==)>(es: seq<Entry<C>>, k: Key<C>): (r: Option<nat>)
    ensures r.None? ==> forall i :: 0 <= i < |es| ==> es[i].key != k
    ensures r.Some? ==> r.value < |es| && es[r.value].key == k
  {
    if es == [] then None
    else if es[0].key == k then Some(0)
    else match FindKey(es[1..], k)
      case None => None
      case Some(i) => Some(i + 1)
  }

  /** `merge!` of a one-entry Hash: an existing key keeps its place and takes the new value. */
  function Merge<C(==)>(es: seq<Entry<C>>, e: Entry<C>): (r: seq<Entry<C>>)
    ensures e in r
    ensures |r| == if FindKey(es, e.key).Some? then |es| else |es| + 1
    ensures forall j :: 0 <= j < |es| && es[j].key != e.key ==> r[j] == es[j]
  {
    match FindKey(es, e.key)
    case Some(i) =>
      assert es[i := e][i] == e;
      es[i := e]
    case None => es + [e]
  }

  /** Merging an entry whose key is new appends it. */
  lemma MergeNew<C>(es: seq<Entry<C>>, e: Entry<C>)
    requires forall j :: 0 <= j < |es| ==> es[j].key != e.key
    ensures Merge(es, e) == es + [e]
  {
  }

  /** `to_h` as an entry: the node's key mapped to the merged encodings of its children. */
  function ToEntry<C(==)>(t: Node<C>): (e: Entry<C>)
    ensures e.key == KeyOf(t) && e.value.Hash?
    ensures t.kids == [] ==> e.value == Hash([])
    decreases t, |t.kids| + 1
  {
    Entry(KeyOf(t), Hash(ChildrenHash(t, |t.kids|)))
  }

  /** The children hash after merging the encodings of the first n children. */
  function ChildrenHash<C(==)>(t: Node<C>, n: nat): (r: seq<Entry<C>>)
    requires n <= |t.kids|
    ensures |r| <= n
    decreases t, n
  {
    if n == 0 then [] else Merge(ChildrenHash(t, n - 1), ToEntry(t.kids[n - 1]))
  }

  /** `to_h`: a one-entry Hash. */
  function ToH<C(==)>(t: Node<C>): (v: Value<C>)
    ensures v.Hash? && |v.entries| == 1 && v.entries[0].key == KeyOf(t)
    ensures t.kids == [] ==> v.entries[0].value == Hash([])
  {
    Hash([ToEntry(t)])
  }

  /** With distinct child names no merge collides: the children hash lists every child's encoding in order. */
  lemma {:induction false} ChildrenHashInOrder<C>(t: Node<C>, n: nat)
    requires n <= |t.kids|
    requires forall i, j :: 0 <= i < j < |t.kids| ==> t.kids[i].name != t.kids[j].name
    ensures |ChildrenHash(t, n)| == n
    ensures forall j :: 0 <= j < n ==> ChildrenHash(t, n)[j] == ToEntry(t.kids[j])
  {
    if n > 0 {
      ChildrenHashInOrder(t, n - 1);
      var prev := ChildrenHash(t, n - 1);
      var e := ToEntry(t.kids[n - 1]);
      forall j | 0 <= j < n - 1 ensures prev[j].key == KeyOf(t.kids[j]) && t.kids[j].name != t.kids[n - 1].name {
        assert prev[j] == ToEntry(t.kids[j]);
      }
      ChildrenHashStep(t, n);
      var r := ChildrenHash(t, n);
      forall j | 0 <= j < n ensures r[j] == ToEntry(t.kids[j]) {
        if j < n - 1 { assert r[j] == prev[j]; } else { assert r[j] == e; }
      }
    }
  }

  /** A child whose name no earlier child bears adds its entry at the end of the children hash. */
  lemma ChildrenHashStep<C>(t: Node<C>, n: nat)
    requires 0 < n <= |t.kids|
    requires |ChildrenHash(t, n - 1)| == n - 1
    requires forall j :: 0 <= j < n - 1 ==>
      ChildrenHash(t, n - 1)[j].key == KeyOf(t.kids[j]) && t.kids[j].name != t.kids[n - 1].name
    ensures ChildrenHash(t, n) == ChildrenHash(t, n - 1) + [ToEntry(t.kids[n - 1])]
  {
    var prev := ChildrenHash(t, n - 1);
    var e := ToEntry(t.kids[n - 1]);
    forall j | 0 <= j < |prev| ensures prev[j].key != e.key {
      assert prev[j].key.name == t.kids[j].name;
    }
    MergeNew(prev, e);
  }

  /** Re-adding the decoded children one by one rebuilds the node and returns them all. */
  lemma {:induction false} AddEntriesRebuild<C>(t: Node<C>, v: Value<C>, i: nat)
    requires v.Hash? && |v.entries| == |t.kids| && i <= |t.kids|
    requires forall j :: i <= j < |t.kids| ==> FromEntry(v.entries[j]) == Ok(t.kids[j])
    requires forall a, b :: 0 <= a < b < |t.kids| ==> t.kids[a].name != t.kids[b].name
    ensures AddEntries(Node(t.name, t.content, t.kids[..i]), v, i) == Outcome(t, Ok(t.kids[i..]))
    decreases |t.kids| - i
  {
    if i == |t.kids| {
      assert t.kids[..i] == t.kids;
    } else {
      var prefix := t.kids[..i];
      KidNamesSpec(prefix, t.kids[i].name);
      assert t.kids[..i + 1] == prefix + [t.kids[i]];
      AddEntriesRebuild(t, v, i + 1);
      assert t.kids[i..] == [t.kids[i]] + t.kids[i + 1..];
    }
  }

  /** Decoding the entry `to_h` writes gives the same names, content and child order back. */
  lemma {:induction false} EntryRoundTrip<C>(t: Node<C>)
    requires SiblingNamesDistinct(t)
    ensures FromEntry(ToEntry(t)) == Ok(t)
    decreases t
  {
    var kids := t.kids;
    ChildrenHashInOrder(t, |kids|);
    var v := Hash(ChildrenHash(t, |kids|));
    forall j | 0 <= j < |kids| ensures FromEntry(v.entries[j]) == Ok(kids[j]) {
      EntryRoundTrip(kids[j]);
    }
    AddEntriesRebuild(t, v, 0);
    assert kids[..0] == [] && kids[0..] == kids;
  }

  /** `from_hash(to_h(t))` reproduces `t` when no two siblings share a name. */
  lemma HashRoundTrip<C>(t: Node<C>)
    requires SiblingNamesDistinct(t)
    ensures FromHash(ToH(t)) == Ok(t)
  {
    EntryRoundTrip(t);
  }
}
