/**
 * The JSON object shape of `Tree::Utils::JSONConverter`: `as_json` builds the
 * object for a subtree, `json_create` rebuilds a node from an object whose
 * children have already been turned back into nodes (the JSON library
 * revives nested objects first).
 */
module JsonConverter {
  import opened Wrappers
  import opened TreeValue

  /** The class name `as_json` stores under the JSON create id. */
  const ClassTag: string := "Tree::TreeNode"

  /** A parsed JSON object: a missing key reads as nil (`None`, `Absent`). */
  datatype JsonObject<C> = JsonObject(
    name: Option<string>,
    content: Option<C>,
    createId: string,
    children: Children<C>)

  /** The `children` key: absent, or a list of objects. */
  datatype Children<C> = Absent | Present(objects: seq<JsonObject<C>>)

  type Node<C> = Tree<Option<C>>

  /**
   * `as_json`: name, content and class tag always; `children` only for a
   * node that has children, holding their objects in child order.
   */
  function AsJson<C>(t: Node<C>): (o: JsonObject<C>)
    ensures o.name == Some(t.name) && o.content == t.content && o.createId == ClassTag
    ensures o.children.Present? <==> t.kids != []
    ensures o.children.Present? ==>
      |o.children.objects| == |t.kids| && forall i :: 0 <= i < |t.kids| ==> o.children.objects[i] == AsJson(t.kids[i])
    decreases t
  {
    var kids := seq(|t.kids|, i requires 0 <= i < |t.kids| => AsJson(t.kids[i]));
    JsonObject(Some(t.name), t.content, ClassTag, if t.kids == [] then Absent else Present(kids))
  }

  /** No child in `ks` bears a name of `ts` or of an earlier child in `ks`. */
  predicate FreshNames<C>(ts: seq<Node<C>>, ks: seq<Node<C>>)
  {
    && (forall j :: 0 <= j < |ks| ==> ks[j].name !in KidNames(ts))
    && (forall a, b :: 0 <= a < b < |ks| ==> ks[a].name != ks[b].name)
  }

  /** A name is among those of `ts + [k]` exactly when `ts` or `k` bears it. */
  lemma KidNamesSnoc<C>(ts: seq<Node<C>>, k: Node<C>, x: string)
    ensures x in KidNames(ts + [k]) <==> x in KidNames(ts) || x == k.name
  {
    KidNamesSpec(ts, x);
    KidNamesSpec(ts + [k], x);
    if x in KidNames(ts) {
      var i :| 0 <= i < |ts| && ts[i].name == x;
      assert (ts + [k])[i] == ts[i];
    }
    if x == k.name {
      assert (ts + [k])[|ts|] == k;
    }
    if x in KidNames(ts + [k]) && x != k.name {
      var i :| 0 <= i < |ts| + 1 && (ts + [k])[i].name == x;
      assert i < |ts| && ts[i].name == x;
    }
  }

  /** The first child's name is fresh, and the rest are fresh for the children with it appended. */
  lemma FreshNamesCons<C>(ts: seq<Node<C>>, ks: seq<Node<C>>)
    requires ks != []
    ensures FreshNames(ts, ks) <==>
      ks[0].name !in KidNames(ts) && FreshNames(ts + [ks[0]], ks[1..])
  {
    var k, rest := ks[0], ks[1..];
    forall j | 0 <= j < |rest|
      ensures rest[j].name in KidNames(ts + [k]) <==> rest[j].name in KidNames(ts) || rest[j].name == k.name
    {
      KidNamesSnoc(ts, k, rest[j].name);
    }
    if ks[0].name !in KidNames(ts) && FreshNames(ts + [k], rest) {
      forall a, b | 0 <= a < b < |ks| ensures ks[a].name != ks[b].name {
        assert ks[b] == rest[b - 1];
        if a > 0 { assert ks[a] == rest[a - 1]; }
      }
      forall j | 0 <= j < |ks| ensures ks[j].name !in KidNames(ts) {
        if j > 0 { assert ks[j] == rest[j - 1]; }
      }
    }
    if FreshNames(ts, ks) {
      forall j | 0 <= j < |rest| ensures rest[j].name !in KidNames(ts + [k]) {
        assert rest[j] == ks[j + 1];
      }
      forall a, b | 0 <= a < b < |rest| ensures rest[a].name != rest[b].name {
        assert rest[a] == ks[a + 1] && rest[b] == ks[b + 1];
      }
    }
  }

  /**
   * The children appended one by one with `<<`: all of them, in order, when
   * each name is new to the node and to the earlier ones; otherwise it
   * raises for the first repeated name.
   */
  function AttachAll<C>(t: Node<C>, ks: seq<Node<C>>): (r: Result<Node<C>>)
    ensures r.Ok? <==> FreshNames(t.kids, ks)
    ensures r.Ok? ==> r.value == Node(t.name, t.content, t.kids + ks)
    ensures r.Err? ==> r.error == DuplicateName
    decreases |ks|
  {
    if ks == [] then
      assert t.kids + ks == t.kids;
      Ok(t)
    else
      FreshNamesCons(t.kids, ks);
      match AddChild(t, ks[0])
      case Err(e) => Err(e)
      case Ok(t2) =>
        assert t.kids + ks == t2.kids + ks[1..];
        AttachAll(t2, ks[1..])
  }

  /** `json_create` as a value: a new node from name and content, then its children in list order. */
  function Create<C>(name: Option<string>, content: Option<C>, kids: Option<seq<Node<C>>>): (r: Result<Node<C>>)
    ensures r.Err? <==> name.None? || (kids.Some? && !FreshNames([], kids.value))
    ensures r.Err? ==> r.error == (if name.None? then InvalidName else DuplicateName)
    ensures r.Ok? ==> r.value == Node(name.value, content, if kids.None? then [] else kids.value)
  {
    if name.None? then Err(InvalidName)
    else if kids.None? then Ok(Node(name.value, content, []))
    else AttachAll(Node(name.value, content, []), kids.value)
  }

  /** `json_create`, with its each-loop of `<<`. */
  method JsonCreate<C>(name: Option<string>, content: Option<C>, kids: Option<seq<Node<C>>>)
    returns (r: Result<Node<C>>)
    ensures r == Create(name, content, kids)
    ensures r.Ok? ==> r.value.name == name.value && r.value.content == content
    ensures r.Ok? ==> r.value.kids == (if kids.None? then [] else kids.value)
  {
    if name.None? {
      return Err(InvalidName);
    }
    var node: Node<C> := Node(name.value, content, []);
    if kids.None? {
      return Ok(node);
    }
    var ks := kids.value;
    var i := 0;
    while i < |ks|
      invariant 0 <= i <= |ks|
      invariant AttachAll(node, ks[i..]) == Create(name, content, kids)
    {
      var next := AddChild(node, ks[i]);
      if next.Err? {
        return Err(next.error);
      }
      assert ks[i..][1..] == ks[i + 1..];
      node := next.value;
      i := i + 1;
    }
    assert ks[i..] == [];
    r := Ok(node);
  }

  /** Reviving an object: its children first, then `json_create`. */
  function Decode<C>(o: JsonObject<C>): (r: Result<Node<C>>)
    ensures r.Ok? ==> o.name == Some(r.value.name) && r.value.content == o.content
    ensures r.Ok? ==> |r.value.kids| == if o.children.Absent? then 0 else |o.children.objects|
    decreases o, 1
  {
    var kids := if o.children.Absent? then Ok([]) else DecodeList(o, 0);
    if kids.Err? then Err(kids.error)
    else Create(o.name, o.content, if o.children.Absent? then None else Some(kids.value))
  }

  function DecodeList<C>(o: JsonObject<C>, i: nat): (r: Result<seq<Node<C>>>)
    requires o.children.Present? && i <= |o.children.objects|
    ensures r.Ok? ==> |r.value| == |o.children.objects| - i
    decreases o, 0, |o.children.objects| - i
  {
    var cs := o.children.objects;
    if i == |cs| then Ok([])
    else match Decode(cs[i])
      case Err(e) => Err(e)
      case Ok(c) => match DecodeList(o, i + 1)
        case Err(e) => Err(e)
        case Ok(rest) => Ok([c] + rest)
  }

  /** An object without `children` revives as a leaf; a nil name raises. */
  lemma LeafObject<C>(name: string, content: Option<C>, tag: string)
    ensures Decode(JsonObject(Some(name), content, tag, Absent)) == Ok(Node(name, content, []))
    ensures Decode(JsonObject(None, content, tag, Absent)) == Err(InvalidName)
  {
  }

  /** Appending children with pairwise distinct new names rebuilds the node. */
  lemma {:induction false} AttachAllRebuild<C>(t: Node<C>, i: nat)
    requires i <= |t.kids|
    requires forall a, b :: 0 <= a < b < |t.kids| ==> t.kids[a].name != t.kids[b].name
    ensures AttachAll(Node(t.name, t.content, t.kids[..i]), t.kids[i..]) == Ok(t)
    decreases |t.kids| - i
  {
    if i == |t.kids| {
      assert t.kids[..i] == t.kids && t.kids[i..] == [];
    } else {
      var prefix := t.kids[..i];
      KidNamesSpec(prefix, t.kids[i].name);
      assert t.kids[..i + 1] == prefix + [t.kids[i]];
      assert t.kids[i..][1..] == t.kids[i + 1..];
      AttachAllRebuild(t, i + 1);
    }
  }

  /** The children objects of an encoding revive to the children, in order. */
  lemma {:induction false} DecodeListOfEncoding<C>(t: Node<C>, i: nat)
    requires t.kids != [] && i <= |t.kids|
    requires forall j :: 0 <= j < |t.kids| ==> Decode(AsJson(t.kids[j])) == Ok(t.kids[j])
    ensures DecodeList(AsJson(t), i) == Ok(t.kids[i..])
    decreases |t.kids| - i
  {
    if i < |t.kids| {
      DecodeListOfEncoding(t, i + 1);
      assert t.kids[i..] == [t.kids[i]] + t.kids[i + 1..];
    }
  }

  /** Reviving `as_json(t)` gives `t` back when no two siblings share a name. */
  lemma {:induction false} JsonRoundTrip<C>(t: Node<C>)
    requires SiblingNamesDistinct(t)
    ensures Decode(AsJson(t)) == Ok(t)
    decreases t
  {
    forall j | 0 <= j < |t.kids| ensures Decode(AsJson(t.kids[j])) == Ok(t.kids[j]) {
      JsonRoundTrip(t.kids[j]);
    }
    if t.kids != [] {
      DecodeListOfEncoding(t, 0);
      assert t.kids[0..] == t.kids && t.kids[..0] == [];
      AttachAllRebuild(t, 0);
    }
  }
}
