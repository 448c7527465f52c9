/**
 * The flat pre-order record form shared by `marshal_dump`/`marshal_load` and
 * by the older text dump. A record carries a node's name, its parent's name
 * (nil for the root) and its content. Loading replays the records in order:
 * each creates a node, registers it under its name (a later node with the
 * same name shadows an earlier one) and is added to the node registered
 * under its parent's name.
 */
module FlatRecords {
  import opened Wrappers
  import opened TreeValue

  datatype Rec<C> = Rec(name: string, parent: Option<string>, content: C)

  // ================================================================ dumping

  /** The records of `each`, in pre-order; `pn` is the parent name written for `t` itself. */
  function Flat<C>(t: Tree<C>, pn: Option<string>): (r: seq<Rec<C>>)
    ensures |r| == Size(t) && r[0] == Rec(t.name, pn, t.content)
    decreases t
  {
    [Rec(t.name, pn, t.content)] + FlatForest(t.kids, t.name)
  }

  function FlatForest<C>(ts: seq<Tree<C>>, x: string): (r: seq<Rec<C>>)
    ensures |r| == ForestSize(ts)
    decreases ts
  {
    if ts == [] then [] else Flat(ts[0], Some(x)) + FlatForest(ts[1..], x)
  }

  /** The names carried by a run of records. */
  function RecNames<C>(rs: seq<Rec<C>>): set<string>
  {
    set i | 0 <= i < |rs| :: rs[i].name
  }

  lemma RecNamesAppend<C>(a: seq<Rec<C>>, b: seq<Rec<C>>)
    ensures RecNames(a + b) == RecNames(a) + RecNames(b)
  {
    forall x | x in RecNames(a + b) ensures x in RecNames(a) + RecNames(b) {
      var i :| 0 <= i < |a + b| && (a + b)[i].name == x;
      if i >= |a| { assert b[i - |a|].name == x; } else { assert a[i].name == x; }
    }
    forall x | x in RecNames(a) ensures x in RecNames(a + b) {
      var i :| 0 <= i < |a| && a[i].name == x;
      assert (a + b)[i].name == x;
    }
    forall x | x in RecNames(b) ensures x in RecNames(a + b) {
      var i :| 0 <= i < |b| && b[i].name == x;
      assert (a + b)[|a| + i].name == x;
    }
  }

  /**
   * Every parent named in a run of records is in `base` or names a record
   * earlier in the run: a loader that replays the run always finds it.
   */
  ghost predicate ParentsEarlier<C>(rs: seq<Rec<C>>, base: set<string>)
  {
    forall i :: 0 <= i < |rs| && rs[i].parent.Some? ==> rs[i].parent.value in base + RecNames(rs[..i])
  }

  lemma ParentsEarlierAppend<C>(a: seq<Rec<C>>, b: seq<Rec<C>>, base: set<string>)
    requires ParentsEarlier(a, base) && ParentsEarlier(b, base)
    ensures ParentsEarlier(a + b, base)
  {
    var ab := a + b;
    forall i | 0 <= i < |ab| && ab[i].parent.Some?
      ensures ab[i].parent.value in base + RecNames(ab[..i])
    {
      if i < |a| {
        assert ab[..i] == a[..i];
      } else {
        var j := i - |a|;
        assert ab[i] == b[j];
        assert ab[..i] == a + b[..j];
        RecNamesAppend(a, b[..j]);
      }
    }
  }

  /**
   * Inside a dump every record's parent is the record's structural parent:
   * `pn` for the first record, an earlier record's name for the others.
   */
  lemma {:induction false} FlatParents<C>(t: Tree<C>, pn: Option<string>)
    ensures ParentsEarlier(Flat(t, pn), if pn.Some? then {pn.value} else {})
    ensures forall i :: 0 < i < |Flat(t, pn)| ==>
      Flat(t, pn)[i].parent.Some? && Flat(t, pn)[i].parent.value in RecNames(Flat(t, pn))
    decreases t, 1
  {
    ForestParents(t.kids, t.name);
    ParentsUnder(Rec(t.name, pn, t.content), FlatForest(t.kids, t.name));
  }

  /** A record followed by a run whose parents are its name or earlier in the run. */
  lemma ParentsUnder<C>(r0: Rec<C>, ff: seq<Rec<C>>)
    requires ParentsEarlier(ff, {r0.name})
    requires forall i :: 0 <= i < |ff| ==>
      ff[i].parent.Some? && (ff[i].parent.value == r0.name || ff[i].parent.value in RecNames(ff))
    ensures ParentsEarlier([r0] + ff, if r0.parent.Some? then {r0.parent.value} else {})
    ensures forall i :: 0 < i < |[r0] + ff| ==>
      ([r0] + ff)[i].parent.Some? && ([r0] + ff)[i].parent.value in RecNames([r0] + ff)
  {
    var r := [r0] + ff;
    var base: set<string> := if r0.parent.Some? then {r0.parent.value} else {};
    assert [r0][0].name == r0.name;
    assert r0.name in RecNames([r0]);
    forall i | 0 <= i < |r| && r[i].parent.Some?
      ensures r[i].parent.value in base + RecNames(r[..i])
    {
      if i > 0 {
        assert r[i] == ff[i - 1];
        assert r[..i] == [r0] + ff[..i - 1];
        RecNamesAppend([r0], ff[..i - 1]);
      }
    }
    RecNamesAppend([r0], ff);
    forall i | 0 < i < |r|
      ensures r[i].parent.Some? && r[i].parent.value in RecNames(r)
    {
      assert r[i] == ff[i - 1];
    }
  }

  lemma {:induction false} ForestParents<C>(ts: seq<Tree<C>>, x: string)
    ensures ParentsEarlier(FlatForest(ts, x), {x})
    ensures forall i :: 0 <= i < |FlatForest(ts, x)| ==>
      FlatForest(ts, x)[i].parent.Some?
      && (FlatForest(ts, x)[i].parent.value == x
          || FlatForest(ts, x)[i].parent.value in RecNames(FlatForest(ts, x)))
    decreases ts
  {
    if ts != [] {
      var a := Flat(ts[0], Some(x));
      var b := FlatForest(ts[1..], x);
      FlatParents(ts[0], Some(x));
      ForestParents(ts[1..], x);
      ParentsEarlierAppend(a, b, {x});
      RecNamesAppend(a, b);
      var ab: seq<Rec<C>> := a + b;
      forall i | 0 <= i < |ab|
        ensures ab[i].parent.Some?
        ensures ab[i].parent.value == x || ab[i].parent.value in RecNames(ab)
      {
        if i >= |a| { assert ab[i] == b[i - |a|]; }
        else { assert ab[i] == a[i]; }
      }
    }
  }

  /** Record i carries the name and content of node i. */
  ghost predicate Describes<C>(rs: seq<Rec<C>>, ns: seq<Tree<C>>)
  {
    |rs| == |ns| && forall i :: 0 <= i < |rs| ==> rs[i].name == ns[i].name && rs[i].content == ns[i].content
  }

  lemma DescribesAppend<C>(a: seq<Rec<C>>, b: seq<Rec<C>>, na: seq<Tree<C>>, nb: seq<Tree<C>>)
    requires Describes(a, na) && Describes(b, nb)
    ensures Describes(a + b, na + nb)
  {
    forall i | 0 <= i < |a + b|
      ensures (a + b)[i].name == (na + nb)[i].name && (a + b)[i].content == (na + nb)[i].content
    {
      if i >= |a| { assert (a + b)[i] == b[i - |a|] && (na + nb)[i] == nb[i - |a|]; }
    }
  }

  /** The dump lists the nodes in `each` order: record i describes node i of the pre-order walk. */
  lemma {:induction false} DumpFollowsEach<C>(t: Tree<C>, pn: Option<string>)
    ensures Describes(Flat(t, pn), PreOrder(t))
    decreases t, 1
  {
    ForestDumpFollowsEach(t.kids, t.name);
    DescribesAppend([Rec(t.name, pn, t.content)], FlatForest(t.kids, t.name), [t], ForestPreOrder(t.kids));
  }

  lemma {:induction false} ForestDumpFollowsEach<C>(ts: seq<Tree<C>>, x: string)
    ensures Describes(FlatForest(ts, x), ForestPreOrder(ts))
    decreases ts
  {
    if ts != [] {
      DumpFollowsEach(ts[0], Some(x));
      ForestDumpFollowsEach(ts[1..], x);
      DescribesAppend(Flat(ts[0], Some(x)), FlatForest(ts[1..], x), PreOrder(ts[0]), ForestPreOrder(ts[1..]));
    }
  }

  // ================================================================ loading

  /** The name registry after n records: every name maps to its most recent record. */
  function NameMap<C>(rs: seq<Rec<C>>, n: nat): (m: map<string, nat>)
    requires n <= |rs|
    ensures forall x :: x in m ==> m[x] < n && rs[m[x]].name == x
  {
    if n == 0 then map[] else NameMap(rs, n - 1)[rs[n - 1].name := n - 1]
  }

  /** The registry holds exactly the names seen so far, each at its latest record. */
  lemma NameMapSpec<C>(rs: seq<Rec<C>>, n: nat)
    requires n <= |rs|
    ensures NameMap(rs, n).Keys == RecNames(rs[..n])
    ensures forall x, k :: x in NameMap(rs, n) && NameMap(rs, n)[x] < k < n ==> rs[k].name != x
  {
    NameMapKeys(rs, n);
    NameMapLatest(rs, n);
  }

  lemma {:induction false} NameMapKeys<C>(rs: seq<Rec<C>>, n: nat)
    requires n <= |rs|
    ensures NameMap(rs, n).Keys == RecNames(rs[..n])
  {
    if n > 0 {
      NameMapKeys(rs, n - 1);
      assert rs[..n] == rs[..n - 1] + [rs[n - 1]];
      RecNamesAppend(rs[..n - 1], [rs[n - 1]]);
      assert RecNames([rs[n - 1]]) == {rs[n - 1].name};
    }
  }

  lemma {:induction false} NameMapLatest<C>(rs: seq<Rec<C>>, n: nat)
    requires n <= |rs|
    ensures forall x, k :: x in NameMap(rs, n) && NameMap(rs, n)[x] < k < n ==> rs[k].name != x
  {
    if n > 0 {
      NameMapLatest(rs, n - 1);
      var m0, m := NameMap(rs, n - 1), NameMap(rs, n);
      assert m == m0[rs[n - 1].name := n - 1];
      forall x, k | x in m && m[x] < k < n ensures rs[k].name != x {
        if x != rs[n - 1].name {
          assert m[x] == m0[x];
        }
      }
    }
  }

  /** The names of the nodes listed in `ks`: the keys of that node's name index. */
  function KidNamesOf<C>(rs: seq<Rec<C>>, ks: seq<nat>): set<string>
  {
    set k | k in ks && k < |rs| :: rs[k].name
  }

  /** No record names itself as its parent. */
  predicate NoSelfParent<C>(rs: seq<Rec<C>>)
  {
    forall i :: 0 <= i < |rs| ==> rs[i].parent != Some(rs[i].name)
  }

  /** Every node lists only records after it and before n. */
  predicate Forward(kids: seq<seq<nat>>, n: nat)
  {
    forall j, k :: 0 <= j < |kids| && k in kids[j] ==> j < k < n
  }

  /** Child lists in which every node lists only later records. */
  predicate WellFormed<C>(rs: seq<Rec<C>>, kids: seq<seq<nat>>)
  {
    |kids| == |rs| && Forward(kids, |rs|)
  }

  lemma ForwardStep(kids: seq<seq<nat>>, n: nat, p: nat)
    requires |kids| == n && Forward(kids, n) && p <= n
    ensures Forward(kids + [[]], n + 1)
    ensures p < n ==> Forward((kids + [[]])[p := kids[p] + [n]], n + 1)
  {
    var k1 := kids + [[]];
    assert forall j :: 0 <= j < n ==> k1[j] == kids[j];
    if p < n {
      var k2 := k1[p := kids[p] + [n]];
      forall j, k | 0 <= j < |k2| && k in k2[j] ensures j < k < n + 1 {
        if j == p && k !in kids[p] { assert k == n; }
      }
    }
  }

  /**
   * The child lists after replaying the first n records: the new node is
   * registered; one with a parent name is added to the node registered under
   * that name, which fails when the name is unregistered or when that node
   * already has a child of the same name.
   */
  function ReplaySpec<C>(rs: seq<Rec<C>>, n: nat): (r: Result<seq<seq<nat>>>)
    requires n <= |rs| && NoSelfParent(rs)
    ensures r.Ok? ==> |r.value| == n && Forward(r.value, n)
  {
    if n == 0 then Ok([])
    else match ReplaySpec(rs, n - 1)
      case Err(e) => Err(e)
      case Ok(kids) =>
        var j := n - 1;
        var kids1 := kids + [[]];
        ForwardStep(kids, j, j);
        match rs[j].parent
        case None => Ok(kids1)
        case Some(pn) =>
          var names := NameMap(rs, n);
          if pn !in names then Err(MissingParent)
          else
            var p := names[pn];
            assert rs[j].parent != Some(rs[j].name);
            ForwardStep(kids, j, p);
            if rs[j].name in KidNamesOf(rs, kids1[p]) then Err(DuplicateName)
            else Ok(kids1[p := kids1[p] + [j]])
  }

  /** Once a record fails, every longer replay fails the same way. */
  lemma {:induction false} ReplayErrSticks<C>(rs: seq<Rec<C>>, n: nat, m: nat)
    requires n <= m <= |rs| && NoSelfParent(rs) && ReplaySpec(rs, n).Err?
    ensures ReplaySpec(rs, m) == ReplaySpec(rs, n)
    decreases m - n
  {
    if n < m {
      ReplayErrSticks(rs, n, m - 1);
    }
  }

  /** One more record: the replay's three outcomes. */
  lemma {:induction false} ReplayNext<C>(rs: seq<Rec<C>>, i: nat, kids: seq<seq<nat>>)
    requires i < |rs| && NoSelfParent(rs) && ReplaySpec(rs, i) == Ok(kids)
    ensures rs[i].parent.None? ==> ReplaySpec(rs, i + 1) == Ok(kids + [[]])
    ensures rs[i].parent.Some? && rs[i].parent.value !in NameMap(rs, i + 1) ==>
      ReplaySpec(rs, i + 1) == Err(MissingParent)
  {
  }

  /** A record whose parent is registered: it fails on a repeated sibling name, else joins the parent's list. */
  lemma {:induction false} ReplayAttach<C>(rs: seq<Rec<C>>, i: nat, kids: seq<seq<nat>>, p: nat)
    requires i < |rs| && NoSelfParent(rs) && ReplaySpec(rs, i) == Ok(kids)
    requires rs[i].parent.Some? && rs[i].parent.value in NameMap(rs, i + 1)
    requires p == NameMap(rs, i + 1)[rs[i].parent.value]
    ensures p < i
    ensures rs[i].name in KidNamesOf(rs, kids[p]) ==> ReplaySpec(rs, i + 1) == Err(DuplicateName)
    ensures rs[i].name !in KidNamesOf(rs, kids[p]) ==>
      ReplaySpec(rs, i + 1) == Ok((kids + [[]])[p := kids[p] + [i]])
  {
    assert rs[i].parent != Some(rs[i].name);
    assert (kids + [[]])[p] == kids[p];
  }

  /** Each node's name index holds the names of the nodes on its child list. */
  predicate Mirrors<C>(rs: seq<Rec<C>>, kids: seq<seq<nat>>, index: seq<set<string>>)
  {
    |index| == |kids| && forall j :: 0 <= j < |kids| ==> index[j] == KidNamesOf(rs, kids[j])
  }

  lemma MirrorsStep<C>(rs: seq<Rec<C>>, kids: seq<seq<nat>>, index: seq<set<string>>, p: nat, i: nat)
    requires Mirrors(rs, kids, index) && i < |rs|
    ensures Mirrors(rs, kids + [[]], index + [{}])
    ensures p < |kids| ==>
      Mirrors(rs, kids[p := kids[p] + [i]], index[p := index[p] + {rs[i].name}])
  {
    assert KidNamesOf(rs, []) == {};
    var k1 := kids + [[]];
    var x1 := index + [{}];
    assert forall j :: 0 <= j < |kids| ==> k1[j] == kids[j] && x1[j] == index[j];
    if p < |kids| {
      assert KidNamesOf(rs, kids[p] + [i]) == KidNamesOf(rs, kids[p]) + {rs[i].name};
    }
  }

  /**
   * The replay loop of `marshal_load` / `loadDumpRep`: a registry of nodes by
   * name, and for every node its child list and its name index.
   */
  method Replay<C>(rs: seq<Rec<C>>) returns (r: Result<seq<seq<nat>>>)
    requires NoSelfParent(rs)
    ensures r == ReplaySpec(rs, |rs|)
  {
    var registry: map<string, nat> := map[];
    var kids: seq<seq<nat>> := [];
    var index: seq<set<string>> := [];
    var i: nat := 0;
    while i < |rs|
      invariant i <= |rs|
      invariant registry == NameMap(rs, i)
      invariant ReplaySpec(rs, i) == Ok(kids)
      invariant Mirrors(rs, kids, index)
    {
      registry := registry[rs[i].name := i];
      var err;
      err, kids, index := ReplayRecord(rs, i, registry, kids, index);
      if err.Some? {
        ReplayErrSticks(rs, i + 1, |rs|);
        return Err(err.value);
      }
      i := i + 1;
    }
    r := Ok(kids);
  }

  /**
   * One pass of the replay loop, after record i has been registered: a new
   * node, attached to the node registered under its parent name.
   */
  method ReplayRecord<C>(rs: seq<Rec<C>>, i: nat, registry: map<string, nat>,
                         kids: seq<seq<nat>>, index: seq<set<string>>)
    returns (err: Option<Error>, kids': seq<seq<nat>>, index': seq<set<string>>)
    requires i < |rs| && NoSelfParent(rs) && registry == NameMap(rs, i + 1)
    requires ReplaySpec(rs, i) == Ok(kids) && Mirrors(rs, kids, index)
    ensures err.Some? ==> ReplaySpec(rs, i + 1) == Err(err.value)
    ensures err.None? ==> ReplaySpec(rs, i + 1) == Ok(kids') && Mirrors(rs, kids', index')
  {
    var rec := rs[i];
    ReplayNext(rs, i, kids);
    MirrorsStep(rs, kids, index, |kids|, i);
    var grown := kids + [[]];
    var grownIndex := index + [{}];
    if rec.parent.None? {
      return None, grown, grownIndex;
    }
    var pn := rec.parent.value;
    if pn !in registry {
      return Some(MissingParent), kids, index;
    }
    var p := registry[pn];
    ReplayAttach(rs, i, kids, p);
    if rec.name in grownIndex[p] {
      return Some(DuplicateName), kids, index;
    }
    MirrorsStep(rs, grown, grownIndex, p, i);
    kids' := grown[p := grown[p] + [i]];
    index' := grownIndex[p := grownIndex[p] + {rec.name}];
    err := None;
  }

  /** The tree of nodes reachable from record j through the child lists. */
  function Build<C>(rs: seq<Rec<C>>, kids: seq<seq<nat>>, j: nat): (t: Tree<C>)
    requires WellFormed(rs, kids) && j < |rs|
    ensures t.name == rs[j].name && t.content == rs[j].content && |t.kids| == |kids[j]|
    decreases |rs| - j + 1, 0
  {
    Node(rs[j].name, rs[j].content, BuildForest(rs, kids, kids[j], j))
  }

  function BuildForest<C>(rs: seq<Rec<C>>, kids: seq<seq<nat>>, js: seq<nat>, lo: nat): (ts: seq<Tree<C>>)
    requires WellFormed(rs, kids) && forall k :: k in js ==> lo < k < |rs|
    ensures |ts| == |js|
    decreases |rs| - lo, |js|
  {
    if js == [] then []
    else
      assert js[0] in js;
      assert forall k :: k in js[1..] ==> k in js;
      [Build(rs, kids, js[0])] + BuildForest(rs, kids, js[1..], lo)
  }

  // ================================================================ replaying a dump

  /** No two records share a name. */
  predicate Unique<C>(rs: seq<Rec<C>>)
  {
    forall i, j :: 0 <= i < j < |rs| ==> rs[i].name != rs[j].name
  }

  /** The positions in [lo, hi) whose record names `x` as parent, in order. */
  function Filter<C>(rs: seq<Rec<C>>, x: string, lo: nat, hi: nat): seq<nat>
    requires lo <= hi <= |rs|
    decreases hi
  {
    if hi == lo then []
    else Filter(rs, x, lo, hi - 1) + (if rs[hi - 1].parent == Some(x) then [hi - 1] else [])
  }

  /** Filter lists positions in range whose record names `x` as parent. */
  lemma {:induction false} FilterSound<C>(rs: seq<Rec<C>>, x: string, lo: nat, hi: nat)
    requires lo <= hi <= |rs|
    ensures forall k :: k in Filter(rs, x, lo, hi) ==> lo <= k < hi && rs[k].parent == Some(x)
    decreases hi
  {
    if hi > lo {
      FilterSound(rs, x, lo, hi - 1);
    }
  }

  lemma {:induction false} FilterSplit<C>(rs: seq<Rec<C>>, x: string, lo: nat, mid: nat, hi: nat)
    requires lo <= mid <= hi <= |rs|
    ensures Filter(rs, x, lo, hi) == Filter(rs, x, lo, mid) + Filter(rs, x, mid, hi)
    decreases hi
  {
    if hi > mid {
      FilterSplit(rs, x, lo, mid, hi - 1);
    }
  }

  lemma {:induction false} FilterNone<C>(rs: seq<Rec<C>>, x: string, lo: nat, hi: nat)
    requires lo <= hi <= |rs|
    requires forall k :: lo <= k < hi ==> rs[k].parent != Some(x)
    ensures Filter(rs, x, lo, hi) == []
    decreases hi
  {
    if hi > lo {
      FilterNone(rs, x, lo, hi - 1);
    }
  }

  /** With unique names and parents named before use, nobody names a later record as parent. */
  lemma {:induction false} NoEarlierChild<C>(rs: seq<Rec<C>>, j: nat, n: nat)
    requires Unique(rs) && ParentsEarlier(rs, {}) && j < n <= |rs|
    ensures forall k :: 0 <= k <= j ==> rs[k].parent != Some(rs[j].name)
  {
    forall k | 0 <= k <= j ensures rs[k].parent != Some(rs[j].name) {
      if rs[k].parent.Some? {
        assert rs[k].parent.value in RecNames(rs[..k]);
        var q :| 0 <= q < k && rs[..k][q].name == rs[k].parent.value;
        assert rs[q].name == rs[k].parent.value;
      }
    }
  }

  /** The child lists a replay of the first n records produces: every record's children by parent name. */
  function KidsBy<C>(rs: seq<Rec<C>>, n: nat): (ks: seq<seq<nat>>)
    requires n <= |rs|
    ensures |ks| == n
  {
    seq(n, j requires 0 <= j < n => Filter(rs, rs[j].name, 0, n))
  }

  lemma {:induction false} UniqueNoSelfParent<C>(rs: seq<Rec<C>>)
    requires Unique(rs) && ParentsEarlier(rs, {})
    ensures NoSelfParent(rs)
  {
    forall i | 0 <= i < |rs| ensures rs[i].parent != Some(rs[i].name) {
      NoEarlierChild(rs, i, |rs|);
    }
  }

  /** How the child lists grow by one record: a root adds an empty list, a child also extends its parent's. */
  lemma {:induction false} KidsByStep<C>(rs: seq<Rec<C>>, j: nat, q: nat)
    requires Unique(rs) && ParentsEarlier(rs, {}) && j < |rs| && q <= j
    ensures rs[j].parent.None? ==> KidsBy(rs, j + 1) == KidsBy(rs, j) + [[]]
    ensures rs[j].parent == Some(rs[q].name) ==>
      KidsBy(rs, j + 1) == (KidsBy(rs, j) + [[]])[q := KidsBy(rs, j)[q] + [j]]
  {
    var n := j + 1;
    var kids := KidsBy(rs, j);
    var target := KidsBy(rs, n);
    var k1 := kids + [[]];
    NoEarlierChild(rs, j, n);
    FilterNone(rs, rs[j].name, 0, n);
    assert target[j] == [];
    forall i | 0 <= i < j
      ensures rs[j].parent != Some(rs[i].name) ==> target[i] == kids[i]
      ensures rs[j].parent == Some(rs[i].name) ==> target[i] == kids[i] + [j]
    {
      assert target[i] == Filter(rs, rs[i].name, 0, n);
    }
    if rs[j].parent.None? {
      assert forall i :: 0 <= i < n ==> k1[i] == target[i];
    }
    if rs[j].parent == Some(rs[q].name) {
      var k2 := k1[q := kids[q] + [j]];
      forall i | 0 <= i < n ensures k2[i] == target[i] {
        if i != q && i != j {
          assert rs[i].name != rs[q].name;
        }
      }
    }
  }

  /**
   * Replaying records with unique names whose parents come first never fails,
   * and attaches to each node exactly the records that name it as parent, in order.
   */
  lemma {:induction false} ReplayUnique<C>(rs: seq<Rec<C>>, n: nat)
    requires Unique(rs) && ParentsEarlier(rs, {}) && n <= |rs|
    ensures NoSelfParent(rs)
    ensures ReplaySpec(rs, n) == Ok(KidsBy(rs, n))
  {
    UniqueNoSelfParent(rs);
    if n == 0 {
      assert KidsBy(rs, 0) == [];
    } else {
      var j := n - 1;
      ReplayUnique(rs, j);
      ReplayUniqueStep(rs, j);
      assert j + 1 == n;
    }
  }

  lemma ReplayUniqueStep<C>(rs: seq<Rec<C>>, j: nat)
    requires Unique(rs) && ParentsEarlier(rs, {}) && j < |rs| && NoSelfParent(rs)
    requires ReplaySpec(rs, j) == Ok(KidsBy(rs, j))
    ensures ReplaySpec(rs, j + 1) == Ok(KidsBy(rs, j + 1))
  {
    var kids := KidsBy(rs, j);
    ReplayNext(rs, j, kids);
    if rs[j].parent.None? {
      KidsByStep(rs, j, 0);
    } else {
      var q := RegisteredParent(rs, j);
      ReplayAttach(rs, j, kids, q);
      KidsByStep(rs, j, q);
      FilterSound(rs, rs[q].name, 0, j);
      assert rs[j].name !in KidNamesOf(rs, kids[q]);
    }
  }

  /** With unique names and parents named first, a record's parent name is registered at its only record. */
  lemma {:induction false} RegisteredParent<C>(rs: seq<Rec<C>>, j: nat) returns (q: nat)
    requires Unique(rs) && ParentsEarlier(rs, {}) && j < |rs| && rs[j].parent.Some?
    ensures q < j && rs[q].name == rs[j].parent.value
    ensures rs[j].parent.value in NameMap(rs, j + 1) && NameMap(rs, j + 1)[rs[j].parent.value] == q
  {
    var pn := rs[j].parent.value;
    NameMapSpec(rs, j + 1);
    assert pn in RecNames(rs[..j]);
    q :| 0 <= q < j && rs[..j][q].name == pn;
    assert rs[q].name == pn && rs[..j + 1][q] == rs[q];
    assert pn in RecNames(rs[..j + 1]);
  }

  // ================================================================ rebuilding a dump

  /** `rs` sits in `R` at offset `o`. */
  ghost predicate At<C>(R: seq<Rec<C>>, o: nat, rs: seq<Rec<C>>)
  {
    o + |rs| <= |R| && R[o..o + |rs|] == rs
  }

  lemma {:induction false} AtSplit<C>(R: seq<Rec<C>>, o: nat, a: seq<Rec<C>>, b: seq<Rec<C>>)
    requires At(R, o, a + b)
    ensures At(R, o, a) && At(R, o + |a|, b)
  {
    assert R[o..o + |a|] == (a + b)[..|a|];
    assert R[o + |a|..o + |a| + |b|] == (a + b)[|a|..];
  }

  /** Records outside positions [o, o + n) never name one of `names` as their parent. */
  predicate Sealed<C>(R: seq<Rec<C>>, o: nat, n: nat, names: set<string>)
  {
    forall i :: 0 <= i < |R| && !(o <= i < o + n) && R[i].parent.Some? ==> R[i].parent.value !in names
  }

  /** With unique names, two adjacent runs of records share no name. */
  lemma {:induction false} UniqueApart<C>(R: seq<Rec<C>>, o: nat, a: seq<Rec<C>>, b: seq<Rec<C>>)
    requires Unique(R) && At(R, o, a + b)
    ensures RecNames(a) !! RecNames(b)
  {
    AtSplit(R, o, a, b);
    forall x | x in RecNames(a) ensures x !in RecNames(b) {
      var i :| 0 <= i < |a| && a[i].name == x;
      assert R[o + i] == a[i];
      forall k | 0 <= k < |b| ensures b[k].name != x {
        assert R[o + |a| + k] == b[k];
      }
    }
  }

  lemma {:induction false} SealedSub<C>(R: seq<Rec<C>>, o: nat, n: nat, names: set<string>, sub: set<string>)
    requires Sealed(R, o, n, names) && sub <= names
    ensures Sealed(R, o, n, sub)
  {
  }

  /** When only the block [o, o + n) can name x as parent, x's children all lie in the block. */
  lemma {:induction false} SealedFilter<C>(R: seq<Rec<C>>, o: nat, n: nat, names: set<string>, x: string)
    requires Sealed(R, o, n, names) && x in names && o + n <= |R|
    ensures Filter(R, x, 0, |R|) == Filter(R, x, o, o + n)
  {
    FilterSplit(R, x, 0, o, |R|);
    FilterSplit(R, x, o, o + n, |R|);
    FilterNone(R, x, 0, o);
    FilterNone(R, x, o + n, |R|);
  }

  lemma {:induction false} KidsWellFormed<C>(R: seq<Rec<C>>)
    requires Unique(R) && ParentsEarlier(R, {})
    ensures WellFormed(R, KidsBy(R, |R|))
  {
    ReplayUnique(R, |R|);
  }

  /** The positions at which the trees of a forest start when dumped from `o`. */
  function Starts<C>(ts: seq<Tree<C>>, o: nat): (r: seq<nat>)
    ensures |r| == |ts|
    ensures forall k :: k in r ==> o <= k < o + ForestSize(ts)
    decreases ts
  {
    if ts == [] then [] else [o] + Starts(ts[1..], o + Size(ts[0]))
  }

  /** The first record of a dumped tree, and how its name relates to the rest of the block. */
  lemma {:induction false} BlockHead<C>(R: seq<Rec<C>>, o: nat, t: Tree<C>, pn: Option<string>)
    requires Unique(R) && At(R, o, Flat(t, pn))
    ensures At(R, o + 1, FlatForest(t.kids, t.name))
    ensures R[o] == Rec(t.name, pn, t.content)
    ensures t.name in RecNames(Flat(t, pn)) && t.name !in RecNames(FlatForest(t.kids, t.name))
    ensures RecNames(FlatForest(t.kids, t.name)) <= RecNames(Flat(t, pn))
  {
    var f := Flat(t, pn);
    var ff := FlatForest(t.kids, t.name);
    assert f == [f[0]] + ff;
    AtSplit(R, o, [f[0]], ff);
    assert R[o] == R[o..o + 1][0];
    RecNamesAppend([f[0]], ff);
    assert t.name in RecNames([f[0]]);
    UniqueApart(R, o, [f[0]], ff);
  }

  /** The child list a replay gives a dumped tree's root: the starts of its subtrees' blocks. */
  lemma {:induction false} BlockKids<C>(R: seq<Rec<C>>, o: nat, t: Tree<C>, pn: Option<string>)
    requires Unique(R) && At(R, o, Flat(t, pn))
    requires Sealed(R, o + 1, Size(t) - 1, RecNames(Flat(t, pn)))
    ensures R[o] == Rec(t.name, pn, t.content)
    ensures KidsBy(R, |R|)[o] == Starts(t.kids, o + 1)
    ensures At(R, o + 1, FlatForest(t.kids, t.name)) && t.name !in RecNames(FlatForest(t.kids, t.name))
    ensures Sealed(R, o + 1, ForestSize(t.kids), RecNames(FlatForest(t.kids, t.name)))
  {
    var n := ForestSize(t.kids);
    var names := RecNames(Flat(t, pn));
    var sub := RecNames(FlatForest(t.kids, t.name));
    assert Size(t) - 1 == n;
    BlockHead(R, o, t, pn);
    SealedFilter(R, o + 1, n, names, t.name);
    SealedSub(R, o + 1, n, names, sub);
    ForestFilter(R, o + 1, t.kids, t.name);
    assert R[o].name == t.name;
    assert Filter(R, t.name, 0, |R|) == Starts(t.kids, o + 1);
    KidsAt(R, o, t.name, Starts(t.kids, o + 1));
  }

  /** Node o's child list is the positions that name it as parent. */
  lemma KidsAt<C>(R: seq<Rec<C>>, o: nat, x: string, starts: seq<nat>)
    requires o < |R| && R[o].name == x && Filter(R, x, 0, |R|) == starts
    ensures KidsBy(R, |R|)[o] == starts
  {
  }

  /**
   * A tree dumped at offset `o` of a dump with unique names rebuilds to itself,
   * provided no record outside the block names a node of the block as parent.
   */
  lemma {:induction false} BuildBlock<C>(R: seq<Rec<C>>, o: nat, t: Tree<C>, pn: Option<string>)
    requires Unique(R) && WellFormed(R, KidsBy(R, |R|)) && At(R, o, Flat(t, pn))
    requires Sealed(R, o + 1, Size(t) - 1, RecNames(Flat(t, pn)))
    ensures Build(R, KidsBy(R, |R|), o) == t
    decreases t, 1
  {
    var K := KidsBy(R, |R|);
    BlockKids(R, o, t, pn);
    ForestBlock(R, o + 1, t.kids, t.name, o);
    assert Build(R, K, o) == Node(t.name, t.content, BuildForest(R, K, K[o], o));
  }

  /** A dumped forest splits into its first tree's block and the rest. */
  lemma {:induction false} ForestSplit<C>(R: seq<Rec<C>>, o: nat, ts: seq<Tree<C>>, x: string)
    requires ts != [] && Unique(R) && At(R, o, FlatForest(ts, x))
    ensures At(R, o, Flat(ts[0], Some(x))) && At(R, o + Size(ts[0]), FlatForest(ts[1..], x))
    ensures RecNames(Flat(ts[0], Some(x))) !! RecNames(FlatForest(ts[1..], x))
    ensures RecNames(FlatForest(ts, x)) == RecNames(Flat(ts[0], Some(x))) + RecNames(FlatForest(ts[1..], x))
    ensures R[o].parent == Some(x)
  {
    var a := Flat(ts[0], Some(x));
    var b := FlatForest(ts[1..], x);
    AtSplit(R, o, a, b);
    UniqueApart(R, o, a, b);
    RecNamesAppend(a, b);
    assert R[o] == R[o..o + |a|][0];
  }

  /** The rest of a dumped forest is sealed: only the first tree's root and the rest itself name its nodes. */
  lemma {:induction false} ForestSealRest<C>(R: seq<Rec<C>>, o: nat, ts: seq<Tree<C>>, x: string)
    requires ts != [] && Unique(R) && At(R, o, FlatForest(ts, x))
    requires x !in RecNames(FlatForest(ts, x))
    requires Sealed(R, o, ForestSize(ts), RecNames(FlatForest(ts, x)))
    ensures x !in RecNames(FlatForest(ts[1..], x))
    ensures Sealed(R, o + Size(ts[0]), ForestSize(ts[1..]), RecNames(FlatForest(ts[1..], x)))
  {
    var a := Flat(ts[0], Some(x));
    var b := FlatForest(ts[1..], x);
    var s0 := Size(ts[0]);
    ForestSplit(R, o, ts, x);
    FlatParents(ts[0], Some(x));
    forall i | 0 <= i < |R| && !(o + s0 <= i < o + s0 + |b|) && R[i].parent.Some?
      ensures R[i].parent.value !in RecNames(b)
    {
      if o <= i < o + s0 {
        assert R[i] == R[o..o + |a|][i - o];
      }
    }
  }

  /** Every parent named in a run of records lies in `allowed`. */
  ghost predicate ParentsIn<C>(rs: seq<Rec<C>>, allowed: set<string>)
  {
    forall i :: 0 <= i < |rs| && rs[i].parent.Some? ==> rs[i].parent.value in allowed
  }

  lemma {:induction false} ParentsInAt<C>(R: seq<Rec<C>>, o: nat, rs: seq<Rec<C>>, allowed: set<string>)
    requires At(R, o, rs) && ParentsIn(rs, allowed)
    ensures forall i :: o <= i < o + |rs| && R[i].parent.Some? ==> R[i].parent.value in allowed
  {
    forall i | o <= i < o + |rs| && R[i].parent.Some? ensures R[i].parent.value in allowed {
      assert R[i] == R[o..o + |rs|][i - o];
    }
  }

  /** Below its root, a dumped tree names only its own nodes as parents. */
  lemma {:induction false} FlatInnerParents<C>(R: seq<Rec<C>>, o: nat, t: Tree<C>, pn: Option<string>)
    requires At(R, o, Flat(t, pn))
    ensures forall i :: o < i < o + Size(t) && R[i].parent.Some? ==> R[i].parent.value in RecNames(Flat(t, pn))
  {
    var f := Flat(t, pn);
    FlatParents(t, pn);
    assert f == [f[0]] + f[1..];
    AtSplit(R, o, [f[0]], f[1..]);
    assert ParentsIn(f[1..], RecNames(f)) by {
      forall i | 0 <= i < |f[1..]| ensures f[1..][i] == f[i + 1] { }
    }
    ParentsInAt(R, o + 1, f[1..], RecNames(f));
  }

  /** A dumped forest names only `x` and its own nodes as parents. */
  lemma {:induction false} ForestAllParents<C>(R: seq<Rec<C>>, o: nat, ts: seq<Tree<C>>, x: string)
    requires At(R, o, FlatForest(ts, x))
    ensures forall i :: o <= i < o + ForestSize(ts) && R[i].parent.Some? ==>
      R[i].parent.value in {x} + RecNames(FlatForest(ts, x))
  {
    ForestParents(ts, x);
    ParentsInAt(R, o, FlatForest(ts, x), {x} + RecNames(FlatForest(ts, x)));
  }

  /** The first tree of a dumped forest is sealed, and its inner records do not name `x` as parent. */
  lemma {:induction false} ForestSealFirst<C>(R: seq<Rec<C>>, o: nat, ts: seq<Tree<C>>, x: string)
    requires ts != [] && Unique(R) && At(R, o, FlatForest(ts, x))
    requires x !in RecNames(FlatForest(ts, x))
    requires Sealed(R, o, ForestSize(ts), RecNames(FlatForest(ts, x)))
    ensures Sealed(R, o + 1, Size(ts[0]) - 1, RecNames(Flat(ts[0], Some(x))))
    ensures forall i :: o < i < o + Size(ts[0]) ==> R[i].parent != Some(x)
  {
    var na := RecNames(Flat(ts[0], Some(x)));
    var nb := RecNames(FlatForest(ts[1..], x));
    ForestSplit(R, o, ts, x);
    FlatInnerParents(R, o, ts[0], Some(x));
    ForestAllParents(R, o + Size(ts[0]), ts[1..], x);
    assert x !in na && na !! nb;
  }

  /** A record naming x, followed by a stretch that does not, contributes just its own position. */
  lemma {:induction false} FilterBlockStep<C>(R: seq<Rec<C>>, x: string, o: nat, s0: nat, hi: nat)
    requires 0 < s0 && o + s0 <= hi <= |R| && R[o].parent == Some(x)
    requires forall i :: o < i < o + s0 ==> R[i].parent != Some(x)
    ensures Filter(R, x, o, hi) == [o] + Filter(R, x, o + s0, hi)
    decreases hi
  {
    if hi == o + s0 {
      FilterSplit(R, x, o, o + 1, hi);
      FilterNone(R, x, o + 1, hi);
      assert Filter(R, x, o, o + 1) == [o];
    } else {
      FilterBlockStep(R, x, o, s0, hi - 1);
    }
  }

  /** Inside the first tree of a dumped forest no record below its root names `x` as parent. */
  lemma {:induction false} FirstInnerNotX<C>(R: seq<Rec<C>>, o: nat, ts: seq<Tree<C>>, x: string)
    requires ts != [] && Unique(R) && At(R, o, FlatForest(ts, x))
    requires x !in RecNames(FlatForest(ts, x))
    ensures forall i :: o < i < o + Size(ts[0]) ==> R[i].parent != Some(x)
  {
    ForestSplit(R, o, ts, x);
    FlatInnerParents(R, o, ts[0], Some(x));
  }

  /** In a sealed dumped forest, the records naming `x` as parent are exactly the tree roots. */
  lemma {:induction false} ForestFilter<C>(R: seq<Rec<C>>, o: nat, ts: seq<Tree<C>>, x: string)
    requires Unique(R) && At(R, o, FlatForest(ts, x))
    requires x !in RecNames(FlatForest(ts, x))
    requires Sealed(R, o, ForestSize(ts), RecNames(FlatForest(ts, x)))
    ensures Filter(R, x, o, o + ForestSize(ts)) == Starts(ts, o)
    decreases ts, 2
  {
    if ts != [] {
      ForestFilterHead(R, o, ts, x);
      ForestFilterRest(R, o, ts, x);
      assert Starts(ts, o) == [o] + Starts(ts[1..], o + Size(ts[0]));
    }
  }

  lemma {:induction false} ForestFilterHead<C>(R: seq<Rec<C>>, o: nat, ts: seq<Tree<C>>, x: string)
    requires ts != [] && Unique(R) && At(R, o, FlatForest(ts, x))
    requires x !in RecNames(FlatForest(ts, x))
    requires Sealed(R, o, ForestSize(ts), RecNames(FlatForest(ts, x)))
    ensures o + ForestSize(ts) <= |R|
    ensures Filter(R, x, o, o + ForestSize(ts)) == [o] + Filter(R, x, o + Size(ts[0]), o + ForestSize(ts))
  {
    ForestSplit(R, o, ts, x);
    FirstInnerNotX(R, o, ts, x);
    FilterBlockStep(R, x, o, Size(ts[0]), o + ForestSize(ts));
  }

  lemma {:induction false} ForestFilterRest<C>(R: seq<Rec<C>>, o: nat, ts: seq<Tree<C>>, x: string)
    requires ts != [] && Unique(R) && At(R, o, FlatForest(ts, x))
    requires x !in RecNames(FlatForest(ts, x))
    requires Sealed(R, o, ForestSize(ts), RecNames(FlatForest(ts, x)))
    ensures o + ForestSize(ts) <= |R|
    ensures Filter(R, x, o + Size(ts[0]), o + ForestSize(ts)) == Starts(ts[1..], o + Size(ts[0]))
    decreases ts, 1
  {
    ForestSplit(R, o, ts, x);
    ForestSealRest(R, o, ts, x);
    ForestFilter(R, o + Size(ts[0]), ts[1..], x);
  }

  lemma {:induction false} ForestBlock<C>(R: seq<Rec<C>>, o: nat, ts: seq<Tree<C>>, x: string, lo: nat)
    requires Unique(R) && WellFormed(R, KidsBy(R, |R|)) && At(R, o, FlatForest(ts, x)) && lo < o
    requires x !in RecNames(FlatForest(ts, x))
    requires Sealed(R, o, ForestSize(ts), RecNames(FlatForest(ts, x)))
    ensures BuildForest(R, KidsBy(R, |R|), Starts(ts, o), lo) == ts
    decreases ts, 2
  {
    if ts != [] {
      var K := KidsBy(R, |R|);
      var st := Starts(ts, o);
      assert st[0] == o && st[1..] == Starts(ts[1..], o + Size(ts[0]));
      ForestBlockFirst(R, o, ts, x);
      ForestBlockRest(R, o, ts, x, lo);
      assert BuildForest(R, K, st, lo) == [Build(R, K, o)] + BuildForest(R, K, st[1..], lo);
      assert ts == [ts[0]] + ts[1..];
    }
  }

  lemma {:induction false} ForestBlockFirst<C>(R: seq<Rec<C>>, o: nat, ts: seq<Tree<C>>, x: string)
    requires ts != [] && Unique(R) && WellFormed(R, KidsBy(R, |R|)) && At(R, o, FlatForest(ts, x))
    requires x !in RecNames(FlatForest(ts, x))
    requires Sealed(R, o, ForestSize(ts), RecNames(FlatForest(ts, x)))
    ensures o < |R| && Build(R, KidsBy(R, |R|), o) == ts[0]
    decreases ts, 1
  {
    ForestSplit(R, o, ts, x);
    ForestSealFirst(R, o, ts, x);
    BuildBlock(R, o, ts[0], Some(x));
  }

  lemma {:induction false} ForestBlockRest<C>(R: seq<Rec<C>>, o: nat, ts: seq<Tree<C>>, x: string, lo: nat)
    requires ts != [] && Unique(R) && WellFormed(R, KidsBy(R, |R|)) && At(R, o, FlatForest(ts, x)) && lo < o
    requires x !in RecNames(FlatForest(ts, x))
    requires Sealed(R, o, ForestSize(ts), RecNames(FlatForest(ts, x)))
    ensures BuildForest(R, KidsBy(R, |R|), Starts(ts[1..], o + Size(ts[0])), lo) == ts[1..]
    decreases ts, 1
  {
    ForestSplit(R, o, ts, x);
    ForestSealRest(R, o, ts, x);
    ForestBlock(R, o + Size(ts[0]), ts[1..], x, lo);
  }

  // ================================================================ marshal_dump / marshal_load

  /**
   * `marshal_dump`: one record per node of the receiver's subtree, in `each`
   * order; the receiver's record carries its parent's name, nil on a root.
   */
  function MarshalDump<C>(t: Tree<C>, parentName: Option<string>): (rs: seq<Rec<C>>)
    ensures |rs| == Size(t) && rs[0] == Rec(t.name, parentName, t.content)
    ensures forall i :: 0 < i < |rs| ==> rs[i].parent.Some?
  {
    FlatParents(t, parentName);
    Flat(t, parentName)
  }

  /**
   * The record streams `marshal_load` is modelled on: no record names itself
   * as parent, and only the first record may lack a parent.
   */
  predicate Loadable<C>(rs: seq<Rec<C>>)
  {
    NoSelfParent(rs) && forall i :: 0 < i < |rs| ==> rs[i].parent.Some?
  }

  /**
   * `marshal_load`: replay the records and return the tree grown from the
   * first one. A parent name that was never registered, or a second child of
   * the same name under one parent, aborts the load.
   */
  function Load<C>(rs: seq<Rec<C>>): (r: Result<Tree<C>>)
    requires Loadable(rs)
    ensures r.Ok? ==> |rs| > 0 && r.value.name == rs[0].name && r.value.content == rs[0].content
    ensures rs != [] && ReplaySpec(rs, |rs|).Err? ==> r == Err(ReplaySpec(rs, |rs|).error)
  {
    if rs == [] then Err(MalformedRecord)
    else match ReplaySpec(rs, |rs|)
      case Err(e) => Err(e)
      case Ok(kids) => Ok(Build(rs, kids, 0))
  }

  /** The loop of `marshal_load` followed by reading off the first node's tree. */
  method MarshalLoad<C>(rs: seq<Rec<C>>) returns (r: Result<Tree<C>>)
    requires Loadable(rs)
    ensures r == Load(rs)
  {
    if rs == [] {
      return Err(MalformedRecord);
    }
    var kids := Replay(rs);
    match kids {
      case Err(e) => r := Err(e);
      case Ok(k) => r := Ok(Build(rs, k, 0));
    }
  }

  /** A dump whose node names are unique loads back to the same tree. */
  lemma DumpLoadRoundTrip<C>(t: Tree<C>)
    requires Unique(MarshalDump(t, None))
    ensures Loadable(MarshalDump(t, None)) && Load(MarshalDump(t, None)) == Ok(t)
  {
    var R := MarshalDump(t, None);
    FlatParents(t, None);
    assert ParentsEarlier(R, {});
    UniqueNoSelfParent(R);
    ReplayUnique(R, |R|);
    KidsWellFormed(R);
    assert R[0..|R|] == R;
    BuildBlock(R, 0, t, None);
  }

  /**
   * Dumping a subtree whose root has a parent writes that parent's name into
   * the first record; loading it finds no node of that name and fails.
   */
  lemma SubtreeDumpFails<C>(t: Tree<C>, parentName: string)
    requires parentName != t.name && Loadable(MarshalDump(t, Some(parentName)))
    ensures Load(MarshalDump(t, Some(parentName))) == Err(MissingParent)
  {
    var R := MarshalDump(t, Some(parentName));
    assert NameMap(R, 1) == map[t.name := 0];
    ReplayErrSticks(R, 1, |R|);
  }

  /** The dump of A[B[A], C]: the name A occurs twice. */
  const RepeatedDump: seq<Rec<int>> :=
    [Rec("A", None, 0), Rec("B", Some("A"), 0), Rec("A", Some("B"), 0), Rec("C", Some("A"), 0)]

  lemma RepeatedDumpOf()
    ensures MarshalDump(Node("A", 0, [Node("B", 0, [Node("A", 0, [])]), Node("C", 0, [])]), None) == RepeatedDump
  {
    var R := RepeatedDump;
    var leafA: Tree<int> := Node("A", 0, []);
    var leafC: Tree<int> := Node("C", 0, []);
    var b := Node("B", 0, [leafA]);
    var t := Node("A", 0, [b, leafC]);
    assert Flat(leafA, Some("B")) == [R[2]];
    assert Flat(b, Some("A")) == [R[1], R[2]];
    assert Flat(leafC, Some("A")) == [R[3]];
    assert FlatForest([leafC], "A") == [R[3]];
    assert FlatForest(t.kids, "A") == [R[1], R[2], R[3]];
  }

  lemma RepeatedDumpNames()
    ensures NoSelfParent(RepeatedDump)
    ensures NameMap(RepeatedDump, 1) == map["A" := 0]
    ensures NameMap(RepeatedDump, 2) == map["A" := 0, "B" := 1]
    ensures NameMap(RepeatedDump, 3) == map["A" := 2, "B" := 1]
    ensures NameMap(RepeatedDump, 4) == map["A" := 2, "B" := 1, "C" := 3]
  {
    RepeatedDumpNoSelf();
    RepeatedDumpFirstNames();
    var R := RepeatedDump;
    assert NameMap(R, 3) == map["A" := 2, "B" := 1];
  }

  lemma RepeatedDumpNoSelf()
    ensures NoSelfParent(RepeatedDump)
  {
  }

  lemma RepeatedDumpFirstNames()
    ensures NameMap(RepeatedDump, 1) == map["A" := 0]
    ensures NameMap(RepeatedDump, 2) == map["A" := 0, "B" := 1]
  {
    var R := RepeatedDump;
    assert NameMap(R, 1) == map["A" := 0];
  }

  lemma RepeatedDumpReplayTwo()
    ensures NoSelfParent(RepeatedDump)
    ensures ReplaySpec(RepeatedDump, 2) == Ok([[1], []])
  {
    var R := RepeatedDump;
    RepeatedDumpNames();
    assert KidNamesOf(R, []) == {};
    var k0: seq<seq<nat>> := [];
    var k1: seq<seq<nat>> := [[]];
    var k2: seq<seq<nat>> := [[1], []];
    assert ReplaySpec(R, 0) == Ok(k0);
    assert k0 + [[]] == k1;
    assert ReplaySpec(R, 1) == Ok(k1);
    var u1 := (k1 + [[]])[0 := [] + [1]];
    assert |u1| == 2 && u1[0] == [1] && u1[1] == [];
    assert u1 == k2;
  }

  lemma RepeatedDumpReplayThree()
    ensures NoSelfParent(RepeatedDump)
    ensures ReplaySpec(RepeatedDump, 3) == Ok([[1], [2], []])
  {
    var R := RepeatedDump;
    RepeatedDumpNames();
    RepeatedDumpReplayTwo();
    assert KidNamesOf(R, []) == {};
    var k2: seq<seq<nat>> := [[1], []];
    var k3: seq<seq<nat>> := [[1], [2], []];
    var u2 := (k2 + [[]])[1 := [] + [2]];
    assert |u2| == 3 && u2[0] == [1] && u2[1] == [2] && u2[2] == [];
    assert u2 == k3;
  }

  /** Replaying that dump: the third record re-registers A, so C goes under the inner A. */
  lemma RepeatedDumpReplay()
    ensures NoSelfParent(RepeatedDump)
    ensures ReplaySpec(RepeatedDump, 4) == Ok([[1], [2], [3], []])
  {
    var R := RepeatedDump;
    RepeatedDumpNames();
    RepeatedDumpReplayThree();
    assert KidNamesOf(R, []) == {};
    var k3: seq<seq<nat>> := [[1], [2], []];
    var k4: seq<seq<nat>> := [[1], [2], [3], []];
    var u3 := (k3 + [[]])[2 := [] + [3]];
    assert |u3| == 4 && u3[0] == [1] && u3[1] == [2] && u3[2] == [3] && u3[3] == [];
    assert u3 == k4;
  }

  /**
   * With a name repeated across the tree the registry is overwritten, so later
   * records attach to the wrong node: A[B[A], C] loads back as A[B[A[C]]].
   */
  lemma RepeatedNameMisloads()
    ensures var t := Node("A", 0, [Node("B", 0, [Node("A", 0, [])]), Node("C", 0, [])]);
      Loadable(MarshalDump(t, None))
      && Load(MarshalDump(t, None)) == Ok(Node("A", 0, [Node("B", 0, [Node("A", 0, [Node("C", 0, [])])])]))
  {
    RepeatedDumpOf();
    RepeatedDumpReplay();
    var R := RepeatedDump;
    var K: seq<seq<nat>> := [[1], [2], [3], []];
    var leafC: Tree<int> := Node("C", 0, []);
    var innerA := Node("A", 0, [leafC]);
    var b := Node("B", 0, [innerA]);
    assert Build(R, K, 3) == leafC;
    assert BuildForest(R, K, [3], 2) == [leafC];
    assert Build(R, K, 2) == innerA;
    assert BuildForest(R, K, [2], 1) == [innerA];
    assert Build(R, K, 1) == b;
    assert BuildForest(R, K, [1], 0) == [b];
    assert Build(R, K, 0) == Node("A", 0, [b]);
  }
}