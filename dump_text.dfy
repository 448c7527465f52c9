/**
 * The text dump of the older `TreeNode` (`_dump` / `loadDumpRep`): one line
 * per node in `each` order, each line holding the node's name, its parent's
 * name (its own name for a root) and the content blob, separated by "|" and
 * ended by "\n". The content blob is the string `Marshal.dump` produced; it
 * is carried here as an opaque string.
 */
module DumpText {
  import opened Wrappers
  import opened TreeValue
  import opened FlatRecords

  const FieldSep: char := '|'
  const RecordSep: char := '\n'

  // ================================================================ writing

  /** The parent field of a line: the parent's name, or the node's own name on a root. */
  function ParentField(r: Rec<string>): (f: string)
    ensures r.parent.None? ==> f == r.name
    ensures r.parent.Some? ==> f == r.parent.value
  {
    match r.parent
    case None => r.name
    case Some(p) => p
  }

  /** `createDumpRep` without its terminating record separator. */
  function LineBody(r: Rec<string>): (s: string)
    ensures |r.name| < |s| && s[..|r.name|] == r.name && s[|r.name|] == FieldSep
    ensures |r.content| < |s| && s[|s| - |r.content|..] == r.content && s[|s| - |r.content| - 1] == FieldSep
  {
    r.name + [FieldSep] + ParentField(r) + [FieldSep] + r.content
  }

  /** The text of a run of records, each line closed by the record separator. */
  function Encode(rs: seq<Rec<string>>): (s: string)
    ensures rs == [] <==> s == []
  {
    if rs == [] then [] else LineBody(rs[0]) + [RecordSep] + Encode(rs[1..])
  }

  /** `_dump`: append one line per node of the receiver's subtree, in `each` order. */
  method Dump(t: Tree<string>, parentName: Option<string>) returns (s: string)
    ensures s == Encode(MarshalDump(t, parentName))
  {
    var rs := MarshalDump(t, parentName);
    s := [];
    var i := 0;
    while i < |rs|
      invariant 0 <= i <= |rs|
      invariant s + Encode(rs[i..]) == Encode(rs)
    {
      assert rs[i..][1..] == rs[i + 1..];
      s := s + LineBody(rs[i]) + [RecordSep];
      i := i + 1;
    }
    assert rs[i..] == [];
  }

  // ================================================================ splitting

  /** The pieces of `s` between occurrences of `sep`, empty pieces included. */
  function Pieces(s: string, sep: char): (r: seq<string>)
    ensures |r| >= 1
    ensures forall k :: 0 <= k < |r| ==> sep !in r[k]
  {
    if s == [] then [[]]
    else if s[0] == sep then [[]] + Pieces(s[1..], sep)
    else
      var p := Pieces(s[1..], sep);
      [[s[0]] + p[0]] + p[1..]
  }

  /** The pieces glued back together with the separator between them. */
  function Join(ps: seq<string>, sep: char): string
    requires |ps| >= 1
  {
    if |ps| == 1 then ps[0] else ps[0] + [sep] + Join(ps[1..], sep)
  }

  /** Splitting loses nothing: the pieces join back to the original text. */
  lemma {:induction false} JoinPieces(s: string, sep: char)
    ensures Join(Pieces(s, sep), sep) == s
  {
    if s != [] {
      JoinPieces(s[1..], sep);
      var p := Pieces(s[1..], sep);
      if s[0] == sep {
        assert Pieces(s, sep)[1..] == p;
      } else {
        var q := Pieces(s, sep);
        assert q[0] == [s[0]] + p[0];
        if |p| > 1 {
          assert q[1..] == p[1..];
          assert Join(q, sep) == q[0] + [sep] + Join(p[1..], sep);
        }
        assert s == [s[0]] + s[1..];
      }
    }
  }

  /** A text free of the separator is one piece. */
  lemma {:induction false} PiecesPlain(a: string, sep: char)
    requires sep !in a
    ensures Pieces(a, sep) == [a]
  {
    if a != [] {
      PiecesPlain(a[1..], sep);
      assert a == [a[0]] + a[1..];
    }
  }

  /** A separator-free prefix followed by the separator is split off as one piece. */
  lemma {:induction false} PiecesCons(a: string, sep: char, b: string)
    requires sep !in a
    ensures Pieces(a + [sep] + b, sep) == [a] + Pieces(b, sep)
  {
    if a == [] {
      assert a + [sep] + b == [sep] + b;
      assert ([sep] + b)[1..] == b;
    } else {
      PiecesCons(a[1..], sep, b);
      var s := a + [sep] + b;
      assert s[0] == a[0] && s[1..] == a[1..] + [sep] + b;
      assert [a[0]] + a[1..] == a;
    }
  }

  /** Ruby's `split` drops trailing empty strings. */
  function DropTrailing(ps: seq<string>): (r: seq<string>)
    ensures |r| <= |ps| && r == ps[..|r|]
    ensures r != [] ==> r[|r| - 1] != []
    ensures forall k :: |r| <= k < |ps| ==> ps[k] == []
  {
    if ps == [] then []
    else if ps[|ps| - 1] == [] then DropTrailing(ps[..|ps| - 1])
    else ps
  }

  lemma {:induction false} DropTrailingCons(a: string, ps: seq<string>)
    requires a != []
    ensures DropTrailing([a] + ps) == [a] + DropTrailing(ps)
    decreases |ps|
  {
    if ps != [] && ps[|ps| - 1] == [] {
      assert ([a] + ps)[..|ps|] == [a] + ps[..|ps| - 1];
      DropTrailingCons(a, ps[..|ps| - 1]);
    }
  }

  /** `str.split(sep)` for a one-character separator. */
  function Split(s: string, sep: char): (r: seq<string>)
    ensures r != [] ==> r[|r| - 1] != []
    ensures s == [] ==> r == []
  {
    DropTrailing(Pieces(s, sep))
  }

  // ================================================================ reading

  /**
   * One line read back: fewer than three fields (a missing content blob) is
   * malformed; further fields are ignored. A parent field equal to the name
   * marks a root.
   */
  function ParseLine(line: string): (r: Result<Rec<string>>)
    ensures r.Ok? ==> r.value.parent != Some(r.value.name)
  {
    var f := Split(line, FieldSep);
    if |f| < 3 then Err(MalformedRecord)
    else Ok(Rec(f[0], if f[0] == f[1] then None else Some(f[1]), f[2]))
  }

  /** The records of the lines up to the first malformed one. */
  function ParsedPrefix(lines: seq<string>): (rs: seq<Rec<string>>)
    ensures |rs| <= |lines|
  {
    if lines == [] then []
    else match ParseLine(lines[0])
      case Err(_) => []
      case Ok(r) => [r] + ParsedPrefix(lines[1..])
  }

  /** Every record read is its line parsed, and reading stops only at a malformed line. */
  lemma {:induction false} ParsedPrefixSpec(lines: seq<string>)
    ensures forall i :: 0 <= i < |ParsedPrefix(lines)| ==> ParseLine(lines[i]) == Ok(ParsedPrefix(lines)[i])
    ensures |ParsedPrefix(lines)| < |lines| ==> ParseLine(lines[|ParsedPrefix(lines)|]).Err?
  {
    if lines != [] && ParseLine(lines[0]).Ok? {
      ParsedPrefixSpec(lines[1..]);
    }
  }

  lemma ParsedNoSelfParent(lines: seq<string>)
    ensures NoSelfParent(ParsedPrefix(lines))
  {
    ParsedPrefixSpec(lines);
  }

  /** The position of the last root record, which `loadDumpRep` returns. */
  function LastRoot(rs: seq<Rec<string>>): (r: Option<nat>)
    ensures r.Some? ==>
      (r.value < |rs| && rs[r.value].parent.None? && forall k :: r.value < k < |rs| ==> rs[k].parent.Some?)
    ensures r.None? ==> forall k :: 0 <= k < |rs| ==> rs[k].parent.Some?
  {
    if rs == [] then None
    else if rs[|rs| - 1].parent.None? then Some(|rs| - 1)
    else LastRoot(rs[..|rs| - 1])
  }

  lemma LastRootSnoc(rs: seq<Rec<string>>, rec: Rec<string>)
    ensures LastRoot(rs + [rec]) == if rec.parent.None? then Some(|rs|) else LastRoot(rs)
  {
    assert (rs + [rec])[..|rs|] == rs;
  }

  /**
   * `loadDumpRep`: the lines are replayed in order; a malformed line, an
   * unknown parent name or a repeated child name aborts with the error met
   * first. Otherwise the tree of the last root record is returned, or nil
   * when no line is a root.
   */
  function LoadSpec(str: string): (r: Result<Option<Tree<string>>>)
    ensures var lines := Split(str, RecordSep);
      r.Ok? ==> forall i :: 0 <= i < |lines| ==> ParseLine(lines[i]).Ok?
    ensures var lines := Split(str, RecordSep);
      r == Ok(None) ==> forall i :: 0 <= i < |lines| ==> ParseLine(lines[i]).Ok? && ParseLine(lines[i]).value.parent.Some?
  {
    var lines := Split(str, RecordSep);
    var rs := ParsedPrefix(lines);
    ParsedNoSelfParent(lines);
    ParsedPrefixSpec(lines);
    match ReplaySpec(rs, |rs|)
    case Err(e) => Err(e)
    case Ok(kids) =>
      if |rs| < |lines| then Err(MalformedRecord)
      else match LastRoot(rs)
        case None => Ok(None)
        case Some(j) => Ok(Some(Build(rs, kids, j)))
  }

  /** Reading from line i: a malformed line ends the records, a well-formed one is the next record. */
  lemma ParsedPrefixAt(lines: seq<string>, i: nat)
    requires i < |lines|
    ensures ParseLine(lines[i]).Err? ==> ParsedPrefix(lines[i..]) == []
    ensures ParseLine(lines[i]).Ok? ==>
      ParsedPrefix(lines[i..]) == [ParseLine(lines[i]).value] + ParsedPrefix(lines[i + 1..])
  {
    var rest := lines[i..];
    assert rest[0] == lines[i] && rest[1..] == lines[i + 1..];
  }

  /** One well-formed line read moves its record from the unread part to the read part. */
  lemma ReadStep(lines: seq<string>, i: nat, rs: seq<Rec<string>>)
    requires i < |lines| && ParseLine(lines[i]).Ok?
    requires ParsedPrefix(lines) == rs + ParsedPrefix(lines[i..])
    ensures ParsedPrefix(lines) == (rs + [ParseLine(lines[i]).value]) + ParsedPrefix(lines[i + 1..])
  {
    ParsedPrefixAt(lines, i);
    RecordsAssoc(rs, [ParseLine(lines[i]).value], ParsedPrefix(lines[i + 1..]));
  }

  lemma RecordsAssoc(a: seq<Rec<string>>, b: seq<Rec<string>>, c: seq<Rec<string>>)
    ensures a + (b + c) == (a + b) + c
  {
  }

  /** The reading half of the `loadDumpRep` loop: records up to the first malformed line, and the last root seen. */
  method ReadRecords(lines: seq<string>) returns (rs: seq<Rec<string>>, root: Option<nat>, malformed: bool)
    ensures rs == ParsedPrefix(lines) && root == LastRoot(rs)
    ensures malformed <==> |rs| < |lines|
  {
    rs := [];
    root := None;
    malformed := false;
    var i := 0;
    while i < |lines| && !malformed
      invariant 0 <= i <= |lines| && |rs| == i
      invariant ParsedPrefix(lines) == rs + ParsedPrefix(lines[i..])
      invariant root == LastRoot(rs)
      invariant malformed ==> ParsedPrefix(lines[i..]) == [] && i < |lines|
      decreases |lines| - i, if malformed then 0 else 1
    {
      match ParseLine(lines[i]) {
        case Err(_) =>
          ParsedPrefixAt(lines, i);
          malformed := true;
        case Ok(rec) =>
          ReadStep(lines, i, rs);
          LastRootSnoc(rs, rec);
          if rec.parent.None? {
            root := Some(i);
          }
          rs := rs + [rec];
          i := i + 1;
      }
    }
    if !malformed {
      assert lines[i..] == [];
    }
  }

  /** `loadDumpRep`: read the records line by line, then replay them. */
  method LoadDumpRep(str: string) returns (r: Result<Option<Tree<string>>>)
    ensures r == LoadSpec(str)
  {
    var lines := Split(str, RecordSep);
    var rs, root, malformed := ReadRecords(lines);
    ParsedNoSelfParent(lines);
    var kids := Replay(rs);
    match kids {
      case Err(e) =>
        r := Err(e);
      case Ok(k) =>
        if malformed {
          r := Err(MalformedRecord);
        } else {
          match root {
            case None => r := Ok(None);
            case Some(j) => r := Ok(Some(Build(rs, k, j)));
          }
        }
    }
  }

  // ================================================================ round trip

  /** Text that fits in one field: neither separator occurs in it. */
  predicate Clean(s: string)
  {
    FieldSep !in s && RecordSep !in s
  }

  /** Records whose names and blobs are clean, and whose blobs are not empty. */
  predicate Writable(rs: seq<Rec<string>>)
  {
    forall i :: 0 <= i < |rs| ==>
      Clean(rs[i].name) && Clean(rs[i].content) && rs[i].content != []
      && (rs[i].parent.Some? ==> Clean(rs[i].parent.value))
  }

  /**
   * A written line reads back as the record it came from, except that a node
   * sharing its parent's name reads back as a root.
   */
  lemma ParseLineBody(r: Rec<string>)
    requires Clean(r.name) && Clean(r.content) && r.content != []
    requires r.parent.Some? ==> Clean(r.parent.value)
    ensures RecordSep !in LineBody(r) && LineBody(r) != []
    ensures ParseLine(LineBody(r)) == Ok(if r.parent == Some(r.name) then r.(parent := None) else r)
  {
    LineBodyFields(r.name, ParentField(r), r.content);
  }

  /** Three clean fields joined by the field separator split back into those fields. */
  lemma LineBodyFields(a: string, b: string, c: string)
    requires Clean(a) && Clean(b) && Clean(c) && c != []
    ensures RecordSep !in a + [FieldSep] + b + [FieldSep] + c
    ensures Split(a + [FieldSep] + b + [FieldSep] + c, FieldSep) == [a, b, c]
  {
    PiecesPlain(c, FieldSep);
    PiecesCons(b, FieldSep, c);
    assert a + [FieldSep] + b + [FieldSep] + c == a + [FieldSep] + (b + [FieldSep] + c);
    PiecesCons(a, FieldSep, b + [FieldSep] + c);
  }

  /** The line bodies of a run of records. */
  function Bodies(rs: seq<Rec<string>>): (ls: seq<string>)
    ensures |ls| == |rs|
  {
    if rs == [] then [] else [LineBody(rs[0])] + Bodies(rs[1..])
  }

  /** Splitting a dump on the record separator gives back its lines. */
  lemma {:induction false} SplitEncode(rs: seq<Rec<string>>)
    requires Writable(rs)
    ensures Split(Encode(rs), RecordSep) == Bodies(rs)
  {
    if rs != [] {
      ParseLineBody(rs[0]);
      assert Writable(rs[1..]) by {
        forall i | 0 <= i < |rs[1..]| ensures rs[1..][i] == rs[i + 1] { }
      }
      SplitEncode(rs[1..]);
      PiecesCons(LineBody(rs[0]), RecordSep, Encode(rs[1..]));
      DropTrailingCons(LineBody(rs[0]), Pieces(Encode(rs[1..]), RecordSep));
    }
  }

  /** Reading the lines of writable records without self-parented nodes gives the records back. */
  lemma {:induction false} ParseBodies(rs: seq<Rec<string>>)
    requires Writable(rs) && NoSelfParent(rs)
    ensures ParsedPrefix(Bodies(rs)) == rs
  {
    if rs != [] {
      ParseLineBody(rs[0]);
      assert Writable(rs[1..]) && NoSelfParent(rs[1..]) by {
        forall i | 0 <= i < |rs[1..]| ensures rs[1..][i] == rs[i + 1] { }
      }
      ParseBodies(rs[1..]);
      assert Bodies(rs)[1..] == Bodies(rs[1..]);
    }
  }

  /**
   * A text dump of a tree whose names are unique and whose names and blobs are
   * clean and non-empty blobs loads back to the same tree.
   */
  lemma TextRoundTrip(t: Tree<string>)
    requires Unique(MarshalDump(t, None)) && Writable(MarshalDump(t, None))
    ensures LoadSpec(Encode(MarshalDump(t, None))) == Ok(Some(t))
  {
    var R := MarshalDump(t, None);
    DumpLoadRoundTrip(t);
    SplitEncode(R);
    ParseBodies(R);
    var r := LastRoot(R);
    assert r == Some(0);
  }

  /** A node sharing its parent's name is read back as a root. */
  lemma SameNameChildReadAsRoot(r: Rec<string>)
    requires Clean(r.name) && Clean(r.content) && r.content != [] && r.parent == Some(r.name)
    ensures ParseLine(LineBody(r)) == Ok(Rec(r.name, None, r.content))
  {
    ParseLineBody(r);
  }
}
