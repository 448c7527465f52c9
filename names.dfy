/** Node names and the ordering that `<=>` and the BST node use. */
module Names {
  import opened Wrappers

  type Name = string

  /** Ruby's `String#<`: lexicographic by character code, a proper prefix being smaller. */
  predicate Less(a: Name, b: Name): (r: bool)
    ensures r ==> a != b
    ensures |a| < |b| && a == b[..|a|] ==> r
    decreases |a|
  {
    if a == [] then b != []
    else if b == [] then false
    else if a[0] != b[0] then a[0] < b[0]
    else Less(a[1..], b[1..])
  }

  lemma {:induction false} LessIrreflexive(a: Name)
    ensures !Less(a, a)
    decreases |a|
  {
    if a != [] { LessIrreflexive(a[1..]); }
  }

  lemma {:induction false} LessAsymmetric(a: Name, b: Name)
    requires Less(a, b)
    ensures !Less(b, a)
    decreases |a|
  {
    if a != [] && b != [] && a[0] == b[0] { LessAsymmetric(a[1..], b[1..]); }
  }

  lemma {:induction false} LessTransitive(a: Name, b: Name, c: Name)
    requires Less(a, b) && Less(b, c)
    ensures Less(a, c)
    decreases |a|
  {
    if a != [] && b != [] && c != [] && a[0] == b[0] && b[0] == c[0] {
      LessTransitive(a[1..], b[1..], c[1..]);
    }
  }

  /** Any two different names are ordered one way or the other. */
  lemma {:induction false} LessTotal(a: Name, b: Name)
    requires a != b
    ensures Less(a, b) || Less(b, a)
    decreases |a|
  {
    if a != [] && b != [] && a[0] == b[0] {
      assert a == [a[0]] + a[1..] && b == [b[0]] + b[1..];
      LessTotal(a[1..], b[1..]);
    }
  }

  /** `<=>` of a node against another node or nil: nil orders below every node. */
  function Spaceship(a: Name, other: Option<Name>): (r: int)
    ensures r == 1 <==> other == None || Less(other.value, a)
    ensures r == 0 <==> other == Some(a)
    ensures r == -1 <==> other != None && Less(a, other.value)
  {
    match other
    case None => 1
    case Some(b) =>
      LessIrreflexive(a);
      if a == b then 0
      else (
        LessTotal(a, b);
        if Less(a, b) then (LessAsymmetric(a, b); -1) else 1)
  }

  /** Comparing two nodes in either order gives opposite answers. */
  lemma SpaceshipAntisymmetric(a: Name, b: Name)
    ensures Spaceship(a, Some(b)) == -Spaceship(b, Some(a))
  {
    if a != b {
      LessTotal(a, b);
      if Less(a, b) { LessAsymmetric(a, b); } else { LessAsymmetric(b, a); }
    }
  }
}
