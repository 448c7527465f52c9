/**
 * `underscore` of `CamelToSnakeCase`: the rewrite from a camelCase method
 * name to its snake_case spelling. Each step of the Ruby method is one
 * function here; a regex substitution scans left to right, tries a match at
 * each position and, after a match, resumes behind it.
 */
module CamelToSnake {

  predicate IsUpper(c: char) { 'A' <= c <= 'Z' }
  predicate IsLower(c: char) { 'a' <= c <= 'z' }
  predicate IsDigit(c: char) { '0' <= c <= '9' }

  /** No uppercase ASCII letter. */
  predicate NoUpper(s: string)
  {
    forall i :: 0 <= i < |s| ==> !IsUpper(s[i])
  }

  /** No two adjacent colons. */
  predicate NoDoubleColon(s: string)
  {
    forall i :: 0 < i < |s| ==> !(s[i - 1] == ':' && s[i] == ':')
  }

  /** A name already in snake_case: nothing for `underscore` to rewrite. */
  predicate Snake(s: string)
  {
    NoUpper(s) && '-' !in s && NoDoubleColon(s)
  }

  // ================================================================ the steps

  /** `gsub!(/::/, '/')`: every "::", taken left to right without overlap, becomes "/". */
  function Slashes(s: string): (r: string)
    ensures |r| <= |s|
  {
    if |s| >= 2 && s[0] == ':' && s[1] == ':' then "/" + Slashes(s[2..])
    else if s == [] then []
    else [s[0]] + Slashes(s[1..])
  }

  /** The length of the uppercase run that starts `s`. */
  function UpperRun(s: string): (n: nat)
    ensures n <= |s|
    ensures n < |s| ==> !IsUpper(s[n])
  {
    if s != [] && IsUpper(s[0]) then 1 + UpperRun(s[1..]) else 0
  }

  /** The run is all uppercase. */
  lemma {:induction false} UpperRunUpper(s: string)
    ensures forall i :: 0 <= i < UpperRun(s) ==> IsUpper(s[i])
  {
    if s != [] && IsUpper(s[0]) {
      UpperRunUpper(s[1..]);
      forall i | 0 < i < UpperRun(s) ensures IsUpper(s[i]) {
        assert s[i] == s[1..][i - 1];
      }
    }
  }

  /**
   * `([A-Z]+)([A-Z][a-z])` matches at the start of `s`: the greedy run has to
   * give back its last letter, so the run is at least two letters long and a
   * lowercase letter follows it.
   */
  predicate AcronymAt(s: string)
  {
    var n := UpperRun(s);
    2 <= n < |s| && IsLower(s[n])
  }

  /** `gsub!(/([A-Z]+)([A-Z][a-z])/, '\1_\2')`: "HTTPServer" becomes "HTTP_Server". */
  function SplitAcronyms(s: string): (r: string)
    ensures |s| <= |r|
    decreases |s|
  {
    if s == [] then []
    else if AcronymAt(s) then
      var n := UpperRun(s);
      s[..n - 1] + "_" + s[n - 1..n + 1] + SplitAcronyms(s[n + 1..])
    else [s[0]] + SplitAcronyms(s[1..])
  }

  /** `([a-z\d])([A-Z])` matches at the start of `s`. */
  predicate WordBreakAt(s: string)
  {
    |s| >= 2 && (IsLower(s[0]) || IsDigit(s[0])) && IsUpper(s[1])
  }

  /** `gsub!(/([a-z\d])([A-Z])/, '\1_\2')`: "nodeHeight" becomes "node_Height". */
  function SplitWords(s: string): (r: string)
    ensures |s| <= |r| <= 2 * |s|
  {
    if s == [] then []
    else if WordBreakAt(s) then [s[0], '_', s[1]] + SplitWords(s[2..])
    else [s[0]] + SplitWords(s[1..])
  }

  /** `tr!("-", "_")`. */
  function Dashes(s: string): (r: string)
    ensures |r| == |s| && '-' !in r
  {
    if s == [] then [] else [if s[0] == '-' then '_' else s[0]] + Dashes(s[1..])
  }

  /** One character of `downcase!`, on ASCII letters. */
  function Lower(c: char): (d: char)
    ensures !IsUpper(d)
    ensures !IsUpper(c) ==> d == c
    ensures IsUpper(c) ==> IsLower(d)
  {
    if IsUpper(c) then (c as int + 32) as char else c
  }

  /** `downcase!`. */
  function Downcase(s: string): (r: string)
    ensures |r| == |s| && NoUpper(r)
  {
    if s == [] then [] else [Lower(s[0])] + Downcase(s[1..])
  }

  /** `underscore`: the steps in the order the method applies them, on a copy of the argument. */
  function Underscore(s: string): (r: string)
    ensures NoUpper(r)
  {
    Downcase(Dashes(SplitWords(SplitAcronyms(Slashes(s)))))
  }

  // ================================================================ sequence helpers

  lemma {:induction false} ConsNoDoubleColon(c: char, b: string)
    requires NoDoubleColon(b) && !(c == ':' && b != [] && b[0] == ':')
    ensures NoDoubleColon([c] + b)
  {
    var s := [c] + b;
    forall i | 0 < i < |s| ensures !(s[i - 1] == ':' && s[i] == ':') {
      if i > 1 { assert s[i - 1] == b[i - 2] && s[i] == b[i - 1]; }
    }
  }

  lemma {:induction false} ColonFreeNoDoubleColon(a: string, b: string)
    requires ':' !in a && NoDoubleColon(b)
    ensures NoDoubleColon(a + b)
  {
    var s := a + b;
    forall i | 0 < i < |s| ensures !(s[i - 1] == ':' && s[i] == ':') {
      if i - 1 < |a| { assert s[i - 1] == a[i - 1]; }
      else { assert s[i - 1] == b[i - 1 - |a|] && s[i] == b[i - |a|]; }
    }
  }

  lemma {:induction false} NoDoubleColonTail(s: string)
    requires s != [] && NoDoubleColon(s)
    ensures NoDoubleColon(s[1..])
  {
    var t := s[1..];
    forall i | 0 < i < |t| ensures !(t[i - 1] == ':' && t[i] == ':') {
      assert t[i - 1] == s[i] && t[i] == s[i + 1];
    }
  }

  // ================================================================ each step on its own

  lemma {:induction false} SlashesHead(s: string)
    requires s != []
    ensures Slashes(s) != []
    ensures Slashes(s)[0] == if |s| >= 2 && s[0] == ':' && s[1] == ':' then '/' else s[0]
  {
  }

  /** After the first step no "::" is left. */
  lemma {:induction false} SlashesNoDoubleColon(s: string)
    ensures NoDoubleColon(Slashes(s))
    decreases |s|
  {
    if |s| >= 2 && s[0] == ':' && s[1] == ':' {
      SlashesNoDoubleColon(s[2..]);
      ConsNoDoubleColon('/', Slashes(s[2..]));
    } else if s != [] {
      SlashesNoDoubleColon(s[1..]);
      if s[1..] != [] { SlashesHead(s[1..]); }
      ConsNoDoubleColon(s[0], Slashes(s[1..]));
    }
  }

  /** Text without "::" passes the first step unchanged. */
  lemma {:induction false} SlashesFixes(s: string)
    requires NoDoubleColon(s)
    ensures Slashes(s) == s
    decreases |s|
  {
    if s != [] {
      assert !(|s| >= 2 && s[0] == ':' && s[1] == ':');
      NoDoubleColonTail(s);
      SlashesFixes(s[1..]);
    }
  }

  /** The underscore-free letters of `s`: what the splitting steps must keep. */
  function Erase(s: string): (r: string)
    ensures '_' !in r
  {
    if s == [] then [] else (if s[0] == '_' then [] else [s[0]]) + Erase(s[1..])
  }

  lemma {:induction false} EraseAppend(a: string, b: string)
    ensures Erase(a + b) == Erase(a) + Erase(b)
    decreases |a|
  {
    if a != [] {
      var h := if a[0] == '_' then [] else [a[0]];
      assert (a + b)[0] == a[0] && (a + b)[1..] == a[1..] + b;
      assert Erase(a + b) == h + Erase(a[1..] + b);
      EraseAppend(a[1..], b);
    } else {
      assert a + b == b;
    }
  }

  /** An inserted underscore is erased. */
  lemma {:induction false} EraseInsert(a: string, b: string)
    ensures Erase(a + "_" + b) == Erase(a + b)
  {
    EraseAppend(a + "_", b);
    EraseAppend(a, "_");
    EraseAppend(a, b);
  }

  lemma {:induction false} SplitAcronymsHead(s: string)
    requires s != []
    ensures SplitAcronyms(s) != [] && SplitAcronyms(s)[0] == s[0]
  {
  }

  /** A string is its three consecutive slices; kept apart so the acronym step's proof stays small. */
  lemma SliceThree(s: string, i: nat, j: nat)
    requires i <= j <= |s|
    ensures s == (s[..i] + s[i..j]) + s[j..]
  {
  }

  /** The acronym step only inserts underscores: erasing them gives back its input's letters. */
  lemma {:induction false} SplitAcronymsErase(s: string)
    ensures Erase(SplitAcronyms(s)) == Erase(s)
    decreases |s|, 1
  {
    if s != [] {
      if AcronymAt(s) {
        EraseAcronymStep(s);
      } else {
        EraseCharStep(s);
      }
    }
  }

  lemma {:induction false} EraseAcronymStep(s: string)
    requires s != [] && AcronymAt(s)
    ensures Erase(SplitAcronyms(s)) == Erase(s)
    decreases |s|, 0
  {
    var n := UpperRun(s);
    var p, q, rest := s[..n - 1], s[n - 1..n + 1], s[n + 1..];
    var x := SplitAcronyms(rest);
    SplitAcronymsAt(s, n);
    assert SplitAcronyms(s) == (p + "_" + q) + x;
    SplitAcronymsErase(rest);
    EraseSplice(p, q, rest, x);
    SliceThree(s, n - 1, n + 1);
    assert (p + q) + rest == s;
  }

  /** The acronym step at a match: the run but its last letter, an underscore, the last letter and the lowercase one. */
  lemma SplitAcronymsAt(s: string, n: nat)
    requires n == UpperRun(s) && 2 <= n < |s| && IsLower(s[n])
    ensures SplitAcronyms(s) == (s[..n - 1] + "_" + s[n - 1..n + 1]) + SplitAcronyms(s[n + 1..])
  {
    assert s != [] && AcronymAt(s);
  }

  /** Erasing an underscore spliced between two pieces, before a tail that erases alike. */
  lemma EraseSplice(p: string, q: string, rest: string, x: string)
    requires Erase(x) == Erase(rest)
    ensures Erase((p + "_" + q) + x) == Erase((p + q) + rest)
  {
    EraseAppend(p + "_" + q, x);
    EraseInsert(p, q);
    EraseAppend(p + q, rest);
  }

  lemma {:induction false} EraseCharStep(s: string)
    requires s != [] && !AcronymAt(s)
    ensures Erase(SplitAcronyms(s)) == Erase(s)
    decreases |s|, 0
  {
    calc {
      Erase(SplitAcronyms(s));
      Erase([s[0]] + SplitAcronyms(s[1..]));
      { EraseAppend([s[0]], SplitAcronyms(s[1..])); SplitAcronymsErase(s[1..]); }
      Erase([s[0]]) + Erase(s[1..]);
      { EraseAppend([s[0]], s[1..]); }
      Erase([s[0]] + s[1..]);
      { assert s == [s[0]] + s[1..]; }
      Erase(s);
    }
  }

  /** The acronym step keeps text free of "::". */
  lemma {:induction false} SplitAcronymsNoDoubleColon(s: string)
    requires NoDoubleColon(s)
    ensures NoDoubleColon(SplitAcronyms(s))
    decreases |s|
  {
    if s != [] {
      if AcronymAt(s) {
        var n := UpperRun(s);
        var rest := s[n + 1..];
        SplitAcronymsAt(s, n);
        AcronymPieceColonFree(s, n);
        NoDoubleColonDrop(s, n + 1);
        SplitAcronymsNoDoubleColon(rest);
        ColonFreeNoDoubleColon(s[..n - 1] + "_" + s[n - 1..n + 1], SplitAcronyms(rest));
      } else {
        NoDoubleColonTail(s);
        SplitAcronymsNoDoubleColon(s[1..]);
        if s[1..] != [] { SplitAcronymsHead(s[1..]); }
        ConsNoDoubleColon(s[0], SplitAcronyms(s[1..]));
      }
    }
  }

  /** The piece written for a matched acronym holds no colon. */
  lemma AcronymPieceColonFree(s: string, n: nat)
    requires n == UpperRun(s) && 2 <= n < |s| && IsLower(s[n])
    ensures ':' !in s[..n - 1] + "_" + s[n - 1..n + 1]
  {
    UpperRunUpper(s);
    var a := s[..n - 1] + "_" + s[n - 1..n + 1];
    forall i | 0 <= i < |a| ensures a[i] != ':' {
      if i < n - 1 { assert a[i] == s[i]; }
      else if i > n - 1 { assert a[i] == s[i - 1]; }
    }
  }

  lemma NoDoubleColonDrop(s: string, k: nat)
    requires NoDoubleColon(s) && k <= |s|
    ensures NoDoubleColon(s[k..])
  {
    var t := s[k..];
    forall i | 0 < i < |t| ensures !(t[i - 1] == ':' && t[i] == ':') {
      assert t[i - 1] == s[k + i - 1] && t[i] == s[k + i];
    }
  }

  /** Text without uppercase letters passes the acronym step unchanged. */
  lemma {:induction false} SplitAcronymsFixes(s: string)
    requires NoUpper(s)
    ensures SplitAcronyms(s) == s
    decreases |s|
  {
    if s != [] {
      assert UpperRun(s) == 0;
      SplitAcronymsFixes(s[1..]);
    }
  }

  lemma {:induction false} SplitWordsHead(s: string)
    requires s != []
    ensures SplitWords(s) != [] && SplitWords(s)[0] == s[0]
  {
  }

  /** The word step only inserts underscores: erasing them gives back its input's letters. */
  lemma {:induction false} SplitWordsErase(s: string)
    ensures Erase(SplitWords(s)) == Erase(s)
    decreases |s|
  {
    if s != [] {
      if WordBreakAt(s) {
        SplitWordsErase(s[2..]);
        EraseAppend([s[0], '_', s[1]], SplitWords(s[2..]));
        assert s == [s[0], s[1]] + s[2..];
        EraseAppend([s[0], s[1]], s[2..]);
      } else {
        SplitWordsErase(s[1..]);
        EraseAppend([s[0]], SplitWords(s[1..]));
        assert s == [s[0]] + s[1..];
        EraseAppend([s[0]], s[1..]);
      }
    }
  }

  /**
   * After the word step no lowercase letter or digit stands directly before
   * an uppercase letter: every such pair has been split.
   */
  lemma {:induction false} SplitWordsSplitsAll(s: string)
    ensures NoWordBreak(SplitWords(s))
    decreases |s|
  {
    if s != [] {
      var r := SplitWords(s);
      if WordBreakAt(s) {
        var t := SplitWords(s[2..]);
        SplitWordsSplitsAll(s[2..]);
        assert r == [s[0], '_', s[1]] + t;
        forall i | 0 < i < |r| && IsUpper(r[i]) ensures !IsLower(r[i - 1]) && !IsDigit(r[i - 1]) {
          if i > 3 { assert r[i - 1] == t[i - 4] && r[i] == t[i - 3]; }
          else if i == 3 { assert r[i - 1] == s[1]; }
          else if i == 2 { assert r[i - 1] == '_'; }
        }
      } else {
        var t := SplitWords(s[1..]);
        SplitWordsSplitsAll(s[1..]);
        if s[1..] != [] { SplitWordsHead(s[1..]); }
        assert r == [s[0]] + t;
        forall i | 0 < i < |r| && IsUpper(r[i]) ensures !IsLower(r[i - 1]) && !IsDigit(r[i - 1]) {
          if i > 1 { assert r[i - 1] == t[i - 2] && r[i] == t[i - 1]; }
          else { assert r[0] == s[0] && r[1] == t[0] == s[1]; }
        }
      }
    }
  }

  /** No lowercase letter or digit stands directly before an uppercase letter. */
  predicate NoWordBreak(r: string)
  {
    forall i :: 0 < i < |r| && IsUpper(r[i]) ==> !IsLower(r[i - 1]) && !IsDigit(r[i - 1])
  }

  /** The word step keeps text free of "::". */
  lemma {:induction false} SplitWordsNoDoubleColon(s: string)
    requires NoDoubleColon(s)
    ensures NoDoubleColon(SplitWords(s))
    decreases |s|
  {
    if s != [] {
      NoDoubleColonTail(s);
      if WordBreakAt(s) {
        NoDoubleColonTail(s[1..]);
        assert s[1..][1..] == s[2..];
        SplitWordsNoDoubleColon(s[2..]);
        ColonFreeNoDoubleColon([s[0], '_', s[1]], SplitWords(s[2..]));
      } else {
        SplitWordsNoDoubleColon(s[1..]);
        if s[1..] != [] { SplitWordsHead(s[1..]); }
        ConsNoDoubleColon(s[0], SplitWords(s[1..]));
      }
    }
  }

  /** Text without uppercase letters passes the word step unchanged. */
  lemma {:induction false} SplitWordsFixes(s: string)
    requires NoUpper(s)
    ensures SplitWords(s) == s
    decreases |s|
  {
    if s != [] {
      SplitWordsFixes(s[1..]);
    }
  }

  /** The character maps neither create nor remove a colon. */
  lemma {:induction false} CharMapsKeepColons(s: string)
    ensures forall i :: 0 <= i < |s| ==> (Dashes(s)[i] == ':' <==> s[i] == ':')
    ensures forall i :: 0 <= i < |s| ==> (Downcase(s)[i] == ':' <==> s[i] == ':')
  {
    forall i | 0 <= i < |s| ensures Dashes(s)[i] == ':' <==> s[i] == ':' {
      DashesAt(s, i);
    }
    forall i | 0 <= i < |s| ensures Downcase(s)[i] == ':' <==> s[i] == ':' {
      DowncaseAt(s, i);
    }
  }

  /** `tr!` replaces a dash by an underscore and keeps every other character. */
  lemma {:induction false} DashesAt(s: string, i: nat)
    requires i < |s|
    ensures Dashes(s)[i] == if s[i] == '-' then '_' else s[i]
    decreases i
  {
    if i > 0 {
      assert s[1..][i - 1] == s[i];
      DashesAt(s[1..], i - 1);
    }
  }

  lemma {:induction false} DowncaseAppend(a: string, b: string)
    ensures Downcase(a + b) == Downcase(a) + Downcase(b)
    decreases |a|
  {
    if a != [] {
      assert (a + b)[0] == a[0] && (a + b)[1..] == a[1..] + b;
      DowncaseAppend(a[1..], b);
    } else {
      assert a + b == b;
    }
  }

  /** `downcase!` turns an uppercase letter into a lowercase one. */
  lemma {:induction false} DowncaseAt(s: string, i: nat)
    requires i < |s|
    ensures Downcase(s)[i] == Lower(s[i])
    decreases i
  {
    if i > 0 {
      assert s[1..][i - 1] == s[i];
      DowncaseAt(s[1..], i - 1);
    }
  }

  lemma {:induction false} DashesFixes(s: string)
    requires '-' !in s
    ensures Dashes(s) == s
  {
    forall i | 0 <= i < |s| ensures Dashes(s)[i] == s[i] {
      DashesAt(s, i);
    }
  }

  lemma {:induction false} DowncaseFixes(s: string)
    requires NoUpper(s)
    ensures Downcase(s) == s
  {
    forall i | 0 <= i < |s| ensures Downcase(s)[i] == s[i] {
      DowncaseAt(s, i);
    }
  }

  // ================================================================ underscore

  /** The result is in snake_case: no uppercase letter, no dash and no "::". */
  lemma UnderscoreIsSnake(s: string)
    ensures Snake(Underscore(s))
  {
    var a := Slashes(s);
    SlashesNoDoubleColon(s);
    var b := SplitAcronyms(a);
    SplitAcronymsNoDoubleColon(a);
    var c := SplitWords(b);
    SplitWordsNoDoubleColon(b);
    CharMapsKeepColons(c);
    CharMapsKeepColons(Dashes(c));
    var d := Dashes(c);
    assert '-' !in Downcase(d) by {
      forall i | 0 <= i < |d| ensures Downcase(d)[i] != '-' {
        DowncaseAt(d, i);
      }
    }
  }

  /** A name is left as it is exactly when it is already in snake_case. */
  lemma UnderscoreFixedPoints(s: string)
    ensures Underscore(s) == s <==> Snake(s)
  {
    if Snake(s) {
      SlashesFixes(s);
      SplitAcronymsFixes(s);
      SplitWordsFixes(s);
      DashesFixes(s);
      DowncaseFixes(s);
    }
    UnderscoreIsSnake(s);
  }

  /** Applying `underscore` a second time changes nothing. */
  lemma UnderscoreIdempotent(s: string)
    ensures Underscore(Underscore(s)) == Underscore(s)
  {
    UnderscoreIsSnake(s);
    UnderscoreFixedPoints(Underscore(s));
  }

  lemma {:induction false} NoDoubleColonAppend(a: string, b: string)
    requires NoDoubleColon(a) && NoDoubleColon(b)
    requires !(a != [] && b != [] && a[|a| - 1] == ':' && b[0] == ':')
    ensures NoDoubleColon(a + b)
  {
    var s := a + b;
    forall i | 0 < i < |s| ensures !(s[i - 1] == ':' && s[i] == ':') {
      if i < |a| { assert s[i - 1] == a[i - 1] && s[i] == a[i]; }
      else if i == |a| { assert s[i - 1] == a[i - 1] && s[i] == b[0]; }
      else { assert s[i - 1] == b[i - 1 - |a|] && s[i] == b[i - |a|]; }
    }
  }

  lemma {:induction false} SplitAcronymsAppend(a: string, t: string)
    requires NoUpper(a)
    ensures SplitAcronyms(a + t) == a + SplitAcronyms(t)
    decreases |a|
  {
    if a != [] {
      assert (a + t)[0] == a[0] && (a + t)[1..] == a[1..] + t;
      assert UpperRun(a + t) == 0;
      SplitAcronymsAppend(a[1..], t);
    } else {
      assert a + t == t;
    }
  }

  /** The last letter of `a` and the uppercase letter starting `t` are split apart. */
  lemma {:induction false} SplitWordsAppend(a: string, t: string)
    requires a != [] && NoUpper(a) && (IsLower(a[|a| - 1]) || IsDigit(a[|a| - 1]))
    requires t != [] && IsUpper(t[0])
    ensures SplitWords(a + t) == a + ['_', t[0]] + SplitWords(t[1..])
    decreases |a|
  {
    var u := a + t;
    var tail := ['_', t[0]] + SplitWords(t[1..]);
    Regroup(a, ['_', t[0]], SplitWords(t[1..]));
    if |a| == 1 {
      assert u[0] == a[0] && u[1] == t[0] && u[2..] == t[1..];
      assert WordBreakAt(u);
      assert SplitWords(u) == [a[0], '_', t[0]] + SplitWords(t[1..]);
      assert a == [a[0]];
    } else {
      assert u[0] == a[0] && u[1] == a[1] && u[1..] == a[1..] + t;
      assert !WordBreakAt(u);
      SplitWordsAppend(a[1..], t);
      Regroup(a[1..], ['_', t[0]], SplitWords(t[1..]));
      ConsRest(a, tail);
    }
  }

  /** Regrouping a three-way append; kept apart so the word-break proof stays small. */
  lemma Regroup(a: string, b: string, c: string)
    ensures a + b + c == a + (b + c)
  {
  }

  /** A non-empty string is its first letter followed by the rest. */
  lemma ConsRest(a: string, x: string)
    requires a != []
    ensures [a[0]] + (a[1..] + x) == a + x
  {
    assert a == [a[0]] + a[1..];
  }

  /**
   * One hump: a snake_case word ending in a lowercase letter or a digit,
   * then an uppercase letter and a snake_case tail, becomes the word, an
   * underscore, the letter in lowercase and the tail. `isRoot?` becomes
   * `is_root?` and `nodeHeight` becomes `node_height` this way.
   */
  lemma UnderscoreOneHump(a: string, u: char, b: string)
    requires a != [] && Snake(a) && (IsLower(a[|a| - 1]) || IsDigit(a[|a| - 1]))
    requires IsUpper(u) && Snake(b)
    ensures Underscore(a + [u] + b) == a + ['_', Lower(u)] + b
  {
    var s := a + ([u] + b);
    var w := a + ['_', u] + b;
    assert a + [u] + b == s;
    HumpSlashes(a, u, b);
    HumpAcronyms(a, u, b);
    HumpWords(a, u, b);
    HumpDowncase(a, u, b);
    calc {
      Underscore(s);
      Downcase(Dashes(SplitWords(SplitAcronyms(Slashes(s)))));
      Downcase(Dashes(SplitWords(SplitAcronyms(s))));
      Downcase(Dashes(SplitWords(s)));
      Downcase(Dashes(w));
      a + ['_', Lower(u)] + b;
    }
  }

  /** The hump has no "::" to rewrite. */
  lemma HumpSlashes(a: string, u: char, b: string)
    requires NoDoubleColon(a) && IsUpper(u) && NoDoubleColon(b)
    ensures Slashes(a + ([u] + b)) == a + ([u] + b)
  {
    ConsNoDoubleColon(u, b);
    NoDoubleColonAppend(a, [u] + b);
    SlashesFixes(a + ([u] + b));
  }

  /** A single uppercase letter is no acronym. */
  lemma HumpAcronyms(a: string, u: char, b: string)
    requires NoUpper(a) && IsUpper(u) && NoUpper(b)
    ensures SplitAcronyms(a + ([u] + b)) == a + ([u] + b)
  {
    var t := [u] + b;
    assert t[0] == u && t[1..] == b;
    assert UpperRun(t) == 1 + UpperRun(b);
    assert UpperRun(t) == 1;
    assert !AcronymAt(t);
    assert SplitAcronyms(t) == [u] + SplitAcronyms(b);
    SplitAcronymsFixes(b);
    SplitAcronymsAppend(a, t);
  }

  /** The hump is split once, before the uppercase letter. */
  lemma HumpWords(a: string, u: char, b: string)
    requires a != [] && NoUpper(a) && (IsLower(a[|a| - 1]) || IsDigit(a[|a| - 1]))
    requires IsUpper(u) && NoUpper(b)
    ensures SplitWords(a + ([u] + b)) == a + ['_', u] + b
  {
    var t := [u] + b;
    assert t[0] == u && t[1..] == b;
    SplitWordsFixes(b);
    SplitWordsAppend(a, t);
  }

  /** Then only the uppercase letter changes. */
  lemma HumpDowncase(a: string, u: char, b: string)
    requires Snake(a) && IsUpper(u) && Snake(b)
    ensures Downcase(Dashes(a + ['_', u] + b)) == a + ['_', Lower(u)] + b
  {
    var w := a + ['_', u] + b;
    assert '-' !in w by {
      assert forall i :: 0 <= i < |w| ==> w[i] in a || w[i] in ['_', u] || w[i] in b;
    }
    DashesFixes(w);
    DowncaseAppend(a + ['_', u], b);
    DowncaseAppend(a, ['_', u]);
    DowncaseFixes(a);
    DowncaseFixes(b);
  }
}
