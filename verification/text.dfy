/**
 * The .NET string primitives the command parser relies on: whitespace
 * classification, `Replace("\t", " ")`, `Trim()`, `Split(" ")`,
 * `String.Join(" ", ...)` and `ToUpper()` (ASCII letters only).
 */
module Text {
  import opened Wrappers
  import opened Seqs

  /** The characters `Char.IsWhiteSpace` accepts (Unicode categories Zs, Zl, Zp
      plus U+0009..U+000D, U+0085 and U+00A0). */
  predicate IsWhitespace(c: char) {
    || ('\U{0009}' <= c <= '\U{000D}')
    || c == ' '
    || c == '\U{0085}'
    || c == '\U{00A0}'
    || c == '\U{1680}'
    || ('\U{2000}' <= c <= '\U{200A}')
    || c == '\U{2028}'
    || c == '\U{2029}'
    || c == '\U{202F}'
    || c == '\U{205F}'
    || c == '\U{3000}'
  }

  /** Every character is whitespace (the empty string included). */
  predicate IsBlank(s: string) {
    forall i :: 0 <= i < |s| ==> IsWhitespace(s[i])
  }

  /** `String.IsNullOrWhiteSpace`, with `None` standing for `null`. */
  predicate IsNullOrWhiteSpace(s: Option<string>) {
    s.None? || IsBlank(s.value)
  }

  /** `s.Replace("\t", " ")`. */
  function ReplaceTabs(s: string): (r: string)
    ensures |r| == |s| && '\t' !in r
    ensures forall j :: 0 <= j < |s| ==> r[j] == if s[j] == '\t' then ' ' else s[j]
  {
    seq(|s|, i requires 0 <= i < |s| => if s[i] == '\t' then ' ' else s[i])
  }

  /** Tabs and spaces are both whitespace, so replacing one by the other
      neither creates nor removes a non-blank character. */
  lemma ReplaceTabsKeepsBlankness(s: string)
    ensures IsBlank(ReplaceTabs(s)) <==> IsBlank(s)
  {
    if !IsBlank(s) {
      var j :| 0 <= j < |s| && !IsWhitespace(s[j]);
      assert !IsWhitespace(ReplaceTabs(s)[j]);
    }
  }

  /** `s.TrimStart()`: drops leading whitespace. */
  function TrimStart(s: string): (r: string)
    ensures |r| <= |s|
    decreases |s|
  {
    if |s| > 0 && IsWhitespace(s[0]) then TrimStart(s[1..]) else s
  }

  /** `s.TrimEnd()`: drops trailing whitespace. */
  function TrimEnd(s: string): (r: string)
    ensures |r| <= |s|
    decreases |s|
  {
    if |s| > 0 && IsWhitespace(s[|s| - 1]) then TrimEnd(s[..|s| - 1]) else s
  }

  /** `TrimStart` keeps the longest suffix that does not start with
      whitespace: what it drops is blank. */
  lemma {:induction false} TrimStartSpec(s: string)
    ensures var r := TrimStart(s);
      && r == s[|s| - |r|..]
      && IsBlank(s[..|s| - |r|])
      && (|r| == 0 || !IsWhitespace(r[0]))
    decreases |s|
  {
    if |s| > 0 && IsWhitespace(s[0]) {
      TrimStartSpec(s[1..]);
      var r := TrimStart(s);
      assert s[1..][|s| - 1 - |r|..] == s[|s| - |r|..];
      assert s[..|s| - |r|] == [s[0]] + s[1..][..|s| - 1 - |r|];
    }
  }

  /** `TrimEnd` keeps the longest prefix that does not end with whitespace:
      what it drops is blank. */
  lemma {:induction false} TrimEndSpec(s: string)
    ensures var r := TrimEnd(s);
      && r == s[..|r|]
      && IsBlank(s[|r|..])
      && (|r| == 0 || !IsWhitespace(r[|r| - 1]))
    decreases |s|
  {
    if |s| > 0 && IsWhitespace(s[|s| - 1]) {
      var s' := s[..|s| - 1];
      TrimEndSpec(s');
      var r := TrimEnd(s);
      assert s'[..|r|] == s[..|r|];
      assert s[|r|..] == s'[|r|..] + [s[|s| - 1]];
    }
  }

  /** `s.Trim()`: `s` without its leading and trailing whitespace. */
  function Trim(s: string): string {
    TrimEnd(TrimStart(s))
  }

  /** `Trim` cuts `s` down to a slice `s[i..i + |Trim(s)|]` whose margins are
      all whitespace and whose ends are not; it is empty exactly when `s` is
      blank. */
  lemma TrimSpec(s: string) returns (i: nat)
    ensures var r := Trim(s);
      && i + |r| <= |s| && r == s[i..i + |r|]
      && IsBlank(s[..i]) && IsBlank(s[i + |r|..])
      && (|r| == 0 || (!IsWhitespace(r[0]) && !IsWhitespace(r[|r| - 1])))
      && (r == [] <==> IsBlank(s))
  {
    var t := TrimStart(s);
    var r := TrimEnd(t);
    TrimStartSpec(s);
    TrimEndSpec(t);
    i := |s| - |t|;
    assert s[i + |r|..] == t[|r|..];
    assert |r| > 0 ==> r[0] == t[0];
    TrimmedEmptyMeansBlank(s, i, r);
  }

  /** Removing blank margins from a string that is not blank leaves something. */
  lemma TrimmedEmptyMeansBlank(s: string, i: nat, r: string)
    requires i + |r| <= |s| && r == s[i..i + |r|]
    requires IsBlank(s[..i]) && IsBlank(s[i + |r|..])
    requires |r| == 0 || !IsWhitespace(r[0])
    ensures r == [] <==> IsBlank(s)
  {
  }

  /** Upper-cases the ASCII letters of one character. */
  function UpperChar(c: char): char {
    if 'a' <= c <= 'z' then (c as int - 32) as char else c
  }

  /** `s.ToUpper()` restricted to ASCII letters. */
  function ToUpper(s: string): (r: string)
    ensures |r| == |s|
    ensures forall i :: 0 <= i < |s| ==> r[i] == UpperChar(s[i])
  {
    seq(|s|, i requires 0 <= i < |s| => UpperChar(s[i]))
  }

  /** `String.Join(" ", pieces)`: the pieces with one space between neighbours. */
  function Join(pieces: seq<string>): string
    requires |pieces| >= 1
  {
    if |pieces| == 1 then pieces[0] else pieces[0] + " " + Join(pieces[1..])
  }

  /** `s.Split(" ")`: the maximal space-free runs of `s`, empty ones included. */
  function Split(s: string): (pieces: seq<string>)
    ensures |pieces| >= 1
    decreases |s|
  {
    if ' ' !in s then [s]
    else
      var i := IndexOf(s, ' ');
      [s[..i]] + Split(s[i + 1..])
  }

  /** `Split` and `Join` are inverse on `s`: the pieces hold no space, and
      rejoining them with single spaces gives back `s`. */
  lemma {:induction false} SplitSpec(s: string)
    ensures forall i :: 0 <= i < |Split(s)| ==> ' ' !in Split(s)[i]
    ensures Join(Split(s)) == s
    decreases |s|
  {
    if ' ' in s {
      var i := IndexOf(s, ' ');
      var tail := s[i + 1..];
      var rest := Split(tail);
      SplitSpec(tail);
      var pieces := Split(s);
      assert pieces == [s[..i]] + rest;
      assert pieces[0] == s[..i] && pieces[1..] == rest;
      assert Join(pieces) == s[..i] + " " + Join(rest);
      assert s == s[..i] + " " + tail;
      forall k | 0 <= k < |pieces|
        ensures ' ' !in pieces[k]
      {
        if k > 0 {
          assert pieces[k] == rest[k - 1];
        }
      }
    }
  }

  /** `Split` yields one piece more than `s` has spaces. */
  lemma {:induction false} SplitCount(s: string)
    ensures |Split(s)| == multiset(s)[' '] + 1
    decreases |s|
  {
    if ' ' !in s {
      assert multiset(s)[' '] == 0;
    } else {
      var i := IndexOf(s, ' ');
      SplitCount(s[i + 1..]);
      SpacesAround(s, i);
    }
  }

  /** Counting the spaces on either side of a space at position `i`. */
  lemma SpacesAround(s: string, i: nat)
    requires i < |s| && s[i] == ' '
    ensures multiset(s)[' '] == multiset(s[..i])[' '] + 1 + multiset(s[i + 1..])[' ']
  {
    assert s == s[..i] + ([' '] + s[i + 1..]);
  }

  /** Splitting `a + " " + b` with `a` space-free yields `a` then the pieces of `b`. */
  lemma SplitCons(a: string, b: string)
    requires ' ' !in a
    ensures Split(a + " " + b) == [a] + Split(b)
  {
    var s := a + " " + b;
    assert s[|a|] == ' ' && s[..|a|] == a;
    assert IndexOf(s, ' ') == |a|;
    assert s[|a| + 1..] == b;
  }

  /** Splitting `a b rest` with `a` and `b` space-free yields `a`, `b`, then
      the pieces of `rest`. */
  lemma SplitTwo(a: string, b: string, rest: string)
    requires ' ' !in a && ' ' !in b
    ensures Split(a + " " + b + " " + rest) == [a, b] + Split(rest)
  {
    SplitConsNested(a, b, rest);
    assert a + " " + b + " " + rest == a + " " + (b + " " + rest);
  }

  lemma SplitConsNested(a: string, b: string, rest: string)
    requires ' ' !in a && ' ' !in b
    ensures Split(a + " " + (b + " " + rest)) == [a, b] + Split(rest)
  {
    SplitCons(a, b + " " + rest);
    SplitCons(b, rest);
  }

  /** The converse round trip: joining space-free pieces and splitting again
      gives the pieces back. */
  lemma {:induction false} SplitJoin(pieces: seq<string>)
    requires |pieces| >= 1
    requires forall i :: 0 <= i < |pieces| ==> ' ' !in pieces[i]
    ensures Split(Join(pieces)) == pieces
    decreases |pieces|
  {
    if |pieces| == 1 {
    } else {
      SplitJoin(pieces[1..]);
      SplitCons(pieces[0], Join(pieces[1..]));
      assert [pieces[0]] + pieces[1..] == pieces;
    }
  }
}
