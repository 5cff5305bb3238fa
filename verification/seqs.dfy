/** Generic facts about sequences used by the store: `List.Contains`,
    `List.IndexOf` and `List.Remove` (which drops the first occurrence). */
module Seqs {

  /** No element occurs twice. */
  predicate NoDuplicates<T(==)>(s: seq<T>) {
    forall i, j :: 0 <= i < j < |s| ==> s[i] != s[j]
  }

  /** The position of the first occurrence of `x` in `s`. */
  function IndexOf<T(==)>(s: seq<T>, x: T): (i: nat)
    requires x in s
    ensures i < |s| && s[i] == x && x !in s[..i]
  {
    if s[0] == x then 0
    else
      var j := IndexOf(s[1..], x);
      assert s[..j + 1] == [s[0]] + s[1..][..j];
      1 + j
  }

  /** `List.Remove(x)`: `s` without the first occurrence of `x`, or `s` itself
      when `x` does not occur. */
  function RemoveFirst<T(==)>(s: seq<T>, x: T): (r: seq<T>)
    ensures x !in s ==> r == s
    ensures x in s ==> |r| == |s| - 1
  {
    if x in s then s[..IndexOf(s, x)] + s[IndexOf(s, x) + 1..] else s
  }

  /** Removing `x` keeps every other element. */
  lemma RemoveFirstKeeps<T>(s: seq<T>, x: T, y: T)
    requires y != x
    ensures y in RemoveFirst(s, x) <==> y in s
  {
    if x in s {
      var i := IndexOf(s, x);
      assert s == s[..i] + [x] + s[i + 1..];
    }
  }

  /** Removing `x` from a duplicate-free sequence removes it entirely and
      leaves the rest duplicate-free. */
  lemma RemoveFirstNoDuplicates<T>(s: seq<T>, x: T)
    requires NoDuplicates(s)
    ensures NoDuplicates(RemoveFirst(s, x)) && x !in RemoveFirst(s, x)
  {
    if x in s {
      var i := IndexOf(s, x);
      var r := RemoveFirst(s, x);
      assert r == s[..i] + s[i + 1..];
      forall a | 0 <= a < |r|
        ensures r[a] == s[if a < i then a else a + 1]
      {
      }
    }
  }

  /** Removing `x` from a sequence that starts with something else leaves
      that first element in front. */
  lemma RemoveFirstCons<T>(y: T, s: seq<T>, x: T)
    requires y != x
    ensures RemoveFirst([y] + s, x) == [y] + RemoveFirst(s, x)
  {
    var t := [y] + s;
    if x in s {
      IndexOfCons(y, s, x);
      CutCons(y, s, IndexOf(s, x));
    }
  }

  /** Cutting position `i + 1` out of `[y] + s` is cutting position `i` out
      of `s` and putting `y` back in front. */
  lemma CutCons<T>(y: T, s: seq<T>, i: nat)
    requires i < |s|
    ensures var t := [y] + s; t[..i + 1] + t[i + 2..] == [y] + (s[..i] + s[i + 1..])
  {
    var t := [y] + s;
    assert t[..i + 1] == [y] + s[..i];
    assert t[i + 2..] == s[i + 1..];
  }

  lemma IndexOfCons<T>(y: T, s: seq<T>, x: T)
    requires y != x && x in s
    ensures IndexOf([y] + s, x) == 1 + IndexOf(s, x)
  {
    assert ([y] + s)[1..] == s;
  }

  /** A value absent from a sequence is absent from each of its slices. */
  lemma NotInSlice<T>(s: seq<T>, lo: nat, hi: nat, x: T)
    requires lo <= hi <= |s| && x !in s
    ensures x !in s[lo..hi]
  {
  }

  /** The position of the first element satisfying `p`, or `|s|` when none does. */
  function FirstIndex<T>(s: seq<T>, p: T -> bool): (n: nat)
    ensures n <= |s|
    ensures n < |s| ==> p(s[n])
    ensures forall i :: 0 <= i < n ==> !p(s[i])
  {
    if |s| == 0 then 0
    else if p(s[0]) then 0
    else
      var n := FirstIndex(s[1..], p);
      assert forall i :: 0 < i <= n ==> s[i] == s[1..][i - 1];
      1 + n
  }

  /** When `s` does not start with a match, the first match is one further
      along than in the tail. */
  lemma FirstIndexTail<T>(s: seq<T>, p: T -> bool)
    requires |s| > 0 && !p(s[0])
    ensures FirstIndex(s, p) == 1 + FirstIndex(s[1..], p)
  {
  }
}
