/**
 * Concrete runs of the store, mirroring the
 * repository's unit tests and the behaviour of splitting on single spaces.
 */
module Scenarios {
  import opened Wrappers
  import opened Text
  import opened Models
  import opened KeyManager
  import opened CommandCenter

  /** Two members under one key and one under another: every add succeeds,
      two keys and three members are listed. */
  lemma AddGoodKeyMembers()
    ensures var r1 := AddMember([], "Key1", "Mbr1");
      var r2 := AddMember(r1.store, "Key1", "Mbr2");
      var r3 := AddMember(r2.store, "Key2", "Mbr1");
      && r1.msg == "" && r2.msg == "" && r3.msg == ""
      && GetAllKeys(r3.store) == ["Key1", "Key2"]
      && GetAllMembers(r3.store) == ["Mbr1", "Mbr2", "Mbr1"]
  {
  }

  /** Adding the same pair twice: the second add is refused. */
  lemma AddDuplicateKeyMembers()
    ensures var r1 := AddMember([], "Key1", "Mbr1");
      var r2 := AddMember(r1.store, "Key1", "Mbr1");
      r1.msg == "" && r2 == Reply(r1.store, AlreadyExists("Key1", "Mbr1"))
  {
  }

  /** Removing the only member of a key removes the key. */
  lemma RemoveGoodKeyMember()
    ensures var r1 := AddMember([], "Key1", "Mbr1");
      var r2 := RemoveMember(r1.store, "Key1", "Mbr1");
      r2.msg == "" && GetAllKeys(r1.store) == ["Key1"] && GetAllKeys(r2.store) == []
  {
  }

  /** Runs of spaces are not collapsed: whatever follows the space after the
      key is the member verbatim, so `"ADD k   m"` gives the member `"  m"`. */
  lemma ParseKeepsSpacesInMember(line: Option<string>, a: string, b: string, rest: string)
    requires ' ' !in a && ' ' !in b
    requires Sanitize(line) == a + " " + b + " " + rest
    ensures ParseCommand(line) == CommandInfo(a, Some(b), Some(rest))
  {
    var pieces := PiecesAfterKey(Sanitize(line), a, b, rest);
  }

  /** Splitting `a b rest` with space-free `a` and `b`: two pieces, then the
      pieces of `rest`, which rejoin to `rest`. */
  lemma PiecesAfterKey(s: string, a: string, b: string, rest: string) returns (pieces: seq<string>)
    requires ' ' !in a && ' ' !in b
    requires s == a + " " + b + " " + rest
    ensures pieces == Split(s)
    ensures |pieces| >= 3 && pieces[0] == a && pieces[1] == b && Join(pieces[2..]) == rest
  {
    SplitTwo(a, b, rest);
    pieces := Split(s);
    SplitSpec(rest);
    assert pieces[2..] == Split(rest);
  }
}
