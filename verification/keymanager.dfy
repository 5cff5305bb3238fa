/**
 * The multimap store: string keys mapped to duplicate-free, insertion-ordered
 * lists of string members. The dictionary is an association list of entries
 * with distinct keys; a key enters at the end of the list and leaves it in
 * place. Adding, removing a member and removing a key return the new store
 * together with a status message ("" on success, an `ERROR:` text
 * otherwise); clearing returns only the new store.
 */
module KeyManager {
  import opened Wrappers
  import opened Seqs
  import opened Text

  datatype Entry = Entry(key: string, members: seq<string>)

  type Collection = seq<Entry>

  /** A store after a mutation, with the status message the mutator returns. */
  datatype Reply = Reply(store: Collection, msg: string)

  // ---------------------------------------------------------------- messages

  function AlreadyExists(k: string, m: string): string {
    "ERROR: Key " + k + " Member " + m + " already exists."
  }

  function KeyDoesNotExist(k: string): string {
    "ERROR: Key " + k + " does not exist."
  }

  function MemberDoesNotExist(k: string, m: string): string {
    "ERROR: Key " + k + " Member " + m + " does not exist."
  }

  function KeyNotFound(k: string): string {
    "ERROR: Key " + k + " was not found"
  }

  function MemberNotFound(k: string, m: string): string {
    "ERROR: " + k + " " + m + " was not found"
  }

  // ------------------------------------------------------ dictionary access

  /** `keyCollection[k]` when `ContainsKey(k)`: the first entry keyed `k`. */
  function Lookup(c: Collection, k: string): Option<seq<string>> {
    if |c| == 0 then None
    else if c[0].key == k then Some(c[0].members)
    else Lookup(c[1..], k)
  }

  predicate HasKey(c: Collection, k: string) {
    Lookup(c, k).Some?
  }

  predicate HasMember(c: Collection, k: string, m: string) {
    HasKey(c, k) && m in Lookup(c, k).value
  }

  /** `GetAllKeys`: the keys, in entry order. Exactly the present keys occur. */
  function GetAllKeys(c: Collection): (keys: seq<string>)
    ensures |keys| == |c|
    ensures forall k :: k in keys <==> HasKey(c, k)
  {
    if |c| == 0 then [] else [c[0].key] + GetAllKeys(c[1..])
  }

  /** The store invariant: keys are distinct, and every key has a non-empty,
      duplicate-free member list. */
  predicate Valid(c: Collection) {
    |c| == 0 ||
    (&& c[0].key !in GetAllKeys(c[1..])
     && |c[0].members| > 0
     && NoDuplicates(c[0].members)
     && Valid(c[1..]))
  }

  /** Under the invariant every present key has a non-empty, duplicate-free
      member list. */
  lemma {:induction false} ValidLookup(c: Collection, k: string)
    requires Valid(c) && HasKey(c, k)
    ensures |Lookup(c, k).value| > 0 && NoDuplicates(Lookup(c, k).value)
  {
    if c[0].key != k {
      ValidLookup(c[1..], k);
    }
  }

  /** Under the invariant the key listing has no duplicates. */
  lemma {:induction false} ValidKeysDistinct(c: Collection)
    requires Valid(c)
    ensures NoDuplicates(GetAllKeys(c))
  {
    if |c| > 0 {
      ValidKeysDistinct(c[1..]);
      var ks := GetAllKeys(c);
      assert ks[1..] == GetAllKeys(c[1..]);
      forall a, b | 0 <= a < b < |ks| ensures ks[a] != ks[b] {
        assert ks[b] == ks[1..][b - 1];
        if a > 0 {
          assert ks[a] == ks[1..][a - 1];
        }
      }
    }
  }

  /** Conversely, distinct keys whose member lists are all non-empty and
      duplicate-free make a valid store. */
  lemma {:induction false} ValidFromLookups(c: Collection)
    requires NoDuplicates(GetAllKeys(c))
    requires forall k :: HasKey(c, k) ==> |Lookup(c, k).value| > 0 && NoDuplicates(Lookup(c, k).value)
    ensures Valid(c)
  {
    if |c| > 0 {
      var ks := GetAllKeys(c);
      assert ks[1..] == GetAllKeys(c[1..]);
      assert forall j :: 0 <= j < |ks[1..]| ==> ks[1..][j] == ks[j + 1] != ks[0];
      assert c[0].key !in ks[1..];
      assert NoDuplicates(ks[1..]) by {
        forall a, b | 0 <= a < b < |ks[1..]| ensures ks[1..][a] != ks[1..][b] {
          assert ks[1..][a] == ks[a + 1] && ks[1..][b] == ks[b + 1];
        }
      }
      assert Lookup(c, c[0].key) == Some(c[0].members);
      forall k | HasKey(c[1..], k)
        ensures |Lookup(c[1..], k).value| > 0 && NoDuplicates(Lookup(c[1..], k).value)
      {
        assert k != c[0].key;
        assert Lookup(c, k) == Lookup(c[1..], k);
      }
      ValidFromLookups(c[1..]);
    }
  }

  // ------------------------------------------------------- entry plumbing

  /** Replaces the member list of the entry keyed `k`, in place. */
  function SetMembers(c: Collection, k: string, ms: seq<string>): (r: Collection)
    ensures GetAllKeys(r) == GetAllKeys(c)
    ensures HasKey(c, k) ==> Lookup(r, k) == Some(ms)
    ensures forall k' :: k' != k ==> Lookup(r, k') == Lookup(c, k')
    ensures Valid(c) && |ms| > 0 && NoDuplicates(ms) ==> Valid(r)
  {
    if |c| == 0 then []
    else if c[0].key == k then [Entry(k, ms)] + c[1..]
    else [c[0]] + SetMembers(c[1..], k, ms)
  }

  /** `Dictionary.Remove(k)`: drops the entry keyed `k`. */
  function DeleteKey(c: Collection, k: string): (r: Collection)
    ensures GetAllKeys(r) == RemoveFirst(GetAllKeys(c), k)
    ensures forall k' :: k' != k ==> Lookup(r, k') == Lookup(c, k')
    ensures Valid(c) ==> Valid(r) && !HasKey(r, k)
  {
    if |c| == 0 then []
    else if c[0].key == k then c[1..]
    else
      var rest := DeleteKey(c[1..], k);
      DeleteKeyStep(c, k, rest);
      [c[0]] + rest
  }

  lemma DeleteKeyStep(c: Collection, k: string, rest: Collection)
    requires |c| > 0 && c[0].key != k
    requires GetAllKeys(rest) == RemoveFirst(GetAllKeys(c[1..]), k)
    ensures GetAllKeys([c[0]] + rest) == RemoveFirst(GetAllKeys(c), k)
    ensures c[0].key !in GetAllKeys(c[1..]) ==> c[0].key !in GetAllKeys(rest)
  {
    assert ([c[0]] + rest)[1..] == rest;
    RemoveFirstCons(c[0].key, GetAllKeys(c[1..]), k);
    if c[0].key !in GetAllKeys(c[1..]) {
      RemoveFirstKeeps(GetAllKeys(c[1..]), k, c[0].key);
    }
  }

  /** `Dictionary.Add(e.key, ...)` for a new key: the entry goes last. */
  function AddEntry(c: Collection, e: Entry): (r: Collection)
    ensures GetAllKeys(r) == GetAllKeys(c) + [e.key]
    ensures forall k :: Lookup(r, k) == if HasKey(c, k) then Lookup(c, k)
                                        else if k == e.key then Some(e.members)
                                        else None
    ensures Valid(c) && e.key !in GetAllKeys(c) && |e.members| > 0 && NoDuplicates(e.members)
            ==> Valid(r)
  {
    if |c| == 0 then [e] else [c[0]] + AddEntry(c[1..], e)
  }

  // ---------------------------------------------------------------- mutators

  /** `AddMember`: appends `m` to the members of `k`, creating `k` if it is
      absent; a pair that is already present is refused. */
  function AddMember(c: Collection, k: string, m: string): (r: Reply)
    ensures Valid(c) ==> Valid(r.store)
    ensures r.msg == "" <==> !HasMember(c, k, m)
    ensures HasMember(c, k, m) ==> r == Reply(c, AlreadyExists(k, m))
    ensures !HasMember(c, k, m) ==>
      && Lookup(r.store, k) == Some(Lookup(c, k).GetOr([]) + [m])
      && (forall k' :: k' != k ==> Lookup(r.store, k') == Lookup(c, k'))
      && GetAllKeys(r.store) == GetAllKeys(c) + (if HasKey(c, k) then [] else [k])
  {
    match Lookup(c, k)
    case None =>
      assert Lookup(c, k).GetOr([]) + [m] == [m];
      Reply(AddEntry(c, Entry(k, [m])), "")
    case Some(ms) =>
      if m !in ms then
        assert NoDuplicates(ms) ==> NoDuplicates(ms + [m]);
        assert Valid(c) ==> NoDuplicates(ms) by { if Valid(c) { ValidLookup(c, k); } }
        Reply(SetMembers(c, k, ms + [m]), "")
      else
        Reply(c, AlreadyExists(k, m))
  }

  /** `RemoveAllMembers`: drops the key `k` and its members. */
  function RemoveAllMembers(c: Collection, k: string): (r: Reply)
    ensures Valid(c) ==> Valid(r.store)
    ensures r.msg == "" <==> HasKey(c, k)
    ensures !HasKey(c, k) ==> r == Reply(c, KeyNotFound(k))
    ensures HasKey(c, k) ==>
      && (Valid(c) ==> !HasKey(r.store, k))
      && (forall k' :: k' != k ==> Lookup(r.store, k') == Lookup(c, k'))
      && GetAllKeys(r.store) == RemoveFirst(GetAllKeys(c), k)
  {
    if HasKey(c, k) then Reply(DeleteKey(c, k), "")
    else Reply(c, KeyNotFound(k))
  }

  /** `RemoveMember`: removes `m` from the members of `k`; when `m` is the
      last member, the key goes too (through `RemoveAllMembers`). */
  function RemoveMember(c: Collection, k: string, m: string): (r: Reply)
    ensures Valid(c) ==> Valid(r.store)
    ensures r.msg == "" <==> HasMember(c, k, m)
    ensures !HasKey(c, k) ==> r == Reply(c, KeyDoesNotExist(k))
    ensures HasKey(c, k) && !HasMember(c, k, m) ==> r == Reply(c, MemberDoesNotExist(k, m))
    ensures HasMember(c, k, m) ==>
      (forall k' :: k' != k ==> Lookup(r.store, k') == Lookup(c, k'))
    ensures HasMember(c, k, m) && |Lookup(c, k).value| > 1 ==>
      && Lookup(r.store, k) == Some(RemoveFirst(Lookup(c, k).value, m))
      && GetAllKeys(r.store) == GetAllKeys(c)
    ensures HasMember(c, k, m) && |Lookup(c, k).value| == 1 && Valid(c) ==>
      !HasKey(r.store, k)
  {
    match Lookup(c, k)
    case None => Reply(c, KeyDoesNotExist(k))
    case Some(ms) =>
      if m !in ms then Reply(c, MemberDoesNotExist(k, m))
      else if |ms| > 1 then
        assert Valid(c) ==> NoDuplicates(ms) by { if Valid(c) { ValidLookup(c, k); } }
        assert NoDuplicates(ms) ==> NoDuplicates(RemoveFirst(ms, m)) by {
          if NoDuplicates(ms) { RemoveFirstNoDuplicates(ms, m); }
        }
        Reply(SetMembers(c, k, RemoveFirst(ms, m)), "")
      else RemoveAllMembers(c, k)
  }

  /** `ClearAllKeys`: starts over with an empty store. */
  function ClearAllKeys(c: Collection): (r: Collection)
    ensures Valid(r)
    ensures forall k :: !HasKey(r, k)
  {
    []
  }

  // ------------------------------------------------------------------ queries

  /** `KeyExists`: "" exactly when `k` is present. */
  function KeyExists(c: Collection, k: string): (msg: string)
    ensures msg == "" <==> HasKey(c, k)
    ensures msg != "" ==> msg == KeyNotFound(k) && !IsBlank(msg)
  {
    if !HasKey(c, k) then
      var msg := KeyNotFound(k);
      assert msg[0] == 'E';
      msg
    else ""
  }

  /** `MemberExists`: "" exactly when `m` is a member of `k`; for an absent key
      the answer is the `KeyExists` message. */
  function MemberExists(c: Collection, k: string, m: string): (msg: string)
    ensures msg == "" <==> HasMember(c, k, m)
    ensures !HasKey(c, k) ==> msg == KeyExists(c, k)
    ensures HasKey(c, k) && !HasMember(c, k, m) ==> msg == MemberNotFound(k, m)
  {
    var msg := KeyExists(c, k);
    if IsBlank(msg) then
      if m !in Lookup(c, k).value then MemberNotFound(k, m) else msg
    else msg
  }

  /** `GetKeyMembers`: the members of `k` in insertion order, empty when `k`
      is absent. */
  function GetKeyMembers(c: Collection, k: string): (ms: seq<string>)
    ensures !HasKey(c, k) ==> ms == []
    ensures HasKey(c, k) ==> ms == Lookup(c, k).value
    ensures forall m :: m in ms <==> HasMember(c, k, m)
    ensures Valid(c) && HasKey(c, k) ==> |ms| > 0 && NoDuplicates(ms)
  {
    if HasKey(c, k) then
      assert Valid(c) ==> |Lookup(c, k).value| > 0 && NoDuplicates(Lookup(c, k).value) by {
        if Valid(c) { ValidLookup(c, k); }
      }
      Lookup(c, k).value
    else []
  }

  /** The members of each key of `keys` in turn, as the loop of
      `GetAllMembers` concatenates them. */
  function MembersOf(c: Collection, keys: seq<string>): seq<string> {
    if |keys| == 0 then [] else GetKeyMembers(c, keys[0]) + MembersOf(c, keys[1..])
  }

  /** `GetAllMembers`: every member of every key, duplicates across keys kept:
      the members of the stored pairs, in order, as many as all member lists
      hold together. */
  function GetAllMembers(c: Collection): (ms: seq<string>)
    ensures Valid(c) ==> ms == Seconds(Pairs(c))
    ensures |ms| == SizeOf(c, GetAllKeys(c))
  {
    var ms := MembersOf(c, GetAllKeys(c));
    assert Valid(c) ==> ms == Seconds(Pairs(c)) by {
      if Valid(c) { MembersFollowPairs(c); }
    }
    MembersOfSize(c, GetAllKeys(c));
    ms
  }

  /** `"{key} {member}"` for each member of `k`. */
  function ItemsOfKey(k: string, ms: seq<string>): seq<string> {
    if |ms| == 0 then [] else [k + " " + ms[0]] + ItemsOfKey(k, ms[1..])
  }

  /** The items of each key of `keys` in turn, as the loops of `GetAllItems`
      produce them. */
  function ItemsOf(c: Collection, keys: seq<string>): seq<string> {
    if |keys| == 0 then [] else ItemsOfKey(keys[0], GetKeyMembers(c, keys[0])) + ItemsOf(c, keys[1..])
  }

  /** `GetAllItems`: one `"key member"` line per stored pair, in order. */
  function GetAllItems(c: Collection): (items: seq<string>)
    ensures Valid(c) ==> items == Rendered(Pairs(c))
  {
    var items := ItemsOf(c, GetAllKeys(c));
    assert Valid(c) ==> items == Rendered(Pairs(c)) by {
      if Valid(c) { ItemsFollowPairs(c); }
    }
    items
  }

  // ------------------------------------------------- listings, explained

  /** The pairs of one entry, in member order. */
  function HeadPairs(e: Entry): seq<(string, string)> {
    seq(|e.members|, i requires 0 <= i < |e.members| => (e.key, e.members[i]))
  }

  /** The stored (key, member) pairs, entry by entry and member by member. */
  function Pairs(c: Collection): seq<(string, string)> {
    if |c| == 0 then []
    else HeadPairs(c[0]) + Pairs(c[1..])
  }

  function Seconds(ps: seq<(string, string)>): seq<string> {
    seq(|ps|, i requires 0 <= i < |ps| => ps[i].1)
  }

  function Rendered(ps: seq<(string, string)>): seq<string> {
    seq(|ps|, i requires 0 <= i < |ps| => ps[i].0 + " " + ps[i].1)
  }

  /** Under distinct keys, a pair is stored exactly when the dictionary says so. */
  lemma {:induction false} PairsMeaning(c: Collection, k: string, m: string)
    requires Valid(c)
    ensures (k, m) in Pairs(c) <==> HasMember(c, k, m)
  {
    if |c| > 0 {
      PairsMeaning(c[1..], k, m);
      var head := HeadPairs(c[0]);
      assert Pairs(c) == head + Pairs(c[1..]);
      assert (k, m) in head <==> k == c[0].key && m in c[0].members by {
        if m in c[0].members && k == c[0].key {
          assert head[IndexOf(c[0].members, m)] == (k, m);
        }
      }
      if k == c[0].key {
        assert !HasKey(c[1..], k);
      }
    }
  }

  /** Keys the loop does not reach through the first entry see the same lists
      without it. */
  lemma {:induction false} ListingsSkipFirst(c: Collection, keys: seq<string>)
    requires |c| > 0 && c[0].key !in keys
    ensures MembersOf(c, keys) == MembersOf(c[1..], keys)
    ensures ItemsOf(c, keys) == ItemsOf(c[1..], keys)
  {
    if |keys| > 0 {
      ListingsSkipFirst(c, keys[1..]);
      assert Lookup(c, keys[0]) == Lookup(c[1..], keys[0]);
    }
  }

  lemma {:induction false} ItemsOfKeyRendered(k: string, ms: seq<string>)
    ensures ItemsOfKey(k, ms) == Rendered(HeadPairs(Entry(k, ms)))
  {
    if |ms| > 0 {
      ItemsOfKeyRendered(k, ms[1..]);
    }
  }

  lemma SecondsAppend(p: seq<(string, string)>, q: seq<(string, string)>)
    ensures Seconds(p + q) == Seconds(p) + Seconds(q)
  {
  }

  lemma RenderedAppend(p: seq<(string, string)>, q: seq<(string, string)>)
    ensures Rendered(p + q) == Rendered(p) + Rendered(q)
  {
  }

  /** The loop of `GetAllMembers` lists the members of the stored pairs, in order. */
  lemma {:induction false} MembersFollowPairs(c: Collection)
    requires Valid(c)
    ensures MembersOf(c, GetAllKeys(c)) == Seconds(Pairs(c))
  {
    if |c| > 0 {
      MembersFollowPairs(c[1..]);
      var ks := GetAllKeys(c[1..]);
      assert GetAllKeys(c) == [c[0].key] + ks;
      assert ([c[0].key] + ks)[1..] == ks;
      ListingsSkipFirst(c, ks);
      assert Pairs(c) == HeadPairs(c[0]) + Pairs(c[1..]);
      SecondsAppend(HeadPairs(c[0]), Pairs(c[1..]));
      assert Seconds(HeadPairs(c[0])) == c[0].members;
    }
  }

  /** The loops of `GetAllItems` render the stored pairs as `"key member"`, in order. */
  lemma {:induction false} ItemsFollowPairs(c: Collection)
    requires Valid(c)
    ensures ItemsOf(c, GetAllKeys(c)) == Rendered(Pairs(c))
  {
    if |c| > 0 {
      ItemsFollowPairs(c[1..]);
      var ks := GetAllKeys(c[1..]);
      assert GetAllKeys(c) == [c[0].key] + ks;
      assert ([c[0].key] + ks)[1..] == ks;
      ListingsSkipFirst(c, ks);
      assert Pairs(c) == HeadPairs(c[0]) + Pairs(c[1..]);
      RenderedAppend(HeadPairs(c[0]), Pairs(c[1..]));
      ItemsOfKeyRendered(c[0].key, c[0].members);
    }
  }

  /** The sum of `|GetKeyMembers(c, k)|` over `keys`. */
  function SizeOf(c: Collection, keys: seq<string>): nat {
    if |keys| == 0 then 0 else |GetKeyMembers(c, keys[0])| + SizeOf(c, keys[1..])
  }

  lemma {:induction false} MembersOfSize(c: Collection, keys: seq<string>)
    ensures |MembersOf(c, keys)| == SizeOf(c, keys)
  {
    if |keys| > 0 {
      MembersOfSize(c, keys[1..]);
    }
  }

  /** Both flat listings have one line per stored pair: as many as the member
      lists of all keys hold together, cross-key duplicates included; line `i`
      of the items is the key of pair `i`, a space, and line `i` of the members. */
  lemma ListingSizes(c: Collection)
    requires Valid(c)
    ensures |GetAllMembers(c)| == |GetAllItems(c)| == |Pairs(c)| == SizeOf(c, GetAllKeys(c))
    ensures forall i :: 0 <= i < |GetAllItems(c)| ==>
      GetAllItems(c)[i] == Pairs(c)[i].0 + " " + GetAllMembers(c)[i]
  {
    MembersOfSize(c, GetAllKeys(c));
  }

  /** After `ClearAllKeys` every listing is empty and no key or member is found. */
  lemma ClearEmptiesListings(c: Collection, k: string, m: string)
    ensures var r := ClearAllKeys(c);
      && GetAllKeys(r) == [] && GetAllMembers(r) == [] && GetAllItems(r) == []
      && GetKeyMembers(r, k) == [] && KeyExists(r, k) == KeyNotFound(k)
      && MemberExists(r, k, m) == KeyNotFound(k)
  {
  }

  // ------------------------------------- one key's listing under mutation

  /** Adding a new member appends it to the key's listing, after the members
      already there. */
  lemma AddMemberAppendsToListing(c: Collection, k: string, m: string)
    requires !HasMember(c, k, m)
    ensures GetKeyMembers(AddMember(c, k, m).store, k) == GetKeyMembers(c, k) + [m]
  {
  }

  /** Removing one of several members takes out exactly its occurrence and
      keeps the others in order. */
  lemma RemoveMemberFromListing(c: Collection, k: string, m: string)
    requires HasMember(c, k, m) && |GetKeyMembers(c, k)| > 1
    ensures GetKeyMembers(RemoveMember(c, k, m).store, k) == RemoveFirst(GetKeyMembers(c, k), m)
  {
  }

  /** Removing the last member empties the key's listing. */
  lemma RemoveLastMemberEmptiesListing(c: Collection, k: string, m: string)
    requires Valid(c) && GetKeyMembers(c, k) == [m]
    ensures GetKeyMembers(RemoveMember(c, k, m).store, k) == []
  {
  }
}
