# RingerKeyMembers in Dafny

This project models the two pieces of logic in RingerKeyMembers, a console
program that keeps a multimap from string keys to string members and proves
properties about both.

- **The store (`KeyManager`).** Each key holds a non-empty, duplicate-free
  list of members in insertion order. There are four mutators (add a member,
  remove a member, remove a key, clear) and two existence checks. Adding,
  removing a member, removing a key and both checks return `""` on success
  or an `ERROR:` message; clearing returns nothing. There are four listings:
  one key's members, all keys, all members flattened, and all `key member`
  items.
- **The command centre (`CommandCenter`).** It sanitises and splits an input
  line into a `CommandInfo` (command, key, member). It matches the
  upper-cased verb against the action and list verb tables and checks which
  argument slots are blank. It runs the read-dispatch loop until a line
  whose verb is EXIT.

Everything is a pure function. The store is an association list
`seq<Entry>` with distinct keys: a new key is appended and a removed key is
cut out in place. The mutators with a message return a `Reply(store, msg)`,
and `ClearAllKeys`, which is `void` in C#, returns only the store. The loop
`Run` consumes a sequence of input lines, where `None` stands for the
`null` that `Console.ReadLine` returns. It returns the final store, the
console lines the loop printed, how many lines it read, and whether EXIT
ended it.

Files, one module each:

- `wrappers.dfy`: `Option`.
- `seqs.dfy`: `List.IndexOf`, `List.Remove` and a first-match search.
- `text.dfy`: the .NET string operations the parser uses:
  - `Char.IsWhiteSpace`, `IsNullOrWhiteSpace`;
  - `Replace("\t", " ")`, `Trim`;
  - `Split(" ")`, `String.Join(" ", …)`;
  - `ToUpper`.
- `models.dfy`: `CommandInfo`.
- `keymanager.dfy`: the store, its invariant `Valid`, and the listings
  together with a reference list of `(key, member)` pairs.
- `commandcenter.dfy`: parsing, the arity table, dispatch and the loop.
- `dispatch_lemmas.dfy`: properties across the layers.
- `scenarios.dfy`: the unit tests' store scenarios, and how runs of spaces
  are parsed.

## Model

| member | source | states |
|---|---|---|
| KeyManager.AddMember | RingerKeyMembers/Classes/KeyManager.cs:17-41 | An absent pair is added with `""`: the member goes at the end of the key's list and the key is created at the end of the key list if it was new. Every other key keeps its list. A present pair gives `ERROR: Key k Member m already exists.` and the store is unchanged. The store invariant is preserved. |
| KeyManager.RemoveMember | RingerKeyMembers/Classes/KeyManager.cs:44-74 | An absent key gives `ERROR: Key k does not exist.` and an absent member gives `ERROR: Key k Member m does not exist.`, with the store unchanged in both cases. Otherwise it returns `""`. With more than one member, exactly the first occurrence of `m` is removed and the key list is unchanged. With only that member, the key disappears (in a valid store). Other keys are untouched and the invariant is preserved. |
| KeyManager.RemoveAllMembers | RingerKeyMembers/Classes/KeyManager.cs:109-123 | A present key is removed with `""`: it drops out of the key list, leaving the other keys in order, and every other key keeps its list. An absent key gives `ERROR: Key k was not found` with the store unchanged. The invariant is preserved. |
| KeyManager.ClearAllKeys | RingerKeyMembers/Classes/KeyManager.cs:77-80 | The cleared store has no key and satisfies the invariant. |
| KeyManager.ClearEmptiesListings | RingerKeyMembers/Classes/KeyManager.cs:77-80 | After clearing, all four listings are empty, and both existence checks answer `ERROR: Key k was not found`. |
| KeyManager.KeyExists | RingerKeyMembers/Classes/KeyManager.cs:96-106 | Returns `""` exactly when the key is present, otherwise the non-blank `ERROR: Key k was not found`. |
| KeyManager.MemberExists | RingerKeyMembers/Classes/KeyManager.cs:82-94 | Returns `""` exactly when the member is in the key's list. For an absent key it returns the `KeyExists` answer. For a present key without the member it returns `ERROR: k m was not found`. |
| KeyManager.GetKeyMembers | RingerKeyMembers/Classes/KeyManager.cs:125-135 | A present key gives its stored member list itself, in order; an absent key gives the empty list. It holds exactly the members of the key, and is non-empty and duplicate-free for a present key of a valid store. |
| KeyManager.AddMemberAppendsToListing | RingerKeyMembers/Classes/KeyManager.cs:17-41 | Adding a new member appends it to the end of the key's listing; all earlier members keep their order. |
| KeyManager.RemoveMemberFromListing | RingerKeyMembers/Classes/KeyManager.cs:44-74 | Removing one of several members takes its first occurrence out of the key's listing and keeps the others in order. |
| KeyManager.RemoveLastMemberEmptiesListing | RingerKeyMembers/Classes/KeyManager.cs:44-74 | Removing the only member of a key leaves the key's listing empty. |
| KeyManager.GetAllKeys | RingerKeyMembers/Classes/KeyManager.cs:138-142 | Has one entry per stored key and holds exactly the present keys. |
| KeyManager.ValidKeysDistinct | RingerKeyMembers/Classes/KeyManager.cs:138-142 | In a valid store the key listing has no duplicates. |
| KeyManager.ValidLookup | RingerKeyMembers/Classes/KeyManager.cs:21-33 | In a valid store every present key has a non-empty, duplicate-free member list. This is the invariant the mutators keep. |
| KeyManager.ValidFromLookups | RingerKeyMembers/Classes/KeyManager.cs:21-33 | Conversely, distinct keys with non-empty, duplicate-free lists make a valid store. |
| KeyManager.PairsMeaning | RingerKeyMembers/Classes/KeyManager.cs:158-173 | In a valid store, `(k, m)` is among the reference pairs exactly when `m` is a member of `k`. |
| KeyManager.GetAllMembers | RingerKeyMembers/Classes/KeyManager.cs:145-156 | The member lists concatenated key by key, which in a valid store equals the second components of the reference pairs, cross-key duplicates included. It has as many lines as all member lists hold together. |
| KeyManager.GetAllItems | RingerKeyMembers/Classes/KeyManager.cs:158-173 | In a valid store, the items are the reference pairs in order, each rendered as `key + " " + member`. |
| KeyManager.MembersFollowPairs | RingerKeyMembers/Classes/KeyManager.cs:145-156 | The all-members listing, built per key as the code does, equals the second components of the reference pairs. |
| KeyManager.ItemsFollowPairs | RingerKeyMembers/Classes/KeyManager.cs:158-173 | The items listing, built per key as the code does, equals the rendered reference pairs. |
| KeyManager.ListingSizes | RingerKeyMembers/Classes/KeyManager.cs:145-173 | Both flat listings have as many lines as all member lists hold together. Item `i` is the key of pair `i`, a space, and member line `i`. |
| Text.ReplaceTabs | RingerKeyMembers/Classes/CommandCenter.cs:101 | Each tab becomes one space and every other character stays where it was, so the result has the input's length and no tab. |
| Text.TrimSpec | RingerKeyMembers/Classes/CommandCenter.cs:102 | `Trim` cuts out a slice with whitespace-only margins and non-whitespace ends. It is empty exactly when the input is blank. |
| Text.SplitSpec | RingerKeyMembers/Classes/CommandCenter.cs:105 | The pieces of `Split(" ")` hold no space, and joining them with single spaces gives the input back. |
| Text.SplitJoin | RingerKeyMembers/Classes/CommandCenter.cs:105 | The converse round trip: splitting the join of space-free pieces gives the pieces back. |
| Text.SplitCount | RingerKeyMembers/Classes/CommandCenter.cs:105 | There is one piece more than the input has spaces. |
| CommandCenter.Sanitize | RingerKeyMembers/Classes/CommandCenter.cs:99-102 | A null or whitespace-only line becomes `""`, and sanitising never lengthens a line. |
| CommandCenter.SanitizeSpec | RingerKeyMembers/Classes/CommandCenter.cs:99-102 | A sanitised line is the tab-replaced line with its whitespace margins cut off: a slice from some position `i`, with only whitespace before and after it. It holds no tab and neither starts nor ends with whitespace. It is `""` exactly when the line was null or whitespace-only. |
| CommandCenter.ParseCommand | RingerKeyMembers/Classes/CommandCenter.cs:95-122 | A null or blank line parses to an empty command with no key and no member, and a member is only ever present together with a key. |
| CommandCenter.ParseFields | RingerKeyMembers/Classes/CommandCenter.cs:95-122 | A blank line parses to command `""` with no key and no member. The command is empty only for a blank line, and otherwise starts with non-whitespace, and also ends with non-whitespace when the line has a single word. Command and key hold no space or tab. The key is present iff the sanitised line has a space, and the member iff it has two. Command, key and member joined by single spaces give the sanitised line back. |
| Scenarios.ParseKeepsSpacesInMember | RingerKeyMembers/Classes/CommandCenter.cs:105-119 | Whatever follows the space after the key is the member verbatim, so runs of spaces are kept in the member. |
| Models.CommandInfo.Arity | RingerKeyMembers/Models/CommandInfo.cs:15 | The argument count is at most 2. It is 0 exactly when key and member are both absent, and 2 exactly when the member is present. |
| DispatchLemmas.ParseArity | RingerKeyMembers/Classes/CommandCenter.cs:105-119 | A parsed line has as many arguments as its sanitised form has spaces, capped at two. |
| CommandCenter.RunActionCommand | RingerKeyMembers/Classes/CommandCenter.cs:126-184 | A command whose slots do not have the shape the table gives its verb yields `ERROR: <VERB> syntax is invalid.` with the store unchanged. Only ADD, REMOVE, REMOVEALL and CLEAR can change the store. HELP always returns the `INFO:` text. The invariant is preserved. |
| DispatchLemmas.ActionArity | RingerKeyMembers/Classes/CommandCenter.cs:131-181 | For an action verb, the reply is that verb's syntax error exactly when the argument slots do not fit the table, and in that case the store is unchanged. |
| DispatchLemmas.WellShapedActionIsNotSyntaxError | RingerKeyMembers/Classes/CommandCenter.cs:131-181 | No message of a well-shaped action coincides with the verb's syntax error. |
| DispatchLemmas.WellShapedActions | RingerKeyMembers/Classes/CommandCenter.cs:131-177 | A well-shaped action calls the store operation its verb names with the key and member as parsed. CLEAR leaves an empty store and `""`, and EXIT does nothing. |
| CommandCenter.RunListCommand | RingerKeyMembers/Classes/CommandCenter.cs:188-223 | A listing whose slots do not fit gives an empty list. A syntax error is printed exactly for a malformed MEMBERS. |
| DispatchLemmas.ListingContents | RingerKeyMembers/Classes/CommandCenter.cs:193-220 | A well-shaped listing prints nothing extra. KEYS lists the present keys once each. MEMBERS lists the key's member list itself, in insertion order, so exactly its members. ALLMEMBERS and ITEMS list the stored pairs. |
| DispatchLemmas.VerbCaseInsensitive | RingerKeyMembers/Classes/CommandCenter.cs:46-69 | Two commands whose verbs upper-case alike, with equal key and member, are dispatched identically. |
| DispatchLemmas.KeysAreCaseSensitive | RingerKeyMembers/Classes/KeyManager.cs:96-106 | Keys are matched exactly: after adding `Key1`, `key1` is not found. |
| CommandCenter.Dispatch | RingerKeyMembers/Classes/CommandCenter.cs:46-69 | An action verb runs the action: the store becomes the action's store, and its message is printed unless blank. A list verb leaves the store alone and prints its notice, if any, then the list. A verb in neither table prints `<VERB> is invalid.` and leaves the store alone. Only the four mutating verbs change the store. The invariant is preserved. |
| CommandCenter.Run | RingerKeyMembers/Classes/CommandCenter.cs:35-78 | The loop preserves the store invariant. |
| DispatchLemmas.RunSingleLine | RingerKeyMembers/Classes/CommandCenter.cs:43-70 | On one line, a blank line is read and skipped. Any other line is parsed and dispatched, and ends the loop exactly when its verb is EXIT. |
| CommandCenter.RunAppend | RingerKeyMembers/Classes/CommandCenter.cs:43-70 | Input without an exit line is processed line by line: running `a + b` equals running `a` and then running `b` on the store `a` left. The printed lines are concatenated and the lines read add up. |
| CommandCenter.RunHead | RingerKeyMembers/Classes/CommandCenter.cs:43-70 | After a first line that is not an exit line, the loop carries on with the rest of the input from the store that line left, with that line's output printed first. |
| DispatchLemmas.AddThenExit | RingerKeyMembers/Classes/CommandCenter.cs:35-78 | A well-shaped ADD line followed by an EXIT line ends the loop after two lines, with the pair in the store. |
| CommandCenter.RunStopsAtFirstExit | RingerKeyMembers/Classes/CommandCenter.cs:43-70 | The loop ends by EXIT exactly when some non-blank line has the upper-cased verb EXIT. It reads through the first such line and no further, and reads every line when there is none. |
| DispatchLemmas.RunIgnoresRest | RingerKeyMembers/Classes/CommandCenter.cs:43-70 | Once EXIT has ended the loop, appending more input changes nothing. |
| DispatchLemmas.ExitEndsTheLoop | RingerKeyMembers/Classes/CommandCenter.cs:50-70 | An EXIT line ends the loop at once: silently when it has no arguments, and with the EXIT syntax error when it has any. |
| Scenarios.AddGoodKeyMembers | RingerKeyMembers.Tests/UnitTest1.cs:33-88 | Adding Key1/Mbr1, Key1/Mbr2 and Key2/Mbr1 succeeds three times and lists two keys and three members. |
| Scenarios.AddDuplicateKeyMembers | RingerKeyMembers.Tests/UnitTest1.cs:92-109 | Adding the same pair twice refuses the second add with the `already exists` error. |
| Scenarios.RemoveGoodKeyMember | RingerKeyMembers.Tests/UnitTest1.cs:113-136 | Removing the only member of a key removes the key. |

## Left out

- Console I/O. The prompt text of `getNewCommand`, the `try`/`catch`
  around `run` and `Console.ReadKey` are not modelled. Printed lines are
  collected as a list of strings, and reading the input is replaced by a
  sequence of lines.
- The re-prompt loop of `getNewCommand` is modelled by skipping blank and
  null lines in `Run`. The input `lines` is a finite prefix of a session.
  In the program, once the console input is exhausted `Console.ReadLine`
  returns `null` on every call, so `getNewCommand` re-prompts forever and
  the program never ends without EXIT. `Run` instead stops when the
  sequence ends, and its result describes the session after those lines.
- Text.ToUpper: upper-cases ASCII letters only, because .NET's `ToUpper`
  is culture-sensitive. Strings are sequences of Unicode scalar values
  rather than UTF-16 code units. The whitespace set is exactly that of
  `Char.IsWhiteSpace`.
- The enumeration order of `Dictionary.Keys` is not guaranteed by .NET. The
  model keeps keys in insertion order with removed keys cut out. The
  properties about keys that matter to users are stated as membership and
  no-duplicate facts.
- `GetKeyMembers` returns the store's own list object in C#, so a caller
  could alias it. The model returns it by value.
- `CommandInfo.Count` is never assigned. `CommandInfo.Arity` derives the
  count instead of storing it.
- The store operations take plain strings. In C# a `null` key would throw,
  but the dispatcher only calls them with non-blank, hence non-null,
  strings.
- There is no INTERSECTION command in the code, and MEMBERS of an absent
  key prints nothing rather than a "key not found" message.
- CommandCenter.ParseFields: does not claim that the command never has
  trailing whitespace, because that holds for spaces and tabs only: in
  `"ADD\r k"` the command is `"ADD\r"`. It states the part that holds: no
  space or tab, a non-whitespace first character, and for a one-word line
  a non-whitespace last character as well.
- Runs of spaces are not collapsed: splitting
  `"  ADD\tKey1   Mbr With Spaces"` on single spaces gives the member
  `"  Mbr With Spaces"`, keeping the two extra spaces after the key
  (`Scenarios.ParseKeepsSpacesInMember`).
- CommandCenter.Run: its own contract states only that the invariant is
  kept, so that the loop's proofs stay small. What it computes is stated by
  `RunSingleLine`, `RunAppend`, `RunHead`, `RunStopsAtFirstExit`,
  `RunIgnoresRest` and `AddThenExit`.
