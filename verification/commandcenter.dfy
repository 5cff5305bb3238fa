/**
 * The command parser and dispatcher (`CommandCenter`): a raw line becomes a
 * `CommandInfo`, its upper-cased verb picks an action or a listing, each verb
 * checks which argument slots are blank, and only a well-shaped command
 * reaches the store. `Run` is the read-dispatch loop over a sequence of input
 * lines, with the console output collected as a list of lines.
 */
module CommandCenter {
  import opened Wrappers
  import opened Seqs
  import opened Text
  import opened Models
  import opened KeyManager

  /** Verbs that act on the store and answer with a status message. */
  const ActionCommands: seq<string> :=
    ["ADD", "REMOVE", "KEYEXISTS", "MEMBEREXISTS", "REMOVEALL", "CLEAR", "HELP", "EXIT"]

  /** Verbs that answer with a list of store data. */
  const ListCommands: seq<string> := ["KEYS", "MEMBERS", "ALLMEMBERS", "ITEMS"]

  const HelpMessage: string := "INFO: Please Refer to the PDF instructions and the README Addendum."

  function SyntaxError(verb: string): string {
    "ERROR: " + verb + " syntax is invalid."
  }

  function InvalidVerb(verb: string): string {
    verb + " is invalid."
  }

  // ------------------------------------------------------------------ parsing

  /** The sanitising steps of `parseCommand`: blank (or null) becomes "",
      tabs become spaces, then the ends are trimmed. */
  function Sanitize(line: Option<string>): (s: string)
    ensures IsNullOrWhiteSpace(line) ==> s == ""
    ensures |s| <= |line.GetOr("")|
  {
    Trim(ReplaceTabs(if !IsNullOrWhiteSpace(line) then line.value else ""))
  }

  /** A sanitised line is the tab-replaced line (or "" for a null or blank
      line) with its whitespace margins cut: the slice starting at `i`, with
      only whitespace before and after it. It holds no tab, does not start or
      end with whitespace, and is empty exactly when the line was null or
      blank. */
  lemma SanitizeSpec(line: Option<string>) returns (i: nat)
    ensures var s := Sanitize(line);
      var t := ReplaceTabs(if !IsNullOrWhiteSpace(line) then line.value else "");
      && i + |s| <= |t| && s == t[i..i + |s|]
      && IsBlank(t[..i]) && IsBlank(t[i + |s|..])
      && '\t' !in s
      && (|s| == 0 || (!IsWhitespace(s[0]) && !IsWhitespace(s[|s| - 1])))
      && (s == "" <==> IsNullOrWhiteSpace(line))
  {
    var raw := if !IsNullOrWhiteSpace(line) then line.value else "";
    var t := ReplaceTabs(raw);
    ReplaceTabsKeepsBlankness(raw);
    i := TrimSpec(t);
    var s := Trim(t);
    assert s == Sanitize(line);
    NotInSlice(t, i, i + |s|, '\t');
  }

  /** `parseCommand`: split the sanitised line on single spaces; piece 0 is the
      command, piece 1 the key, pieces 2.. rejoined with spaces the member. */
  function ParseCommand(line: Option<string>): (cmd: CommandInfo)
    ensures IsNullOrWhiteSpace(line) ==> cmd == CommandInfo("", None, None)
    ensures cmd.member.Some? ==> cmd.key.Some?
  {
    var pieces := Split(Sanitize(line));
    CommandInfo(
      pieces[0],
      if |pieces| >= 2 then Some(pieces[1]) else None,
      if |pieces| >= 3 then Some(Join(pieces[2..])) else None)
  }

  /** What `parseCommand` promises: a blank line gives an empty command and no
      arguments; the command starts with non-whitespace, and ends with it too
      when it is the only word; command and key hold no space or tab; the key
      is present exactly when the sanitised line has a space and the member
      exactly when it has two; and command, key and member joined by single
      spaces give the sanitised line back. */
  lemma ParseFields(line: Option<string>)
    ensures var cmd := ParseCommand(line);
      && (IsNullOrWhiteSpace(line) ==> cmd == CommandInfo("", None, None))
      && (cmd.command == "" <==> IsNullOrWhiteSpace(line))
      && (|cmd.command| > 0 ==> !IsWhitespace(cmd.command[0]))
      && (cmd.key.None? && |cmd.command| > 0 ==> !IsWhitespace(cmd.command[|cmd.command| - 1]))
      && ' ' !in cmd.command && '\t' !in cmd.command
      && (cmd.key.Some? ==> ' ' !in cmd.key.value && '\t' !in cmd.key.value)
      && (cmd.key.Some? <==> multiset(Sanitize(line))[' '] >= 1)
      && (cmd.member.Some? <==> multiset(Sanitize(line))[' '] >= 2)
      && (cmd.key.None? ==> cmd.command == Sanitize(line))
      && (cmd.key.Some? && cmd.member.None? ==> cmd.command + " " + cmd.key.value == Sanitize(line))
      && (cmd.member.Some? ==>
            cmd.command + " " + cmd.key.value + " " + cmd.member.value == Sanitize(line))
  {
    var _ := SanitizeSpec(line);
    SanitizedPieces(Sanitize(line));
    SplitCount(Sanitize(line));
  }

  /** The first pieces of a sanitised line: free of spaces and tabs, the first
      one non-empty and starting where the line starts, and rejoining the
      first two with the rest gives the line back. */
  lemma SanitizedPieces(s: string)
    requires '\t' !in s
    requires |s| == 0 || !IsWhitespace(s[0])
    ensures var pieces := Split(s);
      && '\t' !in pieces[0]
      && (|pieces| >= 2 ==> ' ' !in pieces[1] && '\t' !in pieces[1])
      && (|s| > 0 ==> |pieces[0]| > 0 && pieces[0][0] == s[0])
      && (|pieces| == 1 ==> pieces[0] == s)
      && (|pieces| == 2 ==> pieces[0] + " " + pieces[1] == s)
      && (|pieces| >= 3 ==> pieces[0] + " " + pieces[1] + " " + Join(pieces[2..]) == s)
  {
    var pieces := Split(s);
    SplitSpec(s);
    JoinedPieceHasNoTab(pieces, 0);
    if |pieces| >= 2 {
      JoinedPieceHasNoTab(pieces, 1);
      JoinFront(pieces);
    }
  }

  /** Rejoining: the first piece, a space, and the rest rejoined; and likewise
      for the second piece. */
  lemma JoinFront(pieces: seq<string>)
    requires |pieces| >= 2
    ensures Join(pieces) == pieces[0] + " " + Join(pieces[1..])
    ensures |pieces| == 2 ==> Join(pieces) == pieces[0] + " " + pieces[1]
    ensures |pieces| >= 3 ==> Join(pieces) == pieces[0] + " " + pieces[1] + " " + Join(pieces[2..])
    ensures |Join(pieces)| > 0 && |pieces[0]| > 0 ==> Join(pieces)[0] == pieces[0][0]
    ensures |pieces[0]| == 0 ==> Join(pieces)[0] == ' '
  {
    if |pieces| >= 3 {
      assert pieces[1..][1..] == pieces[2..];
    }
  }

  /** A piece of a line is a slice of it, so a line without tabs has
      tab-free pieces. */
  lemma {:induction false} JoinedPieceHasNoTab(pieces: seq<string>, i: nat)
    requires i < |pieces| && '\t' !in Join(pieces)
    ensures '\t' !in pieces[i]
  {
    if |pieces| > 1 {
      assert Join(pieces) == pieces[0] + (" " + Join(pieces[1..]));
      if i > 0 {
        JoinedPieceHasNoTab(pieces[1..], i - 1);
      }
    }
  }

  // -------------------------------------------------------- the arity table

  /** What a verb demands of one argument slot. */
  datatype Slot = Blank | NonBlank | Either

  predicate Fits(slot: Slot, arg: Option<string>) {
    match slot
    case Blank => IsNullOrWhiteSpace(arg)
    case NonBlank => !IsNullOrWhiteSpace(arg)
    case Either => true
  }

  /** The (key, member) shape each action verb accepts; `None` for a verb that
      is not an action. */
  function ActionShape(verb: string): Option<(Slot, Slot)> {
    if verb in ["ADD", "REMOVE", "MEMBEREXISTS"] then Some((NonBlank, NonBlank))
    else if verb in ["KEYEXISTS", "REMOVEALL"] then Some((NonBlank, Blank))
    else if verb in ["CLEAR", "EXIT"] then Some((Blank, Blank))
    else if verb == "HELP" then Some((Either, Either))
    else None
  }

  /** The (key, member) shape each list verb accepts. */
  function ListShape(verb: string): Option<(Slot, Slot)> {
    if verb in ["KEYS", "ALLMEMBERS", "ITEMS"] then Some((Blank, Blank))
    else if verb == "MEMBERS" then Some((NonBlank, Blank))
    else None
  }

  predicate ShapeFits(shape: Option<(Slot, Slot)>, cmd: CommandInfo) {
    shape.Some? && Fits(shape.value.0, cmd.key) && Fits(shape.value.1, cmd.member)
  }

  /** The verbs whose well-shaped commands may change the store. */
  const Mutators: seq<string> := ["ADD", "REMOVE", "REMOVEALL", "CLEAR"]

  // ------------------------------------------------------------- dispatching

  /** `RunActionCommand`: runs a well-shaped action on the store; anything
      else is a syntax error that leaves the store alone. */
  function RunActionCommand(c: Collection, cmd: CommandInfo): (r: Reply)
    ensures var verb := ToUpper(cmd.command);
      !ShapeFits(ActionShape(verb), cmd) ==> r == Reply(c, SyntaxError(verb))
    ensures ToUpper(cmd.command) !in Mutators ==> r.store == c
    ensures Valid(c) ==> Valid(r.store)
    ensures ToUpper(cmd.command) == "HELP" ==> r == Reply(c, HelpMessage)
  {
    var verb := ToUpper(cmd.command);
    var key := cmd.key.GetOr("");
    var member := cmd.member.GetOr("");
    if verb == "ADD" && !IsNullOrWhiteSpace(cmd.key) && !IsNullOrWhiteSpace(cmd.member) then
      AddMember(c, key, member)
    else if verb == "REMOVE" && !IsNullOrWhiteSpace(cmd.key) && !IsNullOrWhiteSpace(cmd.member) then
      RemoveMember(c, key, member)
    else if verb == "KEYEXISTS" && !IsNullOrWhiteSpace(cmd.key) && IsNullOrWhiteSpace(cmd.member) then
      Reply(c, KeyExists(c, key))
    else if verb == "MEMBEREXISTS" && !IsNullOrWhiteSpace(cmd.key) && !IsNullOrWhiteSpace(cmd.member) then
      Reply(c, MemberExists(c, key, member))
    else if verb == "REMOVEALL" && !IsNullOrWhiteSpace(cmd.key) && IsNullOrWhiteSpace(cmd.member) then
      RemoveAllMembers(c, key)
    else if verb == "CLEAR" && IsNullOrWhiteSpace(cmd.key) && IsNullOrWhiteSpace(cmd.member) then
      Reply(ClearAllKeys(c), "")
    else if verb == "HELP" then
      Reply(c, HelpMessage)
    else if verb == "EXIT" && IsNullOrWhiteSpace(cmd.key) && IsNullOrWhiteSpace(cmd.member) then
      Reply(c, "")
    else
      Reply(c, SyntaxError(verb))
  }

  /** What `RunListCommand` returns, with the message it prints on the way. */
  datatype ListReply = ListReply(list: seq<string>, notice: Option<string>)

  /** `RunListCommand`: a well-shaped listing of the store, or an empty list;
      a malformed MEMBERS also prints a syntax error. */
  function RunListCommand(c: Collection, cmd: CommandInfo): (r: ListReply)
    ensures var verb := ToUpper(cmd.command);
      !ShapeFits(ListShape(verb), cmd) ==> r.list == []
    ensures var verb := ToUpper(cmd.command);
      r.notice == (if verb == "MEMBERS" && !ShapeFits(ListShape(verb), cmd)
                   then Some(SyntaxError(verb)) else None)
  {
    var verb := ToUpper(cmd.command);
    if verb == "KEYS" && IsNullOrWhiteSpace(cmd.key) && IsNullOrWhiteSpace(cmd.member) then
      ListReply(GetAllKeys(c), None)
    else if verb == "MEMBERS" then
      if !IsNullOrWhiteSpace(cmd.key) && IsNullOrWhiteSpace(cmd.member) then
        ListReply(GetKeyMembers(c, cmd.key.value), None)
      else
        ListReply([], Some(SyntaxError(verb)))
    else if verb == "ALLMEMBERS" && IsNullOrWhiteSpace(cmd.key) && IsNullOrWhiteSpace(cmd.member) then
      ListReply(GetAllMembers(c), None)
    else if verb == "ITEMS" && IsNullOrWhiteSpace(cmd.key) && IsNullOrWhiteSpace(cmd.member) then
      ListReply(GetAllItems(c), None)
    else
      ListReply([], None)
  }

  /** The store and the console lines after one command. */
  datatype Outcome = Outcome(store: Collection, output: seq<string>)

  /** One pass of the `run` loop for a parsed command: actions print a
      non-blank message, listings print their notice and then their lines,
      any other verb is reported invalid. */
  function Dispatch(c: Collection, cmd: CommandInfo): (o: Outcome)
    ensures var verb := ToUpper(cmd.command);
      verb in ActionCommands ==>
        var r := RunActionCommand(c, cmd);
        o == Outcome(r.store, if IsBlank(r.msg) then [] else [r.msg])
    ensures var verb := ToUpper(cmd.command);
      verb in ListCommands ==>
        var l := RunListCommand(c, cmd);
        o == Outcome(c, (if l.notice.Some? then [l.notice.value] else []) + l.list)
    ensures var verb := ToUpper(cmd.command);
      verb !in ActionCommands && verb !in ListCommands ==> o == Outcome(c, [InvalidVerb(verb)])
    ensures ToUpper(cmd.command) !in Mutators ==> o.store == c
    ensures Valid(c) ==> Valid(o.store)
  {
    var verb := ToUpper(cmd.command);
    if verb in ActionCommands then
      var r := RunActionCommand(c, cmd);
      Outcome(r.store, if IsBlank(r.msg) then [] else [r.msg])
    else if verb in ListCommands then
      var l := RunListCommand(c, cmd);
      Outcome(c, (if l.notice.Some? then [l.notice.value] else []) + l.list)
    else
      Outcome(c, [InvalidVerb(verb)])
  }

  /** A line the loop ends on: one that is dispatched and whose verb is EXIT. */
  predicate IsExitLine(line: Option<string>) {
    !IsNullOrWhiteSpace(line) && ToUpper(ParseCommand(line).command) == "EXIT"
  }

  /** The position of the first exit line, or `|lines|` when there is none. */
  function FirstExit(lines: seq<Option<string>>): nat {
    FirstIndex(lines, IsExitLine)
  }

  /** The state of a session after some input: the store, the printed lines,
      how many input lines were read, and whether EXIT ended the loop. */
  datatype Session = Session(store: Collection, output: seq<string>, consumed: nat, exited: bool)

  /** `run` over a sequence of input lines: blank lines are read and skipped
      (the re-prompt of `getNewCommand`), every other line is parsed and
      dispatched, and the loop stops right after the first line whose verb is
      EXIT, whether or not that EXIT was well-formed. */
  function Run(c: Collection, lines: seq<Option<string>>): (s: Session)
    ensures Valid(c) ==> Valid(s.store)
    decreases |lines|
  {
    if |lines| == 0 then Session(c, [], 0, false)
    else if IsNullOrWhiteSpace(lines[0]) then
      var s := Run(c, lines[1..]);
      Session(s.store, s.output, s.consumed + 1, s.exited)
    else
      var o := Step(c, lines[0]);
      if IsExitLine(lines[0]) then Session(o.store, o.output, 1, true)
      else
        var s := Run(o.store, lines[1..]);
        Session(s.store, o.output + s.output, s.consumed + 1, s.exited)
  }

  /** The loop body for one line that is not blank: parse, then dispatch. */
  function Step(c: Collection, line: Option<string>): (o: Outcome)
    ensures Valid(c) ==> Valid(o.store)
  {
    Dispatch(c, ParseCommand(line))
  }

  /** The loop reads up to and including the first exit line, and reads
      every line when there is none. */
  lemma {:induction false} RunStopsAtFirstExit(c: Collection, lines: seq<Option<string>>)
    ensures var s := Run(c, lines);
      && (s.exited <==> FirstExit(lines) < |lines|)
      && s.consumed == if s.exited then FirstExit(lines) + 1 else |lines|
    decreases |lines|
  {
    if |lines| > 0 && !IsExitLine(lines[0]) {
      var c' := if IsNullOrWhiteSpace(lines[0]) then c else Step(c, lines[0]).store;
      RunStopsAtFirstExit(c', lines[1..]);
      FirstIndexTail(lines, IsExitLine);
    }
  }

  /** Input without an exit line is processed line after line: running `a`
      and then `b` from the store `a` left behind is the same as running
      `a + b`, with the printed lines concatenated. */
  lemma RunAppend(c: Collection, a: seq<Option<string>>, b: seq<Option<string>>)
    requires FirstExit(a) == |a|
    ensures var s := Run(c, a); var s' := Run(s.store, b);
      Run(c, a + b) == Session(s'.store, s.output + s'.output, |a| + s'.consumed, s'.exited)
  {
    RunStopsAtFirstExit(c, a);
    RunAppendUnexited(c, a, b);
  }

  lemma {:induction false} RunAppendUnexited(c: Collection, a: seq<Option<string>>, b: seq<Option<string>>)
    requires !Run(c, a).exited
    ensures var s := Run(c, a); var s' := Run(s.store, b);
      Run(c, a + b) == Session(s'.store, s.output + s'.output, s.consumed + s'.consumed, s'.exited)
    decreases |a|
  {
    if |a| == 0 {
      assert a + b == b;
    } else {
      UnexitedHead(c, a);
      var c', out := RunHead(c, a, b);
      RunAppendUnexited(c', a[1..], b);
      var s := Run(c', a[1..]);
      SessionGlue(Run(c, a), Run(c, a + b), s, Run(c', a[1..] + b), Run(s.store, b), out);
    }
  }

  /** When the first line of `a` does not end the loop, both `a` and `a + b`
      continue from the same store and output after it. */
  lemma RunHead(c: Collection, a: seq<Option<string>>, b: seq<Option<string>>)
      returns (c': Collection, out: seq<string>)
    requires |a| > 0 && !IsExitLine(a[0])
    ensures c' == if IsNullOrWhiteSpace(a[0]) then c else Step(c, a[0]).store
    ensures out == if IsNullOrWhiteSpace(a[0]) then [] else Step(c, a[0]).output
    ensures var s := Run(c', a[1..]);
      Run(c, a) == Session(s.store, out + s.output, s.consumed + 1, s.exited)
    ensures var t := Run(c', a[1..] + b);
      Run(c, a + b) == Session(t.store, out + t.output, t.consumed + 1, t.exited)
  {
    var all := a + b;
    assert all[0] == a[0];
    assert all[1..] == a[1..] + b;
    c' := if IsNullOrWhiteSpace(a[0]) then c else Step(c, a[0]).store;
    out := if IsNullOrWhiteSpace(a[0]) then [] else Step(c, a[0]).output;
  }

  /** The bookkeeping of `RunAppendUnexited`'s inductive step, on session
      values alone. */
  lemma SessionGlue(ra: Session, rab: Session, s: Session, t: Session, s2: Session, out: seq<string>)
    requires ra == Session(s.store, out + s.output, s.consumed + 1, s.exited)
    requires rab == Session(t.store, out + t.output, t.consumed + 1, t.exited)
    requires t == Session(s2.store, s.output + s2.output, s.consumed + s2.consumed, s2.exited)
    ensures rab == Session(s2.store, ra.output + s2.output, ra.consumed + s2.consumed, s2.exited)
  {
    assert out + (s.output + s2.output) == (out + s.output) + s2.output;
  }

  /** A loop that has not exited did not start with an exit line. */
  lemma UnexitedHead(c: Collection, a: seq<Option<string>>)
    requires |a| > 0 && !Run(c, a).exited
    ensures !IsExitLine(a[0])
  {
  }

  /** When the first line of `a` ends the loop, nothing after it is read. */
  lemma RunExitHead(c: Collection, a: seq<Option<string>>, b: seq<Option<string>>)
    requires |a| > 0 && IsExitLine(a[0])
    ensures Run(c, a + b) == Run(c, a)
  {
    assert (a + b)[0] == a[0];
  }
}
