/**
 * Properties of the dispatcher that relate several calls or several layers:
 * the arity table read in both directions, what the listings contain, how
 * the verb is matched, and where the loop stops.
 */
module DispatchLemmas {
  import opened Wrappers
  import opened Seqs
  import opened Text
  import opened Models
  import opened KeyManager
  import opened CommandCenter

  /** The argument count the parser produces: the number of spaces in the
      sanitised line, capped at two. */
  lemma ParseArity(line: Option<string>)
    ensures var spaces := multiset(Sanitize(line))[' '];
      ParseCommand(line).Arity() == if spaces >= 2 then 2 else spaces
  {
    ParseFields(line);
  }

  /** The verb is matched after upper-casing, so two commands that differ
      only in the case of their verb are dispatched identically; key and
      member are passed on verbatim. */
  lemma VerbCaseInsensitive(c: Collection, cmd: CommandInfo, cmd': CommandInfo)
    requires ToUpper(cmd.command) == ToUpper(cmd'.command)
    requires cmd.key == cmd'.key && cmd.member == cmd'.member
    ensures Dispatch(c, cmd) == Dispatch(c, cmd')
  {
  }

  /** Keys are matched exactly: after adding `Key1`, the key `key1` is not found. */
  lemma KeysAreCaseSensitive()
    ensures var c := AddMember([], "Key1", "Mbr1").store;
      KeyExists(c, "Key1") == "" && KeyExists(c, "key1") == KeyNotFound("key1")
  {
    var c := AddMember([], "Key1", "Mbr1").store;
    assert Lookup(c, "key1") == None by {
      assert "Key1"[0] != "key1"[0];
    }
  }

  // ------------------------------------------------------ the arity table

  /** Every syntax error ends in "d." ("... is invalid."). */
  lemma SyntaxErrorEnding(verb: string)
    ensures var e := SyntaxError(verb); |e| >= 2 && e[|e| - 2] == 'd' && e[|e| - 1] == '.'
  {
    var e := SyntaxError(verb);
    assert e == ("ERROR: " + verb) + " syntax is invalid.";
  }

  /** No other message ends in "d.": the store's errors end in "s.", "t." or
      without a full stop, and the help text in "m.". */
  lemma OtherMessageEndings(k: string, m: string)
    ensures var a := AlreadyExists(k, m); |a| >= 2 && a[|a| - 2] == 's'
    ensures var a := KeyDoesNotExist(k); |a| >= 2 && a[|a| - 2] == 't'
    ensures var a := MemberDoesNotExist(k, m); |a| >= 2 && a[|a| - 2] == 't'
    ensures var a := KeyNotFound(k); |a| >= 1 && a[|a| - 1] == 'd'
    ensures var a := MemberNotFound(k, m); |a| >= 1 && a[|a| - 1] == 'd'
    ensures |HelpMessage| >= 2 && HelpMessage[|HelpMessage| - 2] == 'm'
  {
    assert AlreadyExists(k, m) == ("ERROR: Key " + k + " Member " + m) + " already exists.";
    assert KeyDoesNotExist(k) == ("ERROR: Key " + k) + " does not exist.";
    assert MemberDoesNotExist(k, m) == ("ERROR: Key " + k + " Member " + m) + " does not exist.";
    assert KeyNotFound(k) == ("ERROR: Key " + k) + " was not found";
    assert MemberNotFound(k, m) == ("ERROR: " + k + " " + m) + " was not found";
  }

  /** A well-shaped action never answers with its own syntax error: the
      store's messages all differ from `ERROR: <VERB> syntax is invalid.` */
  lemma WellShapedActionIsNotSyntaxError(c: Collection, cmd: CommandInfo)
    requires ShapeFits(ActionShape(ToUpper(cmd.command)), cmd)
    ensures RunActionCommand(c, cmd).msg != SyntaxError(ToUpper(cmd.command))
  {
    var verb := ToUpper(cmd.command);
    SyntaxErrorEnding(verb);
    OtherMessageEndings(cmd.key.GetOr(""), cmd.member.GetOr(""));
    WellShapedActions(c, cmd);
  }

  /** The arity table in both directions: an action answers with its syntax
      error exactly when its verb is not HELP and its argument slots do not
      have the shape the table gives, and then the store is untouched. */
  lemma ActionArity(c: Collection, cmd: CommandInfo)
    requires ToUpper(cmd.command) in ActionCommands
    ensures var verb := ToUpper(cmd.command); var r := RunActionCommand(c, cmd);
      r.msg == SyntaxError(verb) <==> !ShapeFits(ActionShape(verb), cmd)
    ensures var verb := ToUpper(cmd.command); var r := RunActionCommand(c, cmd);
      !ShapeFits(ActionShape(verb), cmd) ==> r.store == c
  {
    if ShapeFits(ActionShape(ToUpper(cmd.command)), cmd) {
      WellShapedActionIsNotSyntaxError(c, cmd);
    }
  }

  /** A well-shaped action does what its verb names, with the key and member
      exactly as parsed. */
  lemma WellShapedActions(c: Collection, cmd: CommandInfo)
    requires ShapeFits(ActionShape(ToUpper(cmd.command)), cmd)
    ensures var verb := ToUpper(cmd.command); var r := RunActionCommand(c, cmd);
      var k := cmd.key.GetOr(""); var m := cmd.member.GetOr("");
      && (verb == "ADD" ==> r == AddMember(c, k, m))
      && (verb == "REMOVE" ==> r == RemoveMember(c, k, m))
      && (verb == "KEYEXISTS" ==> r == Reply(c, KeyExists(c, k)))
      && (verb == "MEMBEREXISTS" ==> r == Reply(c, MemberExists(c, k, m)))
      && (verb == "REMOVEALL" ==> r == RemoveAllMembers(c, k))
      && (verb == "CLEAR" ==> r == Reply([], "") && GetAllKeys(r.store) == [] && GetAllMembers(r.store) == [])
      && (verb == "EXIT" ==> r == Reply(c, ""))
  {
  }

  // ----------------------------------------------------------- listings

  /** What a well-shaped listing holds: KEYS the present keys, MEMBERS the
      members of the key in the order they were added, ALLMEMBERS and ITEMS the stored pairs. */
  lemma ListingContents(c: Collection, cmd: CommandInfo)
    requires Valid(c)
    requires ShapeFits(ListShape(ToUpper(cmd.command)), cmd)
    ensures var verb := ToUpper(cmd.command); var l := RunListCommand(c, cmd);
      && l.notice == None
      && (verb == "KEYS" ==> NoDuplicates(l.list) && forall k :: k in l.list <==> HasKey(c, k))
      && (verb == "MEMBERS" ==>
            l.list == GetKeyMembers(c, cmd.key.value) &&
            forall m :: m in l.list <==> HasMember(c, cmd.key.value, m))
      && (verb == "ALLMEMBERS" ==> l.list == Seconds(Pairs(c)))
      && (verb == "ITEMS" ==> l.list == Rendered(Pairs(c)))
  {
    ValidKeysDistinct(c);
  }

  // -------------------------------------------------------------- the loop

  /** Once EXIT has ended the loop, further input is never read. */
  lemma {:induction false} RunIgnoresRest(c: Collection, lines: seq<Option<string>>, more: seq<Option<string>>)
    requires Run(c, lines).exited
    ensures Run(c, lines + more) == Run(c, lines)
    decreases |lines|
  {
    if IsExitLine(lines[0]) {
      RunExitHead(c, lines, more);
    } else {
      var c', _ := RunHead(c, lines, more);
      RunIgnoresRest(c', lines[1..], more);
    }
  }

  /** EXIT ends the loop even when it carries arguments: the line is answered
      with the EXIT syntax error and nothing after it is read. */
  lemma ExitEndsTheLoop(c: Collection, line: Option<string>, more: seq<Option<string>>)
    requires IsExitLine(line)
    ensures var cmd := ParseCommand(line);
      Run(c, [line] + more) ==
        if ShapeFits(ActionShape("EXIT"), cmd) then Session(c, [], 1, true)
        else Session(c, [SyntaxError("EXIT")], 1, true)
  {
    var cmd := ParseCommand(line);
    assert ([line] + more)[0] == line;
    assert "EXIT" in ActionCommands;
    var e := SyntaxError("EXIT");
    assert e[0] == 'E';
  }

  /** One line on its own: a blank line is read and skipped; any other line is
      parsed and dispatched, and ends the loop when its verb is EXIT. */
  lemma RunSingleLine(c: Collection, line: Option<string>)
    ensures Run(c, [line]) ==
      if IsNullOrWhiteSpace(line) then Session(c, [], 1, false)
      else
        var o := Dispatch(c, ParseCommand(line));
        Session(o.store, o.output, 1, IsExitLine(line))
  {
    assert [line][1..] == [];
  }

  /** End to end: a well-shaped ADD line followed by an EXIT line leaves the
      pair in the store and ends the loop after both lines. */
  lemma AddThenExit(c: Collection, add: Option<string>, exit: Option<string>)
    requires ToUpper(ParseCommand(add).command) == "ADD"
    requires ShapeFits(ActionShape("ADD"), ParseCommand(add))
    requires IsExitLine(exit)
    ensures var cmd := ParseCommand(add); var s := Run(c, [add, exit]);
      s.exited && s.consumed == 2 && HasMember(s.store, cmd.key.GetOr(""), cmd.member.GetOr(""))
  {
    var cmd := ParseCommand(add);
    AddIsNotExit(add);
    var added, _ := RunHead(c, [add, exit], []);
    DispatchAdd(c, cmd);
    DispatchExit(added, ParseCommand(exit));
    assert [add, exit][1..] == [exit];
    RunSingleLine(added, exit);
  }

  /** A line whose verb is ADD is neither blank nor an exit line. */
  lemma AddIsNotExit(line: Option<string>)
    requires ToUpper(ParseCommand(line).command) == "ADD"
    ensures !IsNullOrWhiteSpace(line) && !IsExitLine(line)
  {
    ParseFields(line);
  }

  /** A well-shaped ADD leaves the pair in the store. */
  lemma DispatchAdd(c: Collection, cmd: CommandInfo)
    requires ToUpper(cmd.command) == "ADD" && ShapeFits(ActionShape("ADD"), cmd)
    ensures HasMember(Dispatch(c, cmd).store, cmd.key.GetOr(""), cmd.member.GetOr(""))
  {
    WellShapedActions(c, cmd);
  }

  /** EXIT, well-shaped or not, leaves the store alone. */
  lemma DispatchExit(c: Collection, cmd: CommandInfo)
    requires ToUpper(cmd.command) == "EXIT"
    ensures Dispatch(c, cmd).store == c
  {
  }
}
