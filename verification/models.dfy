/** The parsed form of one input line (`CommandInfo`). `key` and `member`
    stay `None` (the C# `null`) when the line has too few pieces. */
module Models {
  import opened Wrappers

  datatype CommandInfo = CommandInfo(command: string, key: Option<string>, member: Option<string>) {

    /** The argument count the unused `Count` field describes:
        0 = just the command, 1 = command and key, 2 = key and member. */
    function Arity(): (n: nat)
      ensures n <= 2
      ensures n == 0 <==> key.None? && member.None?
      ensures n == 2 <==> member.Some?
    {
      if member.Some? then 2 else if key.Some? then 1 else 0
    }
  }
}
