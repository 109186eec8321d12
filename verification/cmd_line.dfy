/** The argument check at the top of the programs' main(): the wrong
    number of arguments, or "--help" as the first one, is a usage error. */
module CmdLine {

  /** argc != want || strcmp(argv[1], "--help") == 0, where argv[1] is only
      read once argc is known to be want (at least 2). */
  function UsageError(argv: seq<string>, want: nat): (b: bool)
    requires want >= 2
    ensures !b ==> |argv| == want && argv[1] != "--help"
    ensures |argv| == want ==> (b <==> argv[1] == "--help")
  {
    |argv| != want || argv[1] == "--help"
  }
}
