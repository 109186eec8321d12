/** procexec/t_execle.c: the program name passed as argv[0] is the base
    name of the path to execute, and the new program gets a fixed argument
    list and a fixed environment. */
module Execle {
  import opened Wrappers
  import opened CmdLine

  /** strrchr(s, '/'): the index of the last slash, if any. */
  function LastSlash(s: string): (r: Option<nat>)
    ensures r.None? <==> '/' !in s
    ensures r.Some? ==> r.value < |s| && s[r.value] == '/' && '/' !in s[r.value + 1..]
    decreases |s|
  {
    if |s| == 0 then None
    else if s[|s| - 1] == '/' then Some(|s| - 1)
    else
      var r := LastSlash(s[..|s| - 1]);
      assert s == s[..|s| - 1] + [s[|s| - 1]];
      if r.Some? then
        assert s[r.value + 1..] == s[..|s| - 1][r.value + 1..] + [s[|s| - 1]];
        r
      else r
  }

  /** The file name execle() is given as argv[0]: the text after the last
      '/', or the whole path when there is none. */
  function Basename(path: string): (name: string)
    ensures '/' !in name
    ensures |name| <= |path| && path[|path| - |name|..] == name
    ensures '/' !in path ==> name == path
    ensures '/' in path ==> path[|path| - |name| - 1] == '/'
  {
    match LastSlash(path)
    case None => path
    case Some(i) => path[i + 1..]
  }

  /** Joining a directory and a slash-free name with '/' and taking the base
      name gives the name back; in particular a trailing '/' gives "". */
  lemma BasenameOfJoin(dir: string, name: string)
    requires '/' !in name
    ensures Basename(dir + "/" + name) == name
  {
    var p := dir + "/" + name;
    assert p[|dir|] == '/';
    var b := Basename(p);
    assert |b| == |name|;
    assert b == p[|p| - |b|..] == name;
  }

  /** The environment of the new program. */
  const EnvVec: seq<string> := ["GREET=salut", "BYE=adieu"]

  /** What main() does: a usage error, or the execle() call it makes. */
  datatype Action = Usage | Exec(path: string, argv: seq<string>, envp: seq<string>)

  function Launch(argv: seq<string>): (a: Action)
    ensures a.Usage? <==> |argv| != 2 || argv[1] == "--help"
    ensures a.Exec? ==> a.path == argv[1]
    ensures a.Exec? ==> |a.argv| == 3 && a.argv[1..] == ["hello world", "goodbye"]
    ensures a.Exec? ==> '/' !in a.argv[0] && |a.argv[0]| <= |argv[1]|
    ensures a.Exec? ==> argv[1][|argv[1]| - |a.argv[0]|..] == a.argv[0]
    ensures a.Exec? ==> a.argv[0] == Basename(argv[1])
    ensures a.Exec? ==> a.envp == ["GREET=salut", "BYE=adieu"]
  {
    if UsageError(argv, 2) then Usage
    else Exec(argv[1], [Basename(argv[1]), "hello world", "goodbye"], EnvVec)
  }

  /** How main() ends: with the usage message, replaced by the new program,
      or, when execle() returns, through errExit("execle"). */
  datatype Ending = UsageExit | Replaced(call: Action) | ErrExit(what: string)

  /** main(); `execReturns` is whether execle() fails and returns. */
  function Main(argv: seq<string>, execReturns: bool): (e: Ending)
    ensures e.UsageExit? <==> |argv| != 2 || argv[1] == "--help"
    ensures e.Replaced? <==> !e.UsageExit? && !execReturns
    ensures e.ErrExit? <==> !e.UsageExit? && execReturns
    ensures e.Replaced? ==> e.call.Exec? && e.call.path == argv[1]
    ensures e.Replaced? ==> e.call.argv == [Basename(argv[1]), "hello world", "goodbye"]
    ensures e.Replaced? ==> e.call.envp == EnvVec
    ensures e.ErrExit? ==> e.what == "execle"
  {
    var a := Launch(argv);
    if a.Usage? then UsageExit
    else if execReturns then ErrExit("execle")
    else Replaced(a)
  }
}
