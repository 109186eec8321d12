/** terminate() of lib/error_functions.c: how the error-reporting
    functions end the process. */
module ErrorFunctions {
  import opened Wrappers

  const EXIT_FAILURE: int := 1

  /** The three ways out; none of them returns to the caller. */
  datatype Exit = Abort | Exit3(status: int) | Exit2(status: int)

  /** terminate(useExit3), given the value of EF_DUMPCORE in the
      environment (None when it is unset). */
  function Terminate(dumpCore: Option<string>, useExit3: bool): (e: Exit)
    ensures e.Abort? <==> dumpCore.Some? && dumpCore.value != ""
    ensures e.Exit3? <==> (dumpCore.None? || dumpCore.value == "") && useExit3
    ensures e.Exit2? <==> (dumpCore.None? || dumpCore.value == "") && !useExit3
    ensures !e.Abort? ==> e.status == EXIT_FAILURE
  {
    if dumpCore.Some? && dumpCore.value != "" then Abort
    else if useExit3 then Exit3(EXIT_FAILURE)
    else Exit2(EXIT_FAILURE)
  }

  /** A non-empty EF_DUMPCORE decides alone: useExit3 only matters when no
      core dump is asked for. */
  lemma DumpCoreOverrides(s: string, a: bool, b: bool)
    requires s != ""
    ensures Terminate(Some(s), a) == Terminate(Some(s), b) == Abort
  {
  }

  /** An empty EF_DUMPCORE is the same as an unset one. */
  lemma EmptyIsUnset(useExit3: bool)
    ensures Terminate(Some(""), useExit3) == Terminate(None, useExit3)
  {
  }
}
