/** procpri/sched_view.c: for each PID on the command line, print its
    scheduling policy by name and its static priority. */
module SchedView {
  import opened Text

  // Policy numbers (linux/sched.h).
  const SCHED_OTHER: int := 0
  const SCHED_FIFO: int := 1
  const SCHED_RR: int := 2
  const SCHED_BATCH: int := 3
  const SCHED_IDLE: int := 5

  /** Whether the C library defines the Linux-specific SCHED_BATCH and SCHED_IDLE. */
  datatype Headers = Headers(hasBatch: bool, hasIdle: bool)

  /** The policies the program can name under these headers. */
  predicate Known(h: Headers, pol: int)
  {
    || pol == SCHED_OTHER || pol == SCHED_RR || pol == SCHED_FIFO
    || (h.hasBatch && pol == SCHED_BATCH)
    || (h.hasIdle && pol == SCHED_IDLE)
  }

  /** The chain of conditional expressions choosing the policy's name. */
  function PolicyName(h: Headers, pol: int): (name: string)
    ensures name == "???" <==> !Known(h, pol)
    ensures 2 <= |name| <= 5
  {
    if pol == SCHED_OTHER then "OTHER"
    else if pol == SCHED_RR then "RR"
    else if pol == SCHED_FIFO then "FIFO"
    else if h.hasBatch && pol == SCHED_BATCH then "BATCH"
    else if h.hasIdle && pol == SCHED_IDLE then "IDLE"
    else "???"
  }

  /** Reading a printed name back to the policy number. */
  function PolicyOfName(name: string): (pol: int)
  {
    match name
    case "OTHER" => SCHED_OTHER
    case "RR" => SCHED_RR
    case "FIFO" => SCHED_FIFO
    case "BATCH" => SCHED_BATCH
    case "IDLE" => SCHED_IDLE
    case _ => -1
  }

  /** Every known policy is named unambiguously: its name reads back as the
      policy itself, so two known policies never share a name. */
  lemma NameRoundTrip(h: Headers, pol: int)
    requires Known(h, pol)
    ensures PolicyOfName(PolicyName(h, pol)) == pol
  {
  }

  lemma NamesDistinct(h: Headers, p: int, q: int)
    requires Known(h, p) && Known(h, q) && p != q
    ensures PolicyName(h, p) != PolicyName(h, q)
  {
    NameRoundTrip(h, p);
    NameRoundTrip(h, q);
  }

  /** printf("%2d", priority): the decimal priority right-justified in a
      field of width 2. */
  function PrioText(prio: int): (s: string)
    ensures var d := DecimalLength(prio);
      && |s| == (if d < 2 then 2 else d)
      && (forall i :: 0 <= i < |s| - d ==> s[i] == ' ')
      && (prio >= 0 ==> ReadsAs(s[|s| - d..], prio))
      && (prio < 0 ==> s[|s| - d] == '-' && ReadsAs(s[|s| - d + 1..], -prio))
  {
    var t := IntToString(prio);
    IntToStringLength(prio);
    NatToStringReadsAs(if prio >= 0 then prio else -prio);
    var s := PadLeft(t, 2);
    assert s[|s| - |t|..] == t;
    if prio < 0 then
      assert s[|s| - |t| + 1..] == t[1..];
      s
    else
      s
  }

  /** printf("%s: %-5s ", arg, name) then printf("%2d\n", priority), with
      the priority already formatted as prio. */
  function Line(arg: string, name: string, prio: string): (line: string)
    requires |name| <= 5
    ensures |line| == |arg| + 9 + |prio|
    ensures line[..|arg|] == arg && line[|arg|..|arg| + 2] == ": "
    ensures line[|arg| + 2..|arg| + 2 + |name|] == name
    ensures forall i :: |arg| + 2 + |name| <= i < |arg| + 8 ==> line[i] == ' '
    ensures line[|arg| + 8..] == prio + "\n"
  {
    var field := PadRight(name, 5);
    var head := arg + ": " + field + " ";
    assert |head| == |arg| + 8;
    assert head[|arg| + 2..|arg| + 7] == field;
    var line := head + prio + "\n";
    assert line[..|head|] == head;
    line
  }

  /** Every line starts its priority column at the same offset after the
      argument, whatever the policy: the name field is always 5 wide. */
  lemma ColumnsAligned(h: Headers, arg: string, p: int, q: int, prio: int)
    ensures var a := Line(arg, PolicyName(h, p), PrioText(prio));
      var b := Line(arg, PolicyName(h, q), PrioText(prio));
      |a| == |b| && a[|arg| + 8..] == b[|arg| + 8..]
  {
  }

  /** What the kernel answers for one argument: sched_getscheduler() and
      sched_getparam() results, either of which can fail. */
  datatype Query = SchedulerFailed | ParamFailed | Answer(policy: int, priority: int)

  /** What one successful iteration prints: the argument, the policy and
      the priority. */
  datatype Report = Report(arg: string, policy: int, priority: int)

  /** The text of a report. */
  function ReportLine(h: Headers, r: Report): string
  {
    Line(r.arg, PolicyName(h, r.policy), PrioText(r.priority))
  }

  /** The printed lines of a sequence of reports. */
  function Lines(h: Headers, rs: seq<Report>): (ls: seq<string>)
    ensures |ls| == |rs|
    ensures forall i :: 0 <= i < |rs| ==> ls[i] == ReportLine(h, rs[i])
  {
    seq(|rs|, i requires 0 <= i < |rs| => ReportLine(h, rs[i]))
  }

  /** How the program ends: all reports printed, or errExit() after the
      reports printed so far, naming the call that failed. */
  datatype Outcome = Done(reports: seq<Report>) | ErrExit(reports: seq<Report>, call: string)

  /** The reference: one report per argument until the first failed query. */
  function View(args: seq<string>, answers: seq<Query>): (o: Outcome)
    requires |answers| == |args|
    decreases |args|
  {
    if |args| == 0 then Done([])
    else match answers[0]
      case SchedulerFailed => ErrExit([], "sched_getscheduler")
      case ParamFailed => ErrExit([], "sched_getparam")
      case Answer(pol, prio) =>
        var r := Report(args[0], pol, prio);
        match View(args[1..], answers[1..])
        case Done(rs) => Done([r] + rs)
        case ErrExit(rs, call) => ErrExit([r] + rs, call)
  }

  /** The loop of main() over argv[1..argc-1]: for each argument, both
      queries, then one printed report; a failed query ends the program. */
  method ViewAll(args: seq<string>, answers: seq<Query>) returns (reports: seq<Report>, failed: string)
    requires |answers| == |args|
    ensures failed == "" ==> View(args, answers) == Done(reports)
    ensures failed != "" ==> View(args, answers) == ErrExit(reports, failed)
    ensures failed == "" <==> forall i :: 0 <= i < |answers| ==> answers[i].Answer?
    ensures failed == "" ==> |reports| == |args|
    ensures |reports| <= |args|
    ensures forall i :: 0 <= i < |reports| ==>
      && answers[i].Answer? && reports[i].arg == args[i]
      && reports[i].policy == answers[i].policy && reports[i].priority == answers[i].priority
  {
    reports := [];
    failed := "";
    var j := 0;
    while j < |args|
      invariant 0 <= j <= |args| && |reports| == j
      invariant forall i :: 0 <= i < j ==> answers[i].Answer?
      invariant forall i :: 0 <= i < j ==>
        reports[i] == Report(args[i], answers[i].policy, answers[i].priority)
    {
      match answers[j]
      case SchedulerFailed =>
        failed := "sched_getscheduler";
        ViewPrefix(args, answers, j, reports);
        return;
      case ParamFailed =>
        failed := "sched_getparam";
        ViewPrefix(args, answers, j, reports);
        return;
      case Answer(pol, prio) =>
        reports := reports + [Report(args[j], pol, prio)];
      j := j + 1;
    }
    ViewPrefix(args, answers, j, reports);
  }

  /** After k successful answers, the reference output is those k reports
      followed by whatever the rest produces. */
  lemma {:induction false} ViewPrefix(args: seq<string>, answers: seq<Query>, k: nat, reports: seq<Report>)
    requires |answers| == |args| && k <= |args| && |reports| == k
    requires forall i :: 0 <= i < k ==> answers[i].Answer?
    requires forall i :: 0 <= i < k ==>
      reports[i] == Report(args[i], answers[i].policy, answers[i].priority)
    ensures k == |args| ==> View(args, answers) == Done(reports)
    ensures k < |args| && answers[k].SchedulerFailed? ==>
      View(args, answers) == ErrExit(reports, "sched_getscheduler")
    ensures k < |args| && answers[k].ParamFailed? ==>
      View(args, answers) == ErrExit(reports, "sched_getparam")
    decreases k
  {
    if k > 0 {
      ViewPrefix(args[1..], answers[1..], k - 1, reports[1..]);
      assert reports == [reports[0]] + reports[1..];
    }
  }
}
