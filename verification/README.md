# Api-Linux core, modelled in Dafny

This project models the parts of the Linux system-programming demonstrations
in elalv/Api-Linux that contain real logic. System calls are not executed:
each one is an input. This covers the kernel's answers to `ioctl`, `read`,
`tcgetattr`, `getxattr`, `sched_get*` and `open`. The model covers:

- **The namespace-hierarchy builder** shared by `namespaces/pid_namespaces.go`
  and `namespaces/userns_overview.go` (modules `NsHierarchy`, `NsWalk`, `NsDisplay`).
  - `addNamespace()` is a recursive function over an oracle kernel: a finite
    map from namespace id to the `NS_GET_PARENT` reply.
  - Its termination measure is the number of kernel namespaces not yet in
    `nsList`.
  - A tree invariant, with a set of "pending" entries that are inserted but
    not yet linked, is preserved by every call and by the `/proc` scan of
    `main()`.
  - The display is a walk producing one block (level, id, sorted PIDs) per
    namespace. It is then rendered the way each program prints it. This
    includes the 80-column PID wrapping of `userns_overview.go`, and that
    wrapping is characterised independently and shown unique.
- **The seccomp filter** of `seccomp/seccomp_logging.c` (module `Seccomp`),
  run on a small classic-BPF machine (LD|W|ABS, JEQ|K, JGE|K, RET|K). Jumps
  go to `pc + 1 + jt/jf`.
- **The buffered readers** `readLineBuf()` and `readn()` (modules
  `ReadLineBuf`, `Rdwrn`), over a `read(2)` oracle (module `ReadStream`).
  The oracle is a sequence of events: data, end of file, or failure with an
  errno.
- **Small transforms:**
  - `unixBuildAddress()` (`UnixSockets`).
  - The CPU-mask loops of `t_sched_setaffinity.c` and `t_sched_getaffinity.c`
    (`Affinity`).
  - The basename, the `execle()` arguments and the `errExit()` fallback of
    `t_execle.c` (`Execle`).
  - The `Option` type shared by these modules (`Wrappers`).
  - `ttySetCbreak()` (`Tty`).
  - The capability-attribute display of `view_cap_xattr.c` (`CapXattr`).
  - The policy names and output of `sched_view.c` (`SchedView`).
  - `terminate()` of `lib/error_functions.c` (`ErrorFunctions`).

Shared helpers:
- `Text`: decimal and hexadecimal formatting with their parsers, and padding.
- `Sorting`: an insertion sort proved to be the unique ascending permutation.
- `CmdLine`: the common `argc`/`--help` usage test.

The header comment of `sockets/unix_sockets.c` says `unixBuildAddress()`
returns "-1 on success, or 0 on error". The code does the reverse: it returns
0 on success and -1 on error. The model follows the code.

## Model

| member | source | states |
|---|---|---|
| NsHierarchy.AddNamespace | namespaces/pid_namespaces.go:91-148 | a call that does not exit returns the id it was given, which is then in the map; the map only gains entries, and every entry it adds is a namespace the kernel knows; terminates because each recursive call inserts a not-yet-visited namespace |
| NsHierarchy.LinkChild | namespaces/pid_namespaces.go:130-145 | an exit while adding the parent is passed on unchanged; otherwise the result is the queried id and linking adds no entries |
| NsHierarchy.AddExisting | namespaces/pid_namespaces.go:97-145 | a namespace already in the map: no entry added, no children list changed, the initial namespace unchanged, and only its own PID list gains the PID, only when pid > 0 |
| NsHierarchy.AddPids | namespaces/pid_namespaces.go:102-145 | after any call, each entry's PID list is its old list (empty for a newly created entry) plus the PID only for the queried namespace and only when pid > 0; ancestors added with -1 gain nothing |
| NsHierarchy.AddChildren | namespaces/pid_namespaces.go:97-135 | every existing children list grows only at its end, by at most one namespace, which was not in the map before and whose kernel parent is that entry |
| NsHierarchy.ChildrenLink | namespaces/userns_overview.go:116-121 | the recursive step of that property: linking the new namespace under the parent just added |
| NsHierarchy.AddInitial | namespaces/pid_namespaces.go:110-117 | the recorded initial namespace changes only to a newly created namespace whose parent query failed with EPERM |
| NsHierarchy.AddExit | namespaces/userns_overview.go:96-109 | the program exits only at a newly seen namespace whose parent query failed other than with EPERM, with ENOTTY reported as unsupported ioctls by userns_overview.go and as an ioctl error by pid_namespaces.go; a kernel with no such failures never makes it exit |
| NsHierarchy.InsertKeepsInv | namespaces/pid_namespaces.go:102 | inserting a new namespace with a parent keeps the tree invariant, with the namespace pending |
| NsHierarchy.InsertInitialKeepsInv | namespaces/pid_namespaces.go:110-117 | inserting the EPERM namespace and recording it as initial keeps the tree invariant |
| NsHierarchy.LinkKeepsInv | namespaces/pid_namespaces.go:135 | appending a pending namespace to its kernel parent's children resolves it: it is then listed exactly once, under that parent only |
| NsHierarchy.AddKeepsInv | namespaces/userns_overview.go:65-134 | a call keeps the tree invariant: every namespace it inserts, and every ancestor, ends up listed exactly once among its kernel parent's children |
| NsHierarchy.InvInitial | namespaces/pid_namespaces.go:117 | under the invariant the recorded initial namespace is an entry with no visible parent |
| NsHierarchy.IsPidDir | namespaces/pid_namespaces.go:255 | a /proc entry is processed exactly when its name starts with a digit other than 0 |
| NsHierarchy.Scan | namespaces/pid_namespaces.go:254-258 | the loop over /proc only adds map entries |
| NsHierarchy.ScanMembers | namespaces/userns_overview.go:219-222 | after a completed scan, the namespace of every process directory is in the map |
| NsHierarchy.ScanPids | namespaces/userns_overview.go:141-158 | after a completed scan, each namespace's PID list is exactly the PIDs of its member processes, in /proc order |
| NsHierarchy.ScanKeepsInv | namespaces/pid_namespaces.go:254-258 | the scan keeps the tree invariant |
| Sorting.Sort | namespaces/userns_overview.go:178 | the PIDs are displayed as an ascending permutation of the member list |
| Sorting.SortedUnique | namespaces/pid_namespaces.go:216 | two ascending sequences with the same elements are equal, so sort.Ints has exactly one possible result |
| NsWalk.Tree | namespaces/pid_namespaces.go:229-240 | the walk starts with the namespace at its level, with its PIDs sorted ascending and a permutation of its list; a namespace with no map entry is reported as missing |
| NsWalk.TreeShows | namespaces/pid_namespaces.go:229-240 | on a map with the tree invariant the walk never meets a missing entry, and every later block is deeper than the root and follows the nearest shallower block, which is its kernel parent |
| NsWalk.ForestShows | namespaces/userns_overview.go:202-204 | the same for the loop over a namespace's children |
| NsWalk.ForestStep | namespaces/pid_namespaces.go:237-239 | one more child subtree in front of its siblings keeps the parent relation readable from indentation |
| NsWalk.TreeStepAt | namespaces/pid_namespaces.go:233-239 | in a namespace's block followed by its children's subtrees, each later block sits under its kernel parent |
| NsWalk.DepthUnique | namespaces/pid_namespaces.go:229-240 | a namespace reaches a namespace without a visible parent in only one number of parent steps, so its depth below the root is well defined |
| NsWalk.DepthBound | namespaces/pid_namespaces.go:229-240 | an entry n parent steps below the root has n smaller than the number of entries: the parent chain visits distinct entries |
| NsWalk.TreeFinishes | namespaces/pid_namespaces.go:229-240 | the recursion from an entry `level` steps below the root ends once fuel plus level reaches the number of entries |
| NsWalk.TreeComplete | namespaces/pid_namespaces.go:229-240 | a finished walk from an entry shows every entry below it and nothing else, each once, at its depth, with siblings in the order they were linked |
| NsWalk.ForestComplete | namespaces/userns_overview.go:202-204 | the same for the loop over the remaining children of a namespace |
| NsWalk.WalkFromRoot | namespaces/pid_namespaces.go:229-240 | from the namespace without a visible parent, as much fuel as there are entries is enough, and the finished walk shows exactly the entries whose parent chain reaches the root, once each, indented by depth, siblings in link order |
| NsWalk.WalkSorted | namespaces/pid_namespaces.go:214-216 | every block lists its namespace's members sorted ascending, as a permutation of the recorded PIDs |
| NsDisplay.ShowId | namespaces/pid_namespaces.go:233 | Go's rendering of a namespace id reads back as the id: a brace, the device in decimal, a space, the inode in decimal, a brace |
| NsDisplay.ReadIdUnique | namespaces/pid_namespaces.go:233 | a string reads as at most one namespace id |
| NsDisplay.ShowIdInjective | namespaces/pid_namespaces.go:233 | different namespaces are printed differently |
| NsDisplay.Indent | namespaces/pid_namespaces.go:231 | level k is indented by 4k characters, all spaces |
| NsDisplay.MemberLines | namespaces/pid_namespaces.go:214-223 | one line per PID, in the given order, indented eight spaces past the namespace, followed by the NStgid field or the "can't open" note |
| NsDisplay.RenderPid | namespaces/pid_namespaces.go:229-239 | the output has one header line per namespace plus one line per member PID |
| NsDisplay.RenderPidBlocks | namespaces/pid_namespaces.go:229-239 | for every namespace of the walk, after the lines of the namespaces before it, comes its header (indent, a space, the id) and then one line per member PID in order |
| NsDisplay.RowsGreedy | namespaces/userns_overview.go:178-197 | the PID rows of the wrapping loop hold every PID once, in order, no row is broken before reaching the wrapping column, and every row but the last reaches it |
| NsDisplay.GreedyUnique | namespaces/userns_overview.go:181-196 | any wrapping with that description is the one the loop prints |
| NsDisplay.RowText | namespaces/userns_overview.go:195-196 | a row's text is as long as the columns the loop advances: each PID's digits plus one |
| NsDisplay.RowTextField | namespaces/userns_overview.go:195-196 | PID i of a row is printed as its decimal text and a space, at the column the PIDs before it advanced |
| NsDisplay.RowLine | namespaces/userns_overview.go:187-195 | a row line is the indent, twelve spaces, "PIDs: " on the first row and six spaces on the others, then the row's text |
| NsDisplay.RowLines | namespaces/userns_overview.go:182-193 | one line per row; only the first row carries the "PIDs: " label |
| NsDisplay.PidLines | namespaces/userns_overview.go:178-198 | a namespace without members still gets one empty line; otherwise its lines are the row lines of the one wrapping that meets the loop's description, the wrapping test counting from len(indent)+25 while the PIDs are printed from column len(indent)+18 |
| NsDisplay.RenderUser | namespaces/userns_overview.go:165-205 | userns_overview.go prints at least two lines per namespace |
| NsDisplay.RenderUserBlocks | namespaces/userns_overview.go:165-205 | for every namespace of the walk, after the lines of the namespaces before it, come its id line and its PID row lines |
| NsDisplay.Run | namespaces/pid_namespaces.go:242-263 | a failing ReadDir prints "ioutil.Readdir():" and exits with status 1; main() panics only after a completed scan |
| NsDisplay.RunDisplaysTree | namespaces/userns_overview.go:207-228 | when the scan completes and found the namespace without a visible parent, main() does not panic and its output is the rendering of a finished walk from that namespace: every entry below it exactly once, under its kernel parent, at its depth, siblings in link order, members sorted |
| NsDisplay.RunFromRoot | namespaces/pid_namespaces.go:262 | once the root has an entry, main()'s output is the rendering of the walk from it |
| Seccomp.RetLog | seccomp/seccomp_logging.c:21-23 | SECCOMP_RET_LOG is 0x7ffc0000 whether or not the headers define it |
| Seccomp.RetKillProcess | seccomp/seccomp_logging.c:30-32 | without SECCOMP_RET_KILL_PROCESS the filter kills with SECCOMP_RET_KILL instead |
| Seccomp.Filter | seccomp/seccomp_logging.c:43-67 | the filter has six instructions |
| Seccomp.Program | seccomp/seccomp_logging.c:69-72 | prog.len is the number of instructions in the filter |
| Seccomp.WellFormedReturns | seccomp/seccomp_logging.c:46-66 | every run of a program with known codes, in-bounds jumps and a final RET ends at a RET |
| Seccomp.FilterWellFormed | seccomp/seccomp_logging.c:46-66 | the filter's jumps land inside it, its loads are aligned inside seccomp_data and it ends in a RET |
| Seccomp.Verdict | seccomp/seccomp_logging.c:46-66 | a foreign architecture is killed; on x86-64 a system call number whose unsigned 32-bit value is at least 0x40000000 is killed; everything else is logged |
| Seccomp.NativeCallsLogged | seccomp/seccomp_logging.c:58-66 | native x86-64 calls below the x32 bit are logged; negative numbers are killed |
| ReadLineBuf.Init | sockets/read_line_buf.c:10-16 | initialisation records the descriptor and leaves nothing buffered |
| ReadLineBuf.NewlineIndex | sockets/read_line_buf.c:59-60 | the position of the first newline, or -1 when there is none |
| ReadLineBuf.FillBuffer | sockets/read_line_buf.c:41-51 | the buffer is refilled only when exhausted; a failed read returns -1 and a read of 0 means end of file, both with no input left |
| ReadLineBuf.TakeChar | sockets/read_line_buf.c:53-54 | the character taken is the next one of the input and the rest stays available |
| ReadLineBuf.NextChar | sockets/read_line_buf.c:41-54 | one fetch: the next character of the input, or end of file, or a read error |
| ReadLineBuf.ReturnAtNewline | sockets/read_line_buf.c:56-60 | stopping at the first newline returns the line cut to n characters, and what follows it stays available |
| ReadLineBuf.ReturnAtEnd | sockets/read_line_buf.c:43-48 | stopping at end of file returns what was gathered; stopping at a read error returns -1 |
| ReadLineBuf.ReadLine | sockets/read_line_buf.c:22-64 | n = 0 or a null buffer gives EINVAL and changes nothing; otherwise the result is the input up to and including the first newline, cut to n characters, or what precedes end of file, or -1 on a read error; the characters after the newline stay for the next call, in order; after end of file or a read error nothing stays buffered and the descriptor is just past the read that reported it |
| ReadStream.ReadAfter | sockets/read_line_buf.c:41-51 | a read that returns data leaves the same end of input behind; a read that returns 0 or fails is the one that reports the end, and leaves the stream after it |
| ReadStream.ReadStep | sockets/rdwrn.c:22-34 | one read() returns a prefix of the data still to come and leaves the rest queued; 0 means the data is exhausted; an error is retried only for EINTR with readn() |
| Rdwrn.Readn | sockets/rdwrn.c:12-37 | the result is the first n bytes of the stream's data, fewer only at end of file, or -1 with an errno other than EINTR when an error comes first; after n bytes the rest of the stream is untouched |
| UnixSockets.StrLen | sockets/unix_sockets.c:21 | strlen() is the index of the first NUL |
| UnixSockets.Cleared | sockets/unix_sockets.c:19-20 | the cleared structure has family AF_UNIX and an all-NUL path |
| UnixSockets.Strncpy | sockets/unix_sockets.c:23 | strncpy() copies the string and pads with NULs up to n, leaving the rest of the buffer untouched |
| UnixSockets.BuildAddress | sockets/unix_sockets.c:11-31 | a null pointer gives -1 with EINVAL and writes nothing; a path of 108 or more characters gives -1 with ENAMETOOLONG after the structure was cleared; otherwise 0 with errno untouched, family AF_UNIX, the path copied and the rest of sun_path NUL |
| UnixSockets.PathRoundTrip | sockets/unix_sockets.c:19-24 | on success sun_path is NUL-terminated and reading it back gives exactly the path |
| Affinity.MaskFromLong | procpri/t_sched_setaffinity.c:26-32 | getLong()'s value stored in an unsigned long is congruent to it modulo 2^64, and has bit 63 set exactly when it was negative |
| Affinity.MaskToCpuSet | procpri/t_sched_setaffinity.c:34-38 | the loop builds, from an empty set, the set holding CPU c exactly when bit c of the mask is 1, so no CPU above the mask's highest 1-bit |
| Affinity.CpuList | procpri/t_sched_getaffinity.c:34-36 | the listed CPUs are exactly the members of the set below CPU_SETSIZE, in strictly ascending order |
| Affinity.CpuWords | procpri/t_sched_getaffinity.c:36 | each listed CPU is printed as a space and its decimal number |
| Affinity.CpusLine | procpri/t_sched_getaffinity.c:33-37 | the line is "CPUs:", then the words of the listed CPUs, then a newline |
| Affinity.ListRoundTrip | procpri/t_sched_getaffinity.c:34-36 | listing the set built from a mask gives exactly the positions of the mask's 1-bits, ascending |
| Affinity.SetAffinityStart | procpri/t_sched_setaffinity.c:28-29 | usage error exactly when argc != 3 or argv[1] is "--help" |
| Affinity.GetAffinityStart | procpri/t_sched_getaffinity.c:24-25 | usage error exactly when argc != 2 or argv[1] is "--help" |
| CmdLine.UsageError | cap/view_cap_xattr.c:15-16 | the usage test holds exactly for a wrong argument count or a first argument "--help" |
| Execle.LastSlash | procexec/t_execle.c:17 | strrchr(): the position of the last '/', or none when there is no '/' |
| Execle.Basename | procexec/t_execle.c:17-21 | the file name has no '/', is a suffix of the path, follows its last '/', and is the whole path when there is no '/' |
| Execle.BasenameOfJoin | procexec/t_execle.c:17-19 | joining a directory and a slash-free name with '/' gives back the name; a trailing '/' gives "" |
| Execle.Launch | procexec/t_execle.c:9-23 | a usage error for argc != 2 or "--help"; otherwise execle() of argv[1] with arguments [basename of argv[1], "hello world", "goodbye"] and environment ["GREET=salut", "BYE=adieu"] |
| Execle.Main | procexec/t_execle.c:9-24 | main() ends in the usage error, in the new program run by that execle() call, or, exactly when execle() returns, in errExit("execle") |
| Tty.Cbreak | tty/tty_functions.c:27-33 | ICANON and ECHO cleared and ISIG set in c_lflag, ICRNL cleared in c_iflag, VMIN 1, VTIME 0, everything else unchanged |
| Tty.CbreakUnique | tty/tty_functions.c:27-33 | only one setting satisfies that description |
| Tty.CbreakIdempotent | tty/tty_functions.c:27-33 | applying the transform twice is the same as once |
| Tty.SetCbreak | tty/tty_functions.c:17-39 | a failing tcgetattr() returns -1 before anything is written; otherwise the old settings go to a non-null prevTermios, the cbreak form is applied, and the result is 0 unless tcsetattr() fails |
| CapXattr.Version | cap/view_cap_xattr.c:29-30 | the printed version is magic_etc divided by 2^24, its top byte |
| CapXattr.RootIdIffVersion3 | cap/view_cap_xattr.c:34-35 | the revision mask test holds exactly when the printed version is 3 |
| CapXattr.EffectiveBit | cap/view_cap_xattr.c:46-47 | the effective bit prints 1 exactly when VFS_CAP_FLAGS_EFFECTIVE is set, else 0 |
| CapXattr.SetWords | cap/view_cap_xattr.c:48-51 | a set is printed as two 8-character words separated by a space |
| CapXattr.SetWordsRoundTrip | cap/view_cap_xattr.c:48-51 | reading the two words back as hexadecimal gives high * 2^32 + low, the 64-bit set with data[1] as its high half |
| CapXattr.VersionLineShows | cap/view_cap_xattr.c:29-37 | the first line is "Capability version: " and digits that read back as the version; for version 3, and only then, "   [root ID = " follows with digits that read back as the root ID, then "]"; then the newline |
| CapXattr.SetLine | cap/view_cap_xattr.c:48-51 | after its 21-character title a set line shows the high and then the low word as 8 hexadecimal digits each |
| CapXattr.Show | cap/view_cap_xattr.c:13-53 | usage error for argc != 2 or "--help"; ENODATA is fatal with the "has no security.capability attribute" message naming the file; other failures go to errExit("getxattr"); otherwise five lines: the version, the length, the effective bit, then the permitted and inheritable sets, data[1] first |
| SchedView.PolicyName | procpri/sched_view.c:25-37 | the name is "???" exactly for policies the headers do not name; BATCH and IDLE are named only when defined |
| SchedView.NameRoundTrip | procpri/sched_view.c:26-37 | every known policy's name reads back as that policy |
| SchedView.NamesDistinct | procpri/sched_view.c:26-37 | two known policies never share a name |
| SchedView.PrioText | procpri/sched_view.c:38 | the priority is right-justified in two columns: leading spaces, then its decimal digits, which read back as the priority, preceded by a minus sign when it is negative |
| SchedView.Line | procpri/sched_view.c:25-38 | the argument, ": ", the name left-justified in five columns and a space, then the priority and a newline |
| SchedView.ColumnsAligned | procpri/sched_view.c:25 | the priority column is at the same offset whatever the policy |
| SchedView.ViewAll | procpri/sched_view.c:16-39 | one report per argument, in order, each with its policy and priority; the first failing query ends the program through errExit naming that call, after the reports printed so far; the outcome equals the reference definition |
| SchedView.ViewPrefix | procpri/sched_view.c:16-23 | after k successful answers the reference output is those k reports followed by the rest's |
| ErrorFunctions.Terminate | lib/error_functions.c:11-29 | abort() exactly when EF_DUMPCORE is set and non-empty; otherwise exit(EXIT_FAILURE) when useExit3 is set and _exit(EXIT_FAILURE) when not; it never returns |
| ErrorFunctions.DumpCoreOverrides | lib/error_functions.c:21-24 | a non-empty EF_DUMPCORE decides alone, whatever useExit3 is |
| ErrorFunctions.EmptyIsUnset | lib/error_functions.c:21-28 | an empty EF_DUMPCORE behaves like an unset one |

## Left out

- System calls run nowhere. `Fstat`, `ioctl`, `open`, `read`, `tcgetattr`/`tcsetattr`, `sched_*`, `getxattr`, `execle`, `seccomp`/`prctl`, `exit` and `abort` are oracle inputs or result values. Closing descriptors and `errno` text are not modelled.
- The inotify directory-tree cache: inotify/inotify_dtree.c holds only the header comment and `createStopFileAndAbort()`, which is pure I/O. The cache operations are not part of this model.
- `Fstat()` of a namespace file is the identity: namespaces are identified by their (device, inode) id directly, and an `Fstat` failure is not modelled.
- printAllPIDsFor()'s scan of /proc/PID/status with regular expressions is an oracle (`NsDisplay.Status`): the NStgid field is given, not parsed.
- Go's rendering of an errno after "ioctl():" and "open(...):" is not modelled; only the fixed text before it is.
- NsWalk.Tree: Go's recursion has no bound; the model's walk carries fuel. From the namespace without a visible parent, fuel equal to the number of map entries is proved enough (WalkFromRoot). `OutOfFuel` is therefore reached only below a root in whose map a parent chain loops, which a real kernel does not produce; Run reports it as `Unfinished`.
- NsDisplay.Run: on a panic (a missing map entry during the display) the lines printed before it are not kept. Go's rendering of the ReadDir error after "ioutil.Readdir():" is not modelled. ReadDir returns the entries sorted by name; the scan is modelled for any order.
- NsHierarchy.Atoi: strconv.Atoi is modelled for names made of decimal digits, any other name giving 0 as Atoi's ignored error does. A number beyond Go's int range is not clamped to the largest int as Atoi does; process IDs never reach that range.
- ReadLineBuf: RL_MAX_BUF comes from read_line_buf.h, which is not part of this model; 4096 is used. Only the size of each read depends on it.
- SchedView.ViewAll: getLong()'s parsing of the PID arguments is not modelled; each argument's two query results are inputs.
- Affinity.MaskToCpuSet: getLong()'s parsing of the mask text is not modelled; MaskFromLong models only the conversion of its long result to unsigned long.
- CapXattr.Show: the structure read by getxattr() is an input. For an attribute shorter than the structure, the fields past its end hold what they held before the call; the model does not track which fields the kernel wrote.
- Execle.Main: execle() succeeding or returning is an input; how errExit() reports and ends the process is not modelled, since errExit() is not part of this model (only terminate() is).
- ErrorFunctions: the message formatting of errExit(), fatal() and usageErr() is not modelled, only how terminate() ends the process.
