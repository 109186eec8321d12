/** The seccomp filter of seccomp/seccomp_logging.c and the classic BPF
    machine that runs it. The filter kills the process when the system call
    comes from another architecture than x86-64 or uses the x32 ABI, and
    asks the kernel to log (and then allow) every other system call. */
module Seccomp {

  const U32: int := 0x1_0000_0000

  // Instruction codes (linux/filter.h, linux/bpf_common.h).
  const BPF_LD: int := 0x00
  const BPF_W: int := 0x00
  const BPF_ABS: int := 0x20
  const BPF_JMP: int := 0x05
  const BPF_JEQ: int := 0x10
  const BPF_JGE: int := 0x30
  const BPF_K: int := 0x00
  const BPF_RET: int := 0x06

  const LD_W_ABS: int := 0x20
  const JEQ_K: int := 0x15
  const JGE_K: int := 0x35
  const RET_K: int := 0x06

  /** AUDIT_ARCH_X86_64: EM_X86_64 (62) with the 64-bit and little-endian flags. */
  const AUDIT_ARCH_X86_64: int := 0xC000003E
  const X32_SYSCALL_BIT: int := 0x40000000

  // Return actions (linux/seccomp.h).
  const SECCOMP_RET_KILL: int := 0x00000000
  const SECCOMP_RET_KILL_PROCESS_VALUE: int := 0x80000000
  const SECCOMP_RET_LOG_VALUE: int := 0x7ffc0000

  /** Byte offsets in struct seccomp_data { int nr; __u32 arch; __u64
      instruction_pointer; __u64 args[6]; } (64 bytes). */
  const OFFSET_NR: int := 0
  const OFFSET_ARCH: int := 4
  const SECCOMP_DATA_SIZE: int := 64

  /** What the system headers define: pre-4.14 headers lack
      SECCOMP_RET_KILL_PROCESS and SECCOMP_RET_LOG. */
  datatype Headers = Headers(hasRetLog: bool, hasKillProcess: bool)

  /** SECCOMP_RET_LOG, with the program's fallback when it is undefined. */
  function RetLog(h: Headers): (v: int)
    ensures v == SECCOMP_RET_LOG_VALUE
  {
    if h.hasRetLog then SECCOMP_RET_LOG_VALUE else 0x7ffc0000
  }

  /** SECCOMP_RET_KILL_PROCESS, falling back to SECCOMP_RET_KILL (kill the
      calling thread only) when undefined. */
  function RetKillProcess(h: Headers): (v: int)
    ensures h.hasKillProcess <==> v == SECCOMP_RET_KILL_PROCESS_VALUE
    ensures !h.hasKillProcess <==> v == SECCOMP_RET_KILL
  {
    if h.hasKillProcess then SECCOMP_RET_KILL_PROCESS_VALUE else SECCOMP_RET_KILL
  }

  /** struct sock_filter: a 16-bit code, two 8-bit jump offsets, a 32-bit constant. */
  datatype SockFilter = SockFilter(code: int, jt: int, jf: int, k: int)

  function Stmt(code: int, k: int): SockFilter { SockFilter(code, 0, 0, k) }
  function Jump(code: int, k: int, jt: int, jf: int): SockFilter { SockFilter(code, jt, jf, k) }

  /** The filter[] array of install_filter(). */
  function Filter(h: Headers): (f: seq<SockFilter>)
    ensures |f| == 6
  {
    [ Stmt(BPF_LD + BPF_W + BPF_ABS, OFFSET_ARCH),
      Jump(BPF_JMP + BPF_JEQ + BPF_K, AUDIT_ARCH_X86_64, 0, 2),
      Stmt(BPF_LD + BPF_W + BPF_ABS, OFFSET_NR),
      Jump(BPF_JMP + BPF_JGE + BPF_K, X32_SYSCALL_BIT, 0, 1),
      Stmt(BPF_RET + BPF_K, RetKillProcess(h)),
      Stmt(BPF_RET + BPF_K, RetLog(h)) ]
  }

  /** struct sock_fprog: the instruction count and the instructions. */
  datatype SockFprog = SockFprog(len: int, filter: seq<SockFilter>)

  /** The program handed to seccomp(SECCOMP_SET_MODE_FILTER). */
  function Program(h: Headers): (p: SockFprog)
    ensures p.len == |p.filter| == 6
    ensures p.filter == Filter(h)
  {
    var f := Filter(h);
    SockFprog(|f|, f)
  }

  /** struct seccomp_data as the filter sees it: the system call number, the
      audit architecture, the instruction pointer and six arguments. */
  datatype SeccompData = SeccompData(nr: int, arch: int, ip: int, args: seq<int>)

  predicate ValidData(d: SeccompData)
  {
    && -0x8000_0000 <= d.nr < 0x8000_0000
    && 0 <= d.arch < U32
    && 0 <= d.ip < U32 * U32
    && |d.args| == 6 && forall i :: 0 <= i < 6 ==> 0 <= d.args[i] < U32 * U32
  }

  /** The 32-bit word at byte offset 4*i of the little-endian structure; the
      int nr is read as its two's-complement bit pattern. */
  function Word(d: SeccompData, i: int): (w: int)
    requires ValidData(d) && 0 <= i < 16
    ensures 0 <= w < U32
  {
    if i == 0 then d.nr % U32
    else if i == 1 then d.arch
    else if i == 2 then d.ip % U32
    else if i == 3 then d.ip / U32
    else
      var a := d.args[(i - 4) / 2];
      if i % 2 == 0 then a % U32 else a / U32
  }

  /** How a run of the BPF machine ends: a RET with its constant, or a fault
      the kernel's filter checker rules out before installing a program. */
  datatype Outcome = Ret(value: int) | FellOffEnd | BadInstruction(pc: int) | BadLoad(pc: int)

  /** The classic BPF machine restricted to the instructions the filter uses.
      A jump skips jt or jf instructions after the next one; jumps only go
      forward, so a run ends. Comparisons are on unsigned 32-bit values. */
  function Exec(prog: seq<SockFilter>, d: SeccompData, pc: nat, acc: int): (o: Outcome)
    requires ValidData(d)
    decreases |prog| - pc
  {
    if pc >= |prog| then FellOffEnd
    else
      var ins := prog[pc];
      if ins.code == LD_W_ABS then
        if 0 <= ins.k && ins.k % 4 == 0 && ins.k + 4 <= SECCOMP_DATA_SIZE then
          Exec(prog, d, pc + 1, Word(d, ins.k / 4))
        else BadLoad(pc)
      else if ins.code == JEQ_K || ins.code == JGE_K then
        if ins.jt < 0 || ins.jf < 0 then BadInstruction(pc)
        else
          var taken := if ins.code == JEQ_K then acc == ins.k else acc >= ins.k;
          Exec(prog, d, pc + 1 + (if taken then ins.jt else ins.jf), acc)
      else if ins.code == RET_K then Ret(ins.k)
      else BadInstruction(pc)
  }

  /** Running a filter on a system call: the accumulator starts at 0. */
  function Run(prog: seq<SockFilter>, d: SeccompData): Outcome
    requires ValidData(d)
  {
    Exec(prog, d, 0, 0)
  }

  /** The checks the kernel applies to a filter before accepting it,
      restricted to these instructions: known codes, 8-bit jump offsets whose
      targets lie inside the program, aligned loads inside seccomp_data, and
      a RET as the last instruction. */
  predicate WellFormed(prog: seq<SockFilter>)
  {
    && 0 < |prog|
    && prog[|prog| - 1].code == RET_K
    && forall pc :: 0 <= pc < |prog| ==> InsnOk(prog, pc)
  }

  predicate InsnOk(prog: seq<SockFilter>, pc: int)
    requires 0 <= pc < |prog|
  {
    var ins := prog[pc];
    || (ins.code == LD_W_ABS && 0 <= ins.k && ins.k % 4 == 0 && ins.k + 4 <= SECCOMP_DATA_SIZE)
    || ((ins.code == JEQ_K || ins.code == JGE_K)
        && 0 <= ins.jt < 256 && 0 <= ins.jf < 256
        && pc + 1 + ins.jt < |prog| && pc + 1 + ins.jf < |prog|)
    || ins.code == RET_K
  }

  /** Every run of a well-formed program, from any instruction and any
      accumulator, ends at a RET. */
  lemma {:induction false} WellFormedReturns(prog: seq<SockFilter>, d: SeccompData, pc: nat, acc: int)
    requires ValidData(d) && WellFormed(prog) && pc < |prog|
    ensures Exec(prog, d, pc, acc).Ret?
    decreases |prog| - pc
  {
    assert InsnOk(prog, pc);
    var ins := prog[pc];
    if ins.code == LD_W_ABS {
      if pc + 1 < |prog| {
        WellFormedReturns(prog, d, pc + 1, Word(d, ins.k / 4));
      }
    } else if ins.code == JEQ_K || ins.code == JGE_K {
      var taken := if ins.code == JEQ_K then acc == ins.k else acc >= ins.k;
      WellFormedReturns(prog, d, pc + 1 + (if taken then ins.jt else ins.jf), acc);
    }
  }

  /** The filter passes the checks: its jumps land inside it and it ends in a RET. */
  lemma FilterWellFormed(h: Headers)
    ensures WellFormed(Filter(h))
  {
    var f := Filter(h);
    forall pc | 0 <= pc < |f|
      ensures InsnOk(f, pc)
    {
    }
  }

  /** The filter's verdict: kill the process for a foreign architecture or a
      system call number whose unsigned 32-bit value is at least
      X32_SYSCALL_BIT (0x40000000), log everything else. */
  lemma Verdict(h: Headers, d: SeccompData)
    requires ValidData(d)
    ensures Run(Filter(h), d) ==
      if d.arch != AUDIT_ARCH_X86_64 then Ret(RetKillProcess(h))
      else if d.nr % U32 >= X32_SYSCALL_BIT then Ret(RetKillProcess(h))
      else Ret(RetLog(h))
  {
    var f := Filter(h);
    assert Word(d, OFFSET_ARCH / 4) == d.arch;
    assert Word(d, OFFSET_NR / 4) == d.nr % U32;
    assert Exec(f, d, 0, 0) == Exec(f, d, 1, d.arch);
    if d.arch != AUDIT_ARCH_X86_64 {
      assert Exec(f, d, 1, d.arch) == Exec(f, d, 4, d.arch);
    } else {
      assert Exec(f, d, 1, d.arch) == Exec(f, d, 2, d.arch);
      assert Exec(f, d, 2, d.arch) == Exec(f, d, 3, d.nr % U32);
      if d.nr % U32 >= X32_SYSCALL_BIT {
        assert Exec(f, d, 3, d.nr % U32) == Exec(f, d, 4, d.nr % U32);
      } else {
        assert Exec(f, d, 3, d.nr % U32) == Exec(f, d, 5, d.nr % U32);
      }
    }
  }

  /** For the native x86-64 system calls the program makes (numbers below
      the x32 bit), the call is logged; a negative number is killed. */
  lemma NativeCallsLogged(h: Headers, d: SeccompData)
    requires ValidData(d) && d.arch == AUDIT_ARCH_X86_64
    ensures 0 <= d.nr < X32_SYSCALL_BIT ==> Run(Filter(h), d) == Ret(SECCOMP_RET_LOG_VALUE)
    ensures d.nr < 0 ==> Run(Filter(h), d) == Ret(RetKillProcess(h))
  {
    Verdict(h, d);
  }
}
