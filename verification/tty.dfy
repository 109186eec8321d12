/** ttySetCbreak() of tty/tty_functions.c: put a terminal in cbreak mode
    (noncanonical input, no echo, signals still generated, one character at
    a time with blocking). */
module Tty {
  import opened Wrappers

  /** A tcflag_t (a 32-bit unsigned int) as the set of positions of its
      1-bits; a cc_t is an unsigned char. */
  type TcFlag = set<nat>
  type Cc = bv8

  const FLAG_BITS: nat := 32

  // Flag bits (Linux asm-generic/termbits.h), as bit positions:
  // ISIG is 0000001, ICANON 0000002, ECHO 0000010 and ICRNL 0000400 (octal).
  const ISIG: nat := 0
  const ICANON: nat := 1
  const ECHO: nat := 3
  const ICRNL: nat := 8
  // Control-character indices and the size of c_cc.
  const VTIME: nat := 5
  const VMIN: nat := 6
  const NCCS: nat := 32

  /** struct termios. */
  datatype Termios = Termios(
    iflag: TcFlag, oflag: TcFlag, cflag: TcFlag, lflag: TcFlag,
    line: Cc, cc: seq<Cc>, ispeed: int, ospeed: int)

  predicate FlagWord(f: TcFlag)
  {
    forall b :: b in f ==> b < FLAG_BITS
  }

  predicate ValidTermios(t: Termios)
  {
    && FlagWord(t.iflag) && FlagWord(t.oflag) && FlagWord(t.cflag) && FlagWord(t.lflag)
    && |t.cc| == NCCS
  }

  /** The local-mode bits the transform touches. */
  const LocalBits: TcFlag := {ICANON, ECHO, ISIG}

  /** The settings in cbreak mode, as a description rather than a
      computation: ICANON and ECHO off, ISIG on, ICRNL off, VMIN 1, VTIME 0,
      and everything else as in t. */
  predicate IsCbreakOf(u: Termios, t: Termios)
    requires ValidTermios(t)
  {
    && ValidTermios(u)
    && ICANON !in u.lflag && ECHO !in u.lflag && ISIG in u.lflag
    && u.lflag - LocalBits == t.lflag - LocalBits
    && ICRNL !in u.iflag
    && u.iflag - {ICRNL} == t.iflag - {ICRNL}
    && u.cc[VMIN] == 1 && u.cc[VTIME] == 0
    && (forall i :: 0 <= i < NCCS && i != VMIN && i != VTIME ==> u.cc[i] == t.cc[i])
    && u.oflag == t.oflag && u.cflag == t.cflag && u.line == t.line
    && u.ispeed == t.ispeed && u.ospeed == t.ospeed
  }

  /** The assignments of ttySetCbreak(): c_lflag &= ~(ICANON | ECHO),
      c_lflag |= ISIG, c_iflag &= ~ICRNL, c_cc[VMIN] = 1, c_cc[VTIME] = 0. */
  function Cbreak(t: Termios): (u: Termios)
    requires ValidTermios(t)
    ensures IsCbreakOf(u, t)
  {
    var lflag := (t.lflag - {ICANON, ECHO}) + {ISIG};
    var iflag := t.iflag - {ICRNL};
    var cc := t.cc[VMIN := 1][VTIME := 0];
    t.(lflag := lflag, iflag := iflag, cc := cc)
  }

  /** Only one terminal setting is the cbreak form of t. */
  lemma CbreakUnique(u: Termios, v: Termios, t: Termios)
    requires ValidTermios(t) && IsCbreakOf(u, t) && IsCbreakOf(v, t)
    ensures u == v
  {
    assert u.lflag == v.lflag by {
      forall b
        ensures b in u.lflag <==> b in v.lflag
      {
        if b !in LocalBits {
          assert b in u.lflag <==> b in u.lflag - LocalBits;
          assert b in v.lflag <==> b in v.lflag - LocalBits;
        }
      }
    }
    assert u.iflag == v.iflag by {
      forall b
        ensures b in u.iflag <==> b in v.iflag
      {
        if b != ICRNL {
          assert b in u.iflag <==> b in u.iflag - {ICRNL};
          assert b in v.iflag <==> b in v.iflag - {ICRNL};
        }
      }
    }
    assert u.cc == v.cc by {
      forall i | 0 <= i < NCCS
        ensures u.cc[i] == v.cc[i]
      {
      }
    }
  }

  /** Setting cbreak mode twice is the same as setting it once. */
  lemma CbreakIdempotent(t: Termios)
    requires ValidTermios(t)
    ensures Cbreak(Cbreak(t)) == Cbreak(t)
  {
    var u := Cbreak(t);
    var w := Cbreak(u);
    assert IsCbreakOf(w, t) by {
      assert w.lflag - LocalBits == u.lflag - LocalBits;
      assert w.iflag - {ICRNL} == u.iflag - {ICRNL};
    }
    CbreakUnique(w, u, t);
  }

  /** The terminal's answer to tcgetattr(): its settings, or a failure. */
  datatype GetReply = GetFailed | Got(t: Termios)

  /** The outcome of ttySetCbreak(): the return value, what the caller's
      prevTermios buffer holds afterwards (None for a null pointer), and
      the settings handed to tcsetattr() if it was called. */
  datatype CbreakResult = CbreakResult(ret: int, prev: Option<Termios>, applied: Option<Termios>)

  /** ttySetCbreak(fd, prevTermios); `setFails` is whether tcsetattr() fails. */
  function SetCbreak(get: GetReply, prev: Option<Termios>, setFails: bool): (r: CbreakResult)
    requires get.Got? ==> ValidTermios(get.t)
    // tcgetattr() failing: -1 before anything is written or set.
    ensures get.GetFailed? ==> r == CbreakResult(-1, prev, None)
    // Otherwise the old settings are saved (if asked), the cbreak form is
    // applied, and the result is 0 unless tcsetattr() fails.
    ensures get.Got? ==>
      && r.prev == (if prev.None? then None else Some(get.t))
      && r.applied.Some? && IsCbreakOf(r.applied.value, get.t)
      && (r.ret == 0 <==> !setFails)
      && r.ret in {0, -1}
  {
    match get
    case GetFailed => CbreakResult(-1, prev, None)
    case Got(t) =>
      var saved := if prev.Some? then Some(t) else None;
      CbreakResult(if setFails then -1 else 0, saved, Some(Cbreak(t)))
  }
}
