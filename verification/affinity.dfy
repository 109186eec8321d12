/** The CPU-mask handling of procpri/t_sched_setaffinity.c (a bit mask
    given on the command line becomes a cpu_set_t) and of
    procpri/t_sched_getaffinity.c (a cpu_set_t is listed as "CPUs: 0 2 ..."). */
module Affinity {
  import opened Text
  import opened CmdLine

  /** CPU_SETSIZE: the number of CPUs a cpu_set_t can hold. */
  const CPU_SETSIZE: nat := 1024

  /** unsigned long is 64 bits wide. */
  const ULONG_BITS: nat := 64

  /** The number of values an unsigned long can hold, 2^64, and the
      range of long, [-2^63, 2^63). */
  const ULONG_RANGE: nat := 0x1_0000_0000_0000_0000
  const LONG_LIMIT: nat := 0x8000_0000_0000_0000

  function Pow2(n: nat): (p: nat)
    ensures p >= 1
  {
    if n == 0 then 1 else 2 * Pow2(n - 1)
  }

  lemma {:induction false} Pow2Add(a: nat, b: nat)
    ensures Pow2(a + b) == Pow2(a) * Pow2(b)
    decreases a
  {
    if a > 0 {
      Pow2Add(a - 1, b);
      assert Pow2(a + b) == 2 * Pow2(a - 1 + b);
    }
  }

  lemma Pow2Byte()
    ensures Pow2(8) == 0x100
  {
    assert Pow2(4) == 0x10;
  }

  lemma UlongRange()
    ensures Pow2(ULONG_BITS) == ULONG_RANGE
  {
    Pow2Byte();
    Pow2Add(8, 8);
    assert Pow2(16) == 0x1_0000;
    Pow2Add(16, 16);
    assert Pow2(32) == 0x1_0000_0000;
    Pow2Add(32, 32);
  }

  /** mask >> c. */
  function Shift(mask: nat, c: nat): nat
  {
    if c == 0 then mask else Shift(mask / 2, c - 1)
  }

  /** Bit c of mask: (mask >> c) & 1. */
  predicate Bit(mask: nat, c: nat)
  {
    if c == 0 then mask % 2 == 1 else Bit(mask / 2, c - 1)
  }

  /** A cpu_set_t: the CPUs it contains. */
  type CpuSet = set<nat>

  /** The conversion of getLong()'s long result to unsigned long: two's
      complement wrap-around modulo 2^64. */
  function MaskFromLong(v: int): (m: nat)
    requires -(LONG_LIMIT as int) <= v < LONG_LIMIT
    ensures m < ULONG_RANGE
    ensures (m - v) % ULONG_RANGE == 0
    ensures v >= 0 <==> m < LONG_LIMIT
  {
    if v >= 0 then v else v + ULONG_RANGE
  }

  /** The set whose members are the positions of the 1-bits of mask. */
  function MaskSet(mask: nat): (s: CpuSet)
    requires mask < ULONG_RANGE
    ensures forall c :: c in s ==> c < ULONG_BITS && c < CPU_SETSIZE
  {
    set c: nat | c < ULONG_BITS && Bit(mask, c)
  }

  /** One more shift is a halving. */
  lemma {:induction false} ShiftStep(mask: nat, c: nat)
    ensures Shift(mask, c + 1) == Shift(mask, c) / 2
    decreases c
  {
    if c > 0 {
      ShiftStep(mask / 2, c - 1);
    }
  }

  /** Bit c is the low bit of mask >> c. */
  lemma {:induction false} BitShift(mask: nat, c: nat)
    ensures Bit(mask, c) <==> Shift(mask, c) % 2 == 1
    decreases c
  {
    if c > 0 {
      BitShift(mask / 2, c - 1);
    }
  }

  /** Once the shifted mask is 0 it stays 0. */
  lemma {:induction false} ShiftZero(mask: nat, c: nat, e: nat)
    requires Shift(mask, c) == 0 && c <= e
    ensures Shift(mask, e) == 0 && !Bit(mask, e)
    decreases e - c
  {
    if c < e {
      ShiftStep(mask, c);
      ShiftZero(mask, c + 1, e);
    } else {
      BitShift(mask, e);
    }
  }

  /** A value below 2^n is 0 after n shifts. */
  lemma {:induction false} ShiftBelow(mask: nat, n: nat)
    requires mask < Pow2(n)
    ensures Shift(mask, n) == 0
    decreases n
  {
    if n > 0 {
      ShiftBelow(mask / 2, n - 1);
    }
  }

  /** A 64-bit mask has no bit at position 64 or above. */
  lemma MaskExhausted(mask: nat, e: nat)
    requires mask < ULONG_RANGE && ULONG_BITS <= e
    ensures Shift(mask, e) == 0 && !Bit(mask, e)
  {
    UlongRange();
    ShiftBelow(mask, ULONG_BITS);
    ShiftZero(mask, ULONG_BITS, e);
  }

  /** The loop of t_sched_setaffinity.c: CPU_ZERO, then for each 1-bit of the
      mask, lowest first, CPU_SET of its position, shifting the mask right
      until it is 0. */
  method MaskToCpuSet(mask: nat) returns (s: CpuSet)
    requires mask < ULONG_RANGE
    ensures s == MaskSet(mask)
    ensures forall c: nat :: c in s <==> c < CPU_SETSIZE && Bit(mask, c)
  {
    s := {};
    var cpu: nat := 0;
    var m := mask;
    while m > 0
      invariant m == Shift(mask, cpu)
      invariant s == set c: nat | c < cpu && Bit(mask, c)
      invariant cpu <= ULONG_BITS
      decreases m
    {
      BitShift(mask, cpu);
      if m % 2 == 1 {
        s := s + {cpu};
      }
      if cpu == ULONG_BITS {
        MaskExhausted(mask, cpu);
      }
      ShiftStep(mask, cpu);
      cpu := cpu + 1;
      m := m / 2;
    }
    forall c: nat | cpu <= c
      ensures !Bit(mask, c)
    {
      ShiftZero(mask, cpu, c);
    }
  }

  /** The CPUs of the set in ascending order, as the loop over
      0 .. CPU_SETSIZE-1 with CPU_ISSET visits them. */
  function CpuList(s: CpuSet, from: nat): (l: seq<nat>)
    requires from <= CPU_SETSIZE
    ensures forall i :: 0 <= i < |l| ==> from <= l[i] < CPU_SETSIZE && l[i] in s
    ensures forall c :: from <= c < CPU_SETSIZE && c in s ==> c in l
    ensures StrictlyIncreasing(l)
    decreases CPU_SETSIZE - from
  {
    if from == CPU_SETSIZE then []
    else if from in s then [from] + CpuList(s, from + 1)
    else CpuList(s, from + 1)
  }

  predicate StrictlyIncreasing(l: seq<nat>)
  {
    forall i, j :: 0 <= i < j < |l| ==> l[i] < l[j]
  }

  /** printf("CPUs:") then printf(" %d") per CPU, then the newline. */
  function CpusLine(s: CpuSet): (line: string)
    ensures |line| >= 6 && line[..5] == "CPUs:" && line[|line| - 1] == '\n'
    ensures line[5..|line| - 1] == Concat(CpuWords(CpuList(s, 0)))
  {
    var words := Concat(CpuWords(CpuList(s, 0)));
    var line := "CPUs:" + words + "\n";
    ConcatParts("CPUs:", words, "\n", line);
    line
  }

  function CpuWords(l: seq<nat>): (w: seq<string>)
    ensures |w| == |l|
    ensures forall i :: 0 <= i < |l| ==> w[i] == " " + NatToString(l[i])
  {
    if |l| == 0 then [] else [" " + NatToString(l[0])] + CpuWords(l[1..])
  }

  /** An independent description of the listing for a mask: the positions
      of its 1-bits, lowest first, read off by repeated halving. */
  function Positions(mask: nat, base: nat): seq<nat>
    decreases mask
  {
    if mask == 0 then []
    else (if mask % 2 == 1 then [base] else []) + Positions(mask / 2, base + 1)
  }

  /** Every listed position is at least base. */
  lemma {:induction false} PositionsAbove(mask: nat, base: nat)
    ensures forall x :: x in Positions(mask, base) ==> x >= base
    decreases mask
  {
    if mask > 0 {
      PositionsAbove(mask / 2, base + 1);
    }
  }

  /** The listing is strictly increasing. */
  lemma {:induction false} PositionsIncreasing(mask: nat, base: nat)
    ensures StrictlyIncreasing(Positions(mask, base))
    decreases mask
  {
    if mask > 0 {
      PositionsIncreasing(mask / 2, base + 1);
      PositionsAbove(mask / 2, base + 1);
      var rest := Positions(mask / 2, base + 1);
      if mask % 2 == 1 {
        var p := Positions(mask, base);
        assert p == [base] + rest;
        forall i, j | 0 <= i < j < |p|
          ensures p[i] < p[j]
        {
          assert p[j] == rest[j - 1] && rest[j - 1] in rest;
          if i > 0 {
            assert p[i] == rest[i - 1];
          }
        }
      }
    }
  }

  /** Position base + k is listed exactly when bit k of the mask is set. */
  lemma {:induction false} PositionsBit(mask: nat, base: nat, k: nat)
    ensures Bit(mask, k) <==> base + k in Positions(mask, base)
    decreases mask
  {
    PositionsAbove(mask, base);
    if mask == 0 {
      ShiftZero(mask, 0, k);
    } else {
      PositionsAbove(mask / 2, base + 1);
      var rest := Positions(mask / 2, base + 1);
      assert Positions(mask, base) == (if mask % 2 == 1 then [base] else []) + rest;
      if k == 0 {
        assert base !in rest;
      } else {
        PositionsBit(mask / 2, base + 1, k - 1);
        assert (base + 1) + (k - 1) == base + k;
      }
    }
  }

  /** Two strictly increasing lists with the same elements are equal. */
  lemma {:induction false} StrictUnique(a: seq<nat>, b: seq<nat>)
    requires StrictlyIncreasing(a) && StrictlyIncreasing(b)
    requires forall x :: x in a <==> x in b
    ensures a == b
    decreases |a| + |b|
  {
    if |a| == 0 || |b| == 0 {
      HeadMember(a);
      HeadMember(b);
    } else {
      HeadIsLeast(a, b[0]);
      HeadIsLeast(b, a[0]);
      forall x
        ensures x in a[1..] <==> x in b[1..]
      {
        if x in a[1..] {
          TailMember(a, b, x);
        }
        if x in b[1..] {
          TailMember(b, a, x);
        }
      }
      StrictUnique(a[1..], b[1..]);
      assert a == [a[0]] + a[1..] && b == [b[0]] + b[1..];
    }
  }

  lemma HeadMember(a: seq<nat>)
    ensures |a| > 0 ==> a[0] in a
  {
  }

  /** The head of an increasing list is its least element. */
  lemma HeadIsLeast(a: seq<nat>, x: nat)
    requires StrictlyIncreasing(a) && x in a
    ensures a[0] <= x
  {
    var i :| 0 <= i < |a| && a[i] == x;
    if i > 0 {
      assert a[0] < a[i];
    }
  }

  lemma TailMember(a: seq<nat>, b: seq<nat>, x: nat)
    requires StrictlyIncreasing(a) && StrictlyIncreasing(b)
    requires |a| > 0 && |b| > 0 && a[0] == b[0]
    requires forall y :: y in a <==> y in b
    requires x in a[1..]
    ensures x in b[1..]
  {
    var i :| 1 <= i < |a| && a[i] == x;
    assert x in a;
    var j :| 0 <= j < |b| && b[j] == x;
    assert j != 0;
    assert b[1..][j - 1] == x;
  }

  /** Setting the affinity from a mask and listing it back gives exactly the
      positions of the mask's 1-bits, in ascending order. */
  lemma ListRoundTrip(mask: nat)
    requires mask < ULONG_RANGE
    ensures CpuList(MaskSet(mask), 0) == Positions(mask, 0)
  {
    var l := CpuList(MaskSet(mask), 0);
    var p := Positions(mask, 0);
    PositionsIncreasing(mask, 0);
    forall x: nat
      ensures x in l <==> x in p
    {
      PositionsBit(mask, 0, x);
      assert 0 + x == x;
      if x >= ULONG_BITS {
        MaskExhausted(mask, x);
      }
    }
    StrictUnique(l, p);
  }

  /** What main() does before any system call: a usage error, or go ahead. */
  datatype Start = Usage | Proceed

  /** t_sched_setaffinity: "pid mask". */
  function SetAffinityStart(argv: seq<string>): (r: Start)
    ensures r == Usage <==> |argv| != 3 || argv[1] == "--help"
  {
    if UsageError(argv, 3) then Usage else Proceed
  }

  /** t_sched_getaffinity: "pid". */
  function GetAffinityStart(argv: seq<string>): (r: Start)
    ensures r == Usage <==> |argv| != 2 || argv[1] == "--help"
  {
    if UsageError(argv, 2) then Usage else Proceed
  }
}
