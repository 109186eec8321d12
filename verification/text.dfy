/** Text formatting shared by the programs: decimal numbers as printed by
    printf("%d") / Go's strconv.Itoa, fixed-width hexadecimal as printed by
    printf("%08x"), and space padding for printf field widths. */
module Text {

  predicate IsDigit(c: char) {
    '0' <= c <= '9'
  }

  predicate AllDigits(s: string) {
    forall i :: 0 <= i < |s| ==> IsDigit(s[i])
  }

  function DigitChar(d: nat): (c: char)
    requires d < 10
    ensures IsDigit(c)
  {
    ['0', '1', '2', '3', '4', '5', '6', '7', '8', '9'][d]
  }

  function DigitValue(c: char): (d: nat)
    requires IsDigit(c)
    ensures d < 10
  {
    (c as int) - ('0' as int)
  }

  /** Decimal digits of a natural number, without leading zeros. */
  function NatToString(n: nat): (s: string)
    ensures |s| >= 1 && AllDigits(s)
    ensures |s| > 1 ==> s[0] != '0'
    decreases n
  {
    if n < 10 then [DigitChar(n)] else NatToString(n / 10) + [DigitChar(n % 10)]
  }

  /** The value of a string of decimal digits (the empty string reads as 0). */
  function ParseDigits(s: string): nat
    requires AllDigits(s)
  {
    if |s| == 0 then 0 else ParseDigits(s[..|s| - 1]) * 10 + DigitValue(s[|s| - 1])
  }

  /** printf("%d") of a signed integer: a minus sign before the digits of a negative value. */
  function IntToString(n: int): (s: string)
    ensures |s| >= 1
    ensures n >= 0 ==> s == NatToString(n)
    ensures n < 0 ==> s[0] == '-' && s[1..] == NatToString(-n)
  {
    if n >= 0 then NatToString(n) else "-" + NatToString(-n)
  }

  /** The number of decimal digits of n. */
  function DigitCount(n: nat): (c: nat)
    ensures c >= 1
    decreases n
  {
    if n < 10 then 1 else DigitCount(n / 10) + 1
  }

  /** The length of printf("%d") output. */
  function DecimalLength(n: int): (c: nat)
    ensures c >= 1
  {
    if n >= 0 then DigitCount(n) else DigitCount(-n) + 1
  }

  lemma {:induction false} NatToStringLength(n: nat)
    ensures |NatToString(n)| == DigitCount(n)
    decreases n
  {
    if n >= 10 {
      NatToStringLength(n / 10);
    }
  }

  lemma IntToStringLength(n: int)
    ensures |IntToString(n)| == DecimalLength(n)
  {
    if n >= 0 {
      NatToStringLength(n);
    } else {
      NatToStringLength(-n);
    }
  }

  /** Reading the printed digits back gives the number: the decimal form loses nothing. */
  lemma {:induction false} ParseNatToString(n: nat)
    ensures ParseDigits(NatToString(n)) == n
    decreases n
  {
    if n >= 10 {
      var s := NatToString(n / 10);
      var t := s + [DigitChar(n % 10)];
      assert t[..|t| - 1] == s;
      ParseNatToString(n / 10);
    }
  }

  /** s is a decimal form of n: one or more digits that read as n. */
  predicate ReadsAs(s: string, n: nat)
  {
    |s| >= 1 && AllDigits(s) && ParseDigits(s) == n
  }

  lemma ReadsAsEqual(s: string, t: string, n: nat)
    requires s == t && ReadsAs(t, n)
    ensures ReadsAs(s, n)
  {
  }

  lemma NatToStringReadsAs(n: nat)
    ensures ReadsAs(NatToString(n), n)
  {
    ParseNatToString(n);
  }

  /** Distinct numbers print differently. */
  lemma NatToStringInjective(a: nat, b: nat)
    requires NatToString(a) == NatToString(b)
    ensures a == b
  {
    ParseNatToString(a);
    ParseNatToString(b);
  }

  function Pow16(k: nat): (p: nat)
    ensures p >= 1
  {
    if k == 0 then 1 else 16 * Pow16(k - 1)
  }

  function HexChar(d: nat): (c: char)
    requires d < 16
  {
    ['0', '1', '2', '3', '4', '5', '6', '7', '8', '9', 'a', 'b', 'c', 'd', 'e', 'f'][d]
  }

  predicate IsHexDigit(c: char) {
    '0' <= c <= '9' || 'a' <= c <= 'f'
  }

  function HexValue(c: char): (d: nat)
    requires IsHexDigit(c)
    ensures d < 16
  {
    if '0' <= c <= '9' then (c as int) - ('0' as int) else (c as int) - ('a' as int) + 10
  }

  /** The last k hexadecimal digits of x, lower case, zero padded: printf("%0<k>x")
      when x has at most k digits. */
  function HexDigits(x: nat, k: nat): (s: string)
    ensures |s| == k
    ensures forall i :: 0 <= i < |s| ==> IsHexDigit(s[i])
  {
    if k == 0 then [] else HexDigits(x / 16, k - 1) + [HexChar(x % 16)]
  }

  function ParseHex(s: string): nat
    requires forall i :: 0 <= i < |s| ==> IsHexDigit(s[i])
  {
    if |s| == 0 then 0 else ParseHex(s[..|s| - 1]) * 16 + HexValue(s[|s| - 1])
  }

  /** printf("%08x") of an unsigned 32-bit value. */
  function Hex8(x: nat): (s: string)
    requires x < 0x1_0000_0000
    ensures |s| == 8
    ensures forall i :: 0 <= i < |s| ==> IsHexDigit(s[i])
    ensures ParseHex(s) == x
  {
    assert Pow16(8) == 0x1_0000_0000;
    ParseHexDigits(x, 8);
    HexDigits(x, 8)
  }

  /** A value that fits in k hexadecimal digits is recovered from its k-digit form. */
  lemma {:induction false} ParseHexDigits(x: nat, k: nat)
    requires x < Pow16(k)
    ensures ParseHex(HexDigits(x, k)) == x
    decreases k
  {
    if k > 0 {
      var s := HexDigits(x / 16, k - 1);
      var t := s + [HexChar(x % 16)];
      assert t[..|t| - 1] == s;
      ParseHexDigits(x / 16, k - 1);
    }
  }

  function Spaces(n: nat): (s: string)
    ensures |s| == n
    ensures forall i :: 0 <= i < n ==> s[i] == ' '
  {
    seq(n, _ => ' ')
  }

  /** printf("%-<w>s"): left-justified in a field of width w, never truncated. */
  function PadRight(s: string, w: nat): (r: string)
    ensures |r| == if |s| < w then w else |s|
    ensures r[..|s|] == s
    ensures forall i :: |s| <= i < |r| ==> r[i] == ' '
  {
    if |s| < w then s + Spaces(w - |s|) else s
  }

  /** printf("%<w>s") / "%<w>d": right-justified in a field of width w, never truncated. */
  function PadLeft(s: string, w: nat): (r: string)
    ensures |r| == if |s| < w then w else |s|
    ensures r[|r| - |s|..] == s
    ensures forall i :: 0 <= i < |r| - |s| ==> r[i] == ' '
  {
    if |s| < w then Spaces(w - |s|) + s else s
  }

  /** Concatenation of a sequence of strings. */
  function Concat(parts: seq<string>): string
  {
    if |parts| == 0 then "" else parts[0] + Concat(parts[1..])
  }

  // Slices of concatenations, kept out of the callers' proofs.

  lemma ConcatSuffix<T>(a: seq<T>, b: seq<T>, c: seq<T>)
    requires c == a + b
    ensures c[|a|..|c|] == b
  {
  }

  lemma ConcatPrefix<T>(a: seq<T>, b: seq<T>, lo: nat, hi: nat)
    requires lo <= hi <= |a|
    ensures (a + b)[lo..hi] == a[lo..hi]
  {
  }

  lemma ConcatShift<T>(a: seq<T>, b: seq<T>, lo: nat, hi: nat)
    requires lo <= hi <= |b|
    ensures (a + b)[|a| + lo..|a| + hi] == b[lo..hi]
  {
  }

  /** x occurs in s starting at position at. */
  predicate OccursAt<T(==)>(s: seq<T>, at: nat, x: seq<T>)
  {
    at + |x| <= |s| && s[at..at + |x|] == x
  }

  lemma OccursAtFront<T>(a: seq<T>, b: seq<T>)
    ensures OccursAt(a + b, 0, a)
  {
    ConcatPrefix(a, b, 0, |a|);
  }

  lemma OccursAtShift<T>(a: seq<T>, b: seq<T>, at: nat, at': nat, x: seq<T>)
    requires OccursAt(b, at, x) && at' == |a| + at
    ensures OccursAt(a + b, at', x)
  {
    ConcatShift(a, b, at, at + |x|);
  }

  lemma SliceOfSuffix<T>(s: seq<T>, k: nat, t: seq<T>, i: nat, j: nat)
    requires k <= |s| && s[k..] == t && i <= j <= |t|
    ensures s[k + i..k + j] == t[i..j]
    ensures j == |t| ==> s[k + i..] == t[i..]
  {
    assert forall x :: 0 <= x < |t| ==> s[k + x] == t[x];
  }

  lemma ConcatParts<T>(a: seq<T>, b: seq<T>, c: seq<T>, s: seq<T>)
    requires s == a + b + c
    ensures s[..|a|] == a && s[|a|..|a| + |b|] == b && s[|a| + |b|..] == c
  {
  }
}
