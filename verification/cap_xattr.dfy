/** cap/view_cap_xattr.c: show the "security.capability" extended
    attribute of a file, read into a struct vfs_ns_cap_data. */
module CapXattr {
  import opened Text
  import opened CmdLine

  // linux/capability.h
  const VFS_CAP_REVISION_MASK: bv32 := 0xFF000000
  const VFS_CAP_REVISION_SHIFT: bv32 := 24
  const VFS_CAP_FLAGS_EFFECTIVE: bv32 := 0x000001
  const VFS_CAP_REVISION_3: bv32 := 0x03000000
  /** VFS_CAP_U32: the capability sets are two 32-bit words each. */
  const VFS_CAP_U32: nat := 2

  /** ENODATA on Linux: the file has no such attribute. */
  const ENODATA: int := 61

  const U32: nat := 0x1_0000_0000

  /** One word of the permitted and inheritable sets. */
  datatype CapPair = CapPair(permitted: bv32, inheritable: bv32)

  /** struct vfs_ns_cap_data: magic_etc, data[VFS_CAP_U32], rootid. */
  datatype CapData = CapData(magicEtc: bv32, data: seq<CapPair>, rootid: bv32)

  /** magic_etc >> VFS_CAP_REVISION_SHIFT. */
  function Version(magic: bv32): (v: nat)
    ensures v < 256
    ensures v == magic as nat / 0x100_0000
  {
    (magic >> VFS_CAP_REVISION_SHIFT) as nat
  }

  /** Only version 3 attributes carry a root ID. */
  predicate HasRootId(magic: bv32)
  {
    magic & VFS_CAP_REVISION_MASK == VFS_CAP_REVISION_3
  }

  /** The mask test and the shift agree: the revision bits are 3 exactly
      when the printed version is 3. */
  lemma RootIdIffVersion3(magic: bv32)
    ensures HasRootId(magic) <==> Version(magic) == 3
  {
    assert HasRootId(magic) <==> magic >> 24 == 3;
  }

  /** magic_etc & VFS_CAP_FLAGS_EFFECTIVE. */
  function EffectiveBit(magic: bv32): (b: nat)
    ensures b == 0 || b == 1
    ensures b == 1 <==> magic & VFS_CAP_FLAGS_EFFECTIVE != 0
  {
    (magic & VFS_CAP_FLAGS_EFFECTIVE) as nat
  }

  /** printf("%08x %08x", high, low): a 64-bit capability set, high word first. */
  function SetWords(high: bv32, low: bv32): (s: string)
    ensures |s| == 17 && s[8] == ' '
  {
    Hex8(high as nat) + " " + Hex8(low as nat)
  }

  /** Reading the printed set back gives the 64-bit capability mask whose
      bit c is capability c: data[1] holds capabilities 32..63. */
  lemma SetWordsRoundTrip(high: bv32, low: bv32)
    ensures var s := SetWords(high, low);
      && (forall i :: 0 <= i < 8 ==> IsHexDigit(s[i]))
      && (forall i :: 9 <= i < 17 ==> IsHexDigit(s[i]))
      && ParseHex(s[..8]) * U32 + ParseHex(s[9..]) == (high as nat) * U32 + low as nat
  {
    var s := SetWords(high, low);
    assert s[..8] == Hex8(high as nat);
    assert s[9..] == Hex8(low as nat);
  }

  /** The first line: the version, and the root ID for version 3. */
  function VersionLine(c: CapData): string
  {
    "Capability version: " + NatToString(Version(c.magicEtc)) + (RootIdText(c) + "\n")
  }

  function RootIdText(c: CapData): string
  {
    if HasRootId(c.magicEtc) then "   [root ID = " + NatToString(c.rootid as nat) + "]" else ""
  }

  /** The line reads back as the version in decimal, followed for version
      3 (and only then) by the root ID in decimal inside "[root ID = ...]". */
  lemma VersionLineShows(c: CapData)
    ensures var line := VersionLine(c);
      var v := Version(c.magicEtc);
      var n := DigitCount(v);
      var m := DigitCount(c.rootid as nat);
      var k := 20 + n;
      && ('[' in line <==> v == 3)
      && line[..20] == "Capability version: "
      && |line| >= 21 + n
      && ReadsAs(line[20..20 + n], v)
      && (v != 3 ==> line[20 + n..] == "\n")
      && (v == 3 ==>
            && |line| == k + 16 + m
            && line[k..k + 14] == "   [root ID = "
            && ReadsAs(line[k + 14..k + 14 + m], c.rootid as nat)
            && line[k + 14 + m..] == "]\n")
  {
    var line, v, root := VersionLine(c), Version(c.magicEtc), c.rootid as nat;
    RootIdIffVersion3(c.magicEtc);
    NatToStringLength(v);
    NatToStringLength(root);
    NatToStringReadsAs(v);
    NatToStringReadsAs(root);
    VersionLineHead(c);
    ReadsAsEqual(line[20..20 + DigitCount(v)], NatToString(v), v);
    if HasRootId(c.magicEtc) {
      RootIdTail(c);
      var k, m := 20 + DigitCount(v), DigitCount(root);
      RootIdAt(line, k, RootIdText(c) + "\n", NatToString(root));
      ReadsAsEqual(line[k + 14..k + 14 + m], NatToString(root), root);
    } else {
      assert RootIdText(c) + "\n" == "\n";
    }
  }

  /** The line is the title, the version's digits, then the root ID part. */
  lemma VersionLineHead(c: CapData)
    ensures var line := VersionLine(c);
      var digits := NatToString(Version(c.magicEtc));
      && |line| >= 21 + |digits|
      && line[..20] == "Capability version: "
      && line[20..20 + |digits|] == digits
      && line[20 + |digits|..] == RootIdText(c) + "\n"
      && ('[' in line <==> '[' in RootIdText(c))
  {
    var digits := NatToString(Version(c.magicEtc));
    ConcatParts("Capability version: ", digits, RootIdText(c) + "\n", VersionLine(c));
    assert forall i :: 0 <= i < |digits| ==> digits[i] != '[';
  }

  /** The root ID part of a version 3 line, with its newline. */
  lemma RootIdTail(c: CapData)
    requires HasRootId(c.magicEtc)
    ensures var t := RootIdText(c) + "\n";
      var digits := NatToString(c.rootid as nat);
      && |t| == 16 + |digits|
      && t[..14] == "   [root ID = "
      && t[14..14 + |digits|] == digits
      && t[14 + |digits|..] == "]\n"
      && '[' in RootIdText(c)
  {
    var digits := NatToString(c.rootid as nat);
    ConcatParts("   [root ID = ", digits, "]\n", RootIdText(c) + "\n");
    assert RootIdText(c)[3] == '[';
  }

  /** The root ID part, found at column k of a line. */
  lemma RootIdAt(line: string, k: nat, tail: string, digits: string)
    requires k <= |line| && line[k..] == tail
    requires && |tail| == 16 + |digits|
             && tail[..14] == "   [root ID = "
             && tail[14..14 + |digits|] == digits
             && tail[14 + |digits|..] == "]\n"
    ensures && |line| == k + 16 + |digits|
            && line[k..k + 14] == "   [root ID = "
            && line[k + 14..k + 14 + |digits|] == digits
            && line[k + 14 + |digits|..] == "]\n"
  {
    SliceOfSuffix(line, k, tail, 0, 14);
    SliceOfSuffix(line, k, tail, 14, 14 + |digits|);
    SliceOfSuffix(line, k, tail, 14 + |digits|, 16 + |digits|);
  }

  /** The answer of getxattr(): the attribute's length and the structure
      it was read into, or a failure with errno. For an attribute shorter
      than the structure, the fields past its end hold what the structure
      held before the call. */
  datatype Reply = Value(len: int, cap: CapData) | Failed(errno: int)

  /** How the program ends: usage message, fatal(), errExit(), or the
      printed description. */
  datatype Outcome = Usage | Fatal(msg: string) | ErrExit(call: string) | Printed(lines: seq<string>)

  function Show(argv: seq<string>, reply: Reply): (o: Outcome)
    requires reply.Value? ==> |reply.cap.data| == VFS_CAP_U32
    ensures o.Usage? <==> |argv| != 2 || argv[1] == "--help"
    ensures !o.Usage? && reply.Failed? && reply.errno == ENODATA ==>
      o == Fatal("\"" + argv[1] + "\" has no \"security.capability\" attribute")
    ensures !o.Usage? && reply.Failed? && reply.errno != ENODATA ==> o == ErrExit("getxattr")
    ensures !o.Usage? && reply.Value? ==> o.Printed? && |o.lines| == 5
    ensures !o.Usage? && reply.Value? ==>
      var c := reply.cap;
      && o.lines[0] == VersionLine(c)
      && o.lines[1] == LengthLine(reply.len)
      && o.lines[2] == EffectiveLine(c.magicEtc)
      && ShowsSet(o.lines[3], c.data[1].permitted, c.data[0].permitted)
      && ShowsSet(o.lines[4], c.data[1].inheritable, c.data[0].inheritable)
  {
    if UsageError(argv, 2) then Usage
    else match reply
      case Failed(e) =>
        if e == ENODATA then Fatal("\"" + argv[1] + "\" has no \"security.capability\" attribute")
        else ErrExit("getxattr")
      case Value(len, c) =>
        var perm := SetLine("    Permitted set:   ", c.data[1].permitted, c.data[0].permitted);
        var inh := SetLine("    Inheritable set: ", c.data[1].inheritable, c.data[0].inheritable);
        Printed([
          VersionLine(c),
          LengthLine(len),
          EffectiveLine(c.magicEtc),
          perm,
          inh])
  }

  /** printf("Length of returned value = %zd\n", valueLen). */
  function LengthLine(len: int): string
  {
    "Length of returned value = " + IntToString(len) + "\n"
  }

  /** printf("    Effective bit:   %d\n", magic_etc & VFS_CAP_FLAGS_EFFECTIVE). */
  function EffectiveLine(magic: bv32): string
  {
    "    Effective bit:   " + NatToString(EffectiveBit(magic)) + "\n"
  }

  /** A set line read back: after a 21-character title, the high word and
      then the low word, each as 8 hexadecimal digits. */
  predicate ShowsSet(line: string, high: bv32, low: bv32)
  {
    && |line| == 39
    && (forall i :: 21 <= i < 29 ==> IsHexDigit(line[i]))
    && (forall i :: 30 <= i < 38 ==> IsHexDigit(line[i]))
    && ParseHex(line[21..29]) == high as nat
    && ParseHex(line[30..38]) == low as nat
  }

  /** A set line: its 21-character title, the two words, a newline. */
  function SetLine(title: string, high: bv32, low: bv32): (line: string)
    requires |title| == 21
    ensures ShowsSet(line, high, low)
    ensures line[..21] == title
  {
    SetWordsRoundTrip(high, low);
    var s := SetWords(high, low);
    var line := title + s + "\n";
    assert line[21..29] == s[..8] && line[30..38] == s[9..];
    line
  }
}
