/** displayNamespaceTree() of namespaces/pid_namespaces.go and
    namespaces/userns_overview.go, and the main() that drives both programs:
    scan /proc, then print the tree rooted at the namespace without a visible
    parent.

    The tree walk is the same in both programs (a namespace, its members
    sorted ascending, then its children in the order they were linked, each
    one level deeper); they differ in how a namespace's line and its PIDs are
    printed. The walk is first computed as a sequence of blocks, one per
    namespace, and then rendered to output lines. */
module NsDisplay {
  import opened Text
  import opened Wrappers
  import opened Sorting
  import opened NsHierarchy
  import opened NsWalk

  // ---------------------------------------------------------------------
  // Rendering shared by both programs

  /** s reads as a namespace id the way Go's %v prints one: a brace, the
      device in decimal, a space, the inode in decimal, a brace. */
  ghost predicate ReadsAsId(s: string, id: NsId)
  {
    && |s| >= 5 && s[0] == '{' && s[|s| - 1] == '}'
    && exists j :: 1 < j < |s| - 1 && s[j] == ' ' &&
         ReadsAs(s[1..j], id.device) && ReadsAs(s[j + 1..|s| - 1], id.inode)
  }

  /** Go's %v of a namespaceID. */
  function ShowId(id: NsId): (s: string)
    ensures ReadsAsId(s, id)
  {
    var d := NatToString(id.device);
    var n := NatToString(id.inode);
    var s := "{" + d + " " + n + "}";
    NatToStringReadsAs(id.device);
    NatToStringReadsAs(id.inode);
    assert s[1..|d| + 1] == d && s[|d| + 2..|s| - 1] == n;
    s
  }

  /** The printed form determines the id: the device's digits end at the
      first space. */
  lemma ReadIdUnique(s: string, a: NsId, b: NsId)
    requires ReadsAsId(s, a) && ReadsAsId(s, b)
    ensures a == b
  {
    var i :| 1 < i < |s| - 1 && s[i] == ' ' && ReadsAs(s[1..i], a.device) && ReadsAs(s[i + 1..|s| - 1], a.inode);
    var j :| 1 < j < |s| - 1 && s[j] == ' ' && ReadsAs(s[1..j], b.device) && ReadsAs(s[j + 1..|s| - 1], b.inode);
    DigitsBefore(s, i);
    DigitsBefore(s, j);
    assert i == j by {
      assert !IsDigit(s[i]) && !IsDigit(s[j]);
    }
    assert a.device == ParseDigits(s[1..i]) == b.device;
    assert a.inode == ParseDigits(s[i + 1..|s| - 1]) == b.inode;
  }

  /** The characters of s[1..i], read in s itself. */
  lemma DigitsBefore(s: string, i: nat)
    requires 1 <= i <= |s| && AllDigits(s[1..i])
    ensures forall m :: 1 <= m < i ==> IsDigit(s[m])
  {
    assert forall m :: 1 <= m < i ==> s[m] == s[1..i][m - 1];
  }

  /** Different namespaces print differently. */
  lemma ShowIdInjective(a: NsId, b: NsId)
    requires ShowId(a) == ShowId(b)
    ensures a == b
  {
    ReadIdUnique(ShowId(a), a, b);
  }

  /** strings.Repeat(" ", level*4). */
  function Indent(level: nat): (s: string)
    ensures |s| == 4 * level
    ensures forall i :: 0 <= i < |s| ==> s[i] == ' '
  {
    Spaces(4 * level)
  }

  // ---------------------------------------------------------------------
  // pid_namespaces.go

  /** What printAllPIDsFor() finds in /proc/PID/status: the file cannot be
      opened, it has no NStgid line, or the text after "NStgid:" and the
      white space that follows it. */
  datatype Status = Unreadable | NoNStgid | NStgid(field: string)

  function StatusText(pid: int, s: Status): string
  {
    match s
    case Unreadable => "[can't open /proc/" + IntToString(pid) + "/status]"
    case NoNStgid => ""
    case NStgid(f) => "[" + f + "]  "
  }

  /** printMemberPIDs(): one line per PID, indented eight spaces past the
      namespace, in the order given. */
  function MemberLines(indent: string, pids: seq<int>, status: int -> Status): (r: seq<string>)
    ensures |r| == |pids|
    ensures forall i :: 0 <= i < |pids| ==> r[i] == indent + Spaces(8) + StatusText(pids[i], status(pids[i]))
  {
    if |pids| == 0 then []
    else [indent + Spaces(8) + StatusText(pids[0], status(pids[0]))] + MemberLines(indent, pids[1..], status)
  }

  /** fmt.Println(indent, nsid) separates its operands with a space. */
  function PidHeader(b: Block): string
  {
    Indent(b.level) + " " + ShowId(b.id)
  }

  function PidLineCount(bs: seq<Block>): nat
  {
    if |bs| == 0 then 0 else 1 + |bs[0].pids| + PidLineCount(bs[1..])
  }

  /** The output of pid_namespaces.go for a walk: each namespace's line,
      followed by one line per member. */
  function RenderPid(bs: seq<Block>, status: int -> Status): (r: seq<string>)
    ensures |r| == PidLineCount(bs)
  {
    if |bs| == 0 then []
    else
      [PidHeader(bs[0])] + MemberLines(Indent(bs[0].level), bs[0].pids, status) + RenderPid(bs[1..], status)
  }

  /** Block t's lines start after the lines of the blocks before it: its
      header, then one line per member, indented eight spaces past it. */
  lemma {:induction false} RenderPidBlocks(bs: seq<Block>, status: int -> Status)
    ensures forall t :: 0 <= t < |bs| ==> PidBlockAt(RenderPid(bs, status), PidLineCount(bs[..t]), bs[t], status)
  {
    if |bs| > 0 {
      var r := RenderPid(bs, status);
      var head := [PidHeader(bs[0])] + MemberLines(Indent(bs[0].level), bs[0].pids, status);
      var tail := RenderPid(bs[1..], status);
      assert r == head + tail;
      RenderPidBlocks(bs[1..], status);
      PidBlocksCons(bs, status, head, tail);
    }
  }

  /** The blocks' lines after the first block's lines. */
  lemma PidBlocksCons(bs: seq<Block>, status: int -> Status, head: seq<string>, tail: seq<string>)
    requires |bs| > 0 && head == [PidHeader(bs[0])] + MemberLines(Indent(bs[0].level), bs[0].pids, status)
    requires forall t :: 0 <= t < |bs[1..]| ==> PidBlockAt(tail, PidLineCount(bs[1..][..t]), bs[1..][t], status)
    ensures forall t :: 0 <= t < |bs| ==> PidBlockAt(head + tail, PidLineCount(bs[..t]), bs[t], status)
  {
    forall t | 0 <= t < |bs|
      ensures PidBlockAt(head + tail, PidLineCount(bs[..t]), bs[t], status)
    {
      PidCountShift(bs, t);
      if t > 0 {
        var c := PidLineCount(bs[1..][..t - 1]);
        assert PidBlockAt(tail, c, bs[1..][t - 1], status);
        PidBlockShift(head, tail, c, PidLineCount(bs[..t]), bs[1..][t - 1], status);
      }
    }
  }

  /** The lines of block b start at line `at` of r. */
  predicate PidBlockAt(r: seq<string>, at: nat, b: Block, status: int -> Status)
  {
    && at + 1 + |b.pids| <= |r|
    && r[at] == PidHeader(b)
    && forall i :: 0 <= i < |b.pids| ==>
         r[at + 1 + i] == Indent(b.level) + Spaces(8) + StatusText(b.pids[i], status(b.pids[i]))
  }

  lemma PidCountShift(bs: seq<Block>, t: nat)
    requires t < |bs|
    ensures t == 0 ==> PidLineCount(bs[..t]) == 0
    ensures t > 0 ==> PidLineCount(bs[..t]) == 1 + |bs[0].pids| + PidLineCount(bs[1..][..t - 1])
    ensures t > 0 ==> bs[t] == bs[1..][t - 1]
  {
    if t > 0 {
      assert bs[..t][1..] == bs[1..][..t - 1];
    }
  }

  lemma PidBlockShift(head: seq<string>, tail: seq<string>, at: nat, at': nat, b: Block, status: int -> Status)
    requires PidBlockAt(tail, at, b, status) && at' == |head| + at
    ensures PidBlockAt(head + tail, at', b, status)
  {
    var r := head + tail;
    assert forall j :: |head| <= j < |r| ==> r[j] == tail[j - |head|];
  }

  // ---------------------------------------------------------------------
  // userns_overview.go

  /** Columns taken by one PID and the space after it. */
  function PidWidth(p: int): nat
  {
    DecimalLength(p) + 1
  }

  function Width(row: seq<int>): nat
  {
    if |row| == 0 then 0 else Width(row[..|row| - 1]) + PidWidth(row[|row| - 1])
  }

  /** The wrapping test of the PID loop. */
  predicate Wraps(col: int, base: int)
  {
    col >= 80 && col > base + 32
  }

  /** The PID loop from its second iteration on: `row` is the row being
      filled and `col` the column reached. */
  function Group(pids: seq<int>, base: int, col: int, row: seq<int>): (rows: seq<seq<int>>)
    ensures |rows| >= 1
    decreases |pids|
  {
    if |pids| == 0 then [row]
    else if Wraps(col, base) then [row] + Group(pids[1..], base, base + PidWidth(pids[0]), [pids[0]])
    else Group(pids[1..], base, col + PidWidth(pids[0]), row + [pids[0]])
  }

  /** The rows the PID loop prints, starting at column base. */
  function Rows(pids: seq<int>, base: int): seq<seq<int>>
  {
    if |pids| == 0 then [] else Group(pids[1..], base, base + PidWidth(pids[0]), [pids[0]])
  }

  function Flatten(rows: seq<seq<int>>): seq<int>
  {
    if |rows| == 0 then [] else rows[0] + Flatten(rows[1..])
  }

  /** No proper prefix of the row reaches a wrapping column. */
  predicate Unbroken(row: seq<int>, base: int)
  {
    |row| <= 1 || (Unbroken(row[..|row| - 1], base) && !Wraps(base + Width(row[..|row| - 1]), base))
  }

  lemma {:induction false} UnbrokenPrefix(row: seq<int>, m: nat, base: int)
    requires Unbroken(row, base) && 0 < m < |row|
    ensures !Wraps(base + Width(row[..m]), base)
    decreases |row|
  {
    var init := row[..|row| - 1];
    if m < |row| - 1 {
      UnbrokenPrefix(init, m, base);
      assert init[..m] == row[..m];
    } else {
      assert init == row[..m];
    }
  }

  /** An independent description of the wrapping: every row is non-empty,
      no row is broken before it reaches a wrapping column, and every row
      but the last does reach one. */
  predicate Greedy(rows: seq<seq<int>>, base: int)
  {
    forall t :: 0 <= t < |rows| ==>
      && |rows[t]| > 0
      && Unbroken(rows[t], base)
      && (t < |rows| - 1 ==> Wraps(base + Width(rows[t]), base))
  }

  lemma {:induction false} GroupGreedy(pids: seq<int>, base: int, row: seq<int>)
    requires |row| > 0 && Unbroken(row, base)
    ensures Greedy(Group(pids, base, base + Width(row), row), base)
    ensures Flatten(Group(pids, base, base + Width(row), row)) == row + pids
    decreases |pids|
  {
    if |pids| == 0 {
      FlattenCons(row, []);
    } else if Wraps(base + Width(row), base) {
      var p := pids[0];
      SingleRow(p, base);
      GroupGreedy(pids[1..], base, [p]);
      var rest := Group(pids[1..], base, base + Width([p]), [p]);
      WrapStep(row, rest, base);
      FlattenCons(row, rest);
      GroupWraps(pids, base, row);
    } else {
      var p := pids[0];
      ExtendRow(row, p, base);
      GroupGreedy(pids[1..], base, row + [p]);
      GroupExtends(pids, base, row);
    }
  }

  /** The loop starts a new row with the next PID. */
  lemma GroupWraps(pids: seq<int>, base: int, row: seq<int>)
    requires |pids| > 0 && Wraps(base + Width(row), base)
    ensures Width([pids[0]]) == PidWidth(pids[0])
    ensures Group(pids, base, base + Width(row), row)
      == [row] + Group(pids[1..], base, base + Width([pids[0]]), [pids[0]])
    ensures row + pids == row + ([pids[0]] + pids[1..])
  {
    SingleRow(pids[0], base);
  }

  /** The loop appends the next PID to the current row. */
  lemma GroupExtends(pids: seq<int>, base: int, row: seq<int>)
    requires |pids| > 0 && !Wraps(base + Width(row), base)
    requires Width(row + [pids[0]]) == Width(row) + PidWidth(pids[0])
    ensures Group(pids, base, base + Width(row), row)
      == Group(pids[1..], base, base + Width(row + [pids[0]]), row + [pids[0]])
    ensures row + pids == (row + [pids[0]]) + pids[1..]
  {
  }

  lemma FlattenCons(row: seq<int>, rest: seq<seq<int>>)
    ensures Flatten([row] + rest) == row + Flatten(rest)
  {
    assert ([row] + rest)[1..] == rest;
  }

  /** A row holding one PID. */
  lemma SingleRow(p: int, base: int)
    ensures Width([p]) == PidWidth(p) && Unbroken([p], base)
  {
    assert [p][..0] == [];
  }

  /** A row that reached a wrapping column, in front of a greedy wrapping. */
  lemma WrapStep(row: seq<int>, rest: seq<seq<int>>, base: int)
    requires |row| > 0 && Unbroken(row, base) && Wraps(base + Width(row), base)
    requires Greedy(rest, base)
    ensures Greedy([row] + rest, base)
  {
    var rows := [row] + rest;
    forall t | 0 <= t < |rows|
      ensures |rows[t]| > 0 && Unbroken(rows[t], base)
      ensures t < |rows| - 1 ==> Wraps(base + Width(rows[t]), base)
    {
      if t > 0 {
        assert rows[t] == rest[t - 1];
      }
    }
  }

  /** Appending a PID to a row that has not reached a wrapping column. */
  lemma ExtendRow(row: seq<int>, p: int, base: int)
    requires Unbroken(row, base) && !Wraps(base + Width(row), base)
    ensures Width(row + [p]) == Width(row) + PidWidth(p)
    ensures Unbroken(row + [p], base)
  {
    assert (row + [p])[..|row|] == row;
  }

  /** The PID rows satisfy the independent description and hold every PID
      once, in order. */
  lemma RowsGreedy(pids: seq<int>, base: int)
    ensures Greedy(Rows(pids, base), base)
    ensures Flatten(Rows(pids, base)) == pids
  {
    if |pids| > 0 {
      var p := pids[0];
      SingleRow(p, base);
      GroupGreedy(pids[1..], base, [p]);
      assert [p] + pids[1..] == pids;
    }
  }

  /** A greedy wrapping has no rows exactly when there are no PIDs. */
  lemma FlattenEmpty(rows: seq<seq<int>>, base: int)
    requires Greedy(rows, base)
    ensures |Flatten(rows)| == 0 <==> |rows| == 0
  {
    if |rows| > 0 {
      assert |Flatten(rows)| >= |rows[0]|;
    }
  }

  /** The description determines the rows: any greedy wrapping of the same
      PIDs is the one the loop prints. */
  lemma {:induction false} GreedyUnique(a: seq<seq<int>>, b: seq<seq<int>>, base: int)
    requires Greedy(a, base) && Greedy(b, base) && Flatten(a) == Flatten(b)
    ensures a == b
    decreases |a|
  {
    FlattenEmpty(a, base);
    FlattenEmpty(b, base);
    if |a| > 0 {
      var x, y := a[0], b[0];
      var fa := Flatten(a);
      FlattenCons(x, a[1..]);
      FlattenCons(y, b[1..]);
      assert a == [x] + a[1..] && b == [y] + b[1..];
      FirstRowNotShorter(a, b, base);
      FirstRowNotShorter(b, a, base);
      assert x == fa[..|x|] == y;
      assert Flatten(a[1..]) == Flatten(b[1..]);
      GreedyTail(a, base);
      GreedyTail(b, base);
      GreedyUnique(a[1..], b[1..], base);
    }
  }

  lemma GreedyTail(rows: seq<seq<int>>, base: int)
    requires Greedy(rows, base) && |rows| > 0
    ensures Greedy(rows[1..], base)
  {
    forall t | 0 <= t < |rows| - 1
      ensures rows[1..][t] == rows[t + 1]
    {
    }
  }

  /** A first row of one greedy wrapping is no shorter than that of another:
      were it shorter, the other row would wrap inside itself. */
  lemma FirstRowNotShorter(a: seq<seq<int>>, b: seq<seq<int>>, base: int)
    requires Greedy(a, base) && Greedy(b, base) && |a| > 0 && |b| > 0
    requires Flatten(a) == a[0] + Flatten(a[1..]) && Flatten(b) == b[0] + Flatten(b[1..])
    requires Flatten(a) == Flatten(b)
    ensures |a[0]| >= |b[0]|
  {
    if |a| == 1 {
      assert a[1..] == [];
    } else {
      assert Wraps(base + Width(a[0]), base);
      ShorterRowWraps(a[0], b[0], Flatten(a), base);
    }
  }

  /** A row that wraps is not a proper prefix of a row that does not wrap
      inside itself. */
  lemma ShorterRowWraps(x: seq<int>, y: seq<int>, f: seq<int>, base: int)
    requires Wraps(base + Width(x), base) && Unbroken(y, base) && |x| > 0
    requires x <= f && y <= f
    ensures |x| >= |y|
  {
    if |x| < |y| {
      assert y[..|x|] == f[..|x|] == x;
      UnbrokenPrefix(y, |x|, base);
    }
  }

  /** fmt.Print(strconv.Itoa(p) + " ") for every PID of a row. */
  function RowText(row: seq<int>): (s: string)
    ensures |s| == Width(row)
  {
    if |row| == 0 then ""
    else
      IntToStringLength(row[|row| - 1]);
      RowText(row[..|row| - 1]) + (IntToString(row[|row| - 1]) + " ")
  }

  /** PID i of the row is printed in decimal, followed by a space, at the
      column the PIDs before it take up. */
  lemma {:induction false} RowTextField(row: seq<int>, i: nat)
    requires i < |row|
    ensures Width(row[..i + 1]) == Width(row[..i]) + PidWidth(row[i]) <= Width(row)
    ensures RowText(row)[Width(row[..i])..Width(row[..i + 1])] == IntToString(row[i]) + " "
    decreases |row|
  {
    if i == |row| - 1 {
      RowTextLast(row);
      assert row[..i + 1] == row;
      RowTextSplit(row);
    } else {
      var init := row[..|row| - 1];
      RowTextField(init, i);
      RowTextInit(row, i);
    }
  }

  lemma RowTextLast(row: seq<int>)
    requires |row| > 0
    ensures Width(row[..|row| - 1]) <= Width(row)
    ensures RowText(row)[Width(row[..|row| - 1])..Width(row)] == IntToString(row[|row| - 1]) + " "
  {
    var init, last := row[..|row| - 1], IntToString(row[|row| - 1]) + " ";
    RowTextSplit(row);
    ConcatSuffix(RowText(init), last, RowText(row));
  }

  lemma RowTextInit(row: seq<int>, i: nat)
    requires i < |row| - 1
    requires var init := row[..|row| - 1];
      && Width(init[..i + 1]) == Width(init[..i]) + PidWidth(init[i]) <= Width(init)
      && RowText(init)[Width(init[..i])..Width(init[..i + 1])] == IntToString(init[i]) + " "
    ensures Width(row[..i + 1]) == Width(row[..i]) + PidWidth(row[i]) <= Width(row)
    ensures RowText(row)[Width(row[..i])..Width(row[..i + 1])] == IntToString(row[i]) + " "
  {
    var init := row[..|row| - 1];
    RowTextSplit(row);
    ConcatPrefix(RowText(init), IntToString(row[|row| - 1]) + " ", Width(init[..i]), Width(init[..i + 1]));
    PrefixOfInit(row, i);
  }

  lemma PrefixOfInit<T>(s: seq<T>, i: nat)
    requires i < |s| - 1
    ensures s[..|s| - 1][..i] == s[..i] && s[..|s| - 1][..i + 1] == s[..i + 1] && s[..|s| - 1][i] == s[i]
  {
  }

  lemma RowTextSplit(row: seq<int>)
    requires |row| > 0
    ensures RowText(row) == RowText(row[..|row| - 1]) + (IntToString(row[|row| - 1]) + " ")
    ensures Width(row) == Width(row[..|row| - 1]) + PidWidth(row[|row| - 1])
  {
  }

  /** One printed row: indented twelve spaces past the namespace, then
      "PIDs: " on the first row and six spaces on the others, then the PIDs. */
  function RowLine(indent: string, row: seq<int>, first: bool): (line: string)
    ensures |line| == |indent| + 18 + Width(row)
    ensures line[..|indent|] == indent
    ensures forall i :: |indent| <= i < |indent| + 12 ==> line[i] == ' '
    ensures line[|indent| + 12..|indent| + 18] == if first then "PIDs: " else Spaces(6)
    ensures line[|indent| + 18..] == RowText(row)
  {
    var head := indent + Spaces(12) + (if first then "PIDs: " else Spaces(6));
    assert head[..|indent|] == indent;
    head + RowText(row)
  }

  /** The printed rows: only the first carries the "PIDs: " label. */
  function RowLines(indent: string, rows: seq<seq<int>>, first: bool): (r: seq<string>)
    ensures |r| == |rows|
    ensures forall t :: 0 <= t < |rows| ==> r[t] == RowLine(indent, rows[t], t == 0 && first)
  {
    if |rows| == 0 then []
    else [RowLine(indent, rows[0], first)] + RowLines(indent, rows[1..], false)
  }

  /** The member lines of one namespace; with no members the final
      fmt.Println() still prints an empty line. */
  function PidLines(indent: string, pids: seq<int>): (r: seq<string>)
    ensures |pids| == 0 ==> r == [""]
    ensures |pids| > 0 ==> |r| == |Rows(pids, |indent| + 25)| >= 1
    ensures |pids| > 0 ==> forall rows ::
      Greedy(rows, |indent| + 25) && Flatten(rows) == pids ==> r == RowLines(indent, rows, true)
  {
    if |pids| == 0 then [""]
    else
      RowsGreedy(pids, |indent| + 25);
      assert forall rows :: Greedy(rows, |indent| + 25) && Flatten(rows) == pids ==> rows == Rows(pids, |indent| + 25) by {
        forall rows | Greedy(rows, |indent| + 25) && Flatten(rows) == pids
          ensures rows == Rows(pids, |indent| + 25)
        {
          GreedyUnique(rows, Rows(pids, |indent| + 25), |indent| + 25);
        }
      }
      RowLines(indent, Rows(pids, |indent| + 25), true)
  }

  /** fmt.Print(indent); fmt.Println(nsid): no space before the id here. */
  function UserHeader(b: Block): string
  {
    Indent(b.level) + ShowId(b.id)
  }

  /** The output of userns_overview.go for a walk. */
  function RenderUser(bs: seq<Block>): (r: seq<string>)
    ensures |r| == UserLineCount(bs) >= 2 * |bs|
  {
    if |bs| == 0 then []
    else [UserHeader(bs[0])] + PidLines(Indent(bs[0].level), bs[0].pids) + RenderUser(bs[1..])
  }

  /** One namespace's lines in userns_overview.go: its id line, then its
      PID rows (or one empty line). */
  function UserBlockLines(b: Block): seq<string>
  {
    [UserHeader(b)] + PidLines(Indent(b.level), b.pids)
  }

  function UserLineCount(bs: seq<Block>): nat
  {
    if |bs| == 0 then 0 else |UserBlockLines(bs[0])| + UserLineCount(bs[1..])
  }

  /** Block t's lines follow the lines of the blocks before it. */
  lemma {:induction false} RenderUserBlocks(bs: seq<Block>)
    ensures forall t :: 0 <= t < |bs| ==> UserBlockAt(RenderUser(bs), UserLineCount(bs[..t]), bs[t])
  {
    if |bs| > 0 {
      var head, tail := UserBlockLines(bs[0]), RenderUser(bs[1..]);
      RenderUserBlocks(bs[1..]);
      UserBlocksCons(bs, head, tail);
      assert RenderUser(bs) == head + tail;
    }
  }

  /** The blocks' lines after the first block's lines. */
  lemma UserBlocksCons(bs: seq<Block>, head: seq<string>, tail: seq<string>)
    requires |bs| > 0 && head == UserBlockLines(bs[0])
    requires forall t :: 0 <= t < |bs[1..]| ==> UserBlockAt(tail, UserLineCount(bs[1..][..t]), bs[1..][t])
    ensures forall t :: 0 <= t < |bs| ==> UserBlockAt(head + tail, UserLineCount(bs[..t]), bs[t])
  {
    forall t | 0 <= t < |bs|
      ensures UserBlockAt(head + tail, UserLineCount(bs[..t]), bs[t])
    {
      CountShift(bs, t);
      if t == 0 {
        UserBlockFirst(head, tail, bs[0]);
      } else {
        var c := UserLineCount(bs[1..][..t - 1]);
        assert UserBlockAt(tail, c, bs[1..][t - 1]);
        UserBlockShift(head, tail, c, UserLineCount(bs[..t]), bs[1..][t - 1]);
      }
    }
  }

  /** The lines of block b start at line `at` of r. */
  predicate UserBlockAt(r: seq<string>, at: nat, b: Block)
  {
    OccursAt(r, at, UserBlockLines(b))
  }

  lemma UserBlockFirst(head: seq<string>, tail: seq<string>, b: Block)
    requires head == UserBlockLines(b)
    ensures UserBlockAt(head + tail, 0, b)
  {
    OccursAtFront(head, tail);
  }

  lemma UserBlockShift(head: seq<string>, tail: seq<string>, at: nat, at': nat, b: Block)
    requires UserBlockAt(tail, at, b) && at' == |head| + at
    ensures UserBlockAt(head + tail, at', b)
  {
    OccursAtShift(head, tail, at, at', UserBlockLines(b));
  }

  lemma CountShift(bs: seq<Block>, t: nat)
    requires t < |bs|
    ensures t == 0 ==> UserLineCount(bs[..t]) == 0
    ensures t > 0 ==> UserLineCount(bs[..t]) == |UserBlockLines(bs[0])| + UserLineCount(bs[1..][..t - 1])
    ensures t > 0 ==> bs[t] == bs[1..][t - 1]
  {
    if t > 0 {
      assert bs[..t][1..] == bs[1..][..t - 1];
    }
  }

  // ---------------------------------------------------------------------
  // main()

  /** What the program prints, and how it ends: normally; with exit status 1
      after a message; with a panic (a nil map entry dereferenced); or, in
      the model only, with a walk that does not end (Go recurses without
      bound; only a parent cycle in the kernel can cause it). */
  datatype Outcome =
    | Printed(lines: seq<string>)
    | ExitFailure(lines: seq<string>)
    | Panicked(lines: seq<string>)
    | Unfinished

  /** What ioutil.ReadDir("/proc") returns: an error, or the entries (sorted
      by file name, which the model does not rely on). */
  datatype ProcListing = ReadDirFailed | Listing(entries: seq<ProcEntry>)

  /** The message printed when opening /proc/<name>/ns/... fails (Go's
      rendering of the error follows it). */
  function OpenMessage(prog: Program, name: string): string
  {
    if prog == PidNamespaces then "open(/proc/" + name + "/ns/pid):" else "open():"
  }

  function Render(prog: Program, bs: seq<Block>, status: int -> Status): seq<string>
  {
    if prog == PidNamespaces then RenderPid(bs, status) else RenderUser(bs)
  }

  /** The root the display starts from: the recorded initial namespace, or
      the zero namespaceID when none was seen. */
  function Root(st: NsList): NsId
  {
    if st.initial.Some? then st.initial.value else NsId(0, 0)
  }

  /** main(): list /proc, scan its entries, then display the tree from the
      root. When the root has no map entry, its line is printed and the next
      access to its attributes panics. The walk gets as much fuel as there
      are entries, which RunDisplaysTree shows is enough from the root. */
  function Run(k: Kernel, prog: Program, dir: ProcListing, status: int -> Status): (o: Outcome)
    requires Closed(k) && (dir.Listing? ==> WellFormedEntries(k, dir.entries))
    ensures dir.ReadDirFailed? <==> o == ExitFailure(["ioutil.Readdir():"])
    ensures o.Panicked? ==> Scan(k, prog, NsList(map[], None), dir.entries).Scanned?
  {
    match dir
    case ReadDirFailed => ExitFailure(["ioutil.Readdir():"])
    case Listing(entries) =>
      match Scan(k, prog, NsList(map[], None), entries)
      case OpenFailed(name) => ExitFailure([OpenMessage(prog, name)])
      case IoctlExited(_, reason) => ExitFailure([ExitMessage(prog, reason)])
      case Scanned(st) =>
        var root := Root(st);
        if root !in st.nodes then
          var header := if prog == PidNamespaces then PidHeader(Block(0, root, [])) else UserHeader(Block(0, root, []));
          Panicked([header])
        else
          var w := Tree(st, root, 0, |st.nodes|);
          if w.Walked? then Printed(Render(prog, w.blocks, status))
          else if w.Missing? then Panicked([])
          else Unfinished
  }

  /** A completed scan that found the namespace without a visible parent
      prints the whole tree: the walk from it finishes and never panics; the
      blocks are exactly the entries below it, each once, indented by depth,
      siblings in link order, each under its kernel parent; the members of
      each namespace are sorted. */
  lemma RunDisplaysTree(k: Kernel, prog: Program, entries: seq<ProcEntry>, status: int -> Status)
    requires Closed(k) && WellFormedEntries(k, entries)
    ensures var r := Scan(k, prog, NsList(map[], None), entries);
      r.Scanned? && r.list.initial.Some? ==>
        var st := r.list;
        var root := st.initial.value;
        var w := Tree(st, root, 0, |st.nodes|);
        && w.Walked?
        && Run(k, prog, Listing(entries), status) == Printed(Render(prog, w.blocks, status))
        && root in k && k[root] == NoParentEPERM
        && ShowsTree(k, w.blocks, 0)
        && Complete(k, st, root, w.blocks)
        && SortedMembers(st, w.blocks)
  {
    var empty := NsList(map[], None);
    EmptyInv(k);
    ScanKeepsInv(k, prog, empty, entries);
    var r := Scan(k, prog, empty, entries);
    if r.Scanned? && r.list.initial.Some? {
      var st := r.list;
      var root := st.initial.value;
      InvChildrenKnown(k, st);
      InvInitial(k, st);
      InvLinked(k, st);
      WalkFromRoot(k, st, root, |st.nodes|);
      TreeShows(k, st, root, 0, |st.nodes|);
      WalkSorted(st, root, 0, |st.nodes|);
    }
  }

  /** Run() once the scan has completed and the root has an entry: the
      outcome follows the walk from the root. */
  lemma RunFromRoot(k: Kernel, prog: Program, entries: seq<ProcEntry>, status: int -> Status)
    requires Closed(k) && WellFormedEntries(k, entries)
    requires Scan(k, prog, NsList(map[], None), entries).Scanned?
    requires Root(Scan(k, prog, NsList(map[], None), entries).list) in Scan(k, prog, NsList(map[], None), entries).list.nodes
    ensures var st := Scan(k, prog, NsList(map[], None), entries).list;
      var w := Tree(st, Root(st), 0, |st.nodes|);
      && (w.Walked? ==> Run(k, prog, Listing(entries), status) == Printed(Render(prog, w.blocks, status)))
      && (w.Missing? ==> Run(k, prog, Listing(entries), status) == Panicked([]))
      && (w.OutOfFuel? ==> Run(k, prog, Listing(entries), status) == Unfinished)
  {
  }
}
