/** The tree walk of displayNamespaceTree() in namespaces/pid_namespaces.go
    and namespaces/userns_overview.go: a namespace, its members sorted
    ascending, then its children in the order they were linked, each one
    level deeper. Both programs walk the same way and differ only in how a
    namespace is printed, so the walk is computed here as a sequence of
    blocks, one per namespace, which NsDisplay renders. */
module NsWalk {
  import opened Wrappers
  import opened Sorting
  import opened NsHierarchy

  /** One namespace as displayed: its depth in the tree, its id and its
      member PIDs in display order. */
  datatype Block = Block(level: nat, id: NsId, pids: seq<int>)

  /** The outcome of the walk: the blocks in output order; a child that has
      no map entry (a nil dereference in Go); or a walk deeper than its fuel. */
  datatype Walk = Walked(blocks: seq<Block>) | Missing(id: NsId) | OutOfFuel

  /** displayNamespaceTree(nsid, level), at most `fuel` levels deep. */
  function Tree(st: NsList, ns: NsId, level: nat, fuel: nat): (w: Walk)
    ensures w.Walked? ==> ns in st.nodes && |w.blocks| > 0
    ensures w.Walked? ==> w.blocks[0].level == level && w.blocks[0].id == ns
    ensures w.Walked? ==>
      SortedAsc(w.blocks[0].pids) && multiset(w.blocks[0].pids) == multiset(st.nodes[ns].pids)
    ensures fuel > 0 && ns !in st.nodes ==> w == Missing(ns)
    decreases fuel, 0
  {
    if fuel == 0 then OutOfFuel
    else if ns !in st.nodes then Missing(ns)
    else
      match Forest(st, st.nodes[ns].children, level + 1, fuel - 1)
      case Walked(rest) => Walked([Block(level, ns, Sort(st.nodes[ns].pids))] + rest)
      case Missing(id) => Missing(id)
      case OutOfFuel => OutOfFuel
  }

  /** The loop over a namespace's children, each displayed at `level`. */
  function Forest(st: NsList, children: seq<NsId>, level: nat, fuel: nat): (w: Walk)
    decreases fuel, 1, |children|
  {
    if |children| == 0 then Walked([])
    else
      match Tree(st, children[0], level, fuel)
      case Walked(first) =>
        (match Forest(st, children[1..], level, fuel)
         case Walked(rest) => Walked(first + rest)
         case Missing(id) => Missing(id)
         case OutOfFuel => OutOfFuel)
      case Missing(id) => Missing(id)
      case OutOfFuel => OutOfFuel
  }

  /** Block j is where a reader of the indented output finds block i's
      parent: the nearest block before i that is one level shallower. The
      kernel agrees: j's namespace is the parent of i's. */
  predicate ParentAt(k: Kernel, bs: seq<Block>, i: int, j: int)
    requires 0 <= j < i < |bs|
  {
    && bs[j].level + 1 == bs[i].level
    && bs[i].id in k && k[bs[i].id] == Parent(bs[j].id)
    && forall m :: j < m < i ==> bs[m].level >= bs[i].level
  }

  predicate HasParent(k: Kernel, bs: seq<Block>, i: int)
    requires 0 <= i < |bs|
  {
    exists j :: 0 <= j < i && ParentAt(k, bs, i, j)
  }

  /** The output shows a tree rooted at its first block: every later block is
      deeper than the root and sits under its kernel parent. */
  predicate ShowsTree(k: Kernel, bs: seq<Block>, level: nat)
  {
    && |bs| > 0 && bs[0].level == level
    && forall i :: 0 < i < |bs| ==> bs[i].level > level && HasParent(k, bs, i)
  }

  /** A sequence of sibling subtrees at `level` under `parent`. */
  predicate ShowsForest(k: Kernel, bs: seq<Block>, level: nat, parent: NsId)
  {
    forall i :: 0 <= i < |bs| ==>
      && bs[i].level >= level
      && (bs[i].level == level ==> bs[i].id in k && k[bs[i].id] == Parent(parent))
      && (bs[i].level > level ==> HasParent(k, bs, i))
  }

  lemma ParentAfter(k: Kernel, a: seq<Block>, b: seq<Block>, i: int)
    requires 0 <= i < |b| && HasParent(k, b, i)
    ensures HasParent(k, a + b, |a| + i)
  {
    var j :| 0 <= j < i && ParentAt(k, b, i, j);
    var ab := a + b;
    forall m | |a| + j < m < |a| + i
      ensures ab[m].level >= ab[|a| + i].level
    {
      assert ab[m] == b[m - |a|];
    }
    assert ParentAt(k, ab, |a| + i, |a| + j);
  }

  lemma ParentBefore(k: Kernel, a: seq<Block>, b: seq<Block>, i: int)
    requires 0 <= i < |a| && HasParent(k, a, i)
    ensures HasParent(k, a + b, i)
  {
    var j :| 0 <= j < i && ParentAt(k, a, i, j);
    assert ParentAt(k, a + b, i, j);
  }

  /** A namespace's block followed by its children's subtrees is a tree. */
  lemma TreeStep(k: Kernel, root: Block, rest: seq<Block>)
    requires ShowsForest(k, rest, root.level + 1, root.id)
    ensures ShowsTree(k, [root] + rest, root.level)
  {
    forall i | 0 < i < |[root] + rest|
      ensures ([root] + rest)[i].level > root.level && HasParent(k, [root] + rest, i)
    {
      TreeStepAt(k, root, rest, i);
    }
  }

  lemma TreeStepAt(k: Kernel, root: Block, rest: seq<Block>, i: int)
    requires ShowsForest(k, rest, root.level + 1, root.id)
    requires 0 < i <= |rest|
    ensures ([root] + rest)[i].level > root.level && HasParent(k, [root] + rest, i)
  {
    assert ([root] + rest)[i] == rest[i - 1];
    if rest[i - 1].level == root.level + 1 {
      assert forall j :: 0 <= j < |rest| ==> rest[j].level >= root.level + 1;
      DirectChild(k, root, rest, i);
    } else {
      ParentAfter(k, [root], rest, i - 1);
    }
  }

  /** A block one level below the root, whose namespace is a kernel child of
      the root's, has the root as its parent in the output. */
  lemma DirectChild(k: Kernel, root: Block, rest: seq<Block>, i: int)
    requires 0 < i <= |rest|
    requires forall j :: 0 <= j < |rest| ==> rest[j].level >= root.level + 1
    requires rest[i - 1].level == root.level + 1
    requires rest[i - 1].id in k && k[rest[i - 1].id] == Parent(root.id)
    ensures HasParent(k, [root] + rest, i)
  {
    var bs := [root] + rest;
    forall m | 0 < m < i
      ensures bs[m].level >= bs[i].level
    {
      assert bs[m] == rest[m - 1];
    }
    assert ParentAt(k, bs, i, 0);
  }

  /** One more subtree in front of its siblings. */
  lemma ForestStep(k: Kernel, a: seq<Block>, b: seq<Block>, level: nat, parent: NsId)
    requires ShowsTree(k, a, level) && a[0].id in k && k[a[0].id] == Parent(parent)
    requires ShowsForest(k, b, level, parent)
    ensures ShowsForest(k, a + b, level, parent)
  {
    var ab := a + b;
    forall i | 0 <= i < |ab|
      ensures ab[i].level >= level
      ensures ab[i].level == level ==> ab[i].id in k && k[ab[i].id] == Parent(parent)
      ensures ab[i].level > level ==> HasParent(k, ab, i)
    {
      if i < |a| {
        assert ab[i] == a[i];
        if i > 0 {
          ParentBefore(k, a, b, i);
        }
      } else {
        assert ab[i] == b[i - |a|];
        if ab[i].level > level {
          ParentAfter(k, a, b, i - |a|);
        }
      }
    }
  }

  /** On a map that satisfies the tree invariant the walk never meets a
      missing entry, and its indentation shows every namespace under its
      kernel parent. */
  lemma {:induction false} TreeShows(k: Kernel, st: NsList, ns: NsId, level: nat, fuel: nat)
    requires ChildrenKnown(k, st) && ns in st.nodes
    ensures !Tree(st, ns, level, fuel).Missing?
    ensures Tree(st, ns, level, fuel).Walked? ==> ShowsTree(k, Tree(st, ns, level, fuel).blocks, level)
    decreases fuel, 0
  {
    if fuel > 0 {
      var children := st.nodes[ns].children;
      ForestShows(k, st, children, level + 1, fuel - 1, ns);
      var f := Forest(st, children, level + 1, fuel - 1);
      if f.Walked? {
        TreeStep(k, Block(level, ns, Sort(st.nodes[ns].pids)), f.blocks);
      }
    }
  }

  /** The part of the tree invariant the walk relies on: every listed child
      has an entry, and the kernel names the namespace it is listed under as
      its parent. */
  predicate ChildrenKnown(k: Kernel, st: NsList)
  {
    forall y, i :: y in st.nodes && 0 <= i < |st.nodes[y].children| ==>
      st.nodes[y].children[i] in st.nodes && st.nodes[y].children[i] in k &&
      k[st.nodes[y].children[i]] == Parent(y)
  }

  lemma InvChildrenKnown(k: Kernel, st: NsList)
    requires Inv(k, st)
    ensures ChildrenKnown(k, st)
  {
  }

  lemma {:induction false} ForestShows(k: Kernel, st: NsList, children: seq<NsId>, level: nat, fuel: nat, parent: NsId)
    requires ChildrenKnown(k, st)
    requires forall i :: 0 <= i < |children| ==>
      children[i] in st.nodes && children[i] in k && k[children[i]] == Parent(parent)
    ensures !Forest(st, children, level, fuel).Missing?
    ensures Forest(st, children, level, fuel).Walked? ==>
      ShowsForest(k, Forest(st, children, level, fuel).blocks, level, parent)
    decreases fuel, 1, |children|
  {
    if |children| > 0 {
      TreeShows(k, st, children[0], level, fuel);
      ForestShows(k, st, children[1..], level, fuel, parent);
      var a := Tree(st, children[0], level, fuel);
      var b := Forest(st, children[1..], level, fuel);
      if a.Walked? && b.Walked? {
        ForestStep(k, a.blocks, b.blocks, level, parent);
      }
    }
  }

  // ---------------------------------------------------------------------
  // Depth below a namespace without a visible parent

  /** The namespace n parent steps above x, following the kernel's
      NS_GET_PARENT replies; None when the chain stops earlier. */
  function Climb(k: Kernel, x: NsId, n: nat): Option<NsId>
    decreases n
  {
    if n == 0 then Some(x)
    else if x in k && k[x].Parent? then Climb(k, k[x].id, n - 1)
    else None
  }

  /** A namespace whose parent the kernel does not reveal. */
  predicate Top(k: Kernel, r: NsId)
  {
    r in k && !k[r].Parent?
  }

  /** Climbing a + b steps is climbing a steps and then b more. */
  lemma {:induction false} ClimbAdd(k: Kernel, x: NsId, a: nat, b: nat)
    ensures Climb(k, x, a + b) == if Climb(k, x, a).Some? then Climb(k, Climb(k, x, a).value, b) else None
    decreases a
  {
    if a > 0 && x in k && k[x].Parent? {
      ClimbAdd(k, k[x].id, a - 1, b);
    }
  }

  /** Below a namespace without a visible parent, every namespace sits at
      one depth only. */
  lemma DepthUnique(k: Kernel, x: NsId, r: NsId, a: nat, b: nat)
    requires Top(k, r) && Climb(k, x, a) == Some(r) && Climb(k, x, b) == Some(r)
    ensures a == b
  {
    var lo := if a < b then a else b;
    var hi := if a < b then b else a;
    ClimbAdd(k, x, lo, hi - lo);
  }

  /** y, d steps below top, which is l steps below r, is d + l steps below r. */
  lemma DepthVia(k: Kernel, y: NsId, top: NsId, r: NsId, d: nat, l: nat, n: nat)
    requires Climb(k, y, d) == Some(top) && Climb(k, top, l) == Some(r) && n == d + l
    ensures Climb(k, y, n) == Some(r)
  {
    ClimbAdd(k, y, d, l);
  }

  /** The namespaces met climbing at most n steps from x. */
  function Path(k: Kernel, x: NsId, n: nat): set<NsId>
    decreases n
  {
    if n > 0 && x in k && k[x].Parent? then {x} + Path(k, k[x].id, n - 1) else {x}
  }

  lemma {:induction false} PathClimbs(k: Kernel, x: NsId, n: nat, y: NsId)
    requires y in Path(k, x, n)
    ensures exists i :: 0 <= i <= n && Climb(k, x, i) == Some(y)
    decreases n
  {
    if y == x {
      assert Climb(k, x, 0) == Some(y);
    } else {
      var p := k[x].id;
      PathClimbs(k, p, n - 1, y);
      var i :| 0 <= i <= n - 1 && Climb(k, p, i) == Some(y);
      assert Climb(k, x, i + 1) == Some(y);
    }
  }

  /** A chain of n steps up to a namespace without a visible parent passes
      n + 1 different namespaces: it cannot come back to one it left. */
  lemma {:induction false} PathSize(k: Kernel, x: NsId, r: NsId, n: nat)
    requires Top(k, r) && Climb(k, x, n) == Some(r)
    ensures |Path(k, x, n)| == n + 1
    decreases n
  {
    if n > 0 {
      var p := k[x].id;
      PathSize(k, p, r, n - 1);
      if x in Path(k, p, n - 1) {
        PathClimbs(k, p, n - 1, x);
        var i :| 0 <= i <= n - 1 && Climb(k, p, i) == Some(x);
        assert Climb(k, x, i + 1) == Some(x);
        DepthVia(k, x, x, r, i + 1, n, i + 1 + n);
        DepthUnique(k, x, r, i + 1 + n, n);
      }
      assert Path(k, x, n) == {x} + Path(k, p, n - 1);
    }
  }

  // ---------------------------------------------------------------------
  // Completeness of the walk from the root

  predicate Distinct<T(==)>(s: seq<T>)
  {
    forall i, j :: 0 <= i < j < |s| ==> s[i] != s[j]
  }

  /** The tree invariant as the walk uses it: listed children are entries
      whose kernel parent is the entry they are listed under, every entry
      with a parent is listed under it, and no child is listed twice. */
  predicate Linked(k: Kernel, st: NsList)
  {
    && ChildrenKnown(k, st)
    && (forall x :: x in st.nodes && x in k && k[x].Parent? ==>
          k[x].id in st.nodes && x in st.nodes[k[x].id].children)
    && (forall y :: y in st.nodes ==> Distinct(st.nodes[y].children))
  }

  lemma InvLinked(k: Kernel, st: NsList)
    requires Inv(k, st)
    ensures Linked(k, st)
  {
    forall y | y in st.nodes
      ensures Distinct(st.nodes[y].children)
    {
      var s := st.nodes[y].children;
      forall i | 0 <= i < |s|
        ensures multiset(s)[s[i]] == 1
      {
        assert k[s[i]] == Parent(y);
      }
      CountOnceDistinct(s);
    }
  }

  /** A sequence in which every element occurs once has no repetition. */
  lemma CountOnceDistinct<T>(s: seq<T>)
    requires forall i :: 0 <= i < |s| ==> multiset(s)[s[i]] == 1
    ensures Distinct(s)
  {
    forall i, j | 0 <= i < j < |s|
      ensures s[i] != s[j]
    {
      CountRepeat(s, i, j);
    }
  }

  lemma CountRepeat<T>(s: seq<T>, i: int, j: int)
    requires 0 <= i < j < |s|
    ensures s[i] == s[j] ==> multiset(s)[s[i]] >= 2
  {
    assert s == s[..j] + s[j..];
    assert s[..j][i] == s[i] && s[j..][0] == s[j];
    assert multiset(s)[s[i]] == multiset(s[..j])[s[i]] + multiset(s[j..])[s[i]];
  }

  lemma {:induction false} ClimbInNodes(k: Kernel, st: NsList, x: NsId, n: nat)
    requires Linked(k, st) && x in st.nodes && Climb(k, x, n).Some?
    ensures Climb(k, x, n).value in st.nodes
    decreases n
  {
    if n > 0 {
      ClimbInNodes(k, st, k[x].id, n - 1);
    }
  }

  lemma {:induction false} PathInNodes(k: Kernel, st: NsList, x: NsId, n: nat)
    requires Linked(k, st) && x in st.nodes
    ensures Path(k, x, n) <= st.nodes.Keys
    decreases n
  {
    if n > 0 && x in k && k[x].Parent? {
      PathInNodes(k, st, k[x].id, n - 1);
    }
  }

  lemma SubsetSize<T>(a: set<T>, b: set<T>)
    requires a <= b
    ensures |a| <= |b|
  {
    assert b == a + (b - a);
    assert a * (b - a) == {};
  }

  /** An entry n steps below a namespace without a visible parent: n is
      less than the number of entries. */
  lemma DepthBound(k: Kernel, st: NsList, x: NsId, r: NsId, n: nat)
    requires Linked(k, st) && Top(k, r) && x in st.nodes && Climb(k, x, n) == Some(r)
    ensures n < |st.nodes|
  {
    PathSize(k, x, r, n);
    PathInNodes(k, st, x, n);
    SubsetSize(Path(k, x, n), st.nodes.Keys);
  }

  /** The walk from an entry `level` steps below a namespace without a
      visible parent finishes when the fuel and the level together reach
      the number of entries. */
  lemma {:induction false} TreeFinishes(k: Kernel, st: NsList, r: NsId, ns: NsId, level: nat, fuel: nat)
    requires Linked(k, st) && Top(k, r)
    requires ns in st.nodes && Climb(k, ns, level) == Some(r)
    requires fuel + level >= |st.nodes|
    ensures Tree(st, ns, level, fuel).Walked?
    decreases fuel, 0
  {
    DepthBound(k, st, ns, r, level);
    ForestFinishes(k, st, r, ns, st.nodes[ns].children, level + 1, fuel - 1);
  }

  lemma {:induction false} ForestFinishes(k: Kernel, st: NsList, r: NsId, p: NsId, children: seq<NsId>, level: nat, fuel: nat)
    requires Linked(k, st) && Top(k, r)
    requires level >= 1 && Climb(k, p, level - 1) == Some(r)
    requires forall i :: 0 <= i < |children| ==>
      children[i] in st.nodes && children[i] in k && k[children[i]] == Parent(p)
    requires fuel + level >= |st.nodes|
    ensures Forest(st, children, level, fuel).Walked?
    decreases fuel, 1, |children|
  {
    if |children| > 0 {
      var c := children[0];
      assert Climb(k, c, level) == Some(r);
      TreeFinishes(k, st, r, c, level, fuel);
      ForestFinishes(k, st, r, p, children[1..], level, fuel);
    }
  }

  /** Some block shows namespace x. */
  predicate Shown(bs: seq<Block>, x: NsId)
  {
    exists i :: 0 <= i < |bs| && bs[i].id == x
  }

  predicate DistinctIds(bs: seq<Block>)
  {
    forall i, j :: 0 <= i < j < |bs| ==> bs[i].id != bs[j].id
  }

  /** Every block shows an entry below one of `tops`, which sit at depth
      `level`: it climbs to one of them in as many steps as it is indented
      deeper. */
  predicate Below(k: Kernel, st: NsList, bs: seq<Block>, tops: seq<NsId>, level: nat)
  {
    forall i :: 0 <= i < |bs| ==>
      && bs[i].id in st.nodes && bs[i].level >= level
      && Climb(k, bs[i].id, bs[i].level - level).Some?
      && Climb(k, bs[i].id, bs[i].level - level).value in tops
  }

  /** Every entry below one of `tops` has a block. */
  ghost predicate Covers(k: Kernel, st: NsList, bs: seq<Block>, tops: seq<NsId>)
  {
    forall x, e :: x in st.nodes && Climb(k, x, e).Some? && Climb(k, x, e).value in tops ==> Shown(bs, x)
  }

  /** Two namespaces with the same parent. */
  predicate Siblings(k: Kernel, x: NsId, y: NsId)
  {
    x in k && y in k && k[x].Parent? && k[y] == k[x]
  }

  /** x comes before y in p's list of children. */
  predicate ListedBefore(st: NsList, p: NsId, x: NsId, y: NsId)
  {
    && p in st.nodes
    && exists a, b :: 0 <= a < b < |st.nodes[p].children| &&
         st.nodes[p].children[a] == x && st.nodes[p].children[b] == y
  }

  /** Siblings are shown in the order they were linked under their parent. */
  predicate InLinkOrder(k: Kernel, st: NsList, bs: seq<Block>)
  {
    forall i, j :: 0 <= i < j < |bs| && Siblings(k, bs[i].id, bs[j].id) ==>
      ListedBefore(st, k[bs[i].id].id, bs[i].id, bs[j].id)
  }

  /** What a finished walk from r promises: the blocks are exactly the
      entries below r, each once, indented by its depth below r, and
      siblings come in the order they were linked. */
  ghost predicate Complete(k: Kernel, st: NsList, r: NsId, bs: seq<Block>)
  {
    && (forall i :: 0 <= i < |bs| ==>
          bs[i].id in st.nodes && Climb(k, bs[i].id, bs[i].level) == Some(r))
    && (forall x, e :: x in st.nodes && Climb(k, x, e) == Some(r) ==> Shown(bs, x))
    && DistinctIds(bs)
    && InLinkOrder(k, st, bs)
  }

  /** A finished walk from an entry `level` steps below a namespace r
      without a visible parent shows exactly the entries below it, each
      once, with siblings in link order. */
  lemma {:induction false} TreeComplete(k: Kernel, st: NsList, r: NsId, ns: NsId, level: nat, fuel: nat)
    requires Linked(k, st) && Top(k, r)
    requires ns in st.nodes && Climb(k, ns, level) == Some(r)
    requires Tree(st, ns, level, fuel).Walked?
    ensures var bs := Tree(st, ns, level, fuel).blocks;
      && Below(k, st, bs, [ns], level) && Covers(k, st, bs, [ns])
      && DistinctIds(bs) && InLinkOrder(k, st, bs)
    decreases fuel, 0
  {
    var ch := st.nodes[ns].children;
    assert ch[0..] == ch;
    ForestComplete(k, st, r, ns, 0, level + 1, fuel - 1);
    var rest := Forest(st, ch, level + 1, fuel - 1).blocks;
    var root := Block(level, ns, Sort(st.nodes[ns].pids));
    assert Tree(st, ns, level, fuel).blocks == [root] + rest;
    TreeBelow(k, st, root, ch, rest, level);
    TreeCovers(k, st, root, ch, rest);
    TreeDistinct(k, st, r, root, rest, level);
    TreeOrder(k, st, r, root, rest, level);
  }

  /** The children's subtrees lie below the namespace. */
  lemma TreeBelow(k: Kernel, st: NsList, root: Block, ch: seq<NsId>, rest: seq<Block>, level: nat)
    requires Linked(k, st) && root.id in st.nodes && root.level == level
    requires ch == st.nodes[root.id].children
    requires Below(k, st, rest, ch, level + 1)
    ensures Below(k, st, [root] + rest, [root.id], level)
    ensures forall i :: 0 <= i < |rest| ==>
      rest[i].level > level && Climb(k, rest[i].id, rest[i].level - level) == Some(root.id)
  {
    forall i | 0 <= i < |rest|
      ensures rest[i].level > level && Climb(k, rest[i].id, rest[i].level - level) == Some(root.id)
    {
      var y := rest[i];
      var c := Climb(k, y.id, y.level - level - 1).value;
      assert Climb(k, c, 1) == Some(root.id);
      ClimbAdd(k, y.id, y.level - level - 1, 1);
    }
    var bs := [root] + rest;
    forall i | 0 < i < |bs|
      ensures bs[i] == rest[i - 1]
    {
    }
  }

  /** Every entry below the namespace is the namespace or below one of its
      children. */
  lemma TreeCovers(k: Kernel, st: NsList, root: Block, ch: seq<NsId>, rest: seq<Block>)
    requires Linked(k, st) && root.id in st.nodes
    requires ch == st.nodes[root.id].children
    requires Covers(k, st, rest, ch)
    ensures Covers(k, st, [root] + rest, [root.id])
  {
    var bs := [root] + rest;
    forall x, e: nat | x in st.nodes && Climb(k, x, e).Some? && Climb(k, x, e).value in [root.id]
      ensures Shown(bs, x)
    {
      if e == 0 {
        assert bs[0].id == x;
      } else {
        ClimbAdd(k, x, e - 1, 1);
        ClimbInNodes(k, st, x, e - 1);
        var c := Climb(k, x, e - 1).value;
        assert c in ch;
        var i :| 0 <= i < |rest| && rest[i].id == x;
        assert bs[i + 1].id == x;
      }
    }
  }

  /** The namespace is not shown again below itself. */
  lemma TreeDistinct(k: Kernel, st: NsList, r: NsId, root: Block, rest: seq<Block>, level: nat)
    requires Top(k, r) && Climb(k, root.id, level) == Some(r)
    requires DistinctIds(rest)
    requires forall i :: 0 <= i < |rest| ==>
      rest[i].level > level && Climb(k, rest[i].id, rest[i].level - level) == Some(root.id)
    ensures DistinctIds([root] + rest)
  {
    var bs := [root] + rest;
    forall i, j | 0 <= i < j < |bs|
      ensures bs[i].id != bs[j].id
    {
      if i == 0 {
        var y := rest[j - 1];
        assert bs[j] == y;
        if y.id == root.id {
          DepthVia(k, root.id, root.id, r, y.level - level, level, y.level);
          DepthUnique(k, root.id, r, y.level, level);
        }
      } else {
        assert bs[i] == rest[i - 1] && bs[j] == rest[j - 1];
      }
    }
  }

  /** No block below the namespace is its sibling. */
  lemma TreeOrder(k: Kernel, st: NsList, r: NsId, root: Block, rest: seq<Block>, level: nat)
    requires Top(k, r) && Climb(k, root.id, level) == Some(r)
    requires InLinkOrder(k, st, rest)
    requires forall i :: 0 <= i < |rest| ==>
      rest[i].level > level && Climb(k, rest[i].id, rest[i].level - level) == Some(root.id)
    ensures InLinkOrder(k, st, [root] + rest)
  {
    var bs := [root] + rest;
    forall i, j | 0 <= i < j < |bs| && Siblings(k, bs[i].id, bs[j].id)
      ensures ListedBefore(st, k[bs[i].id].id, bs[i].id, bs[j].id)
    {
      if i == 0 {
        var y := rest[j - 1];
        assert bs[j] == y;
        NotSiblingOfDescendant(k, r, root.id, y.id, level, y.level);
      } else {
        assert bs[i] == rest[i - 1] && bs[j] == rest[j - 1];
      }
    }
  }

  /** A namespace strictly below ns does not share ns's parent: the parent
      would sit at two depths. */
  lemma NotSiblingOfDescendant(k: Kernel, r: NsId, ns: NsId, y: NsId, level: nat, ylevel: nat)
    requires Top(k, r) && Climb(k, ns, level) == Some(r)
    requires ylevel > level && Climb(k, y, ylevel - level) == Some(ns)
    ensures !Siblings(k, ns, y)
  {
    DepthVia(k, y, ns, r, ylevel - level, level, ylevel);
    if Siblings(k, ns, y) {
      var q := k[ns].id;
      assert level > 0;
      assert Climb(k, q, level - 1) == Some(r);
      assert Climb(k, q, ylevel - 1) == Some(r);
      DepthUnique(k, q, r, level - 1, ylevel - 1);
    }
  }

  /** The children of p from position m on, each walked in turn. */
  lemma {:induction false} ForestComplete(k: Kernel, st: NsList, r: NsId, p: NsId, m: nat, level: nat, fuel: nat)
    requires Linked(k, st) && Top(k, r)
    requires p in st.nodes && level >= 1 && Climb(k, p, level - 1) == Some(r)
    requires m <= |st.nodes[p].children|
    requires Forest(st, st.nodes[p].children[m..], level, fuel).Walked?
    ensures var bs := Forest(st, st.nodes[p].children[m..], level, fuel).blocks;
      && Below(k, st, bs, st.nodes[p].children[m..], level)
      && Covers(k, st, bs, st.nodes[p].children[m..])
      && DistinctIds(bs) && InLinkOrder(k, st, bs)
    decreases fuel, 1, |st.nodes[p].children| - m
  {
    var ch := st.nodes[p].children;
    if m < |ch| {
      var c := ch[m];
      assert ch[m..] == [c] + ch[m + 1..];
      assert ch[m..][1..] == ch[m + 1..];
      assert Climb(k, c, level) == Some(r);
      TreeComplete(k, st, r, c, level, fuel);
      ForestComplete(k, st, r, p, m + 1, level, fuel);
      var a := Tree(st, c, level, fuel).blocks;
      var b := Forest(st, ch[m + 1..], level, fuel).blocks;
      assert Forest(st, ch[m..], level, fuel).blocks == a + b;
      JoinBelow(k, st, a, b, c, ch[m + 1..], level);
      JoinCovers(k, st, a, b, c, ch[m + 1..]);
      JoinDistinct(k, st, r, p, m, a, b, level);
      JoinOrder(k, st, r, p, m, a, b, level);
    }
  }

  lemma JoinBelow(k: Kernel, st: NsList, a: seq<Block>, b: seq<Block>, c: NsId, rest: seq<NsId>, level: nat)
    requires Below(k, st, a, [c], level) && Below(k, st, b, rest, level)
    ensures Below(k, st, a + b, [c] + rest, level)
  {
    var ab := a + b;
    forall i | 0 <= i < |ab|
      ensures ab[i] == if i < |a| then a[i] else b[i - |a|]
    {
    }
  }

  lemma JoinCovers(k: Kernel, st: NsList, a: seq<Block>, b: seq<Block>, c: NsId, rest: seq<NsId>)
    requires Covers(k, st, a, [c]) && Covers(k, st, b, rest)
    ensures Covers(k, st, a + b, [c] + rest)
  {
    forall x, e: nat | x in st.nodes && Climb(k, x, e).Some? && Climb(k, x, e).value in [c] + rest
      ensures Shown(a + b, x)
    {
      if Climb(k, x, e).value == c {
        var i :| 0 <= i < |a| && a[i].id == x;
        assert (a + b)[i] == a[i];
      } else {
        var i :| 0 <= i < |b| && b[i].id == x;
        assert (a + b)[|a| + i] == b[i];
      }
    }
  }

  /** One namespace shown below two children of p at `level` would sit at
      two depths below r unless the two children are the same. */
  lemma SameChild(k: Kernel, st: NsList, r: NsId, p: NsId, level: nat, x: Block, y: Block)
    requires Linked(k, st) && Top(k, r)
    requires p in st.nodes && level >= 1 && Climb(k, p, level - 1) == Some(r)
    requires x.id == y.id && x.level >= level && y.level >= level
    requires Climb(k, x.id, x.level - level).Some? && Climb(k, x.id, x.level - level).value in st.nodes[p].children
    requires Climb(k, y.id, y.level - level).Some? && Climb(k, y.id, y.level - level).value in st.nodes[p].children
    ensures x.level == y.level
    ensures Climb(k, x.id, x.level - level) == Climb(k, y.id, y.level - level)
  {
    var cx := Climb(k, x.id, x.level - level).value;
    var cy := Climb(k, y.id, y.level - level).value;
    assert Climb(k, cx, level) == Some(r);
    assert Climb(k, cy, level) == Some(r);
    DepthVia(k, x.id, cx, r, x.level - level, level, x.level);
    DepthVia(k, y.id, cy, r, y.level - level, level, y.level);
    DepthUnique(k, x.id, r, x.level, y.level);
  }

  lemma JoinDistinct(k: Kernel, st: NsList, r: NsId, p: NsId, m: nat, a: seq<Block>, b: seq<Block>, level: nat)
    requires Linked(k, st) && Top(k, r)
    requires p in st.nodes && level >= 1 && Climb(k, p, level - 1) == Some(r)
    requires m < |st.nodes[p].children|
    requires Below(k, st, a, [st.nodes[p].children[m]], level)
    requires Below(k, st, b, st.nodes[p].children[m + 1..], level)
    requires DistinctIds(a) && DistinctIds(b)
    ensures DistinctIds(a + b)
  {
    var ch := st.nodes[p].children;
    var ab := a + b;
    forall i, j | 0 <= i < j < |ab|
      ensures ab[i].id != ab[j].id
    {
      if j < |a| {
        assert ab[i] == a[i] && ab[j] == a[j];
      } else if i >= |a| {
        assert ab[i] == b[i - |a|] && ab[j] == b[j - |a|];
      } else {
        var x, y := a[i], b[j - |a|];
        assert ab[i] == x && ab[j] == y;
        var c2 := Climb(k, y.id, y.level - level).value;
        var t :| 0 <= t < |ch[m + 1..]| && ch[m + 1..][t] == c2;
        assert ch[m + 1 + t] == c2;
        if x.id == y.id {
          SameChild(k, st, r, p, level, x, y);
        }
      }
    }
  }

  lemma JoinOrder(k: Kernel, st: NsList, r: NsId, p: NsId, m: nat, a: seq<Block>, b: seq<Block>, level: nat)
    requires Linked(k, st) && Top(k, r)
    requires p in st.nodes && level >= 1 && Climb(k, p, level - 1) == Some(r)
    requires m < |st.nodes[p].children|
    requires Below(k, st, a, [st.nodes[p].children[m]], level)
    requires Below(k, st, b, st.nodes[p].children[m + 1..], level)
    requires InLinkOrder(k, st, a) && InLinkOrder(k, st, b)
    ensures InLinkOrder(k, st, a + b)
  {
    var ab := a + b;
    forall i, j | 0 <= i < j < |ab| && Siblings(k, ab[i].id, ab[j].id)
      ensures ListedBefore(st, k[ab[i].id].id, ab[i].id, ab[j].id)
    {
      if j < |a| {
        assert ab[i] == a[i] && ab[j] == a[j];
      } else if i >= |a| {
        assert ab[i] == b[i - |a|] && ab[j] == b[j - |a|];
      } else {
        assert ab[i] == a[i] && ab[j] == b[j - |a|];
        CrossSiblings(k, st, r, p, m, level, a[i], b[j - |a|]);
      }
    }
  }

  /** Siblings shown below ch[m] and below a later child of p are those two
      children themselves, listed in that order. */
  lemma CrossSiblings(k: Kernel, st: NsList, r: NsId, p: NsId, m: nat, level: nat, x: Block, y: Block)
    requires Linked(k, st) && Top(k, r)
    requires p in st.nodes && level >= 1 && Climb(k, p, level - 1) == Some(r)
    requires m < |st.nodes[p].children|
    requires x.level >= level && Climb(k, x.id, x.level - level) == Some(st.nodes[p].children[m])
    requires y.level >= level && Climb(k, y.id, y.level - level).Some?
    requires Climb(k, y.id, y.level - level).value in st.nodes[p].children[m + 1..]
    requires Siblings(k, x.id, y.id)
    ensures ListedBefore(st, k[x.id].id, x.id, y.id)
  {
    var ch := st.nodes[p].children;
    var c, c2 := ch[m], Climb(k, y.id, y.level - level).value;
    var t :| 0 <= t < |ch[m + 1..]| && ch[m + 1..][t] == c2;
    assert ch[m + 1 + t] == c2;
    var q := k[x.id].id;
    assert Climb(k, c, level) == Some(r) && Climb(k, c2, level) == Some(r);
    DepthVia(k, x.id, c, r, x.level - level, level, x.level);
    DepthVia(k, y.id, c2, r, y.level - level, level, y.level);
    assert Climb(k, q, x.level - 1) == Some(r);
    assert Climb(k, q, y.level - 1) == Some(r);
    DepthUnique(k, q, r, x.level - 1, y.level - 1);
    if x.level == level {
      assert x.id == c && y.id == c2 && q == p;
      assert 0 <= m < m + 1 + t < |ch| && ch[m] == x.id && ch[m + 1 + t] == y.id;
    } else {
      assert false;
    }
  }

  /** From the namespace without a visible parent, a walk with as much fuel
      as there are entries finishes, and a finished walk shows exactly the
      entries below the root, each once, at its depth, with siblings in the
      order they were linked. */
  lemma WalkFromRoot(k: Kernel, st: NsList, r: NsId, fuel: nat)
    requires Linked(k, st) && Top(k, r) && r in st.nodes
    ensures fuel >= |st.nodes| ==> Tree(st, r, 0, fuel).Walked?
    ensures Tree(st, r, 0, fuel).Walked? ==> Complete(k, st, r, Tree(st, r, 0, fuel).blocks)
  {
    assert Climb(k, r, 0) == Some(r);
    if fuel >= |st.nodes| {
      TreeFinishes(k, st, r, r, 0, fuel);
    }
    var w := Tree(st, r, 0, fuel);
    if w.Walked? {
      TreeComplete(k, st, r, r, 0, fuel);
      var bs := w.blocks;
      forall i | 0 <= i < |bs|
        ensures bs[i].id in st.nodes && Climb(k, bs[i].id, bs[i].level) == Some(r)
      {
        assert bs[i].level - 0 == bs[i].level;
      }
    }
  }

  /** Every block lists its namespace's members, sorted ascending. */
  predicate SortedMembers(st: NsList, bs: seq<Block>)
  {
    forall i :: 0 <= i < |bs| ==>
      && bs[i].id in st.nodes && SortedAsc(bs[i].pids)
      && multiset(bs[i].pids) == multiset(st.nodes[bs[i].id].pids)
  }

  lemma SortedJoin(st: NsList, a: seq<Block>, b: seq<Block>)
    requires SortedMembers(st, a) && SortedMembers(st, b)
    ensures SortedMembers(st, a + b)
  {
    var ab := a + b;
    forall i | 0 <= i < |ab|
      ensures ab[i] == if i < |a| then a[i] else b[i - |a|]
    {
    }
  }

  lemma {:induction false} WalkSorted(st: NsList, ns: NsId, level: nat, fuel: nat)
    ensures Tree(st, ns, level, fuel).Walked? ==> SortedMembers(st, Tree(st, ns, level, fuel).blocks)
    decreases fuel, 0
  {
    if fuel > 0 && ns in st.nodes {
      var ch := st.nodes[ns].children;
      ForestSorted(st, ch, level + 1, fuel - 1);
      var f := Forest(st, ch, level + 1, fuel - 1);
      if f.Walked? {
        var root := Block(level, ns, Sort(st.nodes[ns].pids));
        assert SortedMembers(st, [root]);
        SortedJoin(st, [root], f.blocks);
      }
    }
  }

  lemma {:induction false} ForestSorted(st: NsList, children: seq<NsId>, level: nat, fuel: nat)
    ensures Forest(st, children, level, fuel).Walked? ==> SortedMembers(st, Forest(st, children, level, fuel).blocks)
    decreases fuel, 1, |children|
  {
    if |children| > 0 {
      WalkSorted(st, children[0], level, fuel);
      ForestSorted(st, children[1..], level, fuel);
      var a := Tree(st, children[0], level, fuel);
      var b := Forest(st, children[1..], level, fuel);
      if a.Walked? && b.Walked? {
        SortedJoin(st, a.blocks, b.blocks);
      }
    }
  }
}
