/** The namespace-hierarchy builder shared by namespaces/pid_namespaces.go and
    namespaces/userns_overview.go: addNamespace() records a namespace, and
    recursively its ancestors, in the map nsList, linking each newly seen
    namespace into its parent's list of children.

    The kernel is an oracle: a finite map from every namespace that exists to
    the reply ioctl(NS_GET_PARENT) gives for it. Fstat() of a namespace file
    descriptor is the identity: the model works with namespace ids directly. */
module NsHierarchy {
  import opened Wrappers
  import opened Text

  /** A namespace is identified by the device id and inode number of its file. */
  datatype NsId = NsId(device: nat, inode: nat)

  /** The reply of ioctl(NS_GET_PARENT): a parent namespace, or failure with
      EPERM (no visible parent), ENOTTY (no namespace ioctls), or another errno. */
  datatype ParentReply = Parent(id: NsId) | NoParentEPERM | NotTty | OtherErr(errno: int)

  type Kernel = map<NsId, ParentReply>

  /** A kernel pins the parent of every existing namespace into existence. */
  predicate Closed(k: Kernel)
  {
    forall x :: x in k && k[x].Parent? ==> k[x].id in k
  }

  /** struct namespaceAttribs: child namespaces and member processes. */
  datatype Attribs = Attribs(children: seq<NsId>, pids: seq<int>)

  /** The map nsList together with initialPidNS / initialNS (None while no
      namespace without a visible parent has been seen). */
  datatype NsList = NsList(nodes: map<NsId, Attribs>, initial: Option<NsId>)

  /** Which of the two programs: they differ only in how an ENOTTY reply is
      reported. */
  datatype Program = PidNamespaces | UserNamespaces

  const ENOTTY: int := 25

  /** Why the program exits with status 1 from inside addNamespace(). */
  datatype ExitReason = IoctlError(errno: int) | NoIoctlSupport

  datatype AddResult =
    | Added(list: NsList, id: NsId)
    | Exited(at: NsId, reason: ExitReason)

  /** The text printed before exiting; for IoctlError it is followed by
      Go's rendering of the errno. */
  function ExitMessage(prog: Program, reason: ExitReason): string
  {
    match reason
    case NoIoctlSupport => "This kernel doesn't support namespace ioctl() operations"
    case IoctlError(_) => if prog == PidNamespaces then "ioctl(NS_GET_PARENT):" else "ioctl():"
  }

  /** The exit reason for a failed NS_GET_PARENT: userns_overview.go singles
      out ENOTTY, pid_namespaces.go reports every failure other than EPERM alike. */
  function FailureReason(prog: Program, reply: ParentReply): ExitReason
    requires reply.NotTty? || reply.OtherErr?
  {
    match reply
    case NotTty => if prog == UserNamespaces then NoIoctlSupport else IoctlError(ENOTTY)
    case OtherErr(e) => IoctlError(e)
  }

  /** A new entry with no children and no PIDs. */
  function InsertNs(st: NsList, ns: NsId): (r: NsList)
    ensures r.nodes.Keys == st.nodes.Keys + {ns} && r.initial == st.initial
    ensures r.nodes[ns] == Attribs([], [])
    ensures forall x :: x in st.nodes && x != ns ==> r.nodes[x] == st.nodes[x]
  {
    st.(nodes := st.nodes[ns := Attribs([], [])])
  }

  /** Append child to the children of parent. */
  function Link(st: NsList, parent: NsId, child: NsId): (r: NsList)
    requires parent in st.nodes
    ensures r.nodes.Keys == st.nodes.Keys && r.initial == st.initial
    ensures r.nodes[parent].children == st.nodes[parent].children + [child]
    ensures forall x :: x in st.nodes ==> r.nodes[x].pids == st.nodes[x].pids
    ensures forall x :: x in st.nodes && x != parent ==> r.nodes[x].children == st.nodes[x].children
  {
    st.(nodes := st.nodes[parent := st.nodes[parent].(children := st.nodes[parent].children + [child])])
  }

  /** Append pid to the member list of ns when pid > 0. */
  function AddPid(st: NsList, ns: NsId, pid: int): (r: NsList)
    requires ns in st.nodes
    ensures r.nodes.Keys == st.nodes.Keys && r.initial == st.initial
    ensures forall x :: x in st.nodes ==> r.nodes[x].children == st.nodes[x].children
    ensures forall x :: x in st.nodes ==> r.nodes[x].pids == st.nodes[x].pids + NewPids(x, ns, pid)
  {
    if pid > 0 then
      st.(nodes := st.nodes[ns := st.nodes[ns].(pids := st.nodes[ns].pids + [pid])])
    else st
  }

  function NewPids(x: NsId, ns: NsId, pid: int): seq<int>
  {
    if x == ns && pid > 0 then [pid] else []
  }

  /** Inserting a not-yet-visited namespace leaves fewer unvisited ones. */
  lemma Shrinks(universe: set<NsId>, visited: set<NsId>, ns: NsId)
    requires ns in universe && ns !in visited
    ensures |universe - (visited + {ns})| < |universe - visited|
  {
    assert universe - (visited + {ns}) == (universe - visited) - {ns};
  }

  /** addNamespace(namespaceFD, pid). Each recursive call either finds its
      namespace already in the map or inserts it, so the number of existing
      namespaces not yet in the map bounds the recursion. */
  function AddNamespace(k: Kernel, prog: Program, st: NsList, ns: NsId, pid: int): (r: AddResult)
    requires Closed(k) && ns in k
    ensures r.Added? ==> r.id == ns && ns in r.list.nodes
    ensures r.Added? ==> st.nodes.Keys <= r.list.nodes.Keys <= st.nodes.Keys + k.Keys
    decreases |k.Keys - st.nodes.Keys|
  {
    if ns in st.nodes then
      Added(AddPid(st, ns, pid), ns)
    else
      var st1 := InsertNs(st, ns);
      Shrinks(k.Keys, st.nodes.Keys, ns);
      match k[ns]
      case NoParentEPERM => Added(AddPid(st1.(initial := Some(ns)), ns, pid), ns)
      case NotTty => Exited(ns, FailureReason(prog, k[ns]))
      case OtherErr(_) => Exited(ns, FailureReason(prog, k[ns]))
      case Parent(p) => LinkChild(AddNamespace(k, prog, st1, p, -1), ns, pid)
  }

  /** The tail of addNamespace() once the parent is recorded: link ns under
      it and add pid; an exit on the way up is passed on. */
  function LinkChild(rec: AddResult, ns: NsId, pid: int): (r: AddResult)
    requires rec.Added? ==> rec.id in rec.list.nodes && ns in rec.list.nodes
    ensures rec.Exited? ==> r == rec
    ensures r.Added? ==> r.id == ns && r.list.nodes.Keys == rec.list.nodes.Keys
  {
    match rec
    case Exited(_, _) => rec
    case Added(st2, q) => Added(AddPid(Link(st2, q, ns), ns, pid), ns)
  }

  /** The four cases of addNamespace(): a namespace already in the map, a new
      one without a visible parent, a new one whose parent query fails, and a
      new one with a parent, which is inserted before its parent is added
      with PID -1. */
  lemma AddCases(k: Kernel, prog: Program, st: NsList, ns: NsId, pid: int)
    requires Closed(k) && ns in k
    ensures ns in st.nodes ==> AddNamespace(k, prog, st, ns, pid) == Added(AddPid(st, ns, pid), ns)
    ensures ns !in st.nodes && k[ns].NoParentEPERM? ==>
      AddNamespace(k, prog, st, ns, pid) == Added(AddPid(InsertNs(st, ns).(initial := Some(ns)), ns, pid), ns)
    ensures ns !in st.nodes && (k[ns].NotTty? || k[ns].OtherErr?) ==>
      AddNamespace(k, prog, st, ns, pid) == Exited(ns, FailureReason(prog, k[ns]))
    ensures ns !in st.nodes && k[ns].Parent? ==>
      && |k.Keys - InsertNs(st, ns).nodes.Keys| < |k.Keys - st.nodes.Keys|
      && AddNamespace(k, prog, st, ns, pid) == LinkChild(AddNamespace(k, prog, InsertNs(st, ns), k[ns].id, -1), ns, pid)
  {
    if ns !in st.nodes {
      Shrinks(k.Keys, st.nodes.Keys, ns);
    }
  }

  /** The tree invariant of nsList, except that the namespaces in `pending`
      have been inserted but not yet linked into their parent's children:
      - every entry is a namespace of the kernel, whose parent query succeeded
        or failed with EPERM;
      - every linked entry with a parent appears exactly once among that
        parent's children; pending entries appear among no children;
      - every child listed under p is an entry whose kernel parent is p;
      - the recorded initial namespace is an entry without a parent, and one
        is recorded as soon as such an entry exists. */
  predicate InvExcept(k: Kernel, st: NsList, pending: set<NsId>)
  {
    && st.nodes.Keys <= k.Keys
    && pending <= st.nodes.Keys
    && (forall x :: x in st.nodes ==> k[x].Parent? || k[x].NoParentEPERM?)
    && (forall x :: x in st.nodes && x !in pending && k[x].Parent? ==>
          k[x].id in st.nodes && multiset(st.nodes[k[x].id].children)[x] == 1)
    && (forall x, y :: x in pending && y in st.nodes ==> x !in st.nodes[y].children)
    && (forall y, i :: y in st.nodes && 0 <= i < |st.nodes[y].children| ==>
          st.nodes[y].children[i] in st.nodes && k[st.nodes[y].children[i]] == Parent(y))
    && (st.initial.Some? ==> st.initial.value in st.nodes && k[st.initial.value] == NoParentEPERM)
    && (forall x :: x in st.nodes && k[x].NoParentEPERM? ==> st.initial.Some?)
  }

  /** The tree invariant: every entry is linked to its parent. */
  predicate Inv(k: Kernel, st: NsList)
  {
    InvExcept(k, st, {})
  }

  /** The recorded initial namespace is an entry without a parent. */
  lemma InvInitial(k: Kernel, st: NsList)
    requires Inv(k, st)
    ensures st.initial.Some? ==>
      st.initial.value in st.nodes && st.initial.value in k && k[st.initial.value] == NoParentEPERM
  {
  }

  /** The empty map satisfies the invariant. */
  lemma EmptyInv(k: Kernel)
    ensures Inv(k, NsList(map[], None))
  {
  }

  /** Adding PIDs does not touch the tree structure. */
  lemma AddPidKeepsInv(k: Kernel, st: NsList, ns: NsId, pid: int, pending: set<NsId>)
    requires ns in st.nodes && InvExcept(k, st, pending)
    ensures InvExcept(k, AddPid(st, ns, pid), pending)
  {
    var st' := AddPid(st, ns, pid);
    assert forall y :: y in st.nodes ==> st'.nodes[y].children == st.nodes[y].children;
  }

  /** A namespace already in the map: only its PID list can change. */
  lemma AddExisting(k: Kernel, prog: Program, st: NsList, ns: NsId, pid: int)
    requires Closed(k) && ns in k && ns in st.nodes
    ensures var r := AddNamespace(k, prog, st, ns, pid);
      && r.Added?
      && r.list.nodes.Keys == st.nodes.Keys
      && r.list.initial == st.initial
      && (forall x :: x in st.nodes ==> r.list.nodes[x].children == st.nodes[x].children)
      && (forall x :: x in st.nodes && x != ns ==> r.list.nodes[x].pids == st.nodes[x].pids)
      && r.list.nodes[ns].pids == st.nodes[ns].pids + (if pid > 0 then [pid] else [])
  {
  }

  /** Only the queried namespace gains a PID, only when pid > 0, and every
      entry the call creates starts with no PIDs. */
  lemma {:induction false} AddPids(k: Kernel, prog: Program, st: NsList, ns: NsId, pid: int)
    requires Closed(k) && ns in k
    ensures var r := AddNamespace(k, prog, st, ns, pid);
      r.Added? ==> forall x :: x in r.list.nodes ==>
        r.list.nodes[x].pids == (if x in st.nodes then st.nodes[x].pids else []) + NewPids(x, ns, pid)
    decreases |k.Keys - st.nodes.Keys|
  {
    AddCases(k, prog, st, ns, pid);
    if ns !in st.nodes && k[ns].Parent? {
      var st1 := InsertNs(st, ns);
      var p := k[ns].id;
      AddPids(k, prog, st1, p, -1);
      var rec := AddNamespace(k, prog, st1, p, -1);
      if rec.Added? {
        PidsStep(st, rec.list, p, ns, pid);
      }
    }
  }

  /** The last step of addNamespace() for a new namespace with a parent: the
      PID lists after linking it, from those the recursive call left. */
  lemma PidsStep(st: NsList, rl: NsList, p: NsId, ns: NsId, pid: int)
    requires ns !in st.nodes && p in rl.nodes && ns in rl.nodes
    requires forall x :: x in rl.nodes ==>
      rl.nodes[x].pids == (if x in InsertNs(st, ns).nodes then InsertNs(st, ns).nodes[x].pids else []) + NewPids(x, p, -1)
    ensures var r := AddPid(Link(rl, p, ns), ns, pid);
      forall x :: x in r.nodes ==>
        r.nodes[x].pids == (if x in st.nodes then st.nodes[x].pids else []) + NewPids(x, ns, pid)
  {
  }

  /** Children lists only grow at their end, by at most one namespace per
      entry and call, and a namespace is appended only when it is first
      created, under its kernel parent. */
  lemma {:induction false} AddChildren(k: Kernel, prog: Program, st: NsList, ns: NsId, pid: int)
    requires Closed(k) && ns in k
    ensures var r := AddNamespace(k, prog, st, ns, pid);
      r.Added? ==> forall x :: x in st.nodes ==> ChildrenGrow(k, st.nodes[x].children, r.list.nodes[x].children, x, st)
    decreases |k.Keys - st.nodes.Keys|
  {
    AddCases(k, prog, st, ns, pid);
    if ns in st.nodes {
      ChildrenSame(k, st, AddPid(st, ns, pid));
    } else if k[ns].NoParentEPERM? {
      ChildrenSame(k, st, AddPid(InsertNs(st, ns).(initial := Some(ns)), ns, pid));
    } else if k[ns].Parent? {
      var st1 := InsertNs(st, ns);
      var p := k[ns].id;
      AddChildren(k, prog, st1, p, -1);
      ChildrenLink(k, prog, st, ns, pid);
    }
  }

  /** The recursive case of AddChildren: from what the call for the parent
      did to the children lists, to what linking ns under it does. */
  lemma ChildrenLink(k: Kernel, prog: Program, st: NsList, ns: NsId, pid: int)
    requires Closed(k) && ns in k && ns !in st.nodes && k[ns].Parent?
    requires var st1 := InsertNs(st, ns);
      var rec := AddNamespace(k, prog, st1, k[ns].id, -1);
      rec.Added? ==> forall x :: x in st1.nodes ==> ChildrenGrow(k, st1.nodes[x].children, rec.list.nodes[x].children, x, st1)
    ensures var r := AddNamespace(k, prog, st, ns, pid);
      r.Added? ==> forall x :: x in st.nodes ==> ChildrenGrow(k, st.nodes[x].children, r.list.nodes[x].children, x, st)
  {
    AddCases(k, prog, st, ns, pid);
    var st1 := InsertNs(st, ns);
    var p := k[ns].id;
    var rec := AddNamespace(k, prog, st1, p, -1);
    if rec.Added? {
      if p in st1.nodes {
        AddExisting(k, prog, st1, p, -1);
      }
      ChildrenStep(k, st, rec.list, p, ns, pid);
    }
  }

  /** A step that changes no existing children list. */
  lemma ChildrenSame(k: Kernel, st: NsList, r: NsList)
    requires st.nodes.Keys <= r.nodes.Keys
    requires forall x :: x in st.nodes ==> r.nodes[x].children == st.nodes[x].children
    ensures forall x :: x in st.nodes ==> ChildrenGrow(k, st.nodes[x].children, r.nodes[x].children, x, st)
  {
    forall x | x in st.nodes
      ensures ChildrenGrow(k, st.nodes[x].children, r.nodes[x].children, x, st)
    {
      assert r.nodes[x].children[..|st.nodes[x].children|] == st.nodes[x].children;
    }
  }

  /** `after` is `before` with at most one namespace appended, one that was
      not yet in the map `st` and whose kernel parent is x. */
  predicate ChildrenGrow(k: Kernel, before: seq<NsId>, after: seq<NsId>, x: NsId, st: NsList)
  {
    && |before| <= |after| <= |before| + 1
    && after[..|before|] == before
    && (|after| > |before| ==> after[|before|] !in st.nodes && after[|before|] in k && k[after[|before|]] == Parent(x))
  }

  /** The last step of addNamespace() for a new namespace with a parent:
      linking it under its parent, given what the recursive call did. */
  lemma ChildrenStep(k: Kernel, st: NsList, rl: NsList, p: NsId, ns: NsId, pid: int)
    requires ns in k && ns !in st.nodes && k[ns] == Parent(p) && p in rl.nodes && ns in rl.nodes
    requires InsertNs(st, ns).nodes.Keys <= rl.nodes.Keys
    requires forall x :: x in InsertNs(st, ns).nodes ==>
      ChildrenGrow(k, InsertNs(st, ns).nodes[x].children, rl.nodes[x].children, x, InsertNs(st, ns))
    requires p in InsertNs(st, ns).nodes ==> rl.nodes[p].children == InsertNs(st, ns).nodes[p].children
    ensures var r := AddPid(Link(rl, p, ns), ns, pid);
      forall x :: x in st.nodes ==> ChildrenGrow(k, st.nodes[x].children, r.nodes[x].children, x, st)
  {
    var st1 := InsertNs(st, ns);
    var r := AddPid(Link(rl, p, ns), ns, pid);
    forall x | x in st.nodes
      ensures ChildrenGrow(k, st.nodes[x].children, r.nodes[x].children, x, st)
    {
      assert x != ns && st1.nodes[x] == st.nodes[x];
      assert ChildrenGrow(k, st1.nodes[x].children, rl.nodes[x].children, x, st1);
      if x == p {
        assert r.nodes[x].children == st.nodes[x].children + [ns];
      } else {
        assert r.nodes[x].children == rl.nodes[x].children;
      }
    }
  }

  /** The initial namespace is recorded only for a newly created namespace
      whose parent query failed with EPERM. */
  lemma {:induction false} AddInitial(k: Kernel, prog: Program, st: NsList, ns: NsId, pid: int)
    requires Closed(k) && ns in k
    ensures var r := AddNamespace(k, prog, st, ns, pid);
      r.Added? && r.list.initial != st.initial ==>
        && r.list.initial.Some?
        && r.list.initial.value in k && k[r.list.initial.value] == NoParentEPERM
        && r.list.initial.value !in st.nodes
    decreases |k.Keys - st.nodes.Keys|
  {
    AddCases(k, prog, st, ns, pid);
    if ns !in st.nodes && k[ns].Parent? {
      AddInitial(k, prog, InsertNs(st, ns), k[ns].id, -1);
    }
  }

  /** The program exits only at a newly seen namespace whose parent query
      failed other than with EPERM, with the reason the program gives for that
      failure; a kernel without such failures never makes it exit. */
  lemma {:induction false} AddExit(k: Kernel, prog: Program, st: NsList, ns: NsId, pid: int)
    requires Closed(k) && ns in k
    ensures var r := AddNamespace(k, prog, st, ns, pid);
      r.Exited? ==>
        && r.at in k && r.at !in st.nodes
        && (k[r.at].NotTty? || k[r.at].OtherErr?)
        && r.reason == FailureReason(prog, k[r.at])
    ensures (forall x :: x in k ==> k[x].Parent? || k[x].NoParentEPERM?) ==>
      AddNamespace(k, prog, st, ns, pid).Added?
    decreases |k.Keys - st.nodes.Keys|
  {
    AddCases(k, prog, st, ns, pid);
    if ns !in st.nodes && k[ns].Parent? {
      AddExit(k, prog, InsertNs(st, ns), k[ns].id, -1);
    }
  }

  /** Inserting a namespace that has a parent: it becomes pending. */
  lemma InsertKeepsInv(k: Kernel, st: NsList, ns: NsId, pending: set<NsId>)
    requires ns in k && ns !in st.nodes && k[ns].Parent?
    requires InvExcept(k, st, pending)
    ensures InvExcept(k, InsertNs(st, ns), pending + {ns})
  {
    var st1 := InsertNs(st, ns);
    forall y | y in st.nodes
      ensures ns !in st.nodes[y].children
    {
      forall i | 0 <= i < |st.nodes[y].children|
        ensures st.nodes[y].children[i] != ns
      {
      }
    }
    forall x | x in st1.nodes && x !in pending + {ns} && k[x].Parent?
      ensures k[x].id in st1.nodes && multiset(st1.nodes[k[x].id].children)[x] == 1
    {
      assert x in st.nodes;
    }
  }

  /** Inserting the initial namespace, recorded as such. */
  lemma InsertInitialKeepsInv(k: Kernel, st: NsList, ns: NsId, pending: set<NsId>)
    requires ns in k && ns !in st.nodes && k[ns].NoParentEPERM?
    requires InvExcept(k, st, pending)
    ensures InvExcept(k, InsertNs(st, ns).(initial := Some(ns)), pending)
  {
    var st1 := InsertNs(st, ns).(initial := Some(ns));
    forall x | x in st1.nodes && x !in pending && k[x].Parent?
      ensures k[x].id in st1.nodes && multiset(st1.nodes[k[x].id].children)[x] == 1
    {
      assert x in st.nodes;
    }
  }

  /** Linking a pending namespace under its parent resolves it. */
  lemma LinkKeepsInv(k: Kernel, st: NsList, q: NsId, ns: NsId, pending: set<NsId>)
    requires InvExcept(k, st, pending)
    requires q in st.nodes && ns in pending && ns in st.nodes && k[ns] == Parent(q)
    ensures InvExcept(k, Link(st, q, ns), pending - {ns})
  {
    var st3 := Link(st, q, ns);
    assert ns !in st.nodes[q].children;
    assert multiset(st3.nodes[q].children) == multiset(st.nodes[q].children) + multiset{ns};
    forall x | x in st3.nodes && x !in pending - {ns} && k[x].Parent?
      ensures k[x].id in st3.nodes && multiset(st3.nodes[k[x].id].children)[x] == 1
    {
    }
    forall y, i | y in st3.nodes && 0 <= i < |st3.nodes[y].children|
      ensures st3.nodes[y].children[i] in st3.nodes && k[st3.nodes[y].children[i]] == Parent(y)
    {
      if y == q && i == |st.nodes[q].children| {
        assert st3.nodes[y].children[i] == ns;
      } else {
        assert st3.nodes[y].children[i] == st.nodes[y].children[i];
      }
    }
    forall x, y | x in pending - {ns} && y in st3.nodes
      ensures x !in st3.nodes[y].children
    {
      assert x !in st.nodes[y].children;
    }
  }

  /** The last step of addNamespace() for a new namespace with a parent. */
  lemma InvStep(k: Kernel, rl: NsList, p: NsId, ns: NsId, pid: int, pending: set<NsId>)
    requires ns !in pending
    requires InvExcept(k, rl, pending + {ns})
    requires p in rl.nodes && ns in rl.nodes && k[ns] == Parent(p)
    ensures InvExcept(k, AddPid(Link(rl, p, ns), ns, pid), pending)
  {
    LinkKeepsInv(k, rl, p, ns, pending + {ns});
    assert pending + {ns} - {ns} == pending;
    AddPidKeepsInv(k, Link(rl, p, ns), ns, pid, pending);
  }

  /** addNamespace() keeps the tree invariant: a namespace inserted by the call
      (and every ancestor it inserts) ends up linked exactly once under its
      parent. */
  lemma {:induction false} AddKeepsInv(k: Kernel, prog: Program, st: NsList, ns: NsId, pid: int, pending: set<NsId>)
    requires Closed(k) && ns in k
    requires InvExcept(k, st, pending)
    ensures AddNamespace(k, prog, st, ns, pid).Added? ==>
      InvExcept(k, AddNamespace(k, prog, st, ns, pid).list, pending)
    decreases |k.Keys - st.nodes.Keys|
  {
    if ns in st.nodes {
      AddPidKeepsInv(k, st, ns, pid, pending);
    } else if k[ns].NoParentEPERM? {
      InsertInitialKeepsInv(k, st, ns, pending);
      AddPidKeepsInv(k, InsertNs(st, ns).(initial := Some(ns)), ns, pid, pending);
    } else if k[ns].Parent? {
      AddCases(k, prog, st, ns, pid);
      var st1 := InsertNs(st, ns);
      InsertKeepsInv(k, st, ns, pending);
      var p := k[ns].id;
      AddKeepsInv(k, prog, st1, p, -1, pending + {ns});
      var rec := AddNamespace(k, prog, st1, p, -1);
      if rec.Added? {
        InvStep(k, rec.list, p, ns, pid, pending);
      }
    }
  }

  /** Only /proc entries whose name starts with a digit 1-9 are processes. */
  function IsPidDir(name: string): (b: bool)
    requires |name| > 0
    ensures b <==> IsDigit(name[0]) && name[0] != '0'
  {
    name[0] >= '1' && name[0] <= '9'
  }

  /** strconv.Atoi on a /proc directory name; the error is ignored by the
      programs, so an unparsable name gives 0 (no PID is recorded). */
  function Atoi(name: string): nat
  {
    if |name| > 0 && AllDigits(name) then ParseDigits(name) else 0
  }

  /** A directory under /proc: its name, and the namespace that opening
      /proc/<name>/ns/pid (or ns/user) refers to, or None if open() failed. */
  datatype ProcEntry = ProcEntry(name: string, ns: Option<NsId>)

  datatype ScanResult =
    | Scanned(list: NsList)
    | OpenFailed(name: string)
    | IoctlExited(at: NsId, reason: ExitReason)

  predicate WellFormedEntries(k: Kernel, entries: seq<ProcEntry>)
  {
    forall i :: 0 <= i < |entries| ==>
      |entries[i].name| > 0 && (entries[i].ns.Some? ==> entries[i].ns.value in k)
  }

  /** The PIDs a scan of `entries` records for namespace x, in /proc order. */
  function PidsIn(entries: seq<ProcEntry>, x: NsId): seq<int>
    requires forall i :: 0 <= i < |entries| ==> |entries[i].name| > 0
  {
    if |entries| == 0 then []
    else
      var e := entries[0];
      (if IsPidDir(e.name) && e.ns == Some(x) && Atoi(e.name) > 0 then [Atoi(e.name) as int] else [])
      + PidsIn(entries[1..], x)
  }

  /** The loop of main(): process every /proc/PID entry in the order
      ioutil.ReadDir returns them (sorted by name); nothing here depends on
      that order. */
  function Scan(k: Kernel, prog: Program, st: NsList, entries: seq<ProcEntry>): (r: ScanResult)
    requires Closed(k) && WellFormedEntries(k, entries)
    ensures r.Scanned? ==> st.nodes.Keys <= r.list.nodes.Keys
    decreases |entries|
  {
    if |entries| == 0 then Scanned(st)
    else
      var e := entries[0];
      if !IsPidDir(e.name) then
        Scan(k, prog, st, entries[1..])
      else if e.ns.None? then
        OpenFailed(e.name)
      else
        match AddNamespace(k, prog, st, e.ns.value, Atoi(e.name))
        case Exited(at, reason) => IoctlExited(at, reason)
        case Added(st1, _) => Scan(k, prog, st1, entries[1..])
  }

  /** Every process's namespace ends up in the map. */
  lemma {:induction false} ScanMembers(k: Kernel, prog: Program, st: NsList, entries: seq<ProcEntry>)
    requires Closed(k) && WellFormedEntries(k, entries)
    ensures var r := Scan(k, prog, st, entries);
      r.Scanned? ==> forall i :: 0 <= i < |entries| && IsPidDir(entries[i].name) ==>
        entries[i].ns.Some? && entries[i].ns.value in r.list.nodes
    decreases |entries|
  {
    if |entries| > 0 {
      var e := entries[0];
      if !IsPidDir(e.name) {
        ScanMembers(k, prog, st, entries[1..]);
        MembersStep(entries, Scan(k, prog, st, entries[1..]));
      } else if e.ns.Some? {
        var a := AddNamespace(k, prog, st, e.ns.value, Atoi(e.name));
        if a.Added? {
          ScanMembers(k, prog, a.list, entries[1..]);
          MembersStep(entries, Scan(k, prog, a.list, entries[1..]));
        }
      }
    }
  }

  /** The scan of the remaining entries covers them, and the first entry is
      covered when it is not a process or its namespace is in the map. */
  lemma MembersStep(entries: seq<ProcEntry>, r: ScanResult)
    requires |entries| > 0 && forall i :: 0 <= i < |entries| ==> |entries[i].name| > 0
    requires r.Scanned? ==> forall i :: 0 <= i < |entries| - 1 && IsPidDir(entries[1..][i].name) ==>
      entries[1..][i].ns.Some? && entries[1..][i].ns.value in r.list.nodes
    requires r.Scanned? && IsPidDir(entries[0].name) ==>
      entries[0].ns.Some? && entries[0].ns.value in r.list.nodes
    ensures r.Scanned? ==> forall i :: 0 <= i < |entries| && IsPidDir(entries[i].name) ==>
      entries[i].ns.Some? && entries[i].ns.value in r.list.nodes
  {
    if r.Scanned? {
      forall i | 0 <= i < |entries| && IsPidDir(entries[i].name)
        ensures entries[i].ns.Some? && entries[i].ns.value in r.list.nodes
      {
        if i > 0 {
          assert entries[i] == entries[1..][i - 1];
        }
      }
    }
  }

  /** Each namespace's PID list is exactly the PIDs of its member processes,
      in /proc order, after those it already had. */
  lemma {:induction false} ScanPids(k: Kernel, prog: Program, st: NsList, entries: seq<ProcEntry>)
    requires Closed(k) && WellFormedEntries(k, entries)
    ensures var r := Scan(k, prog, st, entries);
      r.Scanned? ==> forall x :: x in r.list.nodes ==>
        r.list.nodes[x].pids == (if x in st.nodes then st.nodes[x].pids else []) + PidsIn(entries, x)
    decreases |entries|
  {
    if |entries| > 0 {
      var e := entries[0];
      if !IsPidDir(e.name) {
        ScanPids(k, prog, st, entries[1..]);
        var r := Scan(k, prog, st, entries[1..]);
        forall x ensures PidsIn(entries, x) == PidsIn(entries[1..], x) {
        }
      } else if e.ns.Some? {
        var pid := Atoi(e.name) as int;
        AddPids(k, prog, st, e.ns.value, pid);
        var a := AddNamespace(k, prog, st, e.ns.value, pid);
        if a.Added? {
          ScanPids(k, prog, a.list, entries[1..]);
          PidsScanStep(st, a.list, Scan(k, prog, a.list, entries[1..]), entries, e.ns.value, pid);
        }
      }
    }
  }

  /** One step of the scan: the first entry's PID, then the rest's. */
  lemma PidsScanStep(st: NsList, a: NsList, r: ScanResult, entries: seq<ProcEntry>, ns: NsId, pid: int)
    requires |entries| > 0 && forall i :: 0 <= i < |entries| ==> |entries[i].name| > 0
    requires IsPidDir(entries[0].name) && entries[0].ns == Some(ns) && pid == Atoi(entries[0].name) as int
    requires st.nodes.Keys <= a.nodes.Keys && ns in a.nodes
    requires forall x :: x in a.nodes ==>
      a.nodes[x].pids == (if x in st.nodes then st.nodes[x].pids else []) + NewPids(x, ns, pid)
    requires r.Scanned? ==> a.nodes.Keys <= r.list.nodes.Keys
    requires r.Scanned? ==> forall x :: x in r.list.nodes ==>
      r.list.nodes[x].pids == (if x in a.nodes then a.nodes[x].pids else []) + PidsIn(entries[1..], x)
    ensures r.Scanned? ==> forall x :: x in r.list.nodes ==>
      r.list.nodes[x].pids == (if x in st.nodes then st.nodes[x].pids else []) + PidsIn(entries, x)
  {
    if r.Scanned? {
      forall x | x in r.list.nodes
        ensures r.list.nodes[x].pids == (if x in st.nodes then st.nodes[x].pids else []) + PidsIn(entries, x)
      {
        var before := if x in st.nodes then st.nodes[x].pids else [];
        var mid := if x in a.nodes then a.nodes[x].pids else [];
        assert x in a.nodes ==> mid == before + NewPids(x, ns, pid);
        PidsInCons(entries, x, ns, pid);
        PidsOne(x, ns, pid, PidsIn(entries, x), PidsIn(entries[1..], x), before, mid, r.list.nodes[x].pids, x in a.nodes);
      }
    }
  }

  /** The PIDs recorded for x by a scan whose first entry is a process in
      namespace ns with PID pid. */
  lemma PidsInCons(entries: seq<ProcEntry>, x: NsId, ns: NsId, pid: int)
    requires |entries| > 0 && forall i :: 0 <= i < |entries| ==> |entries[i].name| > 0
    requires IsPidDir(entries[0].name) && entries[0].ns == Some(ns) && pid == Atoi(entries[0].name) as int
    ensures PidsIn(entries, x) == NewPids(x, ns, pid) + PidsIn(entries[1..], x)
  {
  }

  /** The same step for one namespace x, on plain sequences. */
  lemma PidsOne(x: NsId, ns: NsId, pid: int, whole: seq<int>, rest: seq<int>,
                before: seq<int>, mid: seq<int>, after: seq<int>, inA: bool)
    requires whole == NewPids(x, ns, pid) + rest
    requires inA ==> mid == before + NewPids(x, ns, pid)
    requires !inA ==> mid == [] && before == [] && x != ns
    requires after == mid + rest
    ensures after == before + whole
  {
    if inA {
      assert after == (before + NewPids(x, ns, pid)) + rest;
    } else {
      assert NewPids(x, ns, pid) == [];
    }
  }

  /** The scan keeps the tree invariant. */
  lemma {:induction false} ScanKeepsInv(k: Kernel, prog: Program, st: NsList, entries: seq<ProcEntry>)
    requires Closed(k) && WellFormedEntries(k, entries)
    requires Inv(k, st)
    ensures Scan(k, prog, st, entries).Scanned? ==> Inv(k, Scan(k, prog, st, entries).list)
    decreases |entries|
  {
    if |entries| > 0 {
      var e := entries[0];
      if !IsPidDir(e.name) {
        ScanKeepsInv(k, prog, st, entries[1..]);
      } else if e.ns.Some? {
        AddKeepsInv(k, prog, st, e.ns.value, Atoi(e.name), {});
        var a := AddNamespace(k, prog, st, e.ns.value, Atoi(e.name));
        if a.Added? {
          ScanKeepsInv(k, prog, a.list, entries[1..]);
        }
      }
    }
  }
}
