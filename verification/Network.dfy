/** Classification of kernel links as externally capable network interfaces.

    `LinkTopology` resolves a link by a memoised depth-first search with a visiting set over
    VLAN-to-lower-link and bond/bridge-to-member edges. The specification is reachability of a
    physical, non-loopback Ethernet link along those edges.
 */
module Network {
  import opened Text
  import opened Outcomes
  import opened Sorting

  const ETHERNET: uint16 := 1
  const LOOPBACK_FLAG: uint32 := 8
  const MAXIMUM_INTERFACES: nat := 64

  datatype Link = Link(
    index: int,
    name: string,
    hardwareType: uint16,
    flags: uint32,
    kind: string,
    linkIndex: Option<int>,
    masterIndex: Option<int>,
    operState: Option<byte>,
    rxBytes: Option<uint64>,
    txBytes: Option<uint64>,
    devicePath: string)

  predicate ValidDevicePath(path: string) {
    "/sys/devices/" <= path && path != "/sys/devices/"
  }

  predicate PhysicalDevicePath(path: string) {
    !("/sys/devices/virtual/" <= path)
  }

  // ----- The dependency graph of a link table -----

  /** The indices of the links enslaved to `master`, in table order. */
  function Members(links: seq<Link>, master: int): seq<int> {
    if links == [] then []
    else
      var front := Members(links[..|links| - 1], master);
      var last := links[|links| - 1];
      if last.masterIndex == Some(master) then front + [last.index] else front
  }

  predicate Loopback(link: Link) {
    (link.flags / LOOPBACK_FLAG) % 2 == 1
  }

  predicate Eligible(link: Link) {
    !Loopback(link) && link.hardwareType == ETHERNET
  }

  predicate Physical(link: Link) {
    Eligible(link) && PhysicalDevicePath(link.devicePath)
  }

  /** The links whose capability decides that of `link`: none unless it is virtual Ethernet. */
  function Lower(links: seq<Link>, link: Link): seq<int> {
    if !Eligible(link) || PhysicalDevicePath(link.devicePath) then []
    else if link.kind == "vlan" then (if link.linkIndex.Some? then [link.linkIndex.value] else [])
    else if link.kind == "bond" || link.kind == "bridge" then Members(links, link.index)
    else []
  }

  predicate ValidIdentity(link: Link) {
    link.index > 0 && link.name != "" && '\0' !in link.name && ValidUtf8(link.name)
  }

  predicate WellIdentified(link: Link) {
    ValidIdentity(link) && ValidDevicePath(link.devicePath)
  }

  ghost predicate HasIndex(links: seq<Link>, index: int) {
    exists k :: 0 <= k < |links| && links[k].index == index
  }

  ghost predicate References(links: seq<Link>, link: Link) {
    && (link.masterIndex.Some? ==> HasIndex(links, link.masterIndex.value))
    && (link.kind == "vlan" ==> link.linkIndex.Some? && HasIndex(links, link.linkIndex.value))
  }

  ghost predicate Distinct(links: seq<Link>) {
    forall i, j :: 0 <= i < j < |links| ==> links[i].index != links[j].index && links[i].name != links[j].name
  }

  /** The link tables from which a topology can be built. */
  ghost predicate ValidTable(links: seq<Link>) {
    && (forall k :: 0 <= k < |links| ==> WellIdentified(links[k]))
    && Distinct(links)
    && (forall k {:trigger References(links, links[k])} :: 0 <= k < |links| ==> References(links, links[k]))
  }

  /** There is an edge from the link with index `i` to the link with index `j`. */
  ghost predicate Edge(links: seq<Link>, i: int, j: int) {
    exists k :: 0 <= k < |links| && links[k].index == i && j in Lower(links, links[k])
  }

  ghost predicate IsPhysical(links: seq<Link>, i: int) {
    exists k :: 0 <= k < |links| && links[k].index == i && Physical(links[k])
  }

  ghost predicate Path(links: seq<Link>, p: seq<int>) {
    p != [] && forall k :: 0 <= k < |p| - 1 ==> Edge(links, p[k], p[k + 1])
  }

  ghost predicate CapablePath(links: seq<Link>, i: int, p: seq<int>) {
    Path(links, p) && p[0] == i && IsPhysical(links, p[|p| - 1])
  }

  /** A physical, non-loopback Ethernet link is reachable from `i`. */
  ghost predicate Capable(links: seq<Link>, i: int) {
    exists p :: CapablePath(links, i, p)
  }

  /** A capable link reaches a link that is Ethernet, does not have the loopback flag (bit 3), and is a device of
      its own: not one below /sys/devices/virtual/. */
  lemma CapableReachesDevice(links: seq<Link>, i: int)
    requires Capable(links, i)
    ensures exists p, k ::
              && Path(links, p) && p[0] == i && 0 <= k < |links| && links[k].index == p[|p| - 1]
              && links[k].hardwareType == 1 && links[k].flags / 8 % 2 == 0
              && !("/sys/devices/virtual/" <= links[k].devicePath)
  {
    var p :| CapablePath(links, i, p);
    var k :| 0 <= k < |links| && links[k].index == p[|p| - 1] && Physical(links[k]);
  }

  // ----- What the short-circuiting search explores -----

  /** The search asks about the members of a bond or bridge in order and stops at the first capable one. */
  ghost predicate AskedEdge(links: seq<Link>, i: int, j: int) {
    exists k, n ::
      && 0 <= k < |links| && links[k].index == i
      && Asked(links, links[k], n) && Lower(links, links[k])[n] == j
  }

  ghost predicate Asked(links: seq<Link>, link: Link, n: int) {
    && 0 <= n < |Lower(links, link)|
    && forall m :: 0 <= m < n ==> !Capable(links, Lower(links, link)[m])
  }

  ghost predicate AskedPath(links: seq<Link>, p: seq<int>) {
    p != [] && forall k :: 0 <= k < |p| - 1 ==> AskedEdge(links, p[k], p[k + 1])
  }

  ghost predicate AskedCycleFrom(links: seq<Link>, i: int, p: seq<int>, k: int) {
    AskedPath(links, p) && p[0] == i && 0 <= k < |p| - 1 && p[k] == p[|p| - 1]
  }

  /** A cycle of asked edges is reachable from `i`. */
  ghost predicate ReachesAskedCycle(links: seq<Link>, i: int) {
    exists p, k :: AskedCycleFrom(links, i, p, k)
  }

  ghost predicate HasCycle(links: seq<Link>) {
    exists p :: Path(links, p) && |p| >= 2 && p[0] == p[|p| - 1]
  }

  // ----- Facts about the graph -----

  lemma {:induction false} MembersAre(links: seq<Link>, master: int, j: int)
    ensures j in Members(links, master)
       <==> exists k :: 0 <= k < |links| && links[k].masterIndex == Some(master) && links[k].index == j
  {
    if links != [] {
      var front := links[..|links| - 1];
      MembersAre(front, master, j);
      forall k | 0 <= k < |front| ensures links[k] == front[k] {}
    }
  }

  lemma MemberIsKnown(links: seq<Link>, master: int, j: int)
    requires j in Members(links, master)
    ensures HasIndex(links, j)
  {
    MembersAre(links, master, j);
  }

  /** Capability is the least fixpoint of its one-step unfolding. */
  lemma CapableUnfolds(links: seq<Link>, i: int)
    ensures Capable(links, i) <==> IsPhysical(links, i) || exists j :: Edge(links, i, j) && Capable(links, j)
  {
    if IsPhysical(links, i) {
      assert CapablePath(links, i, [i]);
    }
    if j :| Edge(links, i, j) && Capable(links, j) {
      var p :| CapablePath(links, j, p);
      var q := [i] + p;
      forall k | 0 <= k < |q| - 1 ensures Edge(links, q[k], q[k + 1]) {
        assert k > 0 ==> q[k] == p[k - 1] && q[k + 1] == p[k];
      }
      assert CapablePath(links, i, q);
    }
    if Capable(links, i) && !IsPhysical(links, i) {
      var p :| CapablePath(links, i, p);
      assert Edge(links, p[0], p[1]);
      forall k | 0 <= k < |p[1..]| - 1 ensures Edge(links, p[1..][k], p[1..][k + 1]) {
        assert Edge(links, p[k + 1], p[k + 2]);
      }
      assert CapablePath(links, p[1], p[1..]);
    }
  }

  /** Any set of links that has every physical link and is closed under the edges backwards has every
      capable link: capability is the smallest such set. */
  lemma {:induction false} CapableIsLeast(links: seq<Link>, closed: set<int>, i: int, p: seq<int>)
    requires forall j :: IsPhysical(links, j) ==> j in closed
    requires forall j, k :: Edge(links, j, k) && k in closed ==> j in closed
    requires CapablePath(links, i, p)
    ensures i in closed
    decreases |p|
  {
    if |p| > 1 {
      assert Edge(links, p[0], p[1]);
      forall k | 0 <= k < |p[1..]| - 1 ensures Edge(links, p[1..][k], p[1..][k + 1]) {
        assert Edge(links, p[k + 1], p[k + 2]);
      }
      CapableIsLeast(links, closed, p[1], p[1..]);
    }
  }

  lemma AskedCycleIsCycle(links: seq<Link>, i: int)
    requires ReachesAskedCycle(links, i)
    ensures HasCycle(links)
  {
    var p, k :| AskedCycleFrom(links, i, p, k);
    var q := p[k..];
    forall m | 0 <= m < |q| - 1 ensures Edge(links, q[m], q[m + 1]) {
      assert AskedEdge(links, p[k + m], p[k + m + 1]);
    }
    assert Path(links, q) && q[0] == q[|q| - 1];
  }

  // ----- The memo -----

  ghost predicate Represents(table: seq<Link>, links: map<int, Link>, members: map<int, seq<int>>) {
    Indexes(table, links) && Groups(table, members)
  }

  ghost predicate Indexes(links: seq<Link>, table: map<int, Link>) {
    && (forall i :: i in table <==> HasIndex(links, i))
    && (forall k :: 0 <= k < |links| ==> links[k].index in table && table[links[k].index] == links[k])
  }

  /** `members` maps each master to the list of its members, masters without any being absent. */
  ghost predicate Groups(links: seq<Link>, members: map<int, seq<int>>) {
    forall i :: Members(links, i) == if i in members then members[i] else []
  }

  /** Every memoised answer is exact, and every link a memoised link asks about was memoised before it. */
  ghost predicate Memo(table: seq<Link>, resolved: map<int, bool>, order: seq<int>) {
    && Elements(order) == resolved.Keys
    && (forall m, n :: 0 <= m < n < |order| ==> order[m] != order[n])
    && (forall i :: i in resolved ==> resolved[i] == Capable(table, i))
    && (forall n, j :: 0 <= n < |order| && AskedEdge(table, order[n], j) ==> j in order[..n])
  }

  lemma ExtendAsked(table: seq<Link>, stack: seq<int>, link: Link, n: int)
    requires AskedPath(table, stack) && stack[|stack| - 1] == link.index && link in table
    requires Asked(table, link, n)
    ensures AskedPath(table, stack + [Lower(table, link)[n]])
  {
    var q := stack + [Lower(table, link)[n]];
    forall k | 0 <= k < |q| - 1 ensures AskedEdge(table, q[k], q[k + 1]) {
      if k < |stack| - 1 {
        assert AskedEdge(table, stack[k], stack[k + 1]);
      }
    }
  }

  /** What the search has learnt about `link` when it stops: `asked` of its lower links answered, all but
      perhaps the last with no, and `result` is the answer. */
  ghost predicate Searched(table: seq<Link>, link: Link, asked: int, result: bool) {
    && 0 <= asked <= |Lower(table, link)|
    && (forall m :: 0 <= m < asked - 1 ==> !Capable(table, Lower(table, link)[m]))
    && (if asked == 0 then result == Physical(link) else result == Capable(table, Lower(table, link)[asked - 1]))
    && (!result ==> asked == |Lower(table, link)|)
  }

  lemma UniqueLink(table: seq<Link>, link: Link, k: int)
    requires ValidTable(table) && link in table && 0 <= k < |table| && table[k].index == link.index
    ensures table[k] == link
  {
  }

  lemma SearchedIsExact(table: seq<Link>, link: Link, asked: int, result: bool)
    requires ValidTable(table) && link in table && Searched(table, link, asked, result)
    ensures result == Capable(table, link.index)
  {
    var i := link.index;
    var lower := Lower(table, link);
    CapableUnfolds(table, i);
    if result {
      if asked > 0 {
        assert Edge(table, i, lower[asked - 1]);
      }
    } else {
      forall j | Edge(table, i, j) ensures j in lower {}
    }
  }

  lemma SearchedAsked(table: seq<Link>, link: Link, asked: int, result: bool, j: int)
    requires ValidTable(table) && link in table && Searched(table, link, asked, result)
    requires AskedEdge(table, link.index, j)
    ensures j in Lower(table, link)[..asked]
  {
    var k, m :| 0 <= k < |table| && table[k].index == link.index && Asked(table, table[k], m)
        && Lower(table, table[k])[m] == j;
    UniqueLink(table, link, k);
    assert m < asked;
    assert Lower(table, link)[..asked][m] == j;
  }

  lemma ResolveNode(table: seq<Link>, link: Link, asked: int, result: bool, resolved: map<int, bool>, order: seq<int>)
    requires ValidTable(table) && link in table && Searched(table, link, asked, result)
    requires Memo(table, resolved, order) && link.index !in resolved
    requires forall m :: 0 <= m < asked ==> Lower(table, link)[m] in resolved
    ensures Memo(table, resolved[link.index := result], order + [link.index])
  {
    SearchedIsExact(table, link, asked, result);
    var order' := order + [link.index];
    forall n, j | 0 <= n < |order'| && AskedEdge(table, order'[n], j) ensures j in order'[..n] {
      if n < |order| {
        assert order'[..n] == order[..n];
      } else {
        assert order'[..n] == order;
        SearchedAsked(table, link, asked, result, j);
      }
    }
  }

  /** The first `n` members have been asked and memoised, none but the last with answer yes. */
  ghost predicate AskedSoFar(table: seq<Link>, all: seq<int>, n: int, result: bool, resolved: map<int, bool>) {
    && 0 <= n <= |all|
    && (forall m :: 0 <= m < n ==> all[m] in resolved)
    && (forall m :: 0 <= m < (if result then n - 1 else n) ==> !Capable(table, all[m]))
    && (result ==> n > 0 && Capable(table, all[n - 1]))
  }

  lemma AskNext(table: seq<Link>, links: map<int, Link>, pending: seq<int>, link: Link, all: seq<int>, n: int,
      resolved: map<int, bool>)
    requires Indexes(table, links) && AskedPath(table, pending) && pending[|pending| - 1] == link.index && link in table
    requires all == Lower(table, link) == Members(table, link.index)
    requires AskedSoFar(table, all, n, false, resolved) && n < |all|
    ensures all[n] in links && AskedPath(table, pending + [all[n]])
  {
    MemberIsKnown(table, link.index, all[n]);
    ExtendAsked(table, pending, link, n);
  }

  lemma AskedNext(table: seq<Link>, all: seq<int>, n: int, external: bool, before: map<int, bool>,
      resolved: map<int, bool>)
    requires AskedSoFar(table, all, n, false, before) && n < |all|
    requires before.Keys <= resolved.Keys && all[n] in resolved && external == Capable(table, all[n])
    ensures AskedSoFar(table, all, n + 1, external, resolved)
  {
  }

  /** No cycle can be reached from a memoised link along asked edges: they only lead to earlier entries. */
  lemma {:induction false} MemoHasNoCycle(table: seq<Link>, resolved: map<int, bool>, order: seq<int>,
      p: seq<int>, at: nat)
    requires Memo(table, resolved, order) && AskedPath(table, p)
    requires at < |order| && order[at] == p[0]
    ensures forall t :: 0 < t < |p| ==> p[t] in order[..at]
    decreases |p|
  {
    if |p| > 1 {
      assert AskedEdge(table, p[0], p[1]);
      var next :| 0 <= next < at && order[next] == p[1];
      forall k | 0 <= k < |p[1..]| - 1 ensures AskedEdge(table, p[1..][k], p[1..][k + 1]) {
        assert AskedEdge(table, p[k + 1], p[k + 2]);
      }
      MemoHasNoCycle(table, resolved, order, p[1..], next);
      forall t | 0 < t < |p| ensures p[t] in order[..at] {
        if t > 1 {
          assert p[t] == p[1..][t - 1] && p[1..][t - 1] in order[..next];
        }
      }
    }
  }

  lemma MemoisedReachesNoCycle(table: seq<Link>, resolved: map<int, bool>, order: seq<int>, i: int)
    requires Memo(table, resolved, order) && i in resolved
    ensures !ReachesAskedCycle(table, i)
  {
    forall p, k | AskedCycleFrom(table, i, p, k) ensures false {
      assert i in order;
      var at :| 0 <= at < |order| && order[at] == i;
      MemoHasNoCycle(table, resolved, order, p, at);
      if k > 0 {
        var mid :| 0 <= mid < at && order[mid] == p[k];
        var q := p[k..];
        forall m | 0 <= m < |q| - 1 ensures AskedEdge(table, q[m], q[m + 1]) {
          assert AskedEdge(table, p[k + m], p[k + m + 1]);
        }
        MemoHasNoCycle(table, resolved, order, q, mid);
      }
    }
  }

  // ----- The resolver -----

  datatype Answer = Resolved(external: bool) | CycleFound | UnknownLink

  class LinkTopology {
    ghost const table: seq<Link>
    const links: map<int, Link>
    const members: map<int, seq<int>>
    var resolved: map<int, bool>
    var visiting: set<int>
    /** The resolved indices in the order in which they were resolved. */
    ghost var order: seq<int>

    constructor (ghost table: seq<Link>, links: map<int, Link>, members: map<int, seq<int>>)
      requires ValidTable(table) && Represents(table, links, members)
      ensures Valid() && this.table == table && this.links == links && this.members == members
      ensures visiting == {} && resolved == map[]
    {
      this.table, this.links, this.members := table, links, members;
      this.resolved, this.visiting, this.order := map[], {}, [];
    }

    ghost predicate Valid()
      reads this
    {
      && ValidTable(table)
      && Represents(table, links, members)
      && resolved.Keys <= links.Keys
      && visiting <= links.Keys
      && resolved.Keys !! visiting
      && Memo(table, resolved, order)
    }

    /** What every query keeps: the tables' meaning, the visiting set and all memoised answers. */
    twostate predicate Kept()
      reads this
    {
      Valid() && visiting == old(visiting) && forall i :: i in old(resolved) ==>
          i in resolved && resolved[i] == old(resolved[i])
    }

    /** Answers a query. `stack` is the chain of pending queries that led to it: empty for a query from outside. */
    method ExternallyCapable(index: int, ghost stack: seq<int>) returns (answer: Answer)
      requires Valid() && visiting == Elements(stack) && AskedPath(table, stack + [index])
      modifies this
      ensures Kept()
      ensures answer.UnknownLink? <==> index !in links
      ensures answer.Resolved? ==>
                && index in resolved && answer.external == resolved[index] == Capable(table, index)
                && !ReachesAskedCycle(table, index)
      ensures answer.CycleFound? ==> ReachesAskedCycle(table, (stack + [index])[0])
      decreases links.Keys - visiting, 0
    {
      if index in resolved {
        MemoisedReachesNoCycle(table, resolved, order, index);
        return Resolved(resolved[index]);
      }
      if index in visiting {
        ghost var k :| 0 <= k < |stack| && stack[k] == index;
        assert AskedCycleFrom(table, (stack + [index])[0], stack + [index], k);
        return CycleFound;
      }
      if index !in links {
        return UnknownLink;
      }
      var link := links[index];
      visiting := visiting + {index};
      var below := Search(link, stack + [index]);
      visiting := visiting - {index};
      if below.Resolved? {
        resolved := resolved[index := below.external];
        order := order + [index];
        MemoisedReachesNoCycle(table, resolved, order, index);
      }
      return below;
    }

    /** The part of a query between marking the link as being visited and unmarking it. */
    method Search(link: Link, ghost pending: seq<int>) returns (answer: Answer)
      requires Valid() && visiting == Elements(pending) && AskedPath(table, pending)
      requires link in table && link.index == pending[|pending| - 1]
      modifies this
      ensures Kept()
      ensures !answer.UnknownLink?
      ensures answer.Resolved? ==> Memo(table, resolved[link.index := answer.external], order + [link.index])
      ensures answer.CycleFound? ==> ReachesAskedCycle(table, pending[0])
      decreases links.Keys - visiting, 2
    {
      if Loopback(link) || link.hardwareType != ETHERNET {
        answer := Resolved(false);
      } else if PhysicalDevicePath(link.devicePath) {
        answer := Resolved(true);
      } else if link.kind == "vlan" {
        ghost var k :| 0 <= k < |table| && table[k] == link;
        assert References(table, table[k]);
        ExtendAsked(table, pending, link, 0);
        answer := ExternallyCapable(link.linkIndex.value, pending);
        if answer.Resolved? {
          ResolveNode(table, link, 1, answer.external, resolved, order);
        }
        return;
      } else if link.kind == "bond" || link.kind == "bridge" {
        answer := AskMembers(link, pending);
        return;
      } else {
        answer := Resolved(false);
      }
      ResolveNode(table, link, 0, answer.external, resolved, order);
    }

    /** The loop over the members of a bond or bridge, left at the first capable one. */
    method AskMembers(link: Link, ghost pending: seq<int>) returns (answer: Answer)
      requires Valid() && visiting == Elements(pending) && AskedPath(table, pending)
      requires link in table && link.index == pending[|pending| - 1]
      requires Lower(table, link) == Members(table, link.index) && !Physical(link)
      modifies this
      ensures Kept()
      ensures !answer.UnknownLink?
      ensures answer.Resolved? ==> Memo(table, resolved[link.index := answer.external], order + [link.index])
      ensures answer.CycleFound? ==> ReachesAskedCycle(table, pending[0])
      decreases links.Keys - visiting, 1
    {
      var all := if link.index in members then members[link.index] else [];
      var result, n := false, 0;
      while n < |all| && !result
        invariant 0 <= n <= |all|
        invariant Kept()
        invariant AskedSoFar(table, all, n, result, resolved)
      {
        AskNext(table, links, pending, link, all, n, resolved);
        ghost var before := resolved;
        var below := ExternallyCapable(all[n], pending);
        if !below.Resolved? {
          return below;
        }
        AskedNext(table, all, n, below.external, before, resolved);
        result, n := below.external, n + 1;
      }
      ResolveNode(table, link, n, result, resolved, order);
      return Resolved(result);
    }
  }

  // ----- Building the topology -----

  datatype Built = Built(topology: LinkTopology) | Refused

  lemma {:induction false} MembersStep(links: seq<Link>, n: nat, master: int)
    requires n < |links|
    ensures Members(links[..n + 1], master)
         == Members(links[..n], master) + if links[n].masterIndex == Some(master) then [links[n].index] else []
  {
    assert links[..n + 1][..n] == links[..n];
  }

  /** The first pass has accepted the first `n` links. */
  ghost predicate Scanned(links: seq<Link>, n: nat, table: map<int, Link>, names: set<string>)
    requires n <= |links|
  {
    && (forall k :: 0 <= k < n ==> WellIdentified(links[k]))
    && Distinct(links[..n]) && Indexes(links[..n], table)
    && (forall name :: name in names <==> exists k :: 0 <= k < n && links[k].name == name)
  }

  lemma ScannedStep(links: seq<Link>, n: nat, table: map<int, Link>, names: set<string>)
    requires n < |links| && Scanned(links, n, table, names)
    requires WellIdentified(links[n]) && links[n].index !in table && links[n].name !in names
    ensures Scanned(links, n + 1, table[links[n].index := links[n]], names + {links[n].name})
  {
    IndexesStep(links, n, table);
    forall i | 0 <= i < n ensures links[i].index != links[n].index && links[i].name != links[n].name {
      assert links[..n][i].index in table;
    }
  }

  lemma ScannedRefused(links: seq<Link>, n: nat, table: map<int, Link>, names: set<string>)
    requires n < |links| && Scanned(links, n, table, names)
    requires !WellIdentified(links[n]) || links[n].index in table || links[n].name in names
    ensures !((forall k :: 0 <= k < |links| ==> WellIdentified(links[k])) && Distinct(links))
  {
    if links[n].index in table {
      var k :| 0 <= k < n && links[..n][k].index == links[n].index;
      assert links[k].index == links[n].index;
    }
  }

  /** The first pass: identities are valid and indices and names unique. */
  method IndexLinks(links: seq<Link>) returns (ok: bool, table: map<int, Link>)
    ensures ok <==> (forall k :: 0 <= k < |links| ==> WellIdentified(links[k])) && Distinct(links)
    ensures ok ==> Indexes(links, table)
  {
    var names: set<string> := {};
    table := map[];
    for n := 0 to |links|
      invariant Scanned(links, n, table, names)
    {
      var link := links[n];
      // Each of these conditions is reported with its own message.
      if !ValidIdentity(link) || link.index in table || link.name in names || !ValidDevicePath(link.devicePath) {
        ScannedRefused(links, n, table, names);
        return false, table;
      }
      ScannedStep(links, n, table, names);
      table, names := table[link.index := link], names + {link.name};
    }
    assert links[..|links|] == links;
    return true, table;
  }

  lemma IndexesStep(links: seq<Link>, n: nat, table: map<int, Link>)
    requires n < |links| && Indexes(links[..n], table) && links[n].index !in table
    ensures Indexes(links[..n + 1], table[links[n].index := links[n]])
  {
    var table' := table[links[n].index := links[n]];
    var longer := links[..n + 1];
    forall i ensures i in table' <==> HasIndex(longer, i) {
      assert longer[n].index == links[n].index;
      if HasIndex(links[..n], i) {
        var k :| 0 <= k < n && links[..n][k].index == i;
        assert longer[k].index == i;
      }
      if HasIndex(longer, i) && i != links[n].index {
        var k :| 0 <= k < |longer| && longer[k].index == i;
        assert links[..n][k].index == i;
      }
    }
    forall k | 0 <= k < |longer| ensures longer[k].index in table' && table'[longer[k].index] == longer[k] {
      if k < n {
        assert longer[k] == links[..n][k];
      }
    }
  }

  predicate RefersWithin(table: map<int, Link>, link: Link) {
    && (link.masterIndex.Some? ==> link.masterIndex.value in table)
    && (link.kind == "vlan" ==> link.linkIndex.Some? && link.linkIndex.value in table)
  }

  lemma RefersWithinTable(links: seq<Link>, table: map<int, Link>, link: Link)
    requires Indexes(links, table)
    ensures RefersWithin(table, link) == References(links, link)
  {
  }

  lemma GroupsStep(links: seq<Link>, n: nat, members: map<int, seq<int>>)
    requires n < |links| && Groups(links[..n], members)
    ensures links[n].masterIndex.None? ==> Groups(links[..n + 1], members)
    ensures links[n].masterIndex.Some? ==>
              var master := links[n].masterIndex.value;
              Groups(links[..n + 1],
                  members[master := (if master in members then members[master] else []) + [links[n].index]])
  {
    forall i ensures Members(links[..n + 1], i)
                  == Members(links[..n], i) + if links[n].masterIndex == Some(i) then [links[n].index] else [] {
      MembersStep(links, n, i);
    }
  }

  /** The second pass: references are known, and members are grouped by master. */
  method GroupMembers(links: seq<Link>, table: map<int, Link>) returns (ok: bool, members: map<int, seq<int>>)
    requires Indexes(links, table)
    ensures ok <==> forall k {:trigger References(links, links[k])} :: 0 <= k < |links| ==> References(links, links[k])
    ensures ok ==> Groups(links, members)
  {
    members := map[];
    for n := 0 to |links|
      invariant forall k {:trigger References(links, links[k])} :: 0 <= k < n ==> References(links, links[k])
      invariant Groups(links[..n], members)
    {
      var link := links[n];
      RefersWithinTable(links, table, link);
      if !RefersWithin(table, link) {
        return false, members;
      }
      GroupsStep(links, n, members);
      if link.masterIndex.Some? {
        var master := link.masterIndex.value;
        members := members[master := (if master in members then members[master] else []) + [link.index]];
      }
    }
    assert links[..|links|] == links;
    return true, members;
  }

  /** Builds the resolver's tables, refusing exactly the tables that are not valid. */
  method NewLinkTopology(links: seq<Link>) returns (built: Built)
    ensures built.Built? <==> ValidTable(links)
    ensures built.Built? ==>
              && fresh(built.topology) && built.topology.Valid() && built.topology.table == links
              && built.topology.visiting == {} && built.topology.resolved == map[]
  {
    var ok, table := IndexLinks(links);
    if !ok {
      return Refused;
    }
    var grouped, members := GroupMembers(links, table);
    if !grouped {
      return Refused;
    }
    var topology := new LinkTopology(links, table, members);
    return Built(topology);
  }

  // ----- Collection -----

  datatype Interface = Interface(name: string, state: Outcome<string>, rxBytes: Outcome<uint64>,
      txBytes: Outcome<uint64>)

  function OperationalState(value: Option<byte>): Outcome<string> {
    if value.None? then Temporary()
    else if value.value == 0 then Good("unknown")
    else if value.value == 6 then Good("up")
    else if value.value <= 5 then Good("down")
    else Temporary()
  }

  function CounterValue(value: Option<uint64>): Outcome<uint64> {
    if value.None? then Temporary() else Good(value.value)
  }

  function Observe(link: Link): Interface {
    Interface(link.name, OperationalState(link.operState), CounterValue(link.rxBytes), CounterValue(link.txBytes))
  }

  /** What is published about a link: its name, its state exactly for the operational states 0 to 6, and its own
      two counters, each exactly if the link has it. */
  predicate Observes(f: Interface, link: Link) {
    && f.name == link.name
    && (f.state.Present? <==> link.operState.Some? && link.operState.value <= 6)
    && (f.state.Present? ==>
          && (f.state.value == "up" <==> link.operState.value == 6)
          && (f.state.value == "unknown" <==> link.operState.value == 0)
          && (f.state.value == "down" <==> 1 <= link.operState.value <= 5))
    && (f.rxBytes.Present? <==> link.rxBytes.Some?) && (f.rxBytes.Present? ==> f.rxBytes.value == link.rxBytes.value)
    && (f.txBytes.Present? <==> link.txBytes.Some?) && (f.txBytes.Present? ==> f.txBytes.value == link.txBytes.value)
    && (!f.state.Present? ==> f.state.reason == TEMPORARILY_UNAVAILABLE)
    && (!f.rxBytes.Present? ==> f.rxBytes.reason == TEMPORARILY_UNAVAILABLE)
    && (!f.txBytes.Present? ==> f.txBytes.reason == TEMPORARILY_UNAVAILABLE)
  }

  lemma ObserveObserves(link: Link)
    ensures Observes(Observe(link), link)
  {
    assert |"up"| == 2 && |"down"| == 4 && |"unknown"| == 7;
  }

  ghost predicate ObservesSome(f: Interface, links: seq<Link>) {
    exists k :: 0 <= k < |links| && Capable(links, links[k].index) && Observes(f, links[k])
  }

  ghost predicate IsObserved(link: Link, s: seq<Interface>) {
    exists f :: f in s && Observes(f, link)
  }

  /** Each interface observes a capable link, and each capable link is observed. */
  ghost predicate ObservesCapable(links: seq<Link>, s: seq<Interface>) {
    && (forall f :: f in s ==> ObservesSome(f, links))
    && (forall k :: 0 <= k < |links| && Capable(links, links[k].index) ==> IsObserved(links[k], s))
  }

  lemma ExactObservesCapable(links: seq<Link>, s: seq<Interface>)
    requires ExactInterfaces(links, s)
    ensures ObservesCapable(links, s)
  {
    forall f | f in s ensures ObservesSome(f, links) {
      var k :| 0 <= k < |links| && Capable(links, links[k].index) && f == Observe(links[k]);
      ObserveObserves(links[k]);
    }
    forall k | 0 <= k < |links| && Capable(links, links[k].index) ensures IsObserved(links[k], s) {
      ObserveObserves(links[k]);
      assert Observe(links[k]) in s;
    }
  }

  predicate ByName(a: Interface, b: Interface) {
    Less(a.name, b.name)
  }

  lemma ByNameIsStrict()
    ensures StrictOrder(ByName)
  {
    forall x: Interface ensures !ByName(x, x) {
      LessIrreflexive(x.name);
    }
    forall x: Interface, y: Interface, z: Interface | ByName(x, y) && ByName(y, z) ensures ByName(x, z) {
      LessTransitive(x.name, y.name, z.name);
    }
  }

  /** `s` lists the observations of exactly the externally capable links of the table, in name order. */
  ghost predicate ExactInterfaces(links: seq<Link>, s: seq<Interface>) {
    && Sorted(s, ByName)
    && |s| <= |links|
    && forall f :: f in s <==> exists k :: 0 <= k < |links| && Capable(links, links[k].index) && f == Observe(links[k])
  }

  ghost predicate Collectable(links: seq<Link>) {
    && |links| <= MAXIMUM_INTERFACES
    && ValidTable(links)
    && forall k :: 0 <= k < |links| ==> !ReachesAskedCycle(links, links[k].index)
  }

  datatype LinksResponse = LinksOk(links: seq<Link>) | LinksErr(err: Failure)

  /** `interfaces` observes the capable links among the first `n`, whose positions are `from`, in table order. */
  ghost predicate Selected(links: seq<Link>, n: nat, interfaces: seq<Interface>, from: seq<int>)
    requires n <= |links|
  {
    && |interfaces| == |from| <= n
    && (forall m :: 0 <= m < |from| ==> 0 <= from[m] < n && interfaces[m] == Observe(links[from[m]]))
    && (forall m, m' :: 0 <= m < m' < |from| ==> from[m] < from[m'])
    && (forall k :: 0 <= k < n ==> (Capable(links, links[k].index) <==> k in from))
  }

  lemma SelectedStep(links: seq<Link>, n: nat, interfaces: seq<Interface>, from: seq<int>)
    requires n < |links| && Selected(links, n, interfaces, from)
    ensures Capable(links, links[n].index) ==> Selected(links, n + 1, interfaces + [Observe(links[n])], from + [n])
    ensures !Capable(links, links[n].index) ==> Selected(links, n + 1, interfaces, from)
  {
  }

  lemma SelectedSorted(links: seq<Link>, interfaces: seq<Interface>, from: seq<int>)
    requires ValidTable(links) && Selected(links, |links|, interfaces, from)
    ensures ExactInterfaces(links, Sort(interfaces, ByName))
  {
    ByNameIsStrict();
    forall i, j | 0 <= i < j < |interfaces|
      ensures ByName(interfaces[i], interfaces[j]) || ByName(interfaces[j], interfaces[i])
    {
      LessTotal(interfaces[i].name, interfaces[j].name);
    }
    SortSorts(interfaces, ByName);
    SortKeepsElements(interfaces, ByName);
    var sorted := Sort(interfaces, ByName);
    forall f ensures f in sorted <==>
        exists k :: 0 <= k < |links| && Capable(links, links[k].index) && f == Observe(links[k])
    {
      assert f in sorted <==> f in Elements(sorted);
      if k :| 0 <= k < |links| && Capable(links, links[k].index) && f == Observe(links[k]) {
        var m :| 0 <= m < |from| && from[m] == k;
        assert interfaces[m] == f;
      }
      if f in interfaces {
        var m :| 0 <= m < |interfaces| && interfaces[m] == f;
        assert from[m] in from;
      }
    }
  }

  /** Queries link number `n` from outside. */
  method Query(topology: LinkTopology, links: seq<Link>, n: nat) returns (answer: Answer)
    requires topology.Valid() && topology.visiting == {} && topology.table == links && n < |links|
    modifies topology
    ensures topology.Valid() && topology.visiting == {}
    ensures answer.Resolved? <==> !ReachesAskedCycle(links, links[n].index)
    ensures answer.Resolved? ==> (answer.external <==> Capable(links, links[n].index))
  {
    answer := topology.ExternallyCapable(links[n].index, []);
  }

  /** Queries every link in table order and collects the capable ones, or stops at the first error. */
  method SelectExternal(topology: LinkTopology, links: seq<Link>)
    returns (ok: bool, interfaces: seq<Interface>, ghost from: seq<int>)
    requires topology.Valid() && topology.visiting == {} && topology.table == links
    modifies topology
    ensures ok <==> forall k :: 0 <= k < |links| ==> !ReachesAskedCycle(links, links[k].index)
    ensures ok ==> Selected(links, |links|, interfaces, from)
  {
    interfaces, from := [], [];
    for n := 0 to |links|
      invariant topology.Valid() && topology.visiting == {}
      invariant forall k :: 0 <= k < n ==> !ReachesAskedCycle(links, links[k].index)
      invariant Selected(links, n, interfaces, from)
    {
      var answer := Query(topology, links, n);
      if !answer.Resolved? {
        return false, [], [];
      }
      SelectedStep(links, n, interfaces, from);
      if answer.external {
        interfaces, from := interfaces + [Observe(links[n])], from + [n];
      }
    }
    return true, interfaces, from;
  }

  method CollectNetwork(ctxErr: Option<Failure>, response: LinksResponse) returns (o: Outcome<seq<Interface>>)
    ensures ctxErr.Some? ==> o == Unavailable(TEMPORARILY_UNAVAILABLE, ctxErr)
    ensures ctxErr.None? && response.LinksErr? ==>
              o == if response.err.tooManyLinks then Unavailable(TEMPORARILY_UNAVAILABLE, Some(response.err))
                   else AcquisitionFailure(Some(response.err), UNSUPPORTED)
    ensures o.Present? <==> ctxErr.None? && response.LinksOk? && Collectable(response.links)
    ensures o.Present? ==> o == Good(o.value) && ExactInterfaces(response.links, o.value)
    ensures o.Present? ==> ObservesCapable(response.links, o.value)
    ensures ctxErr.None? && response.LinksOk? && !Collectable(response.links) ==>
              exists cause :: o == Unavailable(TEMPORARILY_UNAVAILABLE, Some(cause))
  {
    if ctxErr.Some? {
      return Unavailable(TEMPORARILY_UNAVAILABLE, ctxErr);
    }
    if response.LinksErr? {
      if response.err.tooManyLinks {
        return Unavailable(TEMPORARILY_UNAVAILABLE, Some(response.err));
      }
      return AcquisitionFailure(Some(response.err), UNSUPPORTED);
    }
    var links := response.links;
    if |links| > MAXIMUM_INTERFACES {
      return Unavailable(TEMPORARILY_UNAVAILABLE, Some(Failure(false, false, true)));
    }
    var built := NewLinkTopology(links);
    if built.Refused? {
      return Unavailable(TEMPORARILY_UNAVAILABLE, Some(OTHER_FAILURE));
    }
    var ok, interfaces;
    ghost var from;
    ok, interfaces, from := SelectExternal(built.topology, links);
    if !ok {
      return Unavailable(TEMPORARILY_UNAVAILABLE, Some(OTHER_FAILURE));
    }
    SelectedSorted(links, interfaces, from);
    ExactObservesCapable(links, Sort(interfaces, ByName));
    return Good(Sort(interfaces, ByName));
  }

  // ----- Order of the link table -----

  lemma SameEdges(links: seq<Link>, links': seq<Link>, i: int, j: int)
    requires Elements(links) == Elements(links') && Edge(links, i, j)
    ensures Edge(links', i, j)
  {
    var k :| 0 <= k < |links| && links[k].index == i && j in Lower(links, links[k]);
    assert links[k] in Elements(links');
    var k' :| 0 <= k' < |links'| && links'[k'] == links[k];
    MembersAre(links, i, j);
    MembersAre(links', i, j);
    if m :| 0 <= m < |links| && links[m].masterIndex == Some(i) && links[m].index == j {
      assert links[m] in Elements(links');
    }
    assert j in Lower(links', links'[k']);
  }

  lemma SameCapability(links: seq<Link>, links': seq<Link>, i: int)
    requires Elements(links) == Elements(links') && Capable(links, i)
    ensures Capable(links', i)
  {
    var p :| CapablePath(links, i, p);
    forall k | 0 <= k < |p| - 1 ensures Edge(links', p[k], p[k + 1]) {
      SameEdges(links, links', p[k], p[k + 1]);
    }
    var k :| 0 <= k < |links| && links[k].index == p[|p| - 1] && Physical(links[k]);
    assert links[k] in Elements(links');
    assert CapablePath(links', i, p);
  }

  /** Two orderings of the same links that are both collected give the identical interface list. */
  lemma OrderIndependent(links: seq<Link>, links': seq<Link>, s: seq<Interface>, s': seq<Interface>)
    requires Elements(links) == Elements(links')
    requires ExactInterfaces(links, s) && ExactInterfaces(links', s')
    ensures s == s'
  {
    forall f ensures f in s <==> f in s' {
      if f in s {
        SameObservations(links, links', f);
      }
      if f in s' {
        SameObservations(links', links, f);
      }
    }
    ByNameIsStrict();
    SortedIsUnique(s, s', ByName);
  }

  lemma SameObservations(links: seq<Link>, links': seq<Link>, f: Interface)
    requires Elements(links) == Elements(links')
    requires exists k :: 0 <= k < |links| && Capable(links, links[k].index) && f == Observe(links[k])
    ensures exists k :: 0 <= k < |links'| && Capable(links', links'[k].index) && f == Observe(links'[k])
  {
    var k :| 0 <= k < |links| && Capable(links, links[k].index) && f == Observe(links[k]);
    assert links[k] in Elements(links');
    var k' :| 0 <= k' < |links'| && links'[k'] == links[k];
    SameCapability(links, links', links[k].index);
  }

  /** Tables whose dependency graph has no cycle are always collected. */
  lemma AcyclicIsCollectable(links: seq<Link>)
    requires |links| <= MAXIMUM_INTERFACES && ValidTable(links) && !HasCycle(links)
    ensures Collectable(links)
  {
    forall k | 0 <= k < |links| ensures !ReachesAskedCycle(links, links[k].index) {
      if ReachesAskedCycle(links, links[k].index) {
        AskedCycleIsCycle(links, links[k].index);
      }
    }
  }
}
