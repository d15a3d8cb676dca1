/** A link table with a dependency cycle that is reported for one order of the table and not for another. */
module NetworkCycles {
  import opened Text
  import opened Network
  import opened Sorting

  /** Two bridges enslaved to each other, the first of which also has a physical port. */
  predicate Mutual(port: Link, first: Link, second: Link) {
    && port.index == 1 && first.index == 2 && second.index == 3
    && port.masterIndex == Some(2) && first.masterIndex == Some(3) && second.masterIndex == Some(2)
    && Physical(port) && port.kind == ""
    && VirtualBridge(first) && VirtualBridge(second)
    && port.name != first.name && port.name != second.name && first.name != second.name
    && WellIdentified(port) && WellIdentified(first) && WellIdentified(second)
  }

  predicate VirtualBridge(link: Link) {
    Eligible(link) && !PhysicalDevicePath(link.devicePath) && link.kind == "bridge"
  }

  function Table(portFirst: bool, port: Link, first: Link, second: Link): seq<Link> {
    if portFirst then [port, second, first] else [second, port, first]
  }

  lemma TableLower(portFirst: bool, port: Link, first: Link, second: Link)
    requires Mutual(port, first, second)
    ensures var t := Table(portFirst, port, first, second);
      && Lower(t, port) == []
      && Lower(t, first) == (if portFirst then [1, 3] else [3, 1])
      && Lower(t, second) == [2]
  {
    var t := Table(portFirst, port, first, second);
    MembersOfThree(t, 2);
    MembersOfThree(t, 3);
  }

  lemma MembersOfThree(t: seq<Link>, master: int)
    requires |t| == 3
    ensures Members(t, master) == Member(t[0], master) + Member(t[1], master) + Member(t[2], master)
  {
    MembersStep(t, 0, master);
    MembersStep(t, 1, master);
    MembersStep(t, 2, master);
    assert t[..3] == t && t[..0] == [];
  }

  function Member(link: Link, master: int): seq<int> {
    if link.masterIndex == Some(master) then [link.index] else []
  }

  lemma TableIsValid(portFirst: bool, port: Link, first: Link, second: Link)
    requires Mutual(port, first, second)
    ensures ValidTable(Table(portFirst, port, first, second))
  {
    var t := Table(portFirst, port, first, second);
    assert t[if portFirst then 0 else 1] == port && t[if portFirst then 1 else 0] == second && t[2] == first;
    assert HasIndex(t, 2) && HasIndex(t, 3);
    forall k | 0 <= k < |t| ensures References(t, t[k]) {
      assert t[k] == port || t[k] == first || t[k] == second;
    }
  }

  lemma TableEdges(portFirst: bool, port: Link, first: Link, second: Link)
    requires Mutual(port, first, second)
    ensures var t := Table(portFirst, port, first, second);
      && Edge(t, 2, 1) && Edge(t, 2, 3) && Edge(t, 3, 2) && IsPhysical(t, 1)
  {
    var t := Table(portFirst, port, first, second);
    TableLower(portFirst, port, first, second);
    assert t[if portFirst then 0 else 1] == port && t[if portFirst then 1 else 0] == second && t[2] == first;
  }

  lemma TableCapable(portFirst: bool, port: Link, first: Link, second: Link)
    requires Mutual(port, first, second)
    ensures var t := Table(portFirst, port, first, second);
      Capable(t, 1) && Capable(t, 2) && Capable(t, 3)
  {
    var t := Table(portFirst, port, first, second);
    TableEdges(portFirst, port, first, second);
    CapableUnfolds(t, 1);
    CapableUnfolds(t, 2);
    CapableUnfolds(t, 3);
  }

  lemma TableHasCycle(portFirst: bool, port: Link, first: Link, second: Link)
    requires Mutual(port, first, second)
    ensures HasCycle(Table(portFirst, port, first, second))
  {
    TableEdges(portFirst, port, first, second);
    assert Path(Table(portFirst, port, first, second), [2, 3, 2]);
  }

  lemma PortFirstAsks(port: Link, first: Link, second: Link, i: int, j: int)
    requires Mutual(port, first, second)
    requires AskedEdge(Table(true, port, first, second), i, j)
    ensures (i == 2 && j == 1) || (i == 3 && j == 2)
  {
    var t := Table(true, port, first, second);
    var k, n :| 0 <= k < |t| && t[k].index == i && Asked(t, t[k], n) && Lower(t, t[k])[n] == j;
    TableLower(true, port, first, second);
    assert t[k] == port || t[k] == second || t[k] == first;
    if t[k] == first {
      PortIsCapable(port, first, second);
      assert Lower(t, t[k])[0] == 1;
    }
  }

  lemma PortIsCapable(port: Link, first: Link, second: Link)
    requires Mutual(port, first, second)
    ensures Capable(Table(true, port, first, second), 1)
  {
    TableCapable(true, port, first, second);
  }

  lemma PortFirstMemo(port: Link, first: Link, second: Link)
    requires Mutual(port, first, second)
    ensures Memo(Table(true, port, first, second), map[1 := true, 2 := true, 3 := true], [1, 2, 3])
  {
    var t := Table(true, port, first, second);
    var order := [1, 2, 3];
    forall n, j | 0 <= n < |order| && AskedEdge(t, order[n], j) ensures j in order[..n] {
      PortFirstAsks(port, first, second, order[n], j);
      assert j in order[..order[n] - 1] by {
        assert order[0] == 1 && order[1] == 2;
      }
    }
    assert Elements(order) == {1, 2, 3};
    TableCapable(true, port, first, second);
  }

  lemma PortFirstIsCollectable(port: Link, first: Link, second: Link)
    requires Mutual(port, first, second)
    ensures Collectable(Table(true, port, first, second))
  {
    var t := Table(true, port, first, second);
    TableIsValid(true, port, first, second);
    PortFirstMemo(port, first, second);
    forall k | 0 <= k < |t| ensures !ReachesAskedCycle(t, t[k].index) {
      assert t[k] == port || t[k] == first || t[k] == second;
      MemoisedReachesNoCycle(t, map[1 := true, 2 := true, 3 := true], [1, 2, 3], t[k].index);
    }
  }

  lemma BridgeFirstIsNotCollectable(port: Link, first: Link, second: Link)
    requires Mutual(port, first, second)
    ensures !Collectable(Table(false, port, first, second))
  {
    var t := Table(false, port, first, second);
    TableLower(false, port, first, second);
    assert t[0] == second && t[2] == first;
    assert Asked(t, t[0], 0) && Asked(t, t[2], 0);
    assert AskedEdge(t, 3, 2) && AskedEdge(t, 2, 3);
    assert AskedCycleFrom(t, 3, [3, 2, 3], 0);
  }

  const PORT := Link(1, "eth0", ETHERNET, 0, "", None, Some(2), None, None, None, "/sys/devices/platform/eth0")
  const FIRST := Link(2, "br0", ETHERNET, 0, "bridge", None, Some(3), None, None, None, "/sys/devices/virtual/br0")
  const SECOND := Link(3, "br1", ETHERNET, 0, "bridge", None, Some(2), None, None, None, "/sys/devices/virtual/br1")

  lemma Identified(link: Link, device: string)
    requires link.index > 0 && link.name != "" && forall i :: 0 <= i < |link.name| ==> ' ' < link.name[i] < '\U{80}'
    requires device != "" && link.devicePath == "/sys/devices/" + device
    ensures WellIdentified(link)
  {
    AsciiIsValidUtf8(link.name);
  }

  lemma PortIsIdentified()
    ensures WellIdentified(PORT)
  {
    assert PORT.devicePath == "/sys/devices/" + "platform/eth0";
    Identified(PORT, "platform/eth0");
  }

  lemma FirstIsIdentified()
    ensures WellIdentified(FIRST)
  {
    assert FIRST.devicePath == "/sys/devices/" + "virtual/br0";
    Identified(FIRST, "virtual/br0");
  }

  lemma SecondIsIdentified()
    ensures WellIdentified(SECOND)
  {
    assert SECOND.devicePath == "/sys/devices/" + "virtual/br1";
    Identified(SECOND, "virtual/br1");
  }

  lemma ExampleNames()
    ensures PORT.name != FIRST.name && PORT.name != SECOND.name && FIRST.name != SECOND.name
  {
    assert FIRST.name[2] == '0' && SECOND.name[2] == '1';
  }

  lemma ExamplePaths()
    ensures PhysicalDevicePath(PORT.devicePath)
    ensures !PhysicalDevicePath(FIRST.devicePath) && !PhysicalDevicePath(SECOND.devicePath)
  {
    assert PORT.devicePath[13] == 'p' && "/sys/devices/virtual/"[13] == 'v';
    assert FIRST.devicePath == "/sys/devices/virtual/" + "br0" && SECOND.devicePath == "/sys/devices/virtual/" + "br1";
  }

  lemma ExampleBridges()
    ensures Physical(PORT) && VirtualBridge(FIRST) && VirtualBridge(SECOND)
  {
    ExamplePaths();
  }

  lemma ExampleIsMutual()
    ensures Mutual(PORT, FIRST, SECOND)
  {
    PortIsIdentified();
    FirstIsIdentified();
    SecondIsIdentified();
    ExampleNames();
    ExampleBridges();
  }

  /** A cycle in the graph need not be reported: with the same three links, the collection succeeds or
      fails depending on the order in which the kernel lists them. */
  lemma CycleReportDependsOnOrder()
    ensures var t, u := Table(true, PORT, FIRST, SECOND), Table(false, PORT, FIRST, SECOND);
      && Elements(t) == Elements(u) && HasCycle(t) && HasCycle(u)
      && Collectable(t) && ValidTable(u) && !Collectable(u)
  {
    ExampleIsMutual();
    TableHasCycle(true, PORT, FIRST, SECOND);
    TableHasCycle(false, PORT, FIRST, SECOND);
    PortFirstIsCollectable(PORT, FIRST, SECOND);
    TableIsValid(false, PORT, FIRST, SECOND);
    BridgeFirstIsNotCollectable(PORT, FIRST, SECOND);
    var u := Table(false, PORT, FIRST, SECOND);
    assert Table(true, PORT, FIRST, SECOND) == [u[1], u[0], u[2]];
  }
}
