/** graphExample's CalculateFullECDS: step 4 also compares, and clears, the 2-hop neighbours. */
module ExampleSelection {
  import opened Meshes
  import opened RelayRules
  import opened RelaySetTheorem
  import opened ManetGraphs
  import opened RelaySelection

  /** The 2-hop neighbours reached through the neighbour `v`. */
  ghost function SecondHop(g: Mesh, n0: nat, v: nat): set<nat> {
    g.Nbrs(v) - {n0} - g.Nbrs(n0)
  }

  ghost function ClearedBy(g: Mesh, n0: nat, nbrs: seq<nat>): set<nat> {
    if nbrs == [] then {}
    else
      var last := nbrs[|nbrs| - 1];
      ClearedBy(g, n0, nbrs[..|nbrs| - 1]) + {last} + SecondHop(g, n0, last)
  }

  ghost predicate NoneAboveIn(g: Mesh, s: set<nat>, n0: nat) {
    forall v :: v in s ==> !g.Above(v, n0)
  }

  lemma ClearedStep(g: Mesh, n0: nat, nbrs: seq<nat>, i: nat)
    requires i < |nbrs|
    ensures ClearedBy(g, n0, nbrs[..i + 1]) == ClearedBy(g, n0, nbrs[..i]) + {nbrs[i]} + SecondHop(g, n0, nbrs[i])
    ensures ClearedBy(g, n0, nbrs[..0]) == {}
    ensures NoneAboveIn(g, ClearedBy(g, n0, nbrs[..i + 1]), n0) <==>
            && NoneAboveIn(g, ClearedBy(g, n0, nbrs[..i]), n0)
            && !g.Above(nbrs[i], n0) && NoneAboveIn(g, SecondHop(g, n0, nbrs[i]), n0)
  {
    assert nbrs[..i + 1][..i] == nbrs[..i];
  }

  /** Scanning all neighbours clears the whole 2-hop neighbourhood but the node itself. */
  lemma {:induction false} ClearedIsReach(g: Mesh, n0: nat, nbrs: seq<nat>)
    requires forall v :: v in nbrs ==> v in g.Nbrs(n0)
    ensures forall x :: x in ClearedBy(g, n0, nbrs) <==>
              x in nbrs || (x != n0 && x !in g.Nbrs(n0) && exists v :: v in nbrs && x in g.Nbrs(v))
  {
    if nbrs != [] {
      var front, last := nbrs[..|nbrs| - 1], nbrs[|nbrs| - 1];
      ClearedIsReach(g, n0, front);
      assert nbrs == front + [last];
    }
  }

  lemma ScanTwoHopDone(g: Mesh, n0: nat, nbrs: seq<nat>)
    requires g.Nbrs(n0) == Members(nbrs)
    ensures NoneAboveIn(g, ClearedBy(g, n0, nbrs), n0) <==> BeatsTwoHop(g, n0)
    ensures forall x :: x !in ClearedBy(g, n0, nbrs) ==> x !in g.Nbrs(n0) && (x == n0 || !TwoHop(g, n0, x))
  {
    ClearedIsReach(g, n0, nbrs);
    assert forall v :: v in g.Nbrs(n0) <==> v in nbrs;
    forall x | TwoHop(g, n0, x) && x != n0 ensures x in ClearedBy(g, n0, nbrs) {
      var v :| v in g.Nbrs(n0) && x in g.Nbrs(v);
    }
    forall x | x in ClearedBy(g, n0, nbrs) && x !in g.Nbrs(n0) ensures TwoHop(g, n0, x) && x != n0 {
      var v :| v in nbrs && x in g.Nbrs(v);
    }
    if NoneAboveIn(g, ClearedBy(g, n0, nbrs), n0) {
      assert BeatsTwoHop(g, n0);
    }
  }

  /** The inner loop of step 4: the other neighbours of the neighbour `v`. */
  method ScanSecondHop(graph: ManetGraph, useDegree: bool, n0: nat, v: nat) returns (beaten: bool)
    requires graph.Valid() && n0 in graph.nodes && v in graph.nodes
    modifies graph.nodes.Values`visited
    ensures graph.Visited() == old(graph.Visited()) - SecondHop(graph.Snapshot(useDegree), n0, v)
    ensures graph.Relays() == old(graph.Relays())
    ensures var g := graph.Snapshot(useDegree);
            beaten <==> !NoneAboveIn(g, SecondHop(g, n0, v), n0)
  {
    ghost var g := graph.Snapshot(useDegree);
    ghost var done: set<nat> := {};
    beaten := false;
    HopsAreListed(graph, useDegree, n0, v);
    hide *;
    var nbrs := graph.adjacency[v];
    SecondHopStart(g, n0);
    for i := 0 to |nbrs|
      invariant graph.Snapshot(useDegree) == g
      invariant graph.Visited() == old(graph.Visited()) - done
      invariant graph.Relays() == old(graph.Relays())
      invariant done == SecondHopOf(g, n0, nbrs[..i])
      invariant beaten <==> !NoneAboveIn(g, done, n0)
    {
      var n2 := nbrs[i];
      SecondHopStep(g, n0, nbrs, i);
      LinkedNodesKnown(graph, v, n2, n2);
      if n2 != n0 && !graph.HasEdge(n0, n2) {
        graph.SetVisited(n2, false);
        done := done + {n2};
        if graph.Outranks(useDegree, n2, n0) {
          beaten := true;
        }
      }
    }
    assert nbrs[..|nbrs|] == nbrs;
    SecondHopDone(g, n0, v, nbrs);
  }

  ghost function SecondHopOf(g: Mesh, n0: nat, list: seq<nat>): set<nat> {
    Members(list) - {n0} - g.Nbrs(n0)
  }

  lemma SecondHopStart(g: Mesh, n0: nat)
    ensures forall list: seq<nat> :: SecondHopOf(g, n0, list[..0]) == {}
    ensures NoneAboveIn(g, {}, n0)
  {
  }

  lemma SecondHopStep(g: Mesh, n0: nat, list: seq<nat>, i: nat)
    requires i < |list|
    ensures var n2 := list[i];
            && SecondHopOf(g, n0, list[..i + 1]) ==
               SecondHopOf(g, n0, list[..i]) + (if n2 != n0 && !g.Edge(n0, n2) then {n2} else {})
            && (forall s :: NoneAboveIn(g, s + {n2}, n0) <==> NoneAboveIn(g, s, n0) && !g.Above(n2, n0))
  {
    assert list[..i + 1] == list[..i] + [list[i]];
    forall s: set<nat>
      ensures NoneAboveIn(g, s + {list[i]}, n0) <==> NoneAboveIn(g, s, n0) && !g.Above(list[i], n0)
    {
      assert list[i] in s + {list[i]};
    }
  }

  lemma SecondHopDone(g: Mesh, n0: nat, v: nat, nbrs: seq<nat>)
    requires g.Nbrs(v) == Members(nbrs)
    ensures SecondHopOf(g, n0, nbrs) == SecondHop(g, n0, v)
  {
  }

  /** Clears one neighbour and the 2-hop neighbours behind it, and compares all of them. */
  method CheckNbr(graph: ManetGraph, useDegree: bool, n0: nat, v: nat) returns (beaten: bool)
    requires graph.Valid() && n0 in graph.nodes && v in graph.nodes && {n0, v} <= graph.adjacency.Keys
    modifies graph.nodes.Values`visited
    ensures graph.Visited() == old(graph.Visited()) - {v} - SecondHop(graph.Snapshot(useDegree), n0, v)
    ensures graph.Relays() == old(graph.Relays())
    ensures var g := graph.Snapshot(useDegree);
            beaten <==> g.Above(v, n0) || !NoneAboveIn(g, SecondHop(g, n0, v), n0)
  {
    hide *;
    graph.SetVisited(v, false);
    beaten := ScanSecondHop(graph, useDegree, n0, v);
    if graph.Outranks(useDegree, v, n0) {
      beaten := true;
    }
  }

  /** Steps 3 to 6 of graphExample. */
  method ScanTwoHop(graph: ManetGraph, useDegree: bool, n0: nat) returns (top: nat, isRelay: bool)
    requires graph.Valid() && n0 in graph.nodes && |graph.adjacency[n0]| > 0
    modifies graph.nodes.Values`visited
    ensures var g := graph.Snapshot(useDegree);
            IsGreatest(g, g.Nbrs(n0), top) && (isRelay <==> BeatsTwoHop(g, n0))
    ensures graph.Visited() == old(graph.Visited()) -
                               ClearedBy(graph.Snapshot(useDegree), n0, graph.adjacency[n0])
    ensures graph.Relays() == old(graph.Relays())
  {
    hide *;
    ghost var g := graph.Snapshot(useDegree);
    HopsAreListed(graph, useDegree, n0, n0);
    var nbrs := graph.adjacency[n0];
    top, isRelay := nbrs[0], true;
    ClearedStep(g, n0, nbrs, 0);
    SecondHopStart(g, n0);
    for i := 0 to |nbrs|
      invariant graph.Snapshot(useDegree) == g
      invariant graph.Visited() == old(graph.Visited()) - ClearedBy(g, n0, nbrs[..i])
      invariant graph.Relays() == old(graph.Relays())
      invariant top in nbrs && (i > 0 ==> GreatestSoFar(g, nbrs[..i], top))
      invariant isRelay <==> NoneAboveIn(g, ClearedBy(g, n0, nbrs[..i]), n0)
    {
      LinkedNodesKnown(graph, n0, nbrs[i], top);
      ScanStep(g, nbrs, i, n0);
      ClearedStep(g, n0, nbrs, i);
      if i == 0 || graph.Outranks(useDegree, nbrs[i], top) {
        top := nbrs[i];
      }
      var beaten := CheckNbr(graph, useDegree, n0, nbrs[i]);
      if beaten {
        isRelay := false;
      }
    }
    assert nbrs[..|nbrs|] == nbrs;
    ScanDone(g, nbrs, top, n0);
    ScanTwoHopDone(g, n0, nbrs);
  }

  /** graphExample's decision about one node does not depend on the flags it finds. */
  method ExampleDecision(graph: ManetGraph, n0: nat) returns (relay: bool)
    requires graph.Valid() && n0 in graph.nodes
    modifies graph.nodes.Values`visited, graph.nodes.Values`relayStatus
    ensures relay <==> ExampleElects(graph.Snapshot(false), n0)
    ensures relay <==> ExampleMeans(graph.Snapshot(false), n0)
    ensures graph.Relays() == if relay then old(graph.Relays()) + {n0} else old(graph.Relays()) - {n0}
  {
    ghost var g := graph.Snapshot(false);
    DistinctCount(graph.adjacency[n0]);
    ExampleRule(g, n0);
    hide *;
    if |graph.adjacency[n0]| < 2 {
      graph.SetRelayStatus(n0, false);
      LeafDeclines(g, n0);
      return false;
    }
    var top, isRelay := ScanTwoHop(graph, false, n0);
    if isRelay {
      graph.SetRelayStatus(n0, true);
      GreatestElects(g, n0);
      return true;
    }
    ghost var cleared := graph.Visited();
    ScanTwoHopDone(g, n0, graph.adjacency[n0]);
    GreatestIsCleared(g, n0, top, cleared);
    relay := SearchDecision(graph, false, n0, top);
    ElectsBySearch(g, n0, top, cleared);
  }

  lemma LeafDeclines(g: Mesh, n0: nat)
    requires |g.Nbrs(n0)| < 2
    ensures !ExampleElects(g, n0)
  {
  }

  lemma GreatestElects(g: Mesh, n0: nat)
    requires |g.Nbrs(n0)| >= 2 && BeatsTwoHop(g, n0)
    ensures ExampleElects(g, n0)
  {
  }

  lemma ElectsBySearch(g: Mesh, n0: nat, top: nat, stale: set<nat>)
    requires g.Valid() && |g.Nbrs(n0)| >= 2 && !BeatsTwoHop(g, n0) && IsGreatest(g, g.Nbrs(n0), top)
    requires forall x :: x in stale ==> x !in g.Nbrs(n0) && (x == n0 || !TwoHop(g, n0, x))
    ensures ExampleElects(g, n0) <==>
            exists v :: v in g.Nbrs(n0) && v !in stale + FoundSet(g, n0, top, stale)
  {
    assert top == Top(g, n0);
    forall v | v in g.Nbrs(n0)
      ensures v in stale + FoundSet(g, n0, top, stale) <==> Found(g, n0, top, {}, v)
    {
      assert g.Edge(n0, v);
      FlagsOutOfReach(g, n0, top, stale, v);
    }
  }

  /** The nodes of `order` that graphExample's rule elects, in order. */
  ghost function ExampleList(g: Mesh, order: seq<nat>): seq<nat> {
    if order == [] then []
    else
      var n := order[|order| - 1];
      ExampleList(g, order[..|order| - 1]) + if ExampleElects(g, n) then [n] else []
  }

  lemma ExampleListStep(g: Mesh, order: seq<nat>, i: nat)
    requires i <= |order|
    ensures ExampleList(g, order[..0]) == []
    ensures i < |order| ==>
              ExampleList(g, order[..i + 1]) ==
              ExampleList(g, order[..i]) + if ExampleElects(g, order[i]) then [order[i]] else []
  {
    if i < |order| {
      assert order[..i + 1][..i] == order[..i];
    }
  }

  lemma {:induction false} ExampleListMembers(g: Mesh, order: seq<nat>)
    ensures forall n :: n in ExampleList(g, order) <==> n in order && ExampleElects(g, n)
    ensures g.Valid() ==> forall n :: n in ExampleList(g, order) <==> n in order && ExampleMeans(g, n)
  {
    forall n | g.Valid() ensures ExampleElects(g, n) <==> ExampleMeans(g, n) {
      ExampleRule(g, n);
    }
    hide ExampleElects, ExampleMeans;
    if order != [] {
      ExampleListMembers(g, order[..|order| - 1]);
      assert order == order[..|order| - 1] + [order[|order| - 1]];
    }
  }

  lemma ExampleIsElection(g: Mesh, order: seq<nat>)
    requires g.Valid() && Members(order) == g.Nodes()
    ensures ElectedByExample(g, Members(ExampleList(g, order)))
  {
    ExampleListMembers(g, order);
    assert forall n :: n in order <==> n in g.Nodes();
  }

  /** CalculateFullECDS of graphExample: list, count and status flags are exactly the rule. */
  method CalculateExampleECDS(graph: ManetGraph) returns (relayList: seq<nat>, numberOfRelays: int)
    requires graph.Valid()
    modifies graph.nodes.Values`visited, graph.nodes.Values`relayStatus
    ensures relayList == ExampleList(graph.Snapshot(false), graph.ifaces)
    ensures numberOfRelays == |relayList| && NoDuplicates(relayList) && Members(relayList) == graph.Relays()
    ensures ElectedByExample(graph.Snapshot(false), graph.Relays())
  {
    ghost var g := graph.Snapshot(false);
    hide *;
    OrderCoversNodes(graph);
    relayList, numberOfRelays := [], 0;
    ghost var order := graph.ifaces;
    ExampleListStep(g, order, 0);
    for i := 0 to |graph.ifaces|
      invariant graph.Snapshot(false) == g
      invariant numberOfRelays == |relayList|
      invariant relayList == ExampleList(g, order[..i])
      invariant StatusMatches(graph.ifaces[..i], graph.Relays(), relayList)
    {
      var iface := graph.ifaces[i];
      ghost var before := graph.Relays();
      var relay := ExampleDecision(graph, iface);
      StatusStep(graph.ifaces, i, before, relayList, relay);
      ExampleListStep(g, order, i);
      if relay {
        numberOfRelays := numberOfRelays + 1;
        relayList := relayList + [iface];
      }
    }
    assert graph.ifaces[..|graph.ifaces|] == graph.ifaces;
    StatusDone(graph, relayList);
    ExampleIsElection(g, graph.ifaces);
  }
}
