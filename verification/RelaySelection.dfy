/** graphRider's CalculateFullECDS, run on the flags of a ManetGraph. */
module RelaySelection {
  import opened Meshes
  import opened RelayRules
  import opened RelaySetTheorem
  import opened ManetGraphs

  /** Steps 3 to 6 of graphRider: clear the neighbours' flags, find the greatest neighbour, compare. */
  method ScanNbrs(graph: ManetGraph, useDegree: bool, n0: nat) returns (top: nat, isRelay: bool)
    requires graph.Valid() && n0 in graph.nodes && |graph.adjacency[n0]| > 0
    modifies graph.nodes.Values`visited
    ensures var g := graph.Snapshot(useDegree);
            IsGreatest(g, g.Nbrs(n0), top) && (isRelay <==> BeatsNbrs(g, n0))
    ensures graph.Visited() == old(graph.Visited()) - Members(graph.adjacency[n0])
    ensures graph.Relays() == old(graph.Relays())
  {
    hide *;
    ghost var g := graph.Snapshot(useDegree);
    HopsAreListed(graph, useDegree, n0, n0);
    var nbrs := graph.adjacency[n0];
    top, isRelay := nbrs[0], true;
    assert Members(nbrs[..0]) == {} && NoneAbove(g, nbrs[..0], n0) by {
      ScanStart(g, nbrs, n0);
    }
    for i := 0 to |nbrs|
      invariant graph.Snapshot(useDegree) == g
      invariant graph.Visited() == old(graph.Visited()) - Members(nbrs[..i])
      invariant graph.Relays() == old(graph.Relays())
      invariant top in nbrs && (i > 0 ==> GreatestSoFar(g, nbrs[..i], top))
      invariant isRelay <==> NoneAbove(g, nbrs[..i], n0)
    {
      LinkedNodesKnown(graph, n0, nbrs[i], top);
      graph.SetVisited(nbrs[i], false);
      if i == 0 || graph.Outranks(useDegree, nbrs[i], top) {
        top := nbrs[i];
      }
      if graph.Outranks(useDegree, nbrs[i], n0) {
        isRelay := false;
      }
      PrefixMembers(nbrs, i);
      ScanStep(g, nbrs, i, n0);
    }
    assert nbrs[..|nbrs|] == nbrs;
    ScanDone(g, nbrs, top, n0);
  }

  ghost predicate GreatestSoFar(g: Mesh, s: seq<nat>, top: nat) {
    top in s && forall v :: v in s ==> v == top || g.Above(top, v)
  }

  ghost predicate NoneAbove(g: Mesh, s: seq<nat>, n0: nat) {
    forall v :: v in s ==> !g.Above(v, n0)
  }

  lemma ScanStart(g: Mesh, nbrs: seq<nat>, n0: nat)
    ensures Members(nbrs[..0]) == {} && NoneAbove(g, nbrs[..0], n0)
  {
  }

  lemma ScanStep(g: Mesh, nbrs: seq<nat>, i: nat, n0: nat)
    requires i < |nbrs|
    ensures NoneAbove(g, nbrs[..i + 1], n0) <==> NoneAbove(g, nbrs[..i], n0) && !g.Above(nbrs[i], n0)
    ensures i == 0 ==> GreatestSoFar(g, nbrs[..i + 1], nbrs[i])
    ensures forall top :: GreatestSoFar(g, nbrs[..i], top) ==>
              GreatestSoFar(g, nbrs[..i + 1], if g.Above(nbrs[i], top) then nbrs[i] else top)
  {
    assert nbrs[..i + 1] == nbrs[..i] + [nbrs[i]];
  }

  /** Steps 7 and 8: the worklist search from the greatest neighbour. */
  method PathSearch(graph: ManetGraph, useDegree: bool, n0: nat, top: nat)
    requires graph.Valid() && n0 in graph.nodes && top in graph.nodes && top !in graph.Visited()
    modifies graph.nodes.Values`visited
    ensures graph.Visited() == old(graph.Visited())
                               + FoundSet(graph.Snapshot(useDegree), n0, top, old(graph.Visited()))
    ensures graph.Relays() == old(graph.Relays())
  {
    ghost var g := graph.Snapshot(useDegree);
    ghost var stale := graph.Visited();
    ghost var expanded: set<nat> := {};
    var q := [top];
    graph.SetVisited(top, true);
    SearchStarts(g, n0, top, stale);
    hide SearchState;
    hide Found;
    while q != []
      invariant graph.Snapshot(useDegree) == g
      invariant SearchState(g, n0, top, stale, graph.Visited(), q, expanded)
      invariant graph.Relays() == old(graph.Relays())
      decreases |g.Nodes() - graph.Visited()|, |q|
    {
      ghost var before, head := graph.Visited(), q[0];
      q := Expand(graph, useDegree, n0, q, top, stale, expanded);
      expanded := expanded + {head};
      if graph.Visited() != before {
        FewerLeft(g.Nodes(), before, graph.Visited());
      }
    }
    SearchDone(g, n0, top, stale, graph.Visited(), expanded);
  }

  /** One round of the search: take the head of the queue and follow its links. */
  method Expand(graph: ManetGraph, useDegree: bool, n0: nat, queue: seq<nat>,
                ghost top: nat, ghost stale: set<nat>, ghost expanded: set<nat>) returns (q: seq<nat>)
    requires graph.Valid() && n0 in graph.nodes && queue != []
    requires SearchState(graph.Snapshot(useDegree), n0, top, stale, graph.Visited(), queue, expanded)
    modifies graph.nodes.Values`visited
    ensures SearchState(graph.Snapshot(useDegree), n0, top, stale, graph.Visited(), q, expanded + {queue[0]})
    ensures old(graph.Visited()) <= graph.Visited()
    ensures graph.Visited() == old(graph.Visited()) ==> q == queue[1..]
    ensures graph.Relays() == old(graph.Relays())
  {
    hide *;
    ghost var g := graph.Snapshot(useDegree);
    var x := queue[0];
    QueuedIsFound(g, n0, top, stale, graph.Visited(), queue, expanded);
    ghost var all := queue;
    q := queue[1..];
    HopsAreListed(graph, useDegree, n0, x);
    var nbrs := graph.adjacency[x];
    for i := 0 to |nbrs|
      invariant graph.Snapshot(useDegree) == g
      invariant old(graph.Visited()) <= graph.Visited()
      invariant graph.Relays() == old(graph.Relays())
      invariant graph.Visited() == old(graph.Visited()) ==> q == queue[1..]
      invariant |all| > 0 && all[0] == x && all[1..] == q
      invariant SearchState(g, n0, top, stale, graph.Visited(), all, expanded)
      invariant forall j :: 0 <= j < i && Hop(g, n0, x, nbrs[j]) ==> nbrs[j] in graph.Visited()
    {
      var n := nbrs[i];
      ghost var seen := graph.Visited();
      var follow, expand := FollowLink(graph, useDegree, n0, x, n);
      if follow {
        FlaggedIsNotStale(g, n0, top, stale, seen, all, expanded, n);
        FoundStep(g, n0, top, stale, x, n);
        VisitKeepsState(g, n0, top, stale, seen, all, expanded, n);
        if expand {
          q, all := q + [n], all + [n];
        }
      }
    }
    ExpandKeepsState(g, n0, top, stale, graph.Visited(), all, expanded);
  }

  lemma HopsAreListed(graph: ManetGraph, useDegree: bool, n0: nat, x: nat)
    requires graph.Valid() && x in graph.nodes
    ensures x in graph.adjacency
    ensures forall n :: Hop(graph.Snapshot(useDegree), n0, x, n) ==> n in graph.adjacency[x]
    ensures forall n :: n in graph.adjacency[x] ==> graph.HasEdge(x, n)
  {
  }

  lemma ScanDone(g: Mesh, nbrs: seq<nat>, top: nat, n0: nat)
    requires GreatestSoFar(g, nbrs, top) && g.Nbrs(n0) == Members(nbrs)
    ensures IsGreatest(g, g.Nbrs(n0), top)
    ensures NoneAbove(g, nbrs, n0) <==> BeatsNbrs(g, n0)
  {
  }

  /** The body of the search loop for one adjacency `n` of `x`. */
  method FollowLink(graph: ManetGraph, useDegree: bool, n0: nat, x: nat, n: nat) returns (follow: bool, expand: bool)
    requires graph.Valid() && n0 in graph.nodes && graph.HasEdge(x, n)
    modifies graph.nodes.Values`visited
    ensures var g := graph.Snapshot(useDegree);
            && n in g.Nodes()
            && (follow <==> Hop(g, n0, x, n) && n !in old(graph.Visited()))
            && (follow ==> (expand <==> g.Above(n, n0)))
    ensures follow <==> n != n0 && n !in old(graph.Visited()) && (graph.HasEdge(n0, x) || graph.HasEdge(n0, n))
    ensures graph.Visited() == if follow then old(graph.Visited()) + {n} else old(graph.Visited())
    ensures graph.Relays() == old(graph.Relays())
  {
    ghost var g := graph.Snapshot(useDegree);
    follow, expand := false, false;
    assert g.Edge(x, n);
    if n == n0 {
      return;
    }
    var xIsInN1, nIsInN1 := graph.HasEdge(x, n0), graph.HasEdge(n, n0);
    if !xIsInN1 && !nIsInN1 {
      return;
    }
    if !graph.nodes[n].visited {
      follow := true;
      graph.SetVisited(n, true);
      expand := graph.Outranks(useDegree, n, n0);
    }
  }

  /** Step 9: does some neighbour remain unvisited? */
  method FindUnvisited(graph: ManetGraph, useDegree: bool, n0: nat) returns (missed: bool)
    requires graph.Valid() && n0 in graph.nodes
    ensures missed <==> exists v :: v in graph.Snapshot(useDegree).Nbrs(n0) && v !in graph.Visited()
  {
    var nbrs := graph.adjacency[n0];
    assert forall v :: v in nbrs ==> graph.HasEdge(n0, v) && v in graph.nodes;
    for i := 0 to |nbrs|
      invariant forall j :: 0 <= j < i ==> nbrs[j] in graph.Visited()
    {
      if !graph.nodes[nbrs[i]].visited {
        assert nbrs[i] in graph.Snapshot(useDegree).Nbrs(n0) && nbrs[i] !in graph.Visited();
        return true;
      }
    }
    return false;
  }

  /** graphRider's decision about one node. */
  method RiderDecision(graph: ManetGraph, useDegree: bool, n0: nat) returns (relay: bool)
    requires graph.Valid() && n0 in graph.nodes
    modifies graph.nodes.Values`visited, graph.nodes.Values`relayStatus
    ensures relay <==> RiderElects(graph.Snapshot(useDegree), n0, old(graph.Visited()))
    ensures graph.Visited() == FlagsAfter(graph.Snapshot(useDegree), n0, old(graph.Visited()))
    ensures relay <==> RiderMeans(graph.Snapshot(useDegree), n0, old(graph.Visited()))
    ensures FlagsMean(graph.Snapshot(useDegree), n0, old(graph.Visited()), graph.Visited())
    ensures graph.Relays() == if relay then old(graph.Relays()) + {n0} else old(graph.Relays()) - {n0}
  {
    ghost var g, flags := graph.Snapshot(useDegree), graph.Visited();
    RiderRule(g, n0, flags);
    FlagsRule(g, n0, flags);
    DistinctCount(graph.adjacency[n0]);
    hide *;
    if |graph.adjacency[n0]| < 2 {
      graph.SetRelayStatus(n0, false);
      DecideLeaf(g, n0, flags);
      return false;
    }
    var top, isRelay := ScanNbrs(graph, useDegree, n0);
    if isRelay {
      graph.SetRelayStatus(n0, true);
      DecideGreatest(g, n0, flags);
      return true;
    }
    GreatestIsCleared(g, n0, top, graph.Visited());
    relay := SearchDecision(graph, useDegree, n0, top);
    DecideBySearch(g, n0, top, flags);
  }

  /** Steps 7 to 9: search from the greatest neighbour, then relay if a neighbour stayed unvisited. */
  method SearchDecision(graph: ManetGraph, useDegree: bool, n0: nat, top: nat) returns (relay: bool)
    requires graph.Valid() && n0 in graph.nodes && top in graph.nodes && top !in graph.Visited()
    modifies graph.nodes.Values`visited, graph.nodes.Values`relayStatus
    ensures graph.Visited() == old(graph.Visited())
                               + FoundSet(graph.Snapshot(useDegree), n0, top, old(graph.Visited()))
    ensures relay <==> exists v :: v in graph.Snapshot(useDegree).Nbrs(n0) && v !in graph.Visited()
    ensures graph.Relays() == if relay then old(graph.Relays()) + {n0} else old(graph.Relays()) - {n0}
  {
    hide *;
    PathSearch(graph, useDegree, n0, top);
    relay := FindUnvisited(graph, useDegree, n0);
    graph.SetRelayStatus(n0, relay);
  }

  lemma DecideLeaf(g: Mesh, n0: nat, flags: set<nat>)
    requires |g.Nbrs(n0)| < 2
    ensures !RiderElects(g, n0, flags) && FlagsAfter(g, n0, flags) == flags
  {
  }

  lemma DecideGreatest(g: Mesh, n0: nat, flags: set<nat>)
    requires |g.Nbrs(n0)| >= 2 && BeatsNbrs(g, n0)
    ensures RiderElects(g, n0, flags) && FlagsAfter(g, n0, flags) == flags - g.Nbrs(n0)
  {
  }

  lemma GreatestIsCleared(g: Mesh, n0: nat, top: nat, cleared: set<nat>)
    requires g.Valid() && IsGreatest(g, g.Nbrs(n0), top) && cleared !! g.Nbrs(n0)
    ensures top in g.Nodes() && top !in cleared
  {
    assert g.Edge(n0, top);
  }

  lemma DecideBySearch(g: Mesh, n0: nat, top: nat, flags: set<nat>)
    requires g.Valid() && |g.Nbrs(n0)| >= 2 && !BeatsNbrs(g, n0) && IsGreatest(g, g.Nbrs(n0), top)
    ensures var visited := flags - g.Nbrs(n0) + FoundSet(g, n0, top, flags - g.Nbrs(n0));
            && FlagsAfter(g, n0, flags) == visited
            && (RiderElects(g, n0, flags) <==> exists v :: v in g.Nbrs(n0) && v !in visited)
  {
    assert top == Top(g, n0);
    forall v | v in g.Nbrs(n0)
      ensures v in FoundSet(g, n0, top, flags - g.Nbrs(n0)) <==> Found(g, n0, top, flags - g.Nbrs(n0), v)
    {
      assert g.Edge(n0, v);
    }
  }

  /** GraphRider::CalculateFullECDS. Every node decides from the flags its predecessors left. */
  method CalculateFullECDS(graph: ManetGraph, useDegree: bool) returns (relayList: seq<nat>, numberOfRelays: int)
    requires graph.Valid()
    modifies graph.nodes.Values`visited, graph.nodes.Values`relayStatus
    ensures relayList == RelayListAt(graph.Snapshot(useDegree), graph.ifaces, |graph.ifaces|, old(graph.Visited()))
    ensures numberOfRelays == |relayList| && NoDuplicates(relayList) && Members(relayList) == graph.Relays()
    ensures graph.Visited() == FlagsAt(graph.Snapshot(useDegree), graph.ifaces, |graph.ifaces|, old(graph.Visited()))
    ensures RunMeans(graph.Snapshot(useDegree), graph.ifaces, old(graph.Visited()), relayList)
    ensures exists flags :: Elected(graph.Snapshot(useDegree), graph.Relays(), flags)
    ensures ConnectedDominating(graph.Snapshot(useDegree), graph.Relays())
  {
    ghost var g, start, order := graph.Snapshot(useDegree), graph.Visited(), graph.ifaces;
    hide *;
    OrderCoversNodes(graph);
    relayList, numberOfRelays := [], 0;
    RunStart(g, order, start);
    for i := 0 to |graph.ifaces|
      invariant graph.Snapshot(useDegree) == g
      invariant numberOfRelays == |relayList|
      invariant relayList == RelayListAt(g, order, i, start)
      invariant graph.Visited() == FlagsAt(g, order, i, start)
      invariant StatusMatches(order[..i], graph.Relays(), relayList)
    {
      var iface := graph.ifaces[i];
      ghost var before := graph.Relays();
      var relay := RiderDecision(graph, useDegree, iface);
      StatusStep(order, i, before, relayList, relay);
      RunStep(g, order, i, start);
      if relay {
        numberOfRelays := numberOfRelays + 1;
        relayList := relayList + [iface];
      }
    }
    assert order[..|order|] == order;
    StatusDone(graph, relayList);
    RunIsElection(g, order, start);
    RunHasMeaning(g, order, start);
  }

  /** Every node decided by the walks in its local mesh, over the flags its predecessors left. */
  ghost predicate RunMeans(g: Mesh, order: seq<nat>, start: set<nat>, list: seq<nat>) {
    && FlagsAt(g, order, 0, start) == start
    && forall i :: 0 <= i < |order| ==>
         && (order[i] in list <==> RiderMeans(g, order[i], FlagsAt(g, order, i, start)))
         && FlagsMean(g, order[i], FlagsAt(g, order, i, start), FlagsAt(g, order, i + 1, start))
  }

  lemma RunHasMeaning(g: Mesh, order: seq<nat>, start: set<nat>)
    requires g.Valid() && NoDuplicates(order)
    ensures RunMeans(g, order, start, RelayListAt(g, order, |order|, start))
  {
    forall i | 0 <= i < |order|
      ensures order[i] in RelayListAt(g, order, |order|, start) <==>
              RiderMeans(g, order[i], FlagsAt(g, order, i, start))
      ensures FlagsMean(g, order[i], FlagsAt(g, order, i, start), FlagsAt(g, order, i + 1, start))
    {
      ListedIffElected(g, order, |order|, start, i);
      RunStep(g, order, i, start);
      RiderRule(g, order[i], FlagsAt(g, order, i, start));
      FlagsRule(g, order[i], FlagsAt(g, order, i, start));
    }
  }

  lemma OrderCoversNodes(graph: ManetGraph)
    requires graph.Valid()
    ensures NoDuplicates(graph.ifaces) && Members(graph.ifaces) == graph.nodes.Keys
    ensures forall i :: 0 <= i < |graph.ifaces| ==> graph.ifaces[i] in graph.nodes
    ensures StatusMatches(graph.ifaces[..0], graph.Relays(), [])
  {
    assert forall i :: 0 <= i < |graph.ifaces| ==> graph.ifaces[i] in graph.ifaces;
  }

  /** The status flags of the nodes decided so far are those of the relay list. */
  ghost predicate StatusMatches(decided: seq<nat>, relays: set<nat>, list: seq<nat>) {
    && NoDuplicates(list)
    && (forall v :: v in list ==> v in decided)
    && (forall v :: v in decided ==> (v in relays <==> v in list))
  }

  lemma StatusStep(order: seq<nat>, i: nat, relays: set<nat>, list: seq<nat>, relay: bool)
    requires i < |order| && NoDuplicates(order) && StatusMatches(order[..i], relays, list)
    ensures StatusMatches(order[..i + 1], if relay then relays + {order[i]} else relays - {order[i]},
                          if relay then list + [order[i]] else list)
  {
    assert order[..i + 1] == order[..i] + [order[i]];
    assert order[i] !in order[..i];
  }

  lemma StatusDone(graph: ManetGraph, list: seq<nat>)
    requires graph.Valid() && StatusMatches(graph.ifaces, graph.Relays(), list)
    ensures NoDuplicates(list) && Members(list) == graph.Relays()
  {
    forall v | v in graph.Relays() ensures v in list {
      assert v in graph.ifaces;
    }
  }

  lemma RunStart(g: Mesh, order: seq<nat>, flags: set<nat>)
    ensures FlagsAt(g, order, 0, flags) == flags && RelayListAt(g, order, 0, flags) == []
  {
  }

  lemma RunStep(g: Mesh, order: seq<nat>, i: nat, flags: set<nat>)
    requires i < |order|
    ensures FlagsAt(g, order, i + 1, flags) == FlagsAfter(g, order[i], FlagsAt(g, order, i, flags))
    ensures RelayListAt(g, order, i + 1, flags) ==
            RelayListAt(g, order, i, flags) +
            if RiderElects(g, order[i], FlagsAt(g, order, i, flags)) then [order[i]] else []
  {
  }

  lemma {:induction false} ListedIffElected(g: Mesh, order: seq<nat>, k: nat, flags: set<nat>, j: nat)
    requires j < |order| && k <= |order| && NoDuplicates(order)
    ensures order[j] in RelayListAt(g, order, k, flags) <==>
            j < k && RiderElects(g, order[j], FlagsAt(g, order, j, flags))
    decreases k
  {
    if k > 0 {
      ListedIffElected(g, order, k - 1, flags, j);
    }
  }

  lemma {:induction false} ListedAreNodes(g: Mesh, order: seq<nat>, k: nat, flags: set<nat>)
    requires k <= |order|
    ensures forall v :: v in RelayListAt(g, order, k, flags) ==> v in order
  {
    if k > 0 {
      ListedAreNodes(g, order, k - 1, flags);
    }
  }

  /** A whole run elects by graphRider's rule, each node from some set of starting flags. */
  lemma RunIsElection(g: Mesh, order: seq<nat>, start: set<nat>)
    requires g.Valid() && NoDuplicates(order) && Members(order) == g.Nodes()
    ensures exists flags :: Elected(g, Members(RelayListAt(g, order, |order|, start)), flags)
    ensures ConnectedDominating(g, Members(RelayListAt(g, order, |order|, start)))
  {
    var list := RelayListAt(g, order, |order|, start);
    var flags := map n | n in g.Nodes() :: FlagsAt(g, order, Position(order, n), start);
    ListedAreNodes(g, order, |order|, start);
    forall n | n in g.Nodes() ensures n in list <==> RiderElects(g, n, flags[n]) {
      ListedIffElected(g, order, |order|, start, Position(order, n));
    }
    assert Elected(g, Members(list), flags);
    RelaysFormCDS(g, Members(list), flags);
  }

  ghost function Position(order: seq<nat>, v: nat): (i: nat)
    requires v in order
    ensures i < |order| && order[i] == v
  {
    var i :| 0 <= i < |order| && order[i] == v;
    i
  }

  lemma FewerLeft(all: set<nat>, less: set<nat>, more: set<nat>)
    requires less <= more <= all && less != more
    ensures |all - more| < |all - less|
  {
    var v :| v in more && v !in less;
    assert all - more <= all - less - {v};
    SubsetSize(all - more, all - less - {v});
  }

  lemma {:induction false} SubsetSize(a: set<nat>, b: set<nat>)
    requires a <= b
    ensures |a| <= |b|
  {
    if a != {} {
      var x :| x in a;
      SubsetSize(a - {x}, b - {x});
    }
  }

  /** The search between two steps: what is flagged was found, and found nodes worth expanding
      are queued or had all their hops followed. */
  ghost predicate SearchState(g: Mesh, n0: nat, top: nat, stale: set<nat>,
                              visited: set<nat>, q: seq<nat>, expanded: set<nat>) {
    && stale + {top} <= visited <= g.Nodes() && top !in stale
    && (forall v :: v in visited && v !in stale ==> Found(g, n0, top, stale, v))
    && (forall x :: x in q ==> x in visited && x !in stale && (x == top || g.Above(x, n0)))
    && (forall x :: x in visited && x !in stale && (x == top || g.Above(x, n0)) ==> x in q || x in expanded)
    && (forall x, n :: x in expanded && Hop(g, n0, x, n) ==> n in visited)
  }

  lemma SearchStarts(g: Mesh, n0: nat, top: nat, stale: set<nat>)
    requires top in g.Nodes() && stale <= g.Nodes() && top !in stale
    ensures SearchState(g, n0, top, stale, stale + {top}, [top], {})
  {
    assert SearchWalk(g, n0, top, stale, top, [top]);
  }

  lemma QueuedIsFound(g: Mesh, n0: nat, top: nat, stale: set<nat>,
                      visited: set<nat>, q: seq<nat>, expanded: set<nat>)
    requires SearchState(g, n0, top, stale, visited, q, expanded) && |q| > 0
    ensures q[0] in g.Nodes() && Found(g, n0, top, stale, q[0]) && (q[0] == top || g.Above(q[0], n0))
  {
  }

  lemma FlaggedIsNotStale(g: Mesh, n0: nat, top: nat, stale: set<nat>,
                          visited: set<nat>, q: seq<nat>, expanded: set<nat>, n: nat)
    requires SearchState(g, n0, top, stale, visited, q, expanded) && n !in visited
    ensures n !in stale
  {
  }

  lemma VisitKeepsState(g: Mesh, n0: nat, top: nat, stale: set<nat>,
                        visited: set<nat>, q: seq<nat>, expanded: set<nat>, n: nat)
    requires SearchState(g, n0, top, stale, visited, q, expanded)
    requires n in g.Nodes() && n !in visited && Found(g, n0, top, stale, n)
    ensures SearchState(g, n0, top, stale, visited + {n}, if g.Above(n, n0) then q + [n] else q, expanded)
  {
  }

  lemma ExpandKeepsState(g: Mesh, n0: nat, top: nat, stale: set<nat>,
                         visited: set<nat>, q: seq<nat>, expanded: set<nat>)
    requires SearchState(g, n0, top, stale, visited, q, expanded) && |q| > 0
    requires forall n :: Hop(g, n0, q[0], n) ==> n in visited
    ensures SearchState(g, n0, top, stale, visited, q[1..], expanded + {q[0]})
  {
    assert q == [q[0]] + q[1..];
  }

  lemma SearchDone(g: Mesh, n0: nat, top: nat, stale: set<nat>, visited: set<nat>, expanded: set<nat>)
    requires SearchState(g, n0, top, stale, visited, [], expanded)
    ensures visited == stale + FoundSet(g, n0, top, stale)
  {
    forall v | v in FoundSet(g, n0, top, stale) ensures v in visited {
      var w :| SearchWalk(g, n0, top, stale, v, w);
      FoundWithin(g, n0, top, stale, visited, v, w);
    }
  }
}
