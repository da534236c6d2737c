/** graphRider's main loop body: elect relays, then colour the nodes of the epoch. */
module EpochColoring {
  import EpochReaders
  import opened ManetGraphs
  import opened Meshes
  import opened RelaySelection
  import opened RelaySetTheorem

  datatype Color = Blue | Green | Red

  /** Nodes covered by the relays handled so far. */
  ghost function CoverOf(g: Mesh, list: seq<nat>): set<nat> {
    if list == [] then {}
    else CoverOf(g, list[..|list| - 1]) + {list[|list| - 1]} + g.Nbrs(list[|list| - 1])
  }

  /** Relays handled so far are blue, the other nodes they cover green, nothing else is coloured. */
  ghost predicate Drawn(colors: map<nat, Color>, blue: set<nat>, cover: set<nat>, relays: set<nat>) {
    && (forall v :: v in colors <==> v in blue || (v in cover && v !in relays))
    && (forall v :: v in colors ==> colors[v] == if v in relays then Blue else Green)
  }

  lemma DrawNbr(colors: map<nat, Color>, blue: set<nat>, cover: set<nat>, relays: set<nat>, v: nat)
    requires Drawn(colors, blue, cover, relays)
    ensures Drawn(if v in relays then colors else colors[v := Green], blue, cover + {v}, relays)
  {
  }

  lemma DrawRelay(colors: map<nat, Color>, blue: set<nat>, cover: set<nat>, relays: set<nat>, r: nat)
    requires Drawn(colors, blue, cover, relays) && r in relays
    ensures Drawn(colors[r := Blue], blue + {r}, cover + {r}, relays)
  {
  }

  /** Draws a relay and its neighbours, and takes them off the disconnected list. */
  method ColorRelay(graph: ManetGraph, useDegree: bool, relay: nat, disconnected0: seq<nat>,
                    colors0: map<nat, Color>, ghost blue: set<nat>, ghost cover: set<nat>)
    returns (disconnected: seq<nat>, colors: map<nat, Color>)
    requires graph.Valid() && relay in graph.nodes && relay in graph.Relays()
    requires Drawn(colors0, blue, cover, graph.Relays())
    ensures Drawn(colors, blue + {relay}, cover + {relay} + graph.Snapshot(useDegree).Nbrs(relay), graph.Relays())
    ensures Members(disconnected) == Members(disconnected0) - {relay} - graph.Snapshot(useDegree).Nbrs(relay)
  {
    HopsAreListed(graph, useDegree, relay, relay);
    hide *;
    var nbrs := graph.adjacency[relay];
    disconnected, colors := Without(disconnected0, relay), colors0[relay := Blue];
    ghost var start, base, relays := Members(disconnected0) - {relay}, cover + {relay}, graph.Relays();
    WithoutMembers(disconnected0, relay);
    DrawRelay(colors0, blue, cover, relays, relay);
    NbrsStart(nbrs, start, base);
    for i := 0 to |nbrs|
      invariant Drawn(colors, blue + {relay}, base + Members(nbrs[..i]), relays)
      invariant Members(disconnected) == start - Members(nbrs[..i])
    {
      LinkedNodesKnown(graph, relay, nbrs[i], nbrs[i]);
      WithoutMembers(disconnected, nbrs[i]);
      NbrsStep(nbrs, i, start, base);
      DrawNbr(colors, blue + {relay}, base + Members(nbrs[..i]), relays, nbrs[i]);
      disconnected := Without(disconnected, nbrs[i]);
      RelayFlag(graph, nbrs[i]);
      if !graph.nodes[nbrs[i]].relayStatus {
        colors := colors[nbrs[i] := Green];
      }
    }
    assert nbrs[..|nbrs|] == nbrs;
  }

  lemma WithoutMembers(s: seq<nat>, v: nat)
    ensures Members(Without(s, v)) == Members(s) - {v}
  {
  }

  lemma NbrsStart(nbrs: seq<nat>, start: set<nat>, base: set<nat>)
    ensures base + Members(nbrs[..0]) == base && start - Members(nbrs[..0]) == start
  {
  }

  /** One more neighbour: one more node covered, and one less disconnected. */
  lemma NbrsStep(nbrs: seq<nat>, i: nat, start: set<nat>, base: set<nat>)
    requires i < |nbrs|
    ensures base + Members(nbrs[..i + 1]) == base + Members(nbrs[..i]) + {nbrs[i]}
    ensures start - Members(nbrs[..i + 1]) == start - Members(nbrs[..i]) - {nbrs[i]}
  {
    PrefixMembers(nbrs, i);
  }

  lemma RelayFlag(graph: ManetGraph, v: nat)
    requires v in graph.nodes
    ensures v in graph.Relays() <==> graph.nodes[v].relayStatus
  {
  }

  lemma {:induction false} CoverOfRelays(g: Mesh, list: seq<nat>)
    ensures forall v :: v in CoverOf(g, list) <==> exists r :: r in list && (v == r || g.Edge(r, v))
  {
    if list != [] {
      var front, last := list[..|list| - 1], list[|list| - 1];
      CoverOfRelays(g, front);
      assert forall r :: r in list <==> r in front || r == last;
      forall v | v in CoverOf(g, list) ensures exists r :: r in list && (v == r || g.Edge(r, v)) {
        if v in CoverOf(g, front) {
          var r :| r in front && (v == r || g.Edge(r, v));
          assert r in list;
        } else {
          assert last in list && (v == last || g.Edge(last, v));
        }
      }
    }
  }

  lemma CoverStep(g: Mesh, list: seq<nat>, i: nat)
    requires i < |list|
    ensures CoverOf(g, list[..i + 1]) == CoverOf(g, list[..i]) + {list[i]} + g.Nbrs(list[i])
    ensures CoverOf(g, list[..0]) == {}
  {
    assert list[..i + 1][..i] == list[..i];
  }

  /** What the colours mean: blue relays, green nodes next to one, red nodes in components of one or
      two nodes (with no self link in a pair). */
  ghost predicate ColorsMean(g: Mesh, relays: set<nat>, colors: map<nat, Color>) {
    && colors.Keys == g.Nodes()
    && (forall v :: v in g.Nodes() ==> (colors[v] == Blue <==> v in relays))
    && (forall v :: v in g.Nodes() ==> (colors[v] == Red <==> SmallComponent(g, v)))
  }

  /** One epoch of main: the nodes left on the disconnected list are coloured red. */
  method ColorEpoch(graph: ManetGraph, useDegree: bool)
    returns (relayList: seq<nat>, disconnected: seq<nat>, colors: map<nat, Color>)
    requires graph.Valid()
    modifies graph.nodes.Values`visited, graph.nodes.Values`relayStatus
    ensures Members(relayList) == graph.Relays()
    ensures var g := graph.Snapshot(useDegree);
            && (forall v :: v in disconnected <==> v in g.Nodes() && SmallComponent(g, v))
            && ColorsMean(g, graph.Relays(), colors)
  {
    hide *;
    disconnected := graph.ifaces;
    OrderCoversNodes(graph);
    var count;
    relayList, count := CalculateFullECDS(graph, useDegree);
    ghost var g, relays := graph.Snapshot(useDegree), graph.Relays();
    ghost var flags :| Elected(g, relays, flags);
    colors := map[];
    ColoringStart(g, relays, relayList);
    for i := 0 to |relayList|
      invariant graph.Snapshot(useDegree) == g && graph.Relays() == relays
      invariant Drawn(colors, Members(relayList[..i]), CoverOf(g, relayList[..i]), relays)
      invariant Members(disconnected) == g.Nodes() - CoverOf(g, relayList[..i])
    {
      RelayIsNode(graph, relayList, i);
      disconnected, colors := ColorRelay(graph, useDegree, relayList[i], disconnected, colors,
                                         Members(relayList[..i]), CoverOf(g, relayList[..i]));
      PrefixMembers(relayList, i);
      CoverStep(g, relayList, i);
    }
    assert relayList[..|relayList|] == relayList;
    UncoveredIsSmall(g, relays, flags, relayList);
    ghost var drawn := colors;
    for i := 0 to |disconnected|
      invariant graph.Snapshot(useDegree) == g && graph.Relays() == relays
      invariant colors.Keys == drawn.Keys + Members(disconnected[..i])
      invariant forall v :: v in colors ==> colors[v] == if v in Members(disconnected[..i]) then Red else drawn[v]
    {
      PrefixMembers(disconnected, i);
      colors := colors[disconnected[i] := Red];
    }
    assert disconnected[..|disconnected|] == disconnected;
    RelaysAreNodes(graph, useDegree);
    ColoringDone(g, relays, relayList, disconnected, drawn, colors);
  }

  lemma ColoringStart(g: Mesh, relays: set<nat>, list: seq<nat>)
    ensures Drawn(map[], Members(list[..0]), CoverOf(g, list[..0]), relays)
    ensures CoverOf(g, list[..0]) == {}
  {
  }

  lemma RelayIsNode(graph: ManetGraph, list: seq<nat>, i: nat)
    requires i < |list| && Members(list) == graph.Relays()
    ensures list[i] in graph.nodes && list[i] in graph.Relays()
  {
    assert list[i] in Members(list);
  }

  lemma RelaysAreNodes(graph: ManetGraph, useDegree: bool)
    requires graph.Valid()
    ensures graph.Relays() <= graph.Snapshot(useDegree).Nodes()
  {
  }

  lemma UncoveredIsSmall(g: Mesh, relays: set<nat>, flags: map<nat, set<nat>>, list: seq<nat>)
    requires Elected(g, relays, flags) && Members(list) == relays
    ensures forall v :: v in g.Nodes() ==> (v !in CoverOf(g, list) <==> SmallComponent(g, v))
  {
    forall v | v in g.Nodes() ensures v !in CoverOf(g, list) <==> SmallComponent(g, v) {
      CoverOfRelays(g, list);
      CoveredUnlessOrphan(g, relays, flags, v);
      OrphanIffSmallComponent(g, v);
      assert forall r :: r in list <==> r in relays;
    }
  }

  lemma ColoringDone(g: Mesh, relays: set<nat>, list: seq<nat>, disconnected: seq<nat>,
                     drawn: map<nat, Color>, colors: map<nat, Color>)
    requires g.Valid() && relays <= g.Nodes() && Members(list) == relays
    requires Drawn(drawn, Members(list), CoverOf(g, list), relays)
    requires Members(disconnected) == g.Nodes() - CoverOf(g, list)
    requires forall v :: v in g.Nodes() ==> (v !in CoverOf(g, list) <==> SmallComponent(g, v))
    requires colors.Keys == drawn.Keys + Members(disconnected)
    requires forall v :: v in colors ==> colors[v] == if v in Members(disconnected) then Red else drawn[v]
    ensures forall v :: v in disconnected <==> v in g.Nodes() && SmallComponent(g, v)
    ensures ColorsMean(g, relays, colors)
  {
    CoverOfRelays(g, list);
    assert forall r :: r in list <==> r in relays;
    assert forall v :: v in disconnected <==> v in Members(disconnected);
    forall v | v in drawn ensures v in g.Nodes() && v in CoverOf(g, list) {
      if v !in list {
        var r :| r in list && g.Edge(r, v);
      }
    }
    assert colors.Keys == g.Nodes();
  }

  /** One turn of main's loop: read up to the next epoch and, unless that fails or the input has ended,
      colour the nodes. While ids are fresh the graph coloured is the network read so far. */
  method NextEpoch(rider: EpochReaders.GraphRider, lines: seq<EpochReaders.Line>, useDegree: bool)
    returns (consumed: nat, more: bool, disconnected: seq<nat>, colors: map<nat, Color>)
    requires rider.Valid() && forall line :: line in lines ==> EpochReaders.Numbered(line)
    modifies rider, rider.graph, rider.graph.nodes.Values
    ensures rider.Valid() && consumed <= |lines|
    ensures rider.Net() == EpochReaders.Run(old(rider.Net()), lines[..consumed])
    ensures EpochReaders.Fresh(rider.Net()) ==>
              forall a, b :: a in rider.nodeTree && b in rider.nodeTree ==>
                (rider.graph.Snapshot(useDegree).Edge(rider.nodeTree[a], rider.nodeTree[b]) <==> (a, b) in rider.links)
    ensures more ==>
              var g := rider.graph.Snapshot(useDegree);
              && (forall v :: v in disconnected <==> v in g.Nodes() && SmallComponent(g, v))
              && ColorsMean(g, rider.graph.Relays(), colors)
  {
    hide *;
    var time;
    consumed, time := rider.ReadNextEpoch(lines);
    rider.ValidIs();
    if EpochReaders.Fresh(rider.Net()) {
      rider.SnapshotIsNetwork(useDegree);
    }
    more, disconnected, colors := time >= 0.0, [], map[];
    if more {
      var relayList;
      relayList, disconnected, colors := ColorEpoch(rider.graph, useDegree);
    }
  }
}
