/** graphExample's UpdateGraphFromSpace: links follow node distance, updated incrementally. */
module RangeGraphs {
  import opened ManetGraphs

  const RANGE_MAX: real := 300.0

  /** The space around the nodes: distances, and for every node the iterator's listing from it. */
  datatype Space = Space(dist: (nat, nat) -> real, listing: map<nat, seq<nat>>) {

    /** Every listing names all nodes in non-decreasing distance, which the code asserts. */
    ghost predicate Covers(nodes: set<nat>) {
      && (forall u, v :: dist(u, v) == dist(v, u) && dist(u, u) == 0.0)
      && nodes <= listing.Keys
      && (forall u, v :: u in nodes ==> (v in listing[u] <==> v in nodes))
      && (forall u :: u in nodes ==> Sorted(u))
    }

    ghost predicate Sorted(u: nat)
      requires u in listing
    {
      forall i, j :: 0 <= i < j < |listing[u]| ==> dist(u, listing[u][i]) <= dist(u, listing[u][j])
    }

    predicate InRange(u: nat, v: nat) {
      dist(u, v) <= RANGE_MAX
    }

    /** The links of `u` after its turn. A self link goes only if some node is out of range. */
    ghost predicate Wanted(nodes: set<nat>, u: nat, v: nat, selfLink: bool) {
      if u == v then selfLink && forall x :: x in nodes ==> InRange(u, x)
      else v in nodes && InRange(u, v)
    }
  }

  ghost predicate SymmetricLinks(links: set<(nat, nat)>) {
    forall x: nat, y: nat :: (x, y) in links ==> (y, x) in links
  }

  /** Midway through the turn of `u`, with the in-range nodes `met` so far: every node met is linked,
      and `former` holds the old neighbours not met. */
  ghost predicate Midway(before: set<(nat, nat)>, links: set<(nat, nat)>, former: set<nat>, u: nat, met: set<nat>) {
    && (forall v: nat :: v in former <==> (u, v) in before && (v == u || v !in met))
    && (forall x: nat, y: nat :: (x, y) in links <==>
          (x, y) in before || (x == u && y != u && y in met) || (y == u && x != u && x in met))
  }

  lemma MeetNode(before: set<(nat, nat)>, links: set<(nat, nat)>, former: set<nat>, u: nat, met: set<nat>, nbr: nat)
    requires SymmetricLinks(before) && Midway(before, links, former, u, met)
    ensures Midway(before,
                   if nbr != u && nbr !in former then links + {(u, nbr), (nbr, u)} else links,
                   if nbr != u then former - {nbr} else former, u, met + {nbr})
  {
  }

  ghost function PairsWith(u: nat, s: set<nat>): set<(nat, nat)> {
    (set v | v in s :: (u, v)) + (set v | v in s :: (v, u))
  }

  /** After the turn of `u` its links are the wanted ones and no other link has changed. */
  ghost predicate TurnDone(space: Space, nodes: set<nat>, u: nat, before: set<(nat, nat)>, links: set<(nat, nat)>) {
    && (forall v: nat :: (u, v) in links <==> space.Wanted(nodes, u, v, (u, u) in before))
    && (forall x: nat, y: nat :: x != u && y != u ==> ((x, y) in links <==> (x, y) in before))
  }

  lemma TurnEnds(space: Space, nodes: set<nat>, u: nat, before: set<(nat, nat)>, links: set<(nat, nat)>,
                 former: set<nat>, met: set<nat>, beyond: bool)
    requires SymmetricLinks(before) && Midway(before, links, former, u, met) && u in nodes
    requires forall v: nat :: (u, v) in before ==> v in nodes
    requires forall v :: v in met <==> v in nodes && space.InRange(u, v)
    requires beyond <==> exists x :: x in nodes && !space.InRange(u, x)
    ensures TurnDone(space, nodes, u, before, if beyond then links - PairsWith(u, former) else links)
  {
  }

  /** The turn of one node. `nbrList` holds former neighbours not met yet in the listing. */
  method UpdateNode(graph: ManetGraph, space: Space, u: nat)
    requires graph.Valid() && u in graph.nodes && space.Covers(graph.nodes.Keys)
    modifies graph`adjacency
    ensures graph.Valid()
    ensures TurnDone(space, graph.nodes.Keys, u, old(graph.Links()), graph.Links())
  {
    hide *;
    ghost var before := graph.Links();
    TurnStarts(graph, space, u);
    var nbrList := graph.adjacency[u];
    var listing := space.listing[u];
    var i := 0;
    while i < |listing| && space.dist(u, listing[i]) <= RANGE_MAX
      invariant i <= |listing| && graph.Valid()
      invariant forall j :: 0 <= j < i ==> space.dist(u, listing[j]) <= RANGE_MAX
      invariant Midway(before, graph.Links(), Members(nbrList), u, Members(listing[..i]))
    {
      PrefixMembers(listing, i);
      nbrList := MeetNbr(graph, u, listing[i], nbrList, before, Members(listing[..i]));
      i := i + 1;
    }
    ghost var beyond := i < |listing|;
    MetInRange(space, graph.nodes.Keys, u, i);
    TurnEnds(space, graph.nodes.Keys, u, before, graph.Links(), Members(nbrList), Members(listing[..i]), beyond);
    if i < |listing| {
      NbrListKnown(graph.nodes.Keys, before, graph.Links(), nbrList, u, Members(listing[..i]));
      DropFormer(graph, u, nbrList);
    }
  }

  /** Disconnects the former neighbours that are out of range. */
  method DropFormer(graph: ManetGraph, u: nat, nbrList: seq<nat>)
    requires graph.Valid() && u in graph.nodes && forall k :: 0 <= k < |nbrList| ==> nbrList[k] in graph.nodes
    modifies graph`adjacency
    ensures graph.Valid()
    ensures graph.Links() == old(graph.Links()) - PairsWith(u, Members(nbrList))
  {
    hide *;
    PairsStart(u, nbrList);
    for k := 0 to |nbrList|
      invariant graph.Valid()
      invariant graph.Links() == old(graph.Links()) - PairsWith(u, Members(nbrList[..k]))
    {
      graph.Disconnect(u, nbrList[k]);
      PairsStep(u, nbrList, k);
    }
    assert nbrList[..|nbrList|] == nbrList;
  }

  /** One node within range: link it, or take it off the list of former neighbours. */
  method MeetNbr(graph: ManetGraph, u: nat, nbr: nat, nbrList: seq<nat>,
                 ghost before: set<(nat, nat)>, ghost met: set<nat>)
    returns (rest: seq<nat>)
    requires graph.Valid() && u in graph.nodes && nbr in graph.nodes
    requires SymmetricLinks(before) && Midway(before, graph.Links(), Members(nbrList), u, met)
    modifies graph`adjacency
    ensures graph.Valid()
    ensures Midway(before, graph.Links(), Members(rest), u, met + {nbr})
  {
    MeetNode(before, graph.Links(), Members(nbrList), u, met, nbr);
    assert Members(Without(nbrList, nbr)) == Members(nbrList) - {nbr};
    assert nbr !in nbrList ==> Members(nbrList) - {nbr} == Members(nbrList);
    hide *;
    rest := nbrList;
    if nbr != u {
      if nbr !in nbrList {
        graph.Connect(u, nbr);
      } else {
        rest := Without(nbrList, nbr);
      }
    }
  }

  lemma TurnStarts(graph: ManetGraph, space: Space, u: nat)
    requires graph.Valid() && u in graph.nodes && space.Covers(graph.nodes.Keys)
    ensures u in graph.adjacency && u in space.listing
    ensures forall v :: v in space.listing[u] <==> v in graph.nodes
    ensures SymmetricLinks(graph.Links())
    ensures forall v: nat :: (u, v) in graph.Links() ==> v in graph.nodes.Keys
    ensures Midway(graph.Links(), graph.Links(), Members(graph.adjacency[u]), u, Members(space.listing[u][..0]))
  {
  }

  lemma NbrListKnown(nodes: set<nat>, before: set<(nat, nat)>, links: set<(nat, nat)>, nbrList: seq<nat>,
                     u: nat, met: set<nat>)
    requires Midway(before, links, Members(nbrList), u, met)
    requires forall v: nat :: (u, v) in before ==> v in nodes
    ensures forall k :: 0 <= k < |nbrList| ==> nbrList[k] in nodes
  {
    forall k | 0 <= k < |nbrList| ensures nbrList[k] in nodes {
      assert nbrList[k] in Members(nbrList);
    }
  }

  lemma PairsStart(u: nat, list: seq<nat>)
    ensures PairsWith(u, Members(list[..0])) == {}
  {
  }

  lemma PairsStep(u: nat, list: seq<nat>, k: nat)
    requires k < |list|
    ensures PairsWith(u, Members(list[..k + 1])) == PairsWith(u, Members(list[..k])) + {(u, list[k]), (list[k], u)}
  {
    PrefixMembers(list, k);
  }

  /** When the listing leaves the range or ends, the nodes met are exactly those in range. */
  lemma MetInRange(space: Space, nodes: set<nat>, u: nat, i: nat)
    requires space.Covers(nodes) && u in nodes && i <= |space.listing[u]|
    requires forall j :: 0 <= j < i ==> space.dist(u, space.listing[u][j]) <= RANGE_MAX
    requires i < |space.listing[u]| ==> space.dist(u, space.listing[u][i]) > RANGE_MAX
    ensures forall v :: v in Members(space.listing[u][..i]) <==> v in nodes && space.InRange(u, v)
    ensures i < |space.listing[u]| <==> exists x :: x in nodes && !space.InRange(u, x)
  {
    var listing := space.listing[u];
    assert space.Sorted(u);
    assert forall j :: 0 <= j < |listing| ==> listing[j] in nodes;
    forall j | i <= j < |listing| ensures !space.InRange(u, listing[j]) {
      assert i < j ==> space.dist(u, listing[i]) <= space.dist(u, listing[j]);
    }
    if i < |listing| {
      assert listing[i] in nodes && !space.InRange(u, listing[i]);
    }
  }

  /** Turns taken so far leave the nodes in `done` with the wanted links. */
  ghost predicate Updated(space: Space, nodes: set<nat>, done: set<nat>,
                          before: set<(nat, nat)>, links: set<(nat, nat)>) {
    && (forall u: nat, v: nat :: u in done ==> ((u, v) in links <==> space.Wanted(nodes, u, v, (u, u) in before)))
    && (forall u: nat :: u !in done ==> ((u, u) in links <==> (u, u) in before))
  }

  lemma TurnExtends(space: Space, nodes: set<nat>, done: set<nat>, start: set<(nat, nat)>,
                    links: set<(nat, nat)>, u: nat, next: set<(nat, nat)>)
    requires space.Covers(nodes) && done <= nodes && u in nodes && u !in done
    requires Updated(space, nodes, done, start, links) && TurnDone(space, nodes, u, links, next)
    requires SymmetricLinks(next)
    ensures Updated(space, nodes, done + {u}, start, next)
  {
    forall x: nat, v: nat | x in done + {u}
      ensures (x, v) in next <==> space.Wanted(nodes, x, v, (x, x) in start)
    {
      if x != u && v == u {
        assert (x, u) in next <==> (u, x) in next;
        assert space.dist(u, x) == space.dist(x, u);
      }
    }
  }

  /** Whatever symmetric graph it starts from, the update ends with the links recomputed from distances. */
  method UpdateGraphFromSpace(graph: ManetGraph, space: Space)
    requires graph.Valid() && space.Covers(graph.nodes.Keys)
    modifies graph`adjacency
    ensures graph.Valid()
    ensures Updated(space, graph.nodes.Keys, graph.nodes.Keys, old(graph.Links()), graph.Links())
    ensures forall u, v :: u in graph.nodes && v in graph.nodes && u != v ==>
              (graph.HasEdge(u, v) <==> space.dist(u, v) <= 300.0)
    ensures forall u: nat :: u in graph.nodes ==>
              (graph.HasEdge(u, u) <==>
               (u, u) in old(graph.Links()) && forall x :: x in graph.nodes ==> space.dist(u, x) <= 300.0)
  {
    ghost var start, nodes := graph.Links(), graph.nodes.Keys;
    OrderOf(graph);
    UpdateStarts(space, nodes, start, graph.ifaces);
    hide *;
    for k := 0 to |graph.ifaces|
      invariant graph.Valid()
      invariant Updated(space, nodes, Members(graph.ifaces[..k]), start, graph.Links())
    {
      ghost var links := graph.Links();
      OrderStep(graph, k);
      UpdateNode(graph, space, graph.ifaces[k]);
      LinksSymmetric(graph);
      TurnExtends(space, nodes, Members(graph.ifaces[..k]), start, links, graph.ifaces[k], graph.Links());
    }
    assert graph.ifaces[..|graph.ifaces|] == graph.ifaces;
    UpdateMeans(graph, space, start);
  }

  /** Two nodes are linked exactly if their distance is at most 300; a self link stays exactly if no node
      is farther away. */
  lemma UpdateMeans(graph: ManetGraph, space: Space, start: set<(nat, nat)>)
    requires graph.Valid() && Updated(space, graph.nodes.Keys, graph.nodes.Keys, start, graph.Links())
    ensures forall u, v :: u in graph.nodes && v in graph.nodes && u != v ==>
              (graph.HasEdge(u, v) <==> space.dist(u, v) <= 300.0)
    ensures forall u: nat :: u in graph.nodes ==>
              (graph.HasEdge(u, u) <==> (u, u) in start && forall x :: x in graph.nodes ==> space.dist(u, x) <= 300.0)
  {
    hide ManetGraph.Valid;
    forall u: nat, v: nat | u in graph.nodes && v in graph.nodes
      ensures graph.HasEdge(u, v) <==> space.Wanted(graph.nodes.Keys, u, v, (u, u) in start)
    {
      assert graph.HasEdge(u, v) <==> (u, v) in graph.Links();
    }
  }

  lemma OrderOf(graph: ManetGraph)
    requires graph.Valid()
    ensures Members(graph.ifaces) == graph.nodes.Keys
  {
  }

  lemma UpdateStarts(space: Space, nodes: set<nat>, start: set<(nat, nat)>, order: seq<nat>)
    ensures Updated(space, nodes, Members(order[..0]), start, start)
  {
  }

  lemma OrderStep(graph: ManetGraph, k: nat)
    requires graph.Valid() && k < |graph.ifaces|
    ensures graph.ifaces[k] in graph.nodes && graph.ifaces[k] !in Members(graph.ifaces[..k])
    ensures Members(graph.ifaces[..k]) <= graph.nodes.Keys
    ensures Members(graph.ifaces[..k + 1]) == Members(graph.ifaces[..k]) + {graph.ifaces[k]}
  {
    PrefixMembers(graph.ifaces, k);
    assert forall j :: 0 <= j < |graph.ifaces| ==> graph.ifaces[j] in graph.ifaces;
  }

  lemma LinksSymmetric(graph: ManetGraph)
    requires graph.Valid()
    ensures SymmetricLinks(graph.Links())
  {
  }
}
