/** GraphRider::ReadNextEpoch: node id allocation and link state, driven by parsed SDT lines. */
module EpochReaders {
  import opened ManetGraphs

  const ID_SPACE: nat := 0x1_0000_0000    // UINT32

  datatype Option<T> = None | Some(value: T)

  /** A parsed input line, or the reader's failure to get one. `number` is the numeric part of a node
      name, if it has one. */
  datatype Line =
    | Wait(time: real)
    | NodeLine(name: string, number: Option<nat>)
    | Link(from: string, to: string)
    | Unlink(from: string, to: string)
    | Malformed
    | Unreadable
    | Other

  datatype Network = Network(ids: map<string, nat>, index: nat, links: set<(string, string)>)

  /** The id a new node gets: its number unless taken or missing, otherwise the running index. */
  function AssignedId(net: Network, number: Option<nat>): nat {
    if number.Some? && number.value !in net.ids.Values then number.value else net.index
  }

  function AddNode(net: Network, name: string, number: Option<nat>): Network {
    if name in net.ids then net
    else
      var id := AssignedId(net, number);
      var index := if number.Some? && number.value !in net.ids.Values then net.index else (net.index + 1) % ID_SPACE;
      Network(net.ids[name := id], if id >= index then (id + 1) % ID_SPACE else index, net.links)
  }

  /** One line's effect, or None where ReadNextEpoch gives up with an error. */
  function Apply(net: Network, line: Line): Option<Network> {
    match line
    case NodeLine(name, number) => Some(AddNode(net, name, number))
    case Link(a, b) =>
      if a in net.ids && b in net.ids then Some(net.(links := net.links + {(a, b), (b, a)})) else None
    case Unlink(a, b) =>
      if a in net.ids && b in net.ids then Some(net.(links := net.links - {(a, b), (b, a)})) else None
    case Malformed => None
    case Unreadable => None
    case _ => Some(net)
  }

  /** A new name gets the number in it if no node has that, and the running index otherwise; the index
      ends up beyond every id given, short of a wrap. */
  lemma NewNodeId(net: Network, name: string, number: Option<nat>)
    requires net.index < 0x1_0000_0000 && name !in net.ids
    ensures var next := AddNode(net, name, number);
            && next.links == net.links && next.ids.Keys == net.ids.Keys + {name}
            && (forall other :: other in net.ids ==> next.ids[other] == net.ids[other])
            && (number.Some? && (forall other :: other in net.ids ==> net.ids[other] != number.value) ==>
                  && next.ids[name] == number.value
                  && next.index == if number.value < net.index then net.index
                                   else (number.value + 1) % 0x1_0000_0000)
            && (number == None || (exists other :: other in net.ids && net.ids[other] == number.value) ==>
                  && next.ids[name] == net.index
                  && next.index == if net.index == 0xffff_ffff then 0 else net.index + 1)
  {
    if number.Some? {
      assert number.value in net.ids.Values <==> exists other :: other in net.ids && net.ids[other] == number.value;
    }
  }

  /** The lines that end in an error: what is malformed or cannot be read, and links of unknown nodes. */
  lemma FailingLines(net: Network, line: Line)
    ensures Apply(net, line).None? <==>
            || line == Malformed || line == Unreadable
            || (line.Link? && (line.from !in net.ids || line.to !in net.ids))
            || (line.Unlink? && (line.from !in net.ids || line.to !in net.ids))
  {
  }

  /** The state after the lines up to the first failing one. */
  function Run(net: Network, lines: seq<Line>): Network {
    if lines == [] then net
    else
      match Apply(Run(net, lines[..|lines| - 1]), lines[|lines| - 1])
      case Some(next) => next
      case None => Run(net, lines[..|lines| - 1])
  }

  lemma RunStep(net: Network, lines: seq<Line>)
    ensures Run(net, lines[..0]) == net
    ensures forall k :: 0 <= k < |lines| ==>
              Run(net, lines[..k + 1]) ==
              match Apply(Run(net, lines[..k]), lines[k]) case Some(next) => next case None => Run(net, lines[..k])
  {
    assert forall k :: 0 <= k < |lines| ==> lines[..k + 1][..k] == lines[..k];
  }

  predicate Numbered(line: Line) {
    line.NodeLine? && line.number.Some? ==> line.number.value < ID_SPACE
  }

  /** Links are duplex and join known nodes. */
  ghost predicate Symmetric(net: Network) {
    forall a, b :: (a, b) in net.links ==> (b, a) in net.links && a in net.ids && b in net.ids
  }

  /** What relay selection needs: distinct ids, all below the running index. */
  ghost predicate Fresh(net: Network) {
    && (forall a, b :: a in net.ids && b in net.ids && a != b ==> net.ids[a] != net.ids[b])
    && (forall a :: a in net.ids ==> net.ids[a] < net.index)
  }

  const EMPTY := Network(map[], 0, {})

  /** Adding a node keeps ids distinct and below the index exactly when the new id is not the last
      32-bit value: that one wraps the index to zero. */
  lemma AddNodeKeepsFresh(net: Network, name: string, number: Option<nat>)
    requires Fresh(net) && net.index < ID_SPACE && Numbered(NodeLine(name, number))
    ensures Fresh(AddNode(net, name, number)) <==>
            name in net.ids || AssignedId(net, number) != ID_SPACE - 1
  {
    if name !in net.ids {
      var id, next := AssignedId(net, number), AddNode(net, name, number);
      assert forall a :: a in net.ids ==> net.ids[a] in net.ids.Values;
      assert next.ids[name] == id;
      if id != ID_SPACE - 1 {
        assert id < next.index && net.index <= next.index;
      }
    }
  }

  /** The invariant of every run: ids stay fresh until some node has been given the last id. */
  ghost predicate FreshOrWrapped(net: Network) {
    && net.index < ID_SPACE
    && (forall a :: a in net.ids ==> net.ids[a] < ID_SPACE)
    && (Fresh(net) || exists a :: a in net.ids && net.ids[a] == ID_SPACE - 1)
  }

  lemma ApplyKeepsInvariant(net: Network, line: Line)
    requires Symmetric(net) && FreshOrWrapped(net) && Numbered(line) && Apply(net, line).Some?
    ensures Symmetric(Apply(net, line).value) && FreshOrWrapped(Apply(net, line).value)
  {
    if line.NodeLine? && line.name !in net.ids {
      var next := AddNode(net, line.name, line.number);
      assert forall a :: a in net.ids ==> next.ids[a] == net.ids[a];
      if Fresh(net) {
        AddNodeKeepsFresh(net, line.name, line.number);
        assert next.ids[line.name] == AssignedId(net, line.number);
      } else {
        var a :| a in net.ids && net.ids[a] == ID_SPACE - 1;
        assert a in next.ids && next.ids[a] == ID_SPACE - 1;
      }
    }
  }

  lemma {:induction false} RunKeepsInvariant(net: Network, lines: seq<Line>)
    requires Symmetric(net) && FreshOrWrapped(net)
    requires forall line :: line in lines ==> Numbered(line)
    ensures Symmetric(Run(net, lines)) && FreshOrWrapped(Run(net, lines))
  {
    if lines != [] {
      var front, last := lines[..|lines| - 1], lines[|lines| - 1];
      RunKeepsInvariant(net, front);
      assert last in lines;
      if Apply(Run(net, front), last).Some? {
        ApplyKeepsInvariant(Run(net, front), last);
      }
    }
  }

  /** After any input the links are symmetric, and the ids are distinct and below the index exactly
      when no node carries the last 32-bit id. */
  lemma ReachableIdsDistinct(lines: seq<Line>)
    requires forall line :: line in lines ==> Numbered(line)
    ensures var net := Run(EMPTY, lines);
            Symmetric(net) && (Fresh(net) <==> forall a :: a in net.ids ==> net.ids[a] != ID_SPACE - 1)
  {
    RunKeepsInvariant(EMPTY, lines);
  }

  /** Once the index has wrapped, two nodes can end up with the same id. */
  lemma WrappedIndexCollides()
    ensures var net := Run(EMPTY, [NodeLine("0", Some(0)), NodeLine("z", Some(ID_SPACE - 1)), NodeLine("x", None)]);
            "0" in net.ids && "x" in net.ids && net.ids["0"] == net.ids["x"]
  {
    var l1, l2, l3 := NodeLine("0", Some(0)), NodeLine("z", Some(ID_SPACE - 1)), NodeLine("x", None);
    assert [l1][..0] == [] && [l1, l2][..1] == [l1] && [l1, l2, l3][..2] == [l1, l2];
    var n1 := Run(EMPTY, [l1]);
    assert Run(EMPTY, []) == EMPTY && [l1][0] == l1;
    assert AddNode(EMPTY, "0", Some(0)) == Network(map["0" := 0], 1, {}) by {
      assert 0 !in EMPTY.ids.Values;
    }
    assert n1 == Network(map["0" := 0], 1, {});
    var n2 := Run(EMPTY, [l1, l2]);
    assert ID_SPACE - 1 !in n1.ids.Values;
    assert n2 == Network(map["0" := 0, "z" := ID_SPACE - 1], 0, {});
    assert Run(EMPTY, [l1, l2, l3]).ids["x"] == 0;
  }

  /** The graph over ids has the links of the network over names. */
  ghost predicate Mirrors(edges: set<(nat, nat)>, net: Network) {
    forall a, b :: a in net.ids && b in net.ids ==> ((net.ids[a], net.ids[b]) in edges <==> (a, b) in net.links)
  }

  lemma LinkMirrors(edges: set<(nat, nat)>, net: Network, a: string, b: string)
    requires Mirrors(edges, net) && Fresh(net) && a in net.ids && b in net.ids
    ensures var pairs := {(net.ids[a], net.ids[b]), (net.ids[b], net.ids[a])};
            && Mirrors(edges + pairs, net.(links := net.links + {(a, b), (b, a)}))
            && Mirrors(edges - pairs, net.(links := net.links - {(a, b), (b, a)}))
  {
  }

  /** As long as ids are fresh, a new node has an id of its own and no links. */
  lemma NodeMirrors(edges: set<(nat, nat)>, net: Network, name: string, number: Option<nat>)
    requires Symmetric(net) && FreshOrWrapped(net) && Numbered(NodeLine(name, number)) && name !in net.ids
    requires Fresh(net) ==> Mirrors(edges, net)
    requires forall u: nat, v: nat :: (u, v) in edges ==> u in net.ids.Values && v in net.ids.Values
    ensures var next := AddNode(net, name, number);
            && next.ids.Values == net.ids.Values + {AssignedId(net, number)}
            && (Fresh(next) ==> AssignedId(net, number) !in net.ids.Values && Mirrors(edges, next))
  {
    var id, next := AssignedId(net, number), AddNode(net, name, number);
    ApplyKeepsInvariant(net, NodeLine(name, number));
    assert next.ids[name] == id && forall a :: a in net.ids ==> a in next.ids && next.ids[a] == net.ids[a];
    forall x | x in net.ids.Values + {id} ensures x in next.ids.Values {
      if x != id {
        var a :| a in net.ids && net.ids[a] == x;
        assert next.ids[a] == x;
      }
    }
    assert Fresh(next) ==> Fresh(net);
  }

  class GraphRider {
    const graph: ManetGraph
    var nodeTree: map<string, nat>
    var nodeIdIndex: nat
    var nextEpochTime: real
    ghost var links: set<(string, string)>

    ghost function Net(): Network
      reads this
    {
      Network(nodeTree, nodeIdIndex, links)
    }

    /** The graph is always a valid input of relay selection, and while ids are fresh it is the network
        read so far. Two nodes with one id would share their place in it. */
    ghost predicate Valid()
      reads this, graph
    {
      && graph.Valid() && graph.nodes.Keys == nodeTree.Values
      && Symmetric(Net()) && FreshOrWrapped(Net())
      && (Fresh(Net()) ==> Mirrors(graph.Links(), Net()))
    }

    constructor ()
      ensures Valid() && Net() == EMPTY && nextEpochTime == 0.0 && fresh(graph)
    {
      graph := new ManetGraph();
      nodeTree, nodeIdIndex, links, nextEpochTime := map[], 0, {}, 0.0;
    }

    /** Adds the node to the graph; its flags are whatever its memory holds. */
    method AddVertex(id: nat)
      requires graph.Valid()
      modifies graph
      ensures graph.Valid() && graph.nodes.Keys == old(graph.nodes.Keys) + {id}
      ensures graph.Links() == old(graph.Links())
      ensures forall id :: id in graph.nodes ==> graph.nodes[id] in old(graph.nodes.Values) || fresh(graph.nodes[id])
    {
      if id !in graph.nodes {
        var relayStatus, visited: bool := *, *;
        var node := new Node(id, 0, relayStatus, visited);
        graph.InsertNode(node);
      }
    }

    /** The id of a new node, and the index after it. */
    method AssignId(number: Option<nat>) returns (nodeId: nat)
      modifies this`nodeIdIndex
      ensures nodeId == AssignedId(old(Net()), number)
      ensures nodeId == if number.Some? && number.value !in nodeTree.Values then number.value else old(nodeIdIndex)
      ensures forall name :: name !in nodeTree ==>
                AddNode(old(Net()), name, number) == Network(nodeTree[name := nodeId], nodeIdIndex, links)
    {
      if number.Some? && number.value !in nodeTree.Values {
        nodeId := number.value;
      } else {
        nodeId := nodeIdIndex;
        nodeIdIndex := (nodeIdIndex + 1) % ID_SPACE;
      }
      if nodeId >= nodeIdIndex {
        nodeIdIndex := (nodeId + 1) % ID_SPACE;
      }
    }

    method InsertNode(name: string, number: Option<nat>)
      requires Valid() && Numbered(NodeLine(name, number))
      modifies this, graph
      ensures Valid() && Net() == AddNode(old(Net()), name, number) && nextEpochTime == old(nextEpochTime)
      ensures name in old(nodeTree) ==> nodeTree == old(nodeTree) && nodeIdIndex == old(nodeIdIndex)
      ensures name !in old(nodeTree) ==>
                var free := number.Some? && number.value !in old(nodeTree.Values);
                nodeTree == old(nodeTree)[name := if free then number.value else old(nodeIdIndex)]
      ensures forall id :: id in graph.nodes ==> graph.nodes[id] in old(graph.nodes.Values) || fresh(graph.nodes[id])
    {
      hide *;
      ghost var net := Net();
      NodeFacts(name, number);
      if name in nodeTree {
        return;
      }
      var nodeId := AssignId(number);
      AddVertex(nodeId);
      nodeTree := nodeTree[name := nodeId];
      ValidIs();
    }

    /** What the network becomes with the node, if it is new. */
    lemma NodeFacts(name: string, number: Option<nat>)
      requires Valid() && Numbered(NodeLine(name, number))
      ensures graph.Valid() && graph.nodes.Keys == nodeTree.Values
      ensures Net().ids == nodeTree && Net().links == links
      ensures name in nodeTree ==> AddNode(Net(), name, number) == Net()
      ensures name !in nodeTree ==>
                var next := AddNode(Net(), name, number);
                && Symmetric(next) && FreshOrWrapped(next)
                && next.ids.Values == nodeTree.Values + {AssignedId(Net(), number)}
                && (Fresh(next) ==> Mirrors(graph.Links(), next))
    {
      if name !in nodeTree {
        ValidIs();
        NodeMirrors(graph.Links(), Net(), name, number);
        ApplyKeepsInvariant(Net(), NodeLine(name, number));
        hide Mirrors, Symmetric, FreshOrWrapped, Fresh, AssignedId, ManetGraph.Valid;
      }
    }

    lemma ValidIs()
      ensures Net() == Network(nodeTree, nodeIdIndex, links)
      ensures Valid() <==>
              && graph.Valid() && graph.nodes.Keys == nodeTree.Values
              && Symmetric(Net()) && FreshOrWrapped(Net()) && (Fresh(Net()) ==> Mirrors(graph.Links(), Net()))
      ensures graph.Valid() ==>
                forall u: nat, v: nat :: (u, v) in graph.Links() ==> u in graph.nodes && v in graph.nodes
    {
    }

    /** While ids are fresh, what relay selection runs on is the network: its nodes under their ids, and
        its links. */
    lemma SnapshotIsNetwork(useDegree: bool)
      requires Valid() && Fresh(Net())
      ensures var g := graph.Snapshot(useDegree);
              && g.Valid() && g.Nodes() == nodeTree.Values
              && forall a, b :: a in nodeTree && b in nodeTree ==>
                   (g.Edge(nodeTree[a], nodeTree[b]) <==> (a, b) in links)
    {
      var g := graph.Snapshot(useDegree);
      forall a, b | a in nodeTree && b in nodeTree
        ensures g.Edge(nodeTree[a], nodeTree[b]) <==> (a, b) in links
      {
        assert g.Edge(nodeTree[a], nodeTree[b]) <==> (nodeTree[a], nodeTree[b]) in graph.Links();
      }
    }

    /** A "link" or "unlink" line between two known nodes. */
    method SetLink(a: string, b: string, up: bool)
      requires Valid() && a in nodeTree && b in nodeTree
      modifies this`links, graph
      ensures Valid() && Apply(old(Net()), if up then Link(a, b) else Unlink(a, b)) == Some(Net())
      ensures nodeTree == old(nodeTree) && nodeIdIndex == old(nodeIdIndex)
      ensures links == if up then old(links) + {(a, b), (b, a)} else old(links) - {(a, b), (b, a)}
      ensures var pairs := {(nodeTree[a], nodeTree[b]), (nodeTree[b], nodeTree[a])};
              graph.Links() == if up then old(graph.Links()) + pairs else old(graph.Links()) - pairs
      ensures nextEpochTime == old(nextEpochTime) && graph.nodes == old(graph.nodes)
    {
      hide *;
      LinkFacts(a, b, up);
      if up {
        graph.Connect(nodeTree[a], nodeTree[b]);
        links := links + {(a, b), (b, a)};
      } else {
        graph.Disconnect(nodeTree[a], nodeTree[b]);
        links := links - {(a, b), (b, a)};
      }
      ValidIs();
    }

    /** What the network becomes with the link or without it. */
    lemma LinkFacts(a: string, b: string, up: bool)
      requires Valid() && a in nodeTree && b in nodeTree
      ensures graph.Valid() && graph.nodes.Keys == nodeTree.Values
      ensures nodeTree[a] in graph.nodes && nodeTree[b] in graph.nodes
      ensures var pairs := {(nodeTree[a], nodeTree[b]), (nodeTree[b], nodeTree[a])};
              var next := Network(nodeTree, nodeIdIndex,
                                  if up then links + {(a, b), (b, a)} else links - {(a, b), (b, a)});
              && Apply(Net(), if up then Link(a, b) else Unlink(a, b)) == Some(next)
              && Symmetric(next) && FreshOrWrapped(next)
              && (Fresh(next) ==> Mirrors(if up then graph.Links() + pairs else graph.Links() - pairs, next))
    {
      ApplyKeepsInvariant(Net(), if up then Link(a, b) else Unlink(a, b));
      if Fresh(Net()) {
        LinkMirrors(graph.Links(), Net(), a, b);
      }
      hide Mirrors, Symmetric, FreshOrWrapped, ManetGraph.Valid;
    }

    /** A "wait" line ends the epoch. */
    method AdvanceTime(t: real)
      requires Valid()
      modifies this`nextEpochTime
      ensures Valid() && Net() == old(Net()) && nextEpochTime == old(nextEpochTime) + t
    {
      nextEpochTime := nextEpochTime + t;
    }

    /** Consumes lines up to the end of the epoch; returns its start time, or -1.0 on an error or at
        the end of the input. */
    method ReadNextEpoch(lines: seq<Line>) returns (consumed: nat, time: real)
      requires Valid() && forall line :: line in lines ==> Numbered(line)
      modifies this, graph
      ensures Valid() && consumed <= |lines|
      ensures forall id :: id in graph.nodes ==> graph.nodes[id] in old(graph.nodes.Values) || fresh(graph.nodes[id])
      ensures Net() == Run(old(Net()), lines[..consumed])
      ensures forall i :: 0 <= i < consumed - 1 ==> !lines[i].Wait? && Apply(Run(old(Net()), lines[..i]), lines[i]).Some?
      ensures time != -1.0 ==> time == old(nextEpochTime) && consumed > 0
      ensures time == -1.0 && old(nextEpochTime) >= 0.0 ==>
                (consumed == 0 && lines == []) ||
                (consumed > 0 && Apply(Run(old(Net()), lines[..consumed - 1]), lines[consumed - 1]).None?)
      ensures consumed < |lines| && time != -1.0 ==> lines[consumed - 1].Wait?
      ensures nextEpochTime == old(nextEpochTime) +
                (if consumed > 0 && lines[consumed - 1].Wait? then lines[consumed - 1].time else 0.0)
    {
      hide Run, AddNode, Valid, Symmetric, FreshOrWrapped, Mirrors;
      RunStep(Net(), lines);
      var lastTime := nextEpochTime;
      consumed := 0;
      var gotLine := false;
      while consumed < |lines|
        invariant forall id :: id in graph.nodes ==> graph.nodes[id] in old(graph.nodes.Values) || fresh(graph.nodes[id])
        invariant Valid() && consumed <= |lines| && (gotLine <==> consumed > 0)
        invariant Net() == Run(old(Net()), lines[..consumed]) && nextEpochTime == old(nextEpochTime)
        invariant forall i :: 0 <= i < consumed ==> !lines[i].Wait? && Apply(Run(old(Net()), lines[..i]), lines[i]).Some?
      {
        var line := lines[consumed];
        consumed := consumed + 1;
        gotLine := true;
        match line {
          case Wait(t) =>
            AdvanceTime(t);
            return consumed, lastTime;
          case NodeLine(name, number) =>
            InsertNode(name, number);
          case Link(a, b) =>
            if a !in nodeTree || b !in nodeTree {
              return consumed, -1.0;
            }
            SetLink(a, b, true);
          case Unlink(a, b) =>
            if a !in nodeTree || b !in nodeTree {
              return consumed, -1.0;
            }
            SetLink(a, b, false);
          case Malformed =>
            return consumed, -1.0;
          case Unreadable =>
            return consumed, -1.0;
          case Other =>
        }
      }
      return consumed, if gotLine then lastTime else -1.0;
    }
  }
}
