/** The shared in-memory graph of the drivers: nodes with flags, and adjacency queues. */
module ManetGraphs {
  import opened Meshes

  class Node {
    const id: nat
    const rtrPriority: nat
    var relayStatus: bool
    var visited: bool

    /** The drivers leave `visited` and `relayStatus` uninitialised, so any value may be found there. */
    constructor (id: nat, rtrPriority: nat, relayStatus: bool, visited: bool)
      ensures this.id == id && this.rtrPriority == rtrPriority
      ensures this.relayStatus == relayStatus && this.visited == visited
    {
      this.id, this.rtrPriority := id, rtrPriority;
      this.relayStatus, this.visited := relayStatus, visited;
    }
  }

  ghost predicate NoDuplicates(s: seq<nat>) {
    forall i, j :: 0 <= i < j < |s| ==> s[i] != s[j]
  }

  function Members(s: seq<nat>): set<nat> {
    set v | v in s
  }

  lemma PrefixMembers(s: seq<nat>, i: nat)
    requires i <= |s|
    ensures Members(s[..0]) == {}
    ensures i < |s| ==> s[i] in s && Members(s[..i + 1]) == Members(s[..i]) + {s[i]}
  {
    if i < |s| {
      assert s[..i + 1] == s[..i] + [s[i]];
    }
  }

  lemma {:induction false} DistinctCount(s: seq<nat>)
    requires NoDuplicates(s)
    ensures |Members(s)| == |s|
  {
    if s != [] {
      var front, x := s[..|s| - 1], s[|s| - 1];
      DistinctCount(front);
      assert s == front + [x];
      assert Members(s) == Members(front) + {x};
    }
  }

  function Without(s: seq<nat>, v: nat): (r: seq<nat>)
    ensures forall x :: x in r <==> x in s && x != v
    ensures NoDuplicates(s) ==> NoDuplicates(r)
  {
    if s == [] then []
    else
      var rest := Without(s[1..], v);
      assert s[0] in rest ==> exists i :: 0 < i < |s| && s[i] == s[0];
      assert s == [s[0]] + s[1..];
      if s[0] == v then rest else [s[0]] + rest
  }

  predicate SamePair(x: nat, y: nat, u: nat, v: nat) {
    (x == u && y == v) || (x == v && y == u)
  }

  class ManetGraph {
    var ifaces: seq<nat>                 // interface iteration order
    var adjacency: map<nat, seq<nat>>    // adjacency queue of each interface
    var nodes: map<nat, Node>

    /** Every interface has one queue without repeats, leading to known interfaces. */
    ghost predicate WellFormed()
      reads this
    {
      && NoDuplicates(ifaces)
      && (forall v :: v in ifaces <==> v in adjacency)
      && nodes.Keys == adjacency.Keys
      && (forall v :: v in nodes ==> nodes[v].id == v)
      && (forall u :: u in adjacency ==> NoDuplicates(adjacency[u]))
      && (forall u, v :: HasEdge(u, v) ==> v in adjacency)
    }

    /** ... and, since the drivers only use duplex links, the link relation is symmetric. */
    ghost predicate Valid()
      reads this
    {
      WellFormed() && forall u, v :: HasEdge(u, v) ==> HasEdge(v, u)
    }

    predicate HasEdge(u: nat, v: nat)
      reads this
    {
      u in adjacency && v in adjacency[u]
    }

    /** Priority used by the election: the adjacency count cut to eight bits, or the set priority. */
    function RelayPriority(useDegree: bool, v: nat): nat
      requires v in adjacency && v in nodes
      reads this
    {
      if useDegree then |adjacency[v]| % 256 else nodes[v].rtrPriority
    }

    /** The comparison both drivers spell out: higher priority, or equal priority and higher id. */
    predicate Outranks(useDegree: bool, u: nat, v: nat)
      requires u in adjacency && u in nodes && v in adjacency && v in nodes
      reads this
    {
      || RelayPriority(useDegree, u) > RelayPriority(useDegree, v)
      || (RelayPriority(useDegree, u) == RelayPriority(useDegree, v) && u > v)
    }

    ghost function Snapshot(useDegree: bool): (g: Mesh)
      requires Valid()
      reads this
      ensures g.Valid() && g.Nodes() == nodes.Keys
      ensures forall u, v :: g.Edge(u, v) <==> HasEdge(u, v)
      ensures forall u :: u in adjacency ==> g.Nbrs(u) == Members(adjacency[u])
      ensures forall u, v :: u in nodes && v in nodes ==> (g.Above(u, v) <==> Outranks(useDegree, u, v))
    {
      var g := Mesh(map u | u in adjacency :: Members(adjacency[u]),
                    map u | u in nodes :: RelayPriority(useDegree, u) as int);
      assert forall u, v :: g.Edge(u, v) <==> HasEdge(u, v);
      g
    }

    ghost function Links(): (l: set<(nat, nat)>)
      reads this
      ensures forall u: nat, v: nat :: (u, v) in l <==> HasEdge(u, v)
    {
      set u, v | u in adjacency && v in adjacency[u] :: (u, v)
    }

    ghost function Visited(): set<nat>
      reads this, nodes.Values
    {
      set v | v in nodes && nodes[v].visited
    }

    ghost function Relays(): set<nat>
      reads this, nodes.Values
    {
      set v | v in nodes && nodes[v].relayStatus
    }

    constructor ()
      ensures Valid() && nodes == map[] && ifaces == []
    {
      ifaces, adjacency, nodes := [], map[], map[];
    }

    method SetVisited(v: nat, state: bool)
      requires Valid() && v in nodes
      modifies nodes.Values`visited
      ensures Visited() == if state then old(Visited()) + {v} else old(Visited()) - {v}
      ensures Relays() == old(Relays())
    {
      nodes[v].visited := state;
      assert forall u :: u in nodes && u != v ==> nodes[u] != nodes[v];
    }

    method SetRelayStatus(v: nat, state: bool)
      requires Valid() && v in nodes
      modifies nodes.Values`relayStatus
      ensures Relays() == if state then old(Relays()) + {v} else old(Relays()) - {v}
      ensures Visited() == old(Visited())
    {
      nodes[v].relayStatus := state;
      assert forall u :: u in nodes && u != v ==> nodes[u] != nodes[v];
    }

    method InsertNode(node: Node)
      requires Valid() && node.id !in nodes
      modifies this
      ensures Valid() && nodes == old(nodes)[node.id := node]
      ensures forall u, v :: HasEdge(u, v) <==> old(HasEdge(u, v))
    {
      ifaces := ifaces + [node.id];
      adjacency := adjacency[node.id := []];
      nodes := nodes[node.id := node];
      assert forall u, v :: HasEdge(u, v) <==> old(HasEdge(u, v));
    }

    method AddArc(u: nat, v: nat)
      requires WellFormed() && u in nodes && v in nodes
      modifies this`adjacency
      ensures WellFormed()
      ensures forall x, y :: HasEdge(x, y) <==> old(HasEdge(x, y)) || (x == u && y == v)
    {
      if v !in adjacency[u] {
        adjacency := adjacency[u := adjacency[u] + [v]];
      }
      assert forall x, y :: HasEdge(x, y) ==> old(HasEdge(x, y)) || y == v;
    }

    method RemoveArc(u: nat, v: nat)
      requires WellFormed() && u in nodes && v in nodes
      modifies this`adjacency
      ensures WellFormed()
      ensures forall x, y :: HasEdge(x, y) <==> old(HasEdge(x, y)) && !(x == u && y == v)
    {
      adjacency := adjacency[u := Without(adjacency[u], v)];
      assert forall x, y :: HasEdge(x, y) ==> old(HasEdge(x, y));
    }

    /** Duplex link; a link that exists already stays as it is. */
    method Connect(u: nat, v: nat)
      requires Valid() && u in nodes && v in nodes
      modifies this`adjacency
      ensures Valid()
      ensures forall x, y :: HasEdge(x, y) <==> old(HasEdge(x, y)) || SamePair(x, y, u, v)
      ensures Links() == old(Links()) + {(u, v), (v, u)}
    {
      AddArc(u, v);
      AddArc(v, u);
    }

    method Disconnect(u: nat, v: nat)
      requires Valid() && u in nodes && v in nodes
      modifies this`adjacency
      ensures Valid()
      ensures forall x, y :: HasEdge(x, y) <==> old(HasEdge(x, y)) && !SamePair(x, y, u, v)
      ensures Links() == old(Links()) - {(u, v), (v, u)}
    {
      RemoveArc(u, v);
      RemoveArc(v, u);
    }
  }

  /** The order of the election: the priority that was set, or the number of adjacencies less the greatest
      multiple of 256 it holds; the id decides between equals. */
  lemma ElectionOrder(graph: ManetGraph, useDegree: bool, u: nat, v: nat, a: nat, p: nat, b: nat, q: nat)
    requires graph.Valid() && u in graph.nodes && v in graph.nodes
    requires useDegree ==> |graph.adjacency[u]| == 256 * a + p && p < 256
    requires useDegree ==> |graph.adjacency[v]| == 256 * b + q && q < 256
    requires !useDegree ==> graph.nodes[u].rtrPriority == p && graph.nodes[v].rtrPriority == q
    ensures p > q ==> graph.Snapshot(useDegree).Above(u, v) && !graph.Snapshot(useDegree).Above(v, u)
    ensures p == q ==> (graph.Snapshot(useDegree).Above(u, v) <==> u > v)
  {
    if useDegree {
      LowByte(|graph.adjacency[u]|, a, p);
      LowByte(|graph.adjacency[v]|, b, q);
    }
    OrderOfPriorities(graph, useDegree, u, v);
  }

  lemma LowByte(n: nat, a: nat, p: nat)
    requires n == 256 * a + p && p < 256
    ensures n % 256 == p
  {
  }

  lemma OrderOfPriorities(graph: ManetGraph, useDegree: bool, u: nat, v: nat)
    requires graph.Valid() && u in graph.nodes && v in graph.nodes
    ensures var p, q := graph.RelayPriority(useDegree, u), graph.RelayPriority(useDegree, v);
            graph.Snapshot(useDegree).Above(u, v) <==> p > q || (p == q && u > v)
    ensures var p, q := graph.RelayPriority(useDegree, u), graph.RelayPriority(useDegree, v);
            graph.Snapshot(useDegree).Above(v, u) <==> q > p || (p == q && v > u)
  {
    hide Mesh.Above, ManetGraph.RelayPriority, ManetGraph.Snapshot;
    assert graph.Snapshot(useDegree).Above(u, v) <==> graph.Outranks(useDegree, u, v);
    assert graph.Snapshot(useDegree).Above(v, u) <==> graph.Outranks(useDegree, v, u);
  }

  lemma LinkedNodesKnown(graph: ManetGraph, n0: nat, u: nat, v: nat)
    requires graph.Valid() && graph.HasEdge(n0, u) && graph.HasEdge(n0, v)
    ensures {n0, u, v} <= graph.nodes.Keys && graph.nodes.Keys == graph.adjacency.Keys
  {
  }

  lemma QueueFacts(graph: ManetGraph, u: nat)
    requires graph.Valid() && u in graph.nodes
    ensures u in graph.adjacency && NoDuplicates(graph.adjacency[u])
    ensures forall v :: v in graph.adjacency[u] <==> graph.HasEdge(u, v)
  {
  }

  lemma VisitedFlag(graph: ManetGraph, v: nat)
    requires v in graph.nodes
    ensures v in graph.Visited() <==> graph.nodes[v].visited
  {
  }
}
