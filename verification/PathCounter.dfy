/** graphXMLExample's CountPaths: backtracking over visited flags, proved to count simple paths. */
module PathCounter {
  import opened ManetGraphs

  type Adjacency = map<nat, seq<nat>>
  type Path = seq<nat>

  predicate Step(adj: Adjacency, x: nat, y: nat, visited: set<nat>) {
    x in adj && y in adj[x] && y !in visited
  }

  /** A path from `u` to `dest` over links, without repeats, that enters no node of `visited`. */
  ghost predicate SimplePath(adj: Adjacency, u: nat, dest: nat, visited: set<nat>, w: Path) {
    && |w| > 0 && w[0] == u && w[|w| - 1] == dest
    && (forall i :: 0 < i < |w| ==> Step(adj, w[i - 1], w[i], visited))
    && NoDuplicates(w)
  }

  function Prepend(u: nat, s: set<Path>): set<Path> {
    set w | w in s :: [u] + w
  }

  function OfLength(s: set<Path>, edges: int): set<Path> {
    set w | w in s && |w| == edges + 1
  }

  /** A path's length is the number of its links. */
  lemma LengthIsLinks(s: set<Path>, w: Path, edges: int)
    ensures w in OfLength(s, edges) <==> w in s && |w| - 1 == edges
  {
  }

  /** The paths the search enumerates from `u`, and those through the given neighbours of `u`. */
  function Paths(adj: Adjacency, u: nat, dest: nat, visited: set<nat>): set<Path>
    decreases |adj.Keys - visited|, 0
  {
    if u == dest then {[u]}
    else if u !in adj || u in visited then {}
    else
      assert adj.Keys - (visited + {u}) == adj.Keys - visited - {u};
      PathsVia(adj, u, adj[u], dest, visited + {u})
  }

  function PathsVia(adj: Adjacency, u: nat, nbrs: seq<nat>, dest: nat, visited: set<nat>): set<Path>
    decreases |adj.Keys - visited|, 1 + |nbrs|
  {
    if nbrs == [] then {}
    else
      var last := nbrs[|nbrs| - 1];
      PathsVia(adj, u, nbrs[..|nbrs| - 1], dest, visited) +
      if last in visited then {} else Prepend(u, Paths(adj, last, dest, visited))
  }

  /** How much deeper than its own depth a call's recursion goes. */
  function Height(adj: Adjacency, u: nat, dest: nat, visited: set<nat>): nat
    decreases |adj.Keys - visited|, 0
  {
    if u == dest || u !in adj || u in visited then 0
    else
      assert adj.Keys - (visited + {u}) == adj.Keys - visited - {u};
      HeightVia(adj, adj[u], dest, visited + {u})
  }

  function HeightVia(adj: Adjacency, nbrs: seq<nat>, dest: nat, visited: set<nat>): nat
    decreases |adj.Keys - visited|, 1 + |nbrs|
  {
    if nbrs == [] then 0
    else
      var last := nbrs[|nbrs| - 1];
      var front := HeightVia(adj, nbrs[..|nbrs| - 1], dest, visited);
      if last in visited then front
      else
        var here := 1 + Height(adj, last, dest, visited);
        if here > front then here else front
  }

  /** The recursion never goes deeper than the unvisited nodes allow. */
  lemma {:induction false} HeightBound(adj: Adjacency, u: nat, dest: nat, visited: set<nat>)
    requires u in adj && u !in visited
    requires forall x :: x in adj ==> forall y :: y in adj[x] ==> y in adj
    ensures Height(adj, u, dest, visited) < |adj.Keys - visited|
    decreases |adj.Keys - visited|, 0
  {
    assert u in adj.Keys - visited;
    if u != dest {
      assert adj.Keys - (visited + {u}) == adj.Keys - visited - {u};
      HeightViaBound(adj, adj[u], dest, visited + {u});
    }
  }

  lemma {:induction false} HeightViaBound(adj: Adjacency, nbrs: seq<nat>, dest: nat, visited: set<nat>)
    requires forall x :: x in adj ==> forall y :: y in adj[x] ==> y in adj
    requires forall y :: y in nbrs ==> y in adj
    ensures HeightVia(adj, nbrs, dest, visited) <= |adj.Keys - visited|
    decreases |adj.Keys - visited|, 1 + |nbrs|
  {
    if nbrs != [] {
      var last := nbrs[|nbrs| - 1];
      HeightViaBound(adj, nbrs[..|nbrs| - 1], dest, visited);
      if last !in visited {
        HeightBound(adj, last, dest, visited);
      }
    }
  }

  /** A trail of the search from `u`: links into unvisited nodes, no repeats, and nothing after `dest`. */
  ghost predicate Trail(adj: Adjacency, u: nat, dest: nat, visited: set<nat>, w: Path) {
    && |w| > 0 && w[0] == u
    && (forall i :: 0 < i < |w| ==> Step(adj, w[i - 1], w[i], visited))
    && NoDuplicates(w)
    && (forall i :: 0 <= i < |w| - 1 ==> w[i] != dest)
  }

  /** Some trail, seen from `depth`, goes beyond `maxdepth`. */
  ghost predicate TooDeep(adj: Adjacency, u: nat, dest: nat, visited: set<nat>, depth: nat, maxdepth: nat) {
    exists w :: Trail(adj, u, dest, visited, w) && depth + |w| - 1 > maxdepth
  }

  /** No trail is longer than the height ... */
  lemma {:induction false} TrailWithinHeight(adj: Adjacency, u: nat, dest: nat, visited: set<nat>, w: Path)
    requires u !in visited && Trail(adj, u, dest, visited, w)
    ensures |w| - 1 <= Height(adj, u, dest, visited)
    decreases |w|
  {
    if |w| > 1 {
      assert Step(adj, w[0], w[1], visited) && w[0] != dest && w[0] != w[1];
      forall i | 0 < i < |w| - 1 ensures Step(adj, w[1..][i - 1], w[1..][i], visited + {u}) {
        assert Step(adj, w[i], w[i + 1], visited) && w[0] != w[i + 1];
      }
      TrailWithinHeight(adj, w[1], dest, visited + {u}, w[1..]);
      HeightViaAtLeast(adj, adj[u], w[1], dest, visited + {u});
    }
  }

  lemma {:induction false} HeightViaAtLeast(adj: Adjacency, nbrs: seq<nat>, y: nat, dest: nat, visited: set<nat>)
    requires y in nbrs && y !in visited
    ensures HeightVia(adj, nbrs, dest, visited) >= 1 + Height(adj, y, dest, visited)
    decreases |nbrs|
  {
    if nbrs[|nbrs| - 1] != y {
      HeightViaAtLeast(adj, nbrs[..|nbrs| - 1], y, dest, visited);
    }
  }

  /** ... and one is as long. */
  lemma {:induction false} HeightTrail(adj: Adjacency, u: nat, dest: nat, visited: set<nat>) returns (w: Path)
    requires u !in visited
    ensures Trail(adj, u, dest, visited, w) && |w| - 1 == Height(adj, u, dest, visited)
    decreases |adj.Keys - visited|, 0
  {
    w := [u];
    if u != dest && u in adj {
      assert adj.Keys - (visited + {u}) == adj.Keys - visited - {u};
      var more := HeightViaTrail(adj, adj[u], dest, visited + {u});
      if more != [] {
        forall i | 0 < i < |more| ensures more[i] != u {
          assert Step(adj, more[i - 1], more[i], visited + {u});
        }
        w := [u] + more;
        forall i | 0 < i < |w| ensures Step(adj, w[i - 1], w[i], visited) {
          assert i > 1 ==> Step(adj, more[i - 2], more[i - 1], visited + {u});
        }
      }
    }
  }

  /** The rest of a longest trail, or nothing if all neighbours were visited. */
  lemma {:induction false} HeightViaTrail(adj: Adjacency, nbrs: seq<nat>, dest: nat, visited: set<nat>) returns (w: Path)
    ensures |w| == HeightVia(adj, nbrs, dest, visited)
    ensures w != [] ==> w[0] in nbrs && w[0] !in visited && Trail(adj, w[0], dest, visited, w)
    decreases |adj.Keys - visited|, 1 + |nbrs|
  {
    w := [];
    if nbrs != [] {
      var last := nbrs[|nbrs| - 1];
      w := HeightViaTrail(adj, nbrs[..|nbrs| - 1], dest, visited);
      if last !in visited && 1 + Height(adj, last, dest, visited) > |w| {
        w := HeightTrail(adj, last, dest, visited);
      }
    }
  }

  /** How deep the recursion goes is how long trails get. */
  lemma TooDeepIsHeight(adj: Adjacency, u: nat, dest: nat, visited: set<nat>, depth: nat, maxdepth: nat)
    requires u !in visited
    ensures TooDeep(adj, u, dest, visited, depth, maxdepth) <==> depth + Height(adj, u, dest, visited) > maxdepth
  {
    if w :| Trail(adj, u, dest, visited, w) && depth + |w| - 1 > maxdepth {
      TrailWithinHeight(adj, u, dest, visited, w);
    }
    var _ := HeightTrail(adj, u, dest, visited);
  }

  /** The search enumerates exactly the simple paths. */
  lemma {:induction false} PathsAreSimple(adj: Adjacency, u: nat, dest: nat, visited: set<nat>, w: Path)
    requires u !in visited
    ensures w in Paths(adj, u, dest, visited) <==> SimplePath(adj, u, dest, visited, w)
    decreases |adj.Keys - visited|, 0
  {
    hide SimplePath;
    hide ThroughNbr;
    if u == dest {
      SimpleIffTrivial(adj, u, visited, w);
    } else {
      SimpleIffThrough(adj, u, dest, visited, w);
      if u in adj {
        assert adj.Keys - (visited + {u}) == adj.Keys - visited - {u};
        PathsViaAreSimple(adj, u, adj[u], dest, visited + {u}, w);
      }
    }
  }

  lemma SimpleIffTrivial(adj: Adjacency, u: nat, visited: set<nat>, w: Path)
    ensures SimplePath(adj, u, u, visited, w) <==> w == [u]
  {
    if SimplePath(adj, u, u, visited, w) {
      assert w == [u];
    }
  }

  lemma SimpleIffThrough(adj: Adjacency, u: nat, dest: nat, visited: set<nat>, w: Path)
    requires u != dest
    ensures SimplePath(adj, u, dest, visited, w) <==>
            u in adj && ThroughNbr(adj, u, adj[u], dest, visited + {u}, w)
  {
    if SimplePath(adj, u, dest, visited, w) {
      assert Step(adj, w[0], w[1], visited);
      TailIsSimple(adj, u, dest, visited, w);
    }
    if u in adj && ThroughNbr(adj, u, adj[u], dest, visited + {u}, w) {
      ConsIsSimple(adj, u, dest, visited, w);
    }
  }

  ghost predicate ThroughNbr(adj: Adjacency, u: nat, nbrs: seq<nat>, dest: nat, visited: set<nat>, w: Path) {
    |w| > 1 && w[0] == u && w[1] in nbrs && w[1] !in visited && SimplePath(adj, w[1], dest, visited, w[1..])
  }

  lemma {:induction false} PathsViaAreSimple(adj: Adjacency, u: nat, nbrs: seq<nat>, dest: nat,
                                             visited: set<nat>, w: Path)
    ensures w in PathsVia(adj, u, nbrs, dest, visited) <==> ThroughNbr(adj, u, nbrs, dest, visited, w)
    decreases |adj.Keys - visited|, 1 + |nbrs|
  {
    if nbrs != [] {
      var front, last := nbrs[..|nbrs| - 1], nbrs[|nbrs| - 1];
      assert nbrs == front + [last];
      PathsViaAreSimple(adj, u, front, dest, visited, w);
      if last !in visited {
        InPrepend(u, Paths(adj, last, dest, visited), w);
        if |w| > 0 {
          PathsAreSimple(adj, last, dest, visited, w[1..]);
        }
      }
    }
  }

  lemma TailIsSimple(adj: Adjacency, u: nat, dest: nat, visited: set<nat>, w: Path)
    requires SimplePath(adj, u, dest, visited, w) && |w| > 1
    ensures SimplePath(adj, w[1], dest, visited + {u}, w[1..]) && w[1] != u
  {
    var tail := w[1..];
    forall i | 0 < i < |tail| ensures Step(adj, tail[i - 1], tail[i], visited + {u}) {
      assert Step(adj, w[i], w[i + 1], visited);
    }
  }

  lemma ConsIsSimple(adj: Adjacency, u: nat, dest: nat, visited: set<nat>, w: Path)
    requires u in adj && ThroughNbr(adj, u, adj[u], dest, visited + {u}, w)
    ensures SimplePath(adj, u, dest, visited, w)
  {
    var tail := w[1..];
    forall i | 0 < i < |w| ensures Step(adj, w[i - 1], w[i], visited) && w[i] != u {
      if i > 1 {
        assert Step(adj, tail[i - 2], tail[i - 1], visited + {u});
      }
    }
    forall i, j | 0 <= i < j < |w| ensures w[i] != w[j] {
      if i > 0 {
        assert tail[i - 1] != tail[j - 1];
      }
    }
  }

  lemma InPrepend(u: nat, s: set<Path>, w: Path)
    ensures w in Prepend(u, s) <==> |w| > 0 && w[0] == u && w[1..] in s
  {
    if |w| > 0 && w[0] == u {
      assert w == [u] + w[1..];
    }
    if w in Prepend(u, s) {
      var x :| x in s && w == [u] + x;
      assert w[1..] == x;
    }
  }

  lemma PrependInjective(u: nat, x: Path, y: Path)
    ensures [u] + x == [u] + y ==> x == y
  {
    assert x == ([u] + x)[1..] && y == ([u] + y)[1..];
  }

  lemma {:induction false} PrependSize(u: nat, s: set<Path>)
    ensures |Prepend(u, s)| == |s|
  {
    if s != {} {
      var w :| w in s;
      PrependSize(u, s - {w});
      assert Prepend(u, s) == Prepend(u, s - {w}) + {[u] + w};
      forall x | x in s - {w} ensures [u] + x != [u] + w {
        PrependInjective(u, x, w);
      }
    }
  }

  /** One more neighbour: its paths are new, and one link longer seen from `u`. */
  lemma ViaStep(adj: Adjacency, u: nat, nbrs: seq<nat>, i: nat, dest: nat, visited: set<nat>)
    requires i < |nbrs| && NoDuplicates(nbrs)
    ensures nbrs[i] in visited ==>
              PathsVia(adj, u, nbrs[..i + 1], dest, visited) == PathsVia(adj, u, nbrs[..i], dest, visited)
    ensures nbrs[i] !in visited ==>
              AddedPaths(PathsVia(adj, u, nbrs[..i], dest, visited), Paths(adj, nbrs[i], dest, visited),
                         PathsVia(adj, u, nbrs[..i + 1], dest, visited))
  {
    assert nbrs[..i + 1][..i] == nbrs[..i];
    if nbrs[i] !in visited {
      var had, more := PathsVia(adj, u, nbrs[..i], dest, visited), Paths(adj, nbrs[i], dest, visited);
      var all := PathsVia(adj, u, nbrs[..i + 1], dest, visited);
      assert all == had + Prepend(u, more);
      assert had !! Prepend(u, more) by {
        forall w | w in Prepend(u, more) ensures w !in had {
          InPrepend(u, more, w);
          PathsAreSimple(adj, nbrs[i], dest, visited, w[1..]);
          PathsViaAreSimple(adj, u, nbrs[..i], dest, visited, w);
          assert w[1] == nbrs[i] && nbrs[i] !in nbrs[..i];
        }
      }
      PrependSize(u, more);
      forall edges: int
        ensures |OfLength(all, edges + 1)| == |OfLength(had, edges + 1)| + |OfLength(more, edges)|
      {
        PrependSize(u, OfLength(more, edges));
        OfLengthPrepend(u, more, edges);
        assert OfLength(all, edges + 1) == OfLength(had, edges + 1) + OfLength(Prepend(u, more), edges + 1);
      }
    }
  }

  ghost predicate AddedPaths(had: set<Path>, more: set<Path>, all: set<Path>) {
    && |all| == |had| + |more|
    && forall edges: int :: |OfLength(all, edges + 1)| == |OfLength(had, edges + 1)| + |OfLength(more, edges)|
  }

  lemma OfLengthPrepend(u: nat, s: set<Path>, edges: int)
    ensures OfLength(Prepend(u, s), edges + 1) == Prepend(u, OfLength(s, edges))
  {
    forall w | w in Prepend(u, OfLength(s, edges)) ensures w in OfLength(Prepend(u, s), edges + 1) {
      var x :| x in OfLength(s, edges) && w == [u] + x;
    }
    forall w | w in OfLength(Prepend(u, s), edges + 1) ensures w in Prepend(u, OfLength(s, edges)) {
      var x :| x in s && w == [u] + x;
      assert x in OfLength(s, edges);
    }
  }

  lemma {:induction false} HeightPrefix(adj: Adjacency, nbrs: seq<nat>, i: nat, dest: nat, visited: set<nat>)
    requires i < |nbrs|
    ensures var here := if nbrs[i] in visited then 0 else 1 + Height(adj, nbrs[i], dest, visited);
            var front := HeightVia(adj, nbrs[..i], dest, visited);
            && HeightVia(adj, nbrs[..i + 1], dest, visited) == (if here > front then here else front)
            && HeightVia(adj, nbrs[..i + 1], dest, visited) <= HeightVia(adj, nbrs, dest, visited)
    decreases |nbrs|
  {
    assert nbrs[..i + 1][..i] == nbrs[..i];
    if i + 1 < |nbrs| {
      var front := nbrs[..|nbrs| - 1];
      HeightPrefix(adj, front, i, dest, visited);
      assert front[..i + 1] == nbrs[..i + 1] && front[..i] == nbrs[..i];
    } else {
      assert nbrs[..i + 1] == nbrs;
    }
  }

  /** `after` adds to `before`, at every depth, the number of paths of `s` that end there. */
  ghost predicate Tallied(before: seq<int>, after: seq<int>, depth: nat, s: set<Path>) {
    && |after| == |before|
    && forall i :: 0 <= i < |after| ==> after[i] == before[i] + |OfLength(s, i - depth)|
  }

  lemma TalliedNone(before: seq<int>, depth: nat)
    ensures Tallied(before, before, depth, {})
  {
    assert forall edges: int :: OfLength({}, edges) == {};
  }

  lemma TalliedArrival(before: seq<int>, depth: nat, u: nat)
    requires depth < |before|
    ensures Tallied(before, before[depth := before[depth] + 1], depth, {[u]})
  {
    assert forall edges: int :: OfLength({[u]}, edges) == if edges == 0 then {[u]} else {};
  }

  lemma TalliedStep(start: seq<int>, before: seq<int>, after: seq<int>, depth: nat,
                    had: set<Path>, more: set<Path>, all: set<Path>)
    requires Tallied(start, before, depth, had) && Tallied(before, after, depth + 1, more)
    requires AddedPaths(had, more, all)
    ensures Tallied(start, after, depth, all)
  {
    forall i | 0 <= i < |after| ensures after[i] == start[i] + |OfLength(all, i - depth)| {
      var edges := i - depth - 1;
      assert |OfLength(all, edges + 1)| == |OfLength(had, edges + 1)| + |OfLength(more, edges)|;
      assert after[i] == before[i] + |OfLength(more, i - (depth + 1))|;
    }
  }

  lemma Unfold(adj: Adjacency, u: nat, dest: nat, visited: set<nat>)
    requires u in adj && u !in visited
    ensures u == dest ==> Paths(adj, u, dest, visited) == {[u]} && Height(adj, u, dest, visited) == 0
    ensures u != dest ==>
              && Paths(adj, u, dest, visited) == PathsVia(adj, u, adj[u], dest, visited + {u})
              && Height(adj, u, dest, visited) == HeightVia(adj, adj[u], dest, visited + {u})
  {
    assert adj.Keys - (visited + {u}) == adj.Keys - visited - {u};
  }

  lemma NoNbrs(adj: Adjacency, u: nat, nbrs: seq<nat>, dest: nat, visited: set<nat>)
    ensures PathsVia(adj, u, nbrs[..0], dest, visited) == {}
    ensures HeightVia(adj, nbrs[..0], dest, visited) == 0
  {
  }

  lemma CountedFromAdded(had: set<Path>, more: set<Path>, all: set<Path>)
    requires AddedPaths(had, more, all)
    ensures |all| == |had| + |more|
  {
  }

  /** Some path, seen from `depth`, ends beyond an array of `length` entries but within `maxdepth`. */
  ghost predicate Overruns(s: set<Path>, depth: nat, length: nat, maxdepth: nat) {
    exists w :: w in s && length <= depth + |w| - 1 <= maxdepth
  }

  lemma OverrunsNone(depth: nat, length: nat, maxdepth: nat)
    ensures !Overruns({}, depth, length, maxdepth)
  {
  }

  lemma OverrunsOnArrival(u: nat, depth: nat, length: nat, maxdepth: nat)
    ensures Overruns({[u]}, depth, length, maxdepth) <==> length <= depth <= maxdepth
  {
    assert [u] in {[u]};
  }

  /** One more neighbour: its paths end one deeper. */
  lemma OverrunsStep(adj: Adjacency, u: nat, nbrs: seq<nat>, i: nat, dest: nat, visited: set<nat>,
                     depth: nat, length: nat, maxdepth: nat)
    requires i < |nbrs|
    ensures nbrs[i] !in visited ==>
              (Overruns(PathsVia(adj, u, nbrs[..i + 1], dest, visited), depth, length, maxdepth) <==>
               || Overruns(PathsVia(adj, u, nbrs[..i], dest, visited), depth, length, maxdepth)
               || Overruns(Paths(adj, nbrs[i], dest, visited), depth + 1, length, maxdepth))
    ensures Overruns(PathsVia(adj, u, nbrs[..i + 1], dest, visited), depth, length, maxdepth) ==>
              Overruns(PathsVia(adj, u, nbrs, dest, visited), depth, length, maxdepth)
  {
    PathsPrefix(adj, u, nbrs, i + 1, dest, visited);
    var had, more := PathsVia(adj, u, nbrs[..i], dest, visited), Paths(adj, nbrs[i], dest, visited);
    assert nbrs[..i + 1][..i] == nbrs[..i];
    if nbrs[i] !in visited {
      assert PathsVia(adj, u, nbrs[..i + 1], dest, visited) == had + Prepend(u, more);
      hide Paths, PathsVia;
      forall w | w in more ensures [u] + w in Prepend(u, more) {
      }
    }
  }

  lemma {:induction false} PathsPrefix(adj: Adjacency, u: nat, nbrs: seq<nat>, i: nat, dest: nat, visited: set<nat>)
    requires i <= |nbrs|
    ensures PathsVia(adj, u, nbrs[..i], dest, visited) <= PathsVia(adj, u, nbrs, dest, visited)
    decreases |nbrs|
  {
    if i == |nbrs| {
      assert nbrs[..i] == nbrs;
    } else {
      PathsPrefix(adj, u, nbrs[..|nbrs| - 1], i, dest, visited);
      assert nbrs[..|nbrs| - 1][..i] == nbrs[..i];
    }
  }

  /** The program exits when the recursion passes `maxdepth`, and is out of bounds when it arrives at
      `dest` beyond the end of the array. */
  datatype Outcome = Exited | Overrun | Counted(paths: nat)

  /** CountPaths. It gets through exactly when no trail is too deep and no path overruns the array;
      then it returns the number of simple paths, tallies them by length and restores every flag. */
  method CountPaths(graph: ManetGraph, source: nat, dest: nat, depth: nat, patharray: array<int>, maxdepth: nat)
    returns (r: Outcome)
    requires graph.Valid() && source in graph.nodes && source !in graph.Visited()
    modifies graph.nodes.Values`visited, patharray
    ensures r.Exited? ==> TooDeep(graph.adjacency, source, dest, old(graph.Visited()), depth, maxdepth)
    ensures r.Overrun? ==>
              Overruns(Paths(graph.adjacency, source, dest, old(graph.Visited())), depth, patharray.Length, maxdepth)
    ensures r.Counted? ==>
              var paths := Paths(graph.adjacency, source, dest, old(graph.Visited()));
              && !TooDeep(graph.adjacency, source, dest, old(graph.Visited()), depth, maxdepth)
              && !Overruns(paths, depth, patharray.Length, maxdepth)
              && graph.Visited() == old(graph.Visited())
              && r.paths == |paths| && Tallied(old(patharray[..]), patharray[..], depth, paths)
    decreases |graph.adjacency.Keys - graph.Visited()|, 0
  {
    hide *;
    ghost var adj, start := graph.adjacency, patharray[..];
    QueueFacts(graph, source);
    Unfold(adj, source, dest, graph.Visited());
    TooDeepIsHeight(adj, source, dest, graph.Visited(), depth, maxdepth);
    if depth > maxdepth {
      return Exited;
    }
    if source == dest {
      OverrunsOnArrival(source, depth, patharray.Length, maxdepth);
      if depth >= patharray.Length {
        return Overrun;
      }
      TalliedArrival(start, depth, source);
      patharray[depth] := patharray[depth] + 1;
      assert patharray[..] == start[depth := start[depth] + 1];
      return Counted(1);
    }
    ghost var v0 := graph.Visited();
    ghost var inside := v0 + {source};
    var paths := 0;
    graph.SetVisited(source, true);
    assert adj.Keys - inside == adj.Keys - v0 - {source};
    var nbrs := graph.adjacency[source];
    assert nbrs[..|nbrs|] == nbrs;
    TalliedNone(start, depth);
    OverrunsNone(depth, patharray.Length, maxdepth);
    NoNbrs(adj, source, nbrs, dest, inside);
    for i := 0 to |nbrs|
      invariant graph.Visited() == inside
      invariant paths == |PathsVia(adj, source, nbrs[..i], dest, inside)|
      invariant Tallied(start, patharray[..], depth, PathsVia(adj, source, nbrs[..i], dest, inside))
      invariant !Overruns(PathsVia(adj, source, nbrs[..i], dest, inside), depth, patharray.Length, maxdepth)
      invariant depth + HeightVia(adj, nbrs[..i], dest, inside) <= maxdepth
    {
      var r := CountNbr(graph, source, i, dest, depth, patharray, maxdepth, paths, start);
      if !r.Counted? {
        return r;
      }
      paths := r.paths;
    }
    graph.SetVisited(source, false);
    return Counted(paths);
  }

  /** The loop body of CountPaths for neighbour `i`: recurse into it unless it was visited. */
  method CountNbr(graph: ManetGraph, source: nat, i: nat, dest: nat, depth: nat, patharray: array<int>,
                  maxdepth: nat, paths: nat, ghost start: seq<int>) returns (r: Outcome)
    requires graph.Valid() && source in graph.nodes && i < |graph.adjacency[source]| && depth <= maxdepth
    requires var via := PathsVia(graph.adjacency, source, graph.adjacency[source][..i], dest, graph.Visited());
             && paths == |via| && Tallied(start, patharray[..], depth, via)
             && !Overruns(via, depth, patharray.Length, maxdepth)
             && depth + HeightVia(graph.adjacency, graph.adjacency[source][..i], dest, graph.Visited()) <= maxdepth
    modifies graph.nodes.Values`visited, patharray
    ensures r.Exited? ==>
              depth + HeightVia(graph.adjacency, graph.adjacency[source], dest, old(graph.Visited())) > maxdepth
    ensures r.Overrun? ==>
              Overruns(PathsVia(graph.adjacency, source, graph.adjacency[source], dest, old(graph.Visited())),
                       depth, patharray.Length, maxdepth)
    ensures r.Counted? ==>
              var via := PathsVia(graph.adjacency, source, graph.adjacency[source][..i + 1], dest, old(graph.Visited()));
              && graph.Visited() == old(graph.Visited())
              && r.paths == |via| && Tallied(start, patharray[..], depth, via)
              && !Overruns(via, depth, patharray.Length, maxdepth)
              && depth + HeightVia(graph.adjacency, graph.adjacency[source][..i + 1], dest, old(graph.Visited()))
                 <= maxdepth
    decreases |graph.adjacency.Keys - graph.Visited()|, 1
  {
    hide *;
    ghost var adj, before, visited := graph.adjacency, patharray[..], graph.Visited();
    QueueFacts(graph, source);
    var nbrs := graph.adjacency[source];
    var nbr := nbrs[i];
    LinkedNodesKnown(graph, source, nbr, nbr);
    VisitedFlag(graph, nbr);
    ViaStep(adj, source, nbrs, i, dest, visited);
    HeightPrefix(adj, nbrs, i, dest, visited);
    OverrunsStep(adj, source, nbrs, i, dest, visited, depth, patharray.Length, maxdepth);
    if graph.nodes[nbr].visited {
      return Counted(paths);
    }
    TooDeepIsHeight(adj, nbr, dest, visited, depth + 1, maxdepth);
    r := CountPaths(graph, nbr, dest, depth + 1, patharray, maxdepth);
    if r.Counted? {
      ghost var had, more, all := PathsVia(adj, source, nbrs[..i], dest, visited), Paths(adj, nbr, dest, visited),
                                  PathsVia(adj, source, nbrs[..i + 1], dest, visited);
      CountedFromAdded(had, more, all);
      TalliedStep(start, before, patharray[..], depth, had, more, all);
      r := Counted(paths + r.paths);
    }
  }

  const MAX_DEPTH := 20

  /** CalculatePaths: all flags cleared, then the paths between the first two interfaces counted. The
      depth limit is one more than the array has room for: a path of 20 links is written past its end. */
  method CalculatePaths(graph: ManetGraph) returns (r: Outcome, patharray: array<int>)
    requires graph.Valid() && |graph.ifaces| >= 2
    modifies graph.nodes.Values`visited
    ensures patharray.Length == 20
    ensures var all := Paths(graph.adjacency, graph.ifaces[0], graph.ifaces[1], {});
            var tooDeep := TooDeep(graph.adjacency, graph.ifaces[0], graph.ifaces[1], {}, 0, 20);
            && (r.Exited? ==> tooDeep)
            && (r.Overrun? ==> OfLength(all, 20) != {})
            && (r.Counted? ==>
                  && !tooDeep && OfLength(all, 20) == {} && graph.Visited() == {}
                  && r.paths == |all| && forall i :: 0 <= i < 20 ==> patharray[i] == |OfLength(all, i)|)
  {
    ClearFlags(graph);
    QueueOrder(graph);
    hide *;
    patharray := new int[MAX_DEPTH](_ => 0);
    ghost var zero := patharray[..];
    ghost var all := Paths(graph.adjacency, graph.ifaces[0], graph.ifaces[1], {});
    r := CountPaths(graph, graph.ifaces[0], graph.ifaces[1], 0, patharray, MAX_DEPTH);
    OverrunsAtTheEnd(all, MAX_DEPTH);
    if r.Counted? {
      TalliedFromZero(zero, patharray[..], all);
    }
  }

  lemma OverrunsAtTheEnd(s: set<Path>, length: nat)
    ensures Overruns(s, 0, length, length) <==> OfLength(s, length) != {}
  {
    if w :| w in s && length <= |w| - 1 <= length {
      assert w in OfLength(s, length);
    }
    if w :| w in OfLength(s, length) {
      assert w in s && |w| == length + 1;
    }
  }

  method ClearFlags(graph: ManetGraph)
    requires graph.Valid()
    modifies graph.nodes.Values`visited
    ensures graph.Visited() == {}
  {
    for k := 0 to |graph.ifaces|
      invariant graph.Visited() !! Members(graph.ifaces[..k])
    {
      assert graph.ifaces[k] in graph.ifaces;
      graph.SetVisited(graph.ifaces[k], false);
      assert graph.ifaces[..k + 1] == graph.ifaces[..k] + [graph.ifaces[k]];
    }
    assert graph.ifaces[..|graph.ifaces|] == graph.ifaces;
    assert forall v :: v in graph.nodes ==> v in graph.ifaces;
  }

  lemma QueueOrder(graph: ManetGraph)
    requires graph.Valid()
    ensures forall k :: 0 <= k < |graph.ifaces| ==> graph.ifaces[k] in graph.nodes
  {
    assert forall k :: 0 <= k < |graph.ifaces| ==> graph.ifaces[k] in graph.ifaces;
  }

  lemma TalliedFromZero(zero: seq<int>, after: seq<int>, s: set<Path>)
    requires Tallied(zero, after, 0, s) && forall i :: 0 <= i < |zero| ==> zero[i] == 0
    ensures |after| == |zero| && forall i :: 0 <= i < |after| ==> after[i] == |OfLength(s, i)|
  {
  }

  /** Twenty nodes or fewer always fit: CalculatePaths counts. */
  lemma SmallGraphsFit(graph: ManetGraph)
    requires graph.Valid() && 2 <= |graph.ifaces| <= MAX_DEPTH
    ensures !TooDeep(graph.adjacency, graph.ifaces[0], graph.ifaces[1], {}, 0, MAX_DEPTH - 1)
    ensures OfLength(Paths(graph.adjacency, graph.ifaces[0], graph.ifaces[1], {}), MAX_DEPTH) == {}
  {
    var adj, u, dest := graph.adjacency, graph.ifaces[0], graph.ifaces[1];
    assert u in graph.ifaces && dest in graph.ifaces;
    DistinctCount(graph.ifaces);
    assert Members(graph.ifaces) == adj.Keys;
    assert adj.Keys - {} == adj.Keys;
    forall x, y | x in adj && y in adj[x] ensures y in adj {
      assert graph.HasEdge(x, y);
    }
    hide ManetGraph.Valid, Height, Paths;
    HeightBound(adj, u, dest, {});
    TooDeepIsHeight(adj, u, dest, {}, 0, MAX_DEPTH - 1);
    forall w | w in Paths(adj, u, dest, {}) ensures |w| <= MAX_DEPTH {
      PathsAreSimple(adj, u, dest, {}, w);
      PathFits(adj, u, dest, w);
    }
  }

  /** A simple path has no more nodes than there are. */
  lemma PathFits(adj: Adjacency, u: nat, dest: nat, w: Path)
    requires SimplePath(adj, u, dest, {}, w) && dest in adj
    ensures |w| <= |adj.Keys|
  {
    DistinctCount(w);
    forall i | 0 <= i < |w| ensures w[i] in adj {
      assert i < |w| - 1 ==> Step(adj, w[i], w[i + 1], {});
    }
    assert adj.Keys == Members(w) + (adj.Keys - Members(w));
  }

  /** The 21 nodes of a line whose ends are the first two interfaces: 0, 2, 3, ..., 20, 1. */
  function Along(): (w: Path)
    ensures |w| == MAX_DEPTH + 1 && NoDuplicates(w)
    ensures w[0] == 0 && w[MAX_DEPTH] == 1 && forall i :: 0 < i < MAX_DEPTH ==> w[i] == i + 1
  {
    seq(MAX_DEPTH + 1, i requires 0 <= i <= MAX_DEPTH => if i == 0 then 0 else if i == MAX_DEPTH then 1 else i + 1)
  }

  function LineNbrs(k: nat): seq<nat> {
    if k == 0 then [2] else if k == 1 then [MAX_DEPTH] else if k == 2 then [0, 3]
    else if k == MAX_DEPTH then [MAX_DEPTH - 1, 1] else [k - 1, k + 1]
  }

  function Line(): Adjacency {
    map k | k in Along() :: LineNbrs(k)
  }

  lemma LineLinks()
    ensures forall i :: 0 < i <= MAX_DEPTH ==> Step(Line(), Along()[i - 1], Along()[i], {})
    ensures forall x :: x in Line() ==> forall y :: y in Line()[x] ==> y in Line()
    ensures Line().Keys == Members(Along())
  {
    var w := Along();
    forall k: nat | k <= MAX_DEPTH ensures k in w {
      assert w[if k == 0 then 0 else if k == 1 then MAX_DEPTH else k - 1] == k;
    }
    hide Along;
  }

  /** On the line no trail is too deep, but the one path has 20 links: CalculatePaths overruns. */
  lemma LineOverruns()
    ensures !TooDeep(Line(), 0, 1, {}, 0, MAX_DEPTH) && OfLength(Paths(Line(), 0, 1, {}), MAX_DEPTH) != {}
  {
    var adj, w := Line(), Along();
    LineLinks();
    hide Paths, Line, Along, Step, Height;
    DistinctCount(w);
    assert 0 in adj by {
      assert w[0] in Members(w);
    }
    assert SimplePath(adj, 0, 1, {}, w);
    PathsAreSimple(adj, 0, 1, {}, w);
    assert w in OfLength(Paths(adj, 0, 1, {}), MAX_DEPTH);
    assert adj.Keys - {} == adj.Keys;
    HeightBound(adj, 0, 1, {});
    TooDeepIsHeight(adj, 0, 1, {}, 0, MAX_DEPTH);
  }

  /** A chain 0, 2, 3, ..., 22 beside an isolated node 1. */
  function Chained(): (w: Path)
    ensures |w| == MAX_DEPTH + 2 && NoDuplicates(w)
    ensures w[0] == 0 && forall i :: 0 < i < |w| ==> w[i] == i + 1
  {
    seq(MAX_DEPTH + 2, i requires 0 <= i <= MAX_DEPTH + 1 => if i == 0 then 0 else i + 1)
  }

  function ChainNbrs(k: nat): seq<nat> {
    if k == 0 then [2] else if k == 1 then [] else if k == 2 then [0, 3]
    else if k == MAX_DEPTH + 2 then [MAX_DEPTH + 1] else [k - 1, k + 1]
  }

  function Chain(): Adjacency {
    map k | k in Chained() + [1] :: ChainNbrs(k)
  }

  /** From one end of the chain to the isolated node there is no path, and yet CalculatePaths exits. */
  lemma ChainExits()
    ensures TooDeep(Chain(), 0, 1, {}, 0, MAX_DEPTH) && Paths(Chain(), 0, 1, {}) == {}
  {
    var adj, w := Chain(), Chained();
    forall i | 0 < i < |w| ensures Step(adj, w[i - 1], w[i], {}) {
      assert w[i - 1] in w + [1];
    }
    assert Trail(adj, 0, 1, {}, w);
    hide Paths, Chained;
    forall p ensures p !in Paths(adj, 0, 1, {}) {
      PathsAreSimple(adj, 0, 1, {}, p);
      NoPathOnChain(p);
    }
  }

  lemma NoPathOnChain(p: Path)
    ensures !SimplePath(Chain(), 0, 1, {}, p)
  {
    if |p| > 1 {
      assert !Step(Chain(), p[|p| - 2], 1, {});
    }
  }

  /** Both are graphs: links run both ways, between known nodes, without repeats. */
  ghost predicate IsGraph(adj: Adjacency) {
    && (forall x, y :: Step(adj, x, y, {}) ==> Step(adj, y, x, {}))
    && (forall x :: x in adj ==> NoDuplicates(adj[x]))
  }

  lemma LineAt(k: nat)
    ensures k in Line() <==> k <= MAX_DEPTH
    ensures k in Line() ==> Line()[k] == LineNbrs(k)
  {
    hide LineNbrs;
    var w := Along();
    if k <= MAX_DEPTH {
      assert w[if k == 0 then 0 else if k == 1 then MAX_DEPTH else k - 1] == k;
    }
  }

  lemma LineLinkIsDuplex(x: nat, y: nat)
    requires x <= MAX_DEPTH && y in LineNbrs(x)
    ensures y <= MAX_DEPTH && x in LineNbrs(y)
  {
  }

  lemma LineIsGraph()
    ensures IsGraph(Line())
  {
    var adj := Line();
    forall x: nat ensures x in adj <==> x <= MAX_DEPTH
      ensures x in adj ==> adj[x] == LineNbrs(x)
    {
      LineAt(x);
    }
    hide Line;
    forall x, y | Step(adj, x, y, {}) ensures Step(adj, y, x, {}) {
      LineLinkIsDuplex(x, y);
      hide LineNbrs;
    }
  }

  lemma ChainAt(k: nat)
    ensures k in Chain() <==> k <= MAX_DEPTH + 2
    ensures k in Chain() ==> Chain()[k] == ChainNbrs(k)
  {
    hide ChainNbrs;
    var w := Chained();
    if k <= MAX_DEPTH + 2 && k != 1 {
      assert w[if k == 0 then 0 else k - 1] == k;
    }
  }

  lemma ChainLinkIsDuplex(x: nat, y: nat)
    requires x <= MAX_DEPTH + 2 && y in ChainNbrs(x)
    ensures y <= MAX_DEPTH + 2 && x in ChainNbrs(y)
  {
  }

  lemma ChainIsGraph()
    ensures IsGraph(Chain())
  {
    var adj := Chain();
    forall x: nat ensures x in adj <==> x <= MAX_DEPTH + 2
      ensures x in adj ==> adj[x] == ChainNbrs(x)
    {
      ChainAt(x);
    }
    hide Chain;
    forall x, y | Step(adj, x, y, {}) ensures Step(adj, y, x, {}) {
      ChainLinkIsDuplex(x, y);
      hide ChainNbrs;
    }
  }
}
