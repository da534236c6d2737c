/** When a node elects itself relay: the rules both E-CDS drivers implement, stated on a Mesh. */
module RelayRules {
  import opened Meshes

  /** A link the path search of `n0` follows: not into `n0`, and not between two 2-hop neighbours. */
  ghost predicate Hop(g: Mesh, n0: nat, x: nat, n: nat) {
    g.Edge(x, n) && n != n0 && (g.Edge(x, n0) || g.Edge(n, n0))
  }

  /** A trail of the path search from `top`: it enters no node flagged in `stale` and expands,
      after `top`, only nodes above `n0`. */
  ghost predicate SearchWalk(g: Mesh, n0: nat, top: nat, stale: set<nat>, v: nat, w: seq<nat>) {
    && |w| > 0 && w[0] == top && w[|w| - 1] == v
    && (forall i :: 0 < i < |w| ==> Hop(g, n0, w[i - 1], w[i]) && w[i] !in stale)
    && (forall i :: 0 < i < |w| - 1 ==> g.Above(w[i], n0))
  }

  ghost predicate Found(g: Mesh, n0: nat, top: nat, stale: set<nat>, v: nat) {
    exists w :: SearchWalk(g, n0, top, stale, v, w)
  }

  /** The greatest neighbour. */
  ghost function Top(g: Mesh, n0: nat): (m: nat)
    requires g.Nbrs(n0) != {}
    ensures IsGreatest(g, g.Nbrs(n0), m)
  {
    GreatestExists(g, g.Nbrs(n0));
    var m :| IsGreatest(g, g.Nbrs(n0), m);
    m
  }

  ghost predicate BeatsNbrs(g: Mesh, n0: nat) {
    forall v :: v in g.Nbrs(n0) ==> !g.Above(v, n0)
  }

  ghost predicate TwoHop(g: Mesh, n0: nat, x: nat) {
    exists v :: v in g.Nbrs(n0) && x in g.Nbrs(v)
  }

  ghost predicate BeatsTwoHop(g: Mesh, n0: nat) {
    BeatsNbrs(g, n0) && forall x :: TwoHop(g, n0, x) && x != n0 ==> !g.Above(x, n0)
  }

  /** The path search of `n0`, started over the flags `stale`, misses a neighbour of `n0`. */
  ghost predicate Misses(g: Mesh, n0: nat, stale: set<nat>)
    requires g.Nbrs(n0) != {}
  {
    exists v :: v in g.Nbrs(n0) && !Found(g, n0, Top(g, n0), stale, v)
  }

  /** The rule of graphRider: only the flags of 1-hop neighbours are cleared before the search. */
  ghost predicate RiderElects(g: Mesh, n0: nat, flags: set<nat>) {
    |g.Nbrs(n0)| >= 2 && (BeatsNbrs(g, n0) || Misses(g, n0, flags - g.Nbrs(n0)))
  }

  /** The rule of graphExample: 2-hop neighbours are compared too and every flag in reach is cleared. */
  ghost predicate ExampleElects(g: Mesh, n0: nat) {
    |g.Nbrs(n0)| >= 2 && (BeatsTwoHop(g, n0) || Misses(g, n0, {}))
  }

  /** The visited flags graphRider leaves behind after deciding about `n0`. */
  ghost function FlagsAfter(g: Mesh, n0: nat, flags: set<nat>): set<nat> {
    if |g.Nbrs(n0)| < 2 then flags
    else if BeatsNbrs(g, n0) then flags - g.Nbrs(n0)
    else flags - g.Nbrs(n0) + FoundSet(g, n0, Top(g, n0), flags - g.Nbrs(n0))
  }

  /** The flags when iteration over `order` reaches position `k`. */
  ghost function FlagsAt(g: Mesh, order: seq<nat>, k: nat, flags: set<nat>): set<nat>
    requires k <= |order|
  {
    if k == 0 then flags else FlagsAfter(g, order[k - 1], FlagsAt(g, order, k - 1, flags))
  }

  /** The relay list after `k` nodes of `order`. */
  ghost function RelayListAt(g: Mesh, order: seq<nat>, k: nat, flags: set<nat>): seq<nat>
    requires k <= |order|
  {
    if k == 0 then []
    else
      var list := RelayListAt(g, order, k - 1, flags);
      if RiderElects(g, order[k - 1], FlagsAt(g, order, k - 1, flags)) then list + [order[k - 1]] else list
  }

  lemma FoundAntitone(g: Mesh, n0: nat, top: nat, fewer: set<nat>, more: set<nat>, v: nat)
    requires fewer <= more && Found(g, n0, top, more, v)
    ensures Found(g, n0, top, fewer, v)
  {
    var w :| SearchWalk(g, n0, top, more, v, w);
    assert SearchWalk(g, n0, top, fewer, v, w);
  }

  /** Stale flags and the weaker step 4 only ever add relays. */
  lemma ExampleWithinRider(g: Mesh, n0: nat, flags: set<nat>)
    requires ExampleElects(g, n0)
    ensures RiderElects(g, n0, flags)
  {
    if !BeatsNbrs(g, n0) {
      var v :| v in g.Nbrs(n0) && !Found(g, n0, Top(g, n0), {}, v);
      if Found(g, n0, Top(g, n0), flags - g.Nbrs(n0), v) {
        FoundAntitone(g, n0, Top(g, n0), {}, flags - g.Nbrs(n0), v);
      }
    }
  }

  /** Flags outside the 2-hop neighbourhood of `n0` never matter. */
  lemma FlagsOutOfReach(g: Mesh, n0: nat, top: nat, stale: set<nat>, v: nat)
    requires g.Valid()
    requires forall x :: x in stale ==> x !in g.Nbrs(n0) && (x == n0 || !TwoHop(g, n0, x))
    ensures Found(g, n0, top, stale, v) <==> Found(g, n0, top, {}, v)
  {
    if Found(g, n0, top, stale, v) {
      FoundAntitone(g, n0, top, {}, stale, v);
    }
    if Found(g, n0, top, {}, v) {
      var w :| SearchWalk(g, n0, top, {}, v, w);
      forall i | 0 < i < |w| ensures w[i] !in stale {
        assert Hop(g, n0, w[i - 1], w[i]);
        assert g.Edge(w[i - 1], n0) ==> g.Edge(n0, w[i - 1]);
      }
      assert SearchWalk(g, n0, top, stale, v, w);
    }
  }

  ghost function FoundSet(g: Mesh, n0: nat, top: nat, stale: set<nat>): set<nat> {
    set v | v in g.Nodes() && Found(g, n0, top, stale, v)
  }

  lemma FoundStep(g: Mesh, n0: nat, top: nat, stale: set<nat>, x: nat, n: nat)
    requires Found(g, n0, top, stale, x) && (x == top || g.Above(x, n0))
    requires Hop(g, n0, x, n) && n !in stale
    ensures Found(g, n0, top, stale, n)
  {
    var w :| SearchWalk(g, n0, top, stale, x, w);
    var longer := if x == top then [top, n] else w + [n];
    assert SearchWalk(g, n0, top, stale, n, longer);
  }

  /** A set that contains `top` and is closed under expansion contains everything the search finds. */
  lemma {:induction false} FoundWithin(g: Mesh, n0: nat, top: nat, stale: set<nat>, closed: set<nat>,
                                       v: nat, w: seq<nat>)
    requires SearchWalk(g, n0, top, stale, v, w) && top in closed && top !in stale
    requires forall x, n :: x in closed && x !in stale && (x == top || g.Above(x, n0)) && Hop(g, n0, x, n)
                            ==> n in closed
    ensures v in closed && v !in stale
    decreases |w|
  {
    if |w| > 1 {
      var x := w[|w| - 2];
      assert SearchWalk(g, n0, top, stale, x, w[..|w| - 1]);
      FoundWithin(g, n0, top, stale, closed, x, w[..|w| - 1]);
      assert Hop(g, n0, w[|w| - 2], w[|w| - 1]);
    }
  }

  // ---- the rules in terms of walks ----

  /** The links the path search of `n0` may use: those with at least one end next to `n0`. */
  ghost function LocalMesh(g: Mesh, n0: nat): Mesh {
    Mesh(map u | u in g.Nodes() :: (set v | v in g.Nbrs(u) && (u in g.Nbrs(n0) || v in g.Nbrs(n0))), g.priority)
  }

  /** A walk of the local mesh joins `from` to `v`, its inner nodes are above `n0`, and after `from` it
      meets neither `n0` nor a node of `stale`. */
  ghost predicate Reached(g: Mesh, n0: nat, from: nat, stale: set<nat>, v: nat) {
    exists w :: && WalkBetween(LocalMesh(g, n0), g.Nodes(), from, v, w)
                && (forall i :: 0 < i < |w| - 1 ==> g.Above(w[i], n0))
                && (forall i :: 0 < i < |w| ==> w[i] != n0 && w[i] !in stale)
  }

  lemma LocalEdges(g: Mesh, n0: nat)
    requires g.Valid()
    ensures forall x, n :: n != n0 ==> (LocalMesh(g, n0).Edge(x, n) <==> Hop(g, n0, x, n))
  {
    var local := LocalMesh(g, n0);
    forall x, n | n != n0 ensures local.Edge(x, n) <==> Hop(g, n0, x, n) {
      assert g.Edge(x, n0) <==> g.Edge(n0, x);
      assert g.Edge(n, n0) <==> g.Edge(n0, n);
    }
  }

  /** What the path search finds are the nodes reached through greater nodes of the local mesh. */
  lemma FoundIffReached(g: Mesh, n0: nat, top: nat, stale: set<nat>, v: nat)
    requires g.Valid() && top in g.Nodes()
    ensures Found(g, n0, top, stale, v) <==> Reached(g, n0, top, stale, v)
    ensures Found(g, n0, top, stale, v) ==> v in g.Nodes()
  {
    var local := LocalMesh(g, n0);
    LocalEdges(g, n0);
    if w :| SearchWalk(g, n0, top, stale, v, w) {
      forall i | 0 < i < |w| ensures w[i] in g.Nodes() && w[i] != n0 && local.Edge(w[i - 1], w[i]) {
        assert Hop(g, n0, w[i - 1], w[i]);
        assert g.Edge(w[i - 1], w[i]);
      }
      assert WalkBetween(local, g.Nodes(), top, v, w);
    }
    if w :| && WalkBetween(local, g.Nodes(), top, v, w)
            && (forall i :: 0 < i < |w| - 1 ==> g.Above(w[i], n0))
            && (forall i :: 0 < i < |w| ==> w[i] != n0 && w[i] !in stale) {
      forall i | 0 < i < |w| ensures Hop(g, n0, w[i - 1], w[i]) {
        assert local.Edge(w[i - 1], w[i]);
      }
      assert SearchWalk(g, n0, top, stale, v, w);
    }
  }

  /** `top` is the greatest neighbour of `n0`, and some neighbour is not reached from it. */
  ghost predicate MissedFrom(g: Mesh, n0: nat, top: nat, stale: set<nat>) {
    IsGreatest(g, g.Nbrs(n0), top) && exists v :: v in g.Nbrs(n0) && !Reached(g, n0, top, stale, v)
  }

  lemma MissesIffNotReached(g: Mesh, n0: nat, stale: set<nat>, top: nat)
    requires g.Valid() && IsGreatest(g, g.Nbrs(n0), top)
    ensures top == Top(g, n0) && (Misses(g, n0, stale) <==> MissedFrom(g, n0, top, stale))
    ensures forall v :: v in FoundSet(g, n0, top, stale) <==> Reached(g, n0, top, stale, v)
  {
    assert g.Edge(n0, top);
    forall v
      ensures Found(g, n0, top, stale, v) <==> Reached(g, n0, top, stale, v)
      ensures Found(g, n0, top, stale, v) ==> v in g.Nodes()
    {
      FoundIffReached(g, n0, top, stale, v);
    }
  }

  /** graphRider elects a node with two neighbours or more exactly if no neighbour is above it, or one is
      not reached from the greatest neighbour over the flags that are left once the neighbours' are cleared. */
  ghost predicate RiderMeans(g: Mesh, n0: nat, flags: set<nat>) {
    && |g.Nbrs(n0)| >= 2
    && ((exists v :: g.Edge(n0, v) && g.Above(v, n0)) ==>
          exists top :: MissedFrom(g, n0, top, flags - g.Nbrs(n0)))
  }

  lemma RiderRule(g: Mesh, n0: nat, flags: set<nat>)
    requires g.Valid()
    ensures RiderElects(g, n0, flags) <==> RiderMeans(g, n0, flags)
  {
    if |g.Nbrs(n0)| >= 2 {
      assert BeatsNbrs(g, n0) <==> !exists v :: g.Edge(n0, v) && g.Above(v, n0);
      MissesIffNotReached(g, n0, flags - g.Nbrs(n0), Top(g, n0));
    }
  }

  /** The flags a decision leaves: only the neighbours' are cleared, and a node with a greater neighbour
      and two or more in all sets the flags of the nodes reached. */
  ghost predicate FlagsMean(g: Mesh, n0: nat, flags: set<nat>, after: set<nat>) {
    if |g.Nbrs(n0)| < 2 then after == flags
    else
      forall top :: IsGreatest(g, g.Nbrs(n0), top) ==>
        forall v :: v in after <==>
          (v in flags && !g.Edge(n0, v)) || (g.Above(top, n0) && Reached(g, n0, top, flags - g.Nbrs(n0), v))
  }

  lemma FlagsRule(g: Mesh, n0: nat, flags: set<nat>)
    requires g.Valid()
    ensures FlagsMean(g, n0, flags, FlagsAfter(g, n0, flags))
  {
    forall top | |g.Nbrs(n0)| >= 2 && IsGreatest(g, g.Nbrs(n0), top)
      ensures forall v :: v in FlagsAfter(g, n0, flags) <==>
        (v in flags && !g.Edge(n0, v)) || (g.Above(top, n0) && Reached(g, n0, top, flags - g.Nbrs(n0), v))
    {
      MissesIffNotReached(g, n0, flags - g.Nbrs(n0), top);
    }
  }

  /** The same for graphExample: nodes two links away must not be above `n0` either, and no flag counts. */
  ghost predicate ExampleMeans(g: Mesh, n0: nat) {
    && |g.Nbrs(n0)| >= 2
    && ((exists v :: g.Edge(n0, v) && (g.Above(v, n0) || exists x :: g.Edge(v, x) && g.Above(x, n0))) ==>
          exists top :: MissedFrom(g, n0, top, {}))
  }

  lemma ExampleRule(g: Mesh, n0: nat)
    requires g.Valid()
    ensures ExampleElects(g, n0) <==> ExampleMeans(g, n0)
  {
    if |g.Nbrs(n0)| >= 2 {
      MissesIffNotReached(g, n0, {}, Top(g, n0));
      if v :| g.Edge(n0, v) && (g.Above(v, n0) || exists x :: g.Edge(v, x) && g.Above(x, n0)) {
        if !g.Above(v, n0) {
          var x :| g.Edge(v, x) && g.Above(x, n0);
          assert TwoHop(g, n0, x);
        }
      } else {
        forall x | TwoHop(g, n0, x) ensures !g.Above(x, n0) {
          var v :| v in g.Nbrs(n0) && x in g.Nbrs(v);
          assert g.Edge(n0, v) && g.Edge(v, x);
        }
        forall v | v in g.Nbrs(n0) ensures !g.Above(v, n0) {
          assert g.Edge(n0, v);
        }
      }
    }
  }

  /** Nodes 1 to 4 in a ring: 1 - 2 - 4 - 3 - 1. */
  ghost function Ring(priority: map<nat, int>): Mesh {
    Mesh(map[1 := {2, 3}, 2 := {1, 4}, 3 := {1, 4}, 4 := {2, 3}], priority)
  }

  /** Node 1 needs no relaying in the ring as long as the search may enter node 4, which no flag but a
      stale one prevents. */
  lemma RingElection(flags: set<nat>)
    ensures RiderElects(Ring(map[]), 1, flags) <==> 4 in flags
    ensures !ExampleElects(Ring(map[]), 1)
  {
    var g, stale := Ring(map[]), flags - {2, 3};
    assert g.Edge(3, 4) && g.Edge(4, 2) && g.Edge(3, 1) && g.Edge(2, 1) && g.Above(4, 1);
    assert IsGreatest(g, g.Nbrs(1), 3) && 2 in g.Nbrs(1) && Top(g, 1) == 3;
    assert SearchWalk(g, 1, 3, {}, 3, [3]) && SearchWalk(g, 1, 3, stale, 3, [3]);
    assert SearchWalk(g, 1, 3, {}, 2, [3, 4, 2]);
    if 4 in flags {
      if w :| SearchWalk(g, 1, 3, stale, 2, w) {
        FoundWithin(g, 1, 3, stale, {3} + stale, 2, w);
      }
    } else {
      assert SearchWalk(g, 1, 3, stale, 2, [3, 4, 2]);
    }
    assert g.Nbrs(1) == {2, 3};
  }

  /** With the greatest priority it is elected in spite of its small id. */
  lemma PriorityElects(flags: set<nat>)
    ensures RiderElects(Ring(map[1 := 3, 2 := 2, 3 := 2, 4 := 2]), 1, flags)
  {
    var g := Ring(map[1 := 3, 2 := 2, 3 := 2, 4 := 2]);
    assert g.Nbrs(1) == {2, 3} && |{2, 3}| == 2;
  }

  /** In the longer ring 1 - 2 - 4 - 5 - 3 - 1 the link between 4 and 5 has no end next to node 1, so the
      search may not use it and node 1 is elected over any flags. */
  lemma LongRingElects(flags: set<nat>)
    ensures RiderElects(Mesh(map[1 := {2, 3}, 2 := {1, 4}, 3 := {1, 5}, 4 := {2, 5}, 5 := {3, 4}], map[]), 1, flags)
  {
    var g := Mesh(map[1 := {2, 3}, 2 := {1, 4}, 3 := {1, 5}, 4 := {2, 5}, 5 := {3, 4}], map[]);
    assert 2 in g.Nbrs(1) && 3 in g.Nbrs(1);
    assert IsGreatest(g, g.Nbrs(1), 3) && Top(g, 1) == 3;
    if w :| SearchWalk(g, 1, 3, flags - g.Nbrs(1), 2, w) {
      FoundWithin(g, 1, 3, flags - g.Nbrs(1), {3, 5} + (flags - g.Nbrs(1)), 2, w);
    }
  }
}
