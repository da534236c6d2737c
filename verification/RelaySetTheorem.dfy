/** The purpose of E-CDS: self-elected relays form a connected dominating set of every component
    that has at least three nodes, whatever `visited` flags each election started from. */
module RelaySetTheorem {
  import opened Meshes
  import opened RelayRules

  /** `relays` is an outcome of graphRider's rule; `flags[n]` are the visited flags `n` started from. */
  ghost predicate Elected(g: Mesh, relays: set<nat>, flags: map<nat, set<nat>>) {
    && g.Valid()
    && relays <= g.Nodes() <= flags.Keys
    && forall n :: n in g.Nodes() ==> (n in relays <==> RiderElects(g, n, flags[n]))
  }

  lemma TwoMembers(s: set<nat>, a: nat) returns (b: nat)
    requires |s| >= 2
    ensures b in s && b != a
  {
    assert a !in s ==> s - {a} == s;
    assert |s - {a}| >= |s| - 1;
    b :| b in s - {a};
  }

  lemma AtLeastTwo(s: set<nat>, a: nat, b: nat)
    requires a in s && b in s && a != b
    ensures |s| >= 2
  {
    assert s == {a} + (s - {a});
    assert b in s - {a};
  }

  /** A path search never enters the node it serves. */
  lemma FoundIsNotSelf(g: Mesh, n0: nat, top: nat, stale: set<nat>)
    requires top != n0
    ensures !Found(g, n0, top, stale, n0)
  {
    forall w ensures !SearchWalk(g, n0, top, stale, n0, w) {
      if |w| > 1 && Hop(g, n0, w[|w| - 2], w[|w| - 1]) {
        assert w[|w| - 1] != n0;
      }
    }
  }

  /** It leaves `top` and enters another node over links that do not touch the node it serves. */
  lemma FoundEnds(g: Mesh, n0: nat, top: nat, stale: set<nat>, v: nat) returns (first: nat, last: nat)
    requires g.Valid() && Found(g, n0, top, stale, v) && top != n0 && v != top
    ensures g.Edge(top, first) && first != n0
    ensures g.Edge(v, last) && last != n0 && (last == top || g.Above(last, n0))
  {
    var w :| SearchWalk(g, n0, top, stale, v, w);
    first, last := w[1], w[|w| - 2];
    assert Hop(g, n0, w[0], w[1]) && Hop(g, n0, w[|w| - 2], w[|w| - 1]);
    if |w| > 2 {
      assert Hop(g, n0, w[|w| - 3], w[|w| - 2]);
    }
  }

  /** A walk of a non-relay's path search stays away from that node and inside the greater nodes. */
  lemma FoundIsLinked(g: Mesh, n0: nat, top: nat, stale: set<nat>, v: nat, allowed: set<nat>)
    requires Found(g, n0, top, stale, v)
    requires top in allowed && v in allowed
    requires forall x :: x in g.Nodes() && g.Above(x, n0) ==> x in allowed
    requires g.Valid()
    ensures Linked(g, allowed, top, v)
  {
    var w :| SearchWalk(g, n0, top, stale, v, w);
    forall i | 0 <= i < |w| ensures w[i] in allowed {
      if 0 < i {
        assert Hop(g, n0, w[i - 1], w[i]);
      }
    }
    assert WalkBetween(g, allowed, top, v, w);
  }

  /** What a node gives up when it declines: a greater top neighbour joined to all its neighbours. */
  lemma DeclinedNode(g: Mesh, relays: set<nat>, flags: map<nat, set<nat>>, n: nat) returns (m: nat)
    requires Elected(g, relays, flags) && n in g.Nodes() && n !in relays && |g.Nbrs(n)| >= 2
    ensures IsGreatest(g, g.Nbrs(n), m) && g.Above(m, n)
    ensures forall v :: v in g.Nbrs(n) ==> Found(g, n, m, flags[n] - g.Nbrs(n), v)
    ensures n !in g.Nbrs(n)
  {
    m := Top(g, n);
    assert !BeatsNbrs(g, n);
    var a :| a in g.Nbrs(n) && g.Above(a, n);
    FoundIsNotSelf(g, n, m, flags[n] - g.Nbrs(n));
  }

  /** What makes a node dispensable: its neighbours are joined through greater nodes, from a neighbour
      that is greater or a relay; or it beats its neighbours, and the relays among them are joined. */
  ghost predicate Bypassed(g: Mesh, relays: set<nat>, n: nat) {
    || |g.Nbrs(n)| < 2
    || (exists m :: m in g.Nbrs(n) && (m in relays || g.Above(m, n)) && ReachesAll(g, n, m))
    || (BeatsNbrs(g, n) && JoinsRelays(g, relays, n))
  }

  /** The path search from `m` over clean flags finds every neighbour of `n`. */
  ghost predicate ReachesAll(g: Mesh, n: nat, m: nat) {
    forall v :: v in g.Nbrs(n) ==> Found(g, n, m, {}, v)
  }

  ghost predicate JoinsRelays(g: Mesh, relays: set<nat>, n: nat) {
    forall a, b :: a in relays && b in relays && g.Edge(n, a) && g.Edge(n, b) ==> Linked(g, relays, a, b)
  }

  /** All nodes but the relays are dispensable. */
  ghost predicate Spanned(g: Mesh, relays: set<nat>) {
    g.Valid() && relays <= g.Nodes() && forall n :: n in g.Nodes() - relays ==> Bypassed(g, relays, n)
  }

  lemma ElectedIsSpanned(g: Mesh, relays: set<nat>, flags: map<nat, set<nat>>)
    requires Elected(g, relays, flags)
    ensures Spanned(g, relays)
  {
    forall n | n in g.Nodes() - relays ensures Bypassed(g, relays, n) {
      if |g.Nbrs(n)| >= 2 {
        var m := DeclinedNode(g, relays, flags, n);
        forall v | v in g.Nbrs(n) ensures Found(g, n, m, {}, v) {
          FoundAntitone(g, n, m, {}, flags[n] - g.Nbrs(n), v);
        }
        assert ReachesAll(g, n, m);
      }
    }
  }

  /** Two neighbours of the least non-relay are joined without it. */
  lemma Detour(g: Mesh, relays: set<nat>, n: nat, a: nat, b: nat, allowed: set<nat>)
    requires g.Valid() && Bypassed(g, relays, n) && relays <= allowed
    requires g.Edge(a, n) && g.Edge(n, b) && a in allowed && b in allowed && a != n && b != n
    requires forall x :: x in g.Nodes() && g.Above(x, n) ==> x in allowed
    requires forall x :: x in allowed - relays ==> g.Above(x, n)
    ensures Linked(g, allowed, a, b)
  {
    assert g.Edge(n, a);
    if a == b {
      LinkedRefl(g, allowed, a);
    } else {
      AtLeastTwo(g.Nbrs(n), a, b);
      if m :| m in g.Nbrs(n) && (m in relays || g.Above(m, n)) && ReachesAll(g, n, m) {
        assert g.Edge(n, m);
        FoundIsLinked(g, n, m, {}, a, allowed);
        FoundIsLinked(g, n, m, {}, b, allowed);
        LinkedSym(g, allowed, m, a);
        LinkedTrans(g, allowed, a, m, b);
      } else {
        LinkedMono(g, relays, allowed, a, b);
      }
    }
  }

  /** The least non-relay can be taken out of a walk between two other nodes. */
  lemma {:induction false} WithoutLeast(g: Mesh, relays: set<nat>, n: nat, allowed: set<nat>, a: nat, b: nat, w: seq<nat>)
    requires g.Valid() && Bypassed(g, relays, n) && relays <= allowed - {n}
    requires WalkBetween(g, allowed, a, b, w) && a != n && b != n
    requires forall x :: x in g.Nodes() && g.Above(x, n) ==> x in allowed
    requires forall x :: x in allowed - {n} - relays ==> g.Above(x, n)
    ensures Linked(g, allowed - {n}, a, b)
    decreases |w|
  {
    var rest := allowed - {n};
    hide Bypassed, Linked;
    if |w| == 1 {
      LinkedRefl(g, rest, a);
    } else if w[1] != n {
      assert g.Edge(w[0], w[1]);
      WithoutLeast(g, relays, n, allowed, w[1], b, w[1..]);
      LinkedEdge(g, rest, a, w[1]);
      LinkedTrans(g, rest, a, w[1], b);
    } else {
      assert g.Edge(w[0], w[1]) && g.Edge(w[1], w[2]);
      if w[2] == n {
        WithoutLeast(g, relays, n, allowed, a, b, [a] + w[2..]);
      } else {
        WithoutLeast(g, relays, n, allowed, w[2], b, w[2..]);
        Detour(g, relays, n, a, w[2], rest);
        LinkedTrans(g, rest, a, w[2], b);
      }
    }
  }

  /** Taking non-relays out in increasing order leaves relays joined by relays. */
  lemma {:induction false} ShrinkToRelays(g: Mesh, relays: set<nat>, allowed: set<nat>, a: nat, b: nat)
    requires Spanned(g, relays)
    requires relays <= allowed <= g.Nodes() && a in relays && b in relays
    requires forall x, y :: x in allowed - relays && y in g.Nodes() - allowed ==> g.Above(x, y)
    requires Linked(g, allowed, a, b)
    ensures Linked(g, relays, a, b)
    decreases allowed
  {
    if extra :| extra in allowed && extra !in relays {
      assert extra in allowed - relays;
      var n := LeastOf(g, allowed - relays);
      forall y | y in g.Nodes() && y !in allowed ensures g.Above(n, y) {
        assert y in g.Nodes() - allowed;
      }
      var w :| WalkBetween(g, allowed, a, b, w);
      assert n in g.Nodes() - relays;
      hide Bypassed;
      WithoutLeast(g, relays, n, allowed, a, b, w);
      ShrinkToRelays(g, relays, allowed - {n}, a, b);
    } else {
      assert allowed == relays;
    }
  }

  /** Relays that span are connected within components. */
  lemma SpannedIsConnected(g: Mesh, relays: set<nat>, a: nat, b: nat)
    requires Spanned(g, relays) && a in relays && b in relays && Linked(g, g.Nodes(), a, b)
    ensures Linked(g, relays, a, b)
  {
    ShrinkToRelays(g, relays, g.Nodes(), a, b);
  }

  /** Connectivity: relays of one component are joined by a walk of relays. */
  lemma RelaysConnected(g: Mesh, relays: set<nat>, flags: map<nat, set<nat>>, a: nat, b: nat)
    requires Elected(g, relays, flags) && a in relays && b in relays
    requires Linked(g, g.Nodes(), a, b)
    ensures Linked(g, relays, a, b)
  {
    ElectedIsSpanned(g, relays, flags);
    SpannedIsConnected(g, relays, a, b);
  }

  /** The greatest neighbour of a declining node of degree two or more is itself a relay. */
  lemma TopNbrIsRelay(g: Mesh, relays: set<nat>, flags: map<nat, set<nat>>, n: nat) returns (m: nat)
    requires Elected(g, relays, flags) && n in g.Nodes() && n !in relays && |g.Nbrs(n)| >= 2
    ensures m in g.Nbrs(n) && m in relays && IsGreatest(g, g.Nbrs(n), m)
  {
    m := DeclinedNode(g, relays, flags, n);
    assert g.Edge(n, m) && g.Edge(m, n);
    var other := TwoMembers(g.Nbrs(n), m);
    var first, _ := FoundEnds(g, n, m, flags[n] - g.Nbrs(n), other);
    AtLeastTwo(g.Nbrs(m), n, first);
    if m !in relays {
      // The search of m would have to enter n through a neighbour of n greater than m.
      var m' := DeclinedNode(g, relays, flags, m);
      if m' != n {
        var _, last := FoundEnds(g, m, m', flags[m] - g.Nbrs(m), n);
        assert false;
      }
    }
  }

  /** A node that no relay covers: alone, or one of a pair without self links. */
  ghost predicate OrphanOrPair(g: Mesh, v: nat) {
    || g.Nbrs(v) <= {v}
    || exists u :: u != v && g.Nbrs(v) == {u} && g.Nbrs(u) == {v}
  }

  ghost predicate Covered(g: Mesh, relays: set<nat>, v: nat) {
    v in relays || exists u :: u in relays && g.Edge(u, v)
  }

  /** Domination, exactly: the uncovered nodes are the orphans and the orphan pairs. */
  lemma CoveredUnlessOrphan(g: Mesh, relays: set<nat>, flags: map<nat, set<nat>>, v: nat)
    requires Elected(g, relays, flags) && v in g.Nodes()
    ensures Covered(g, relays, v) <==> !OrphanOrPair(g, v)
  {
    if OrphanOrPair(g, v) {
      OrphanIsUncovered(g, relays, flags, v);
    } else if |g.Nbrs(v)| >= 2 {
      if v !in relays {
        var m := TopNbrIsRelay(g, relays, flags, v);
        assert g.Edge(m, v);
      }
    } else {
      LeafIsCovered(g, relays, flags, v);
    }
  }

  lemma OrphanIsUncovered(g: Mesh, relays: set<nat>, flags: map<nat, set<nat>>, v: nat)
    requires Elected(g, relays, flags) && v in g.Nodes() && OrphanOrPair(g, v)
    ensures !Covered(g, relays, v)
  {
    if v in relays {
      var x := TwoMembers(g.Nbrs(v), v);
      var y := TwoMembers(g.Nbrs(v), x);
    }
    if u :| u in relays && g.Edge(u, v) {
      assert g.Edge(v, u);
      if u != v {
        var x := TwoMembers(g.Nbrs(u), v);
      }
    }
  }

  lemma LeafIsCovered(g: Mesh, relays: set<nat>, flags: map<nat, set<nat>>, v: nat)
    requires Elected(g, relays, flags) && v in g.Nodes() && !OrphanOrPair(g, v) && |g.Nbrs(v)| < 2
    ensures exists u :: u in relays && g.Edge(u, v)
  {
    var u :| u in g.Nbrs(v) && u != v;
    assert g.Nbrs(v) == {u} by {
      forall x | x in g.Nbrs(v) ensures x == u {
        if x != u { AtLeastTwo(g.Nbrs(v), x, u); }
      }
    }
    assert g.Edge(u, v);
    var other :| other in g.Nbrs(u) && other != v;
    AtLeastTwo(g.Nbrs(u), v, other);
    if u !in relays {
      // v has no way out but u, so the search of u cannot join v to its other neighbour.
      var m := DeclinedNode(g, relays, flags, u);
      var _, _ := FoundEnds(g, u, m, flags[u] - g.Nbrs(u), if m == v then other else v);
      assert false;
    }
  }

  /** The same in terms of components: at most two nodes, and no self link in a pair. */
  ghost predicate SmallComponent(g: Mesh, v: nat) {
    var c := Component(g, v);
    |c| == 1 || (|c| == 2 && forall x :: x in c ==> !g.Edge(x, x))
  }

  lemma OrphanIffSmallComponent(g: Mesh, v: nat)
    requires g.Valid() && v in g.Nodes()
    ensures OrphanOrPair(g, v) <==> SmallComponent(g, v)
  {
    LinkedRefl(g, g.Nodes(), v);
    if g.Nbrs(v) <= {v} {
      ComponentWithin(g, v, {v});
      assert Component(g, v) == {v};
    } else {
      var u :| u in g.Nbrs(v) && u != v;
      assert g.Edge(v, u) && g.Edge(u, v);
      LinkedEdge(g, g.Nodes(), v, u);
      AtLeastTwo(Component(g, v), u, v);
      if g.Nbrs(v) == {u} && g.Nbrs(u) == {v} {
        ComponentWithin(g, v, {u, v});
        assert Component(g, v) == {u, v};
      } else if SmallComponent(g, v) {
        PairIsClosed(g, v, u);
      }
    }
  }

  lemma PairIsClosed(g: Mesh, v: nat, u: nat)
    requires g.Valid() && v in g.Nodes() && g.Edge(v, u) && u != v
    requires |Component(g, v)| == 2 && forall x :: x in Component(g, v) ==> !g.Edge(x, x)
    ensures g.Nbrs(v) == {u} && g.Nbrs(u) == {v}
  {
    var c := Component(g, v);
    LinkedRefl(g, g.Nodes(), v);
    LinkedEdge(g, g.Nodes(), v, u);
    assert |c - {u}| == 1 && |c - {u} - {v}| == 0;
    assert c == {u, v};
    assert !g.Edge(v, v) && !g.Edge(u, u);
    forall x | x in g.Nbrs(v) ensures x == u {
      assert g.Edge(v, x);
      LinkedEdge(g, g.Nodes(), v, x);
      assert x in c;
    }
    forall x | x in g.Nbrs(u) ensures x == v {
      assert g.Edge(u, x);
      LinkedEdge(g, g.Nodes(), u, x);
      LinkedTrans(g, g.Nodes(), v, u, x);
      assert x in c;
    }
    assert g.Edge(v, u) && g.Edge(u, v);
  }

  lemma ComponentWithin(g: Mesh, v: nat, inside: set<nat>)
    requires v in inside
    requires forall x, y :: x in inside && g.Edge(x, y) ==> y in inside
    ensures Component(g, v) <= inside
  {
    forall u | u in Component(g, v) ensures u in inside {
      var w :| WalkBetween(g, g.Nodes(), v, u, w);
      WalkStaysInside(g, inside, v, u, w);
    }
  }

  /** Two linked nodes, one of them linked to itself as well: that one is a relay. */
  function SelfLinkedPair(): Mesh {
    Mesh(map[1 := {1, 2}, 2 := {1}], map[])
  }

  lemma SelfLinkedPairHasRelay(flags: map<nat, set<nat>>)
    requires {1, 2} <= flags.Keys
    ensures Elected(SelfLinkedPair(), {1}, flags) && Covered(SelfLinkedPair(), {1}, 2)
    ensures Component(SelfLinkedPair(), 2) == {1, 2}
  {
    var g := SelfLinkedPair();
    PairFacts(g);
    AtLeastTwo(g.Nbrs(1), 1, 2);
    assert IsGreatest(g, g.Nbrs(1), 2);
    FoundIsNotSelf(g, 1, 2, flags[1] - g.Nbrs(1));
    assert Top(g, 1) == 2;
    assert RiderElects(g, 1, flags[1]) && !RiderElects(g, 2, flags[2]);
    LinkedRefl(g, g.Nodes(), 2);
    LinkedEdge(g, g.Nodes(), 2, 1);
  }

  lemma PairFacts(g: Mesh)
    requires g == SelfLinkedPair()
    ensures g.Valid() && g.Nodes() == {1, 2} && g.Nbrs(1) == {1, 2} && g.Nbrs(2) == {1} && g.Above(2, 1)
  {
  }

  /** The promise of E-CDS. Nodes of components with three or more nodes are relays or next to one,
      and relays of one component reach each other through relays. */
  ghost predicate ConnectedDominating(g: Mesh, relays: set<nat>) {
    && (forall v :: v in g.Nodes() ==> (Covered(g, relays, v) <==> !SmallComponent(g, v)))
    && (forall a, b :: a in relays && b in relays && Linked(g, g.Nodes(), a, b) ==> Linked(g, relays, a, b))
  }

  lemma RelaysFormCDS(g: Mesh, relays: set<nat>, flags: map<nat, set<nat>>)
    requires Elected(g, relays, flags)
    ensures ConnectedDominating(g, relays)
  {
    forall v | v in g.Nodes() ensures Covered(g, relays, v) <==> !SmallComponent(g, v) {
      CoveredUnlessOrphan(g, relays, flags, v);
      OrphanIffSmallComponent(g, v);
    }
    forall a, b | a in relays && b in relays && Linked(g, g.Nodes(), a, b) ensures Linked(g, relays, a, b) {
      RelaysConnected(g, relays, flags, a, b);
    }
  }

  // ---- graphExample's variant of the rule ----

  /** `relays` is the outcome of graphExample's rule. */
  ghost predicate ElectedByExample(g: Mesh, relays: set<nat>) {
    && g.Valid() && relays <= g.Nodes()
    && forall n :: n in g.Nodes() ==> (n in relays <==> ExampleElects(g, n))
  }

  /** graphExample never elects a node that graphRider, on the same graph, would not. */
  lemma ExampleRelaysAreRiderRelays(g: Mesh, example: set<nat>, rider: set<nat>, flags: map<nat, set<nat>>)
    requires ElectedByExample(g, example) && Elected(g, rider, flags)
    ensures example <= rider
  {
    forall n | n in example ensures n in rider {
      ExampleWithinRider(g, n, flags[n]);
    }
  }

  /** A node that beats its neighbours, is beaten two hops away, and whose path search succeeds. */
  ghost predicate Suppressed(g: Mesh, n: nat) {
    |g.Nbrs(n)| >= 2 && BeatsNbrs(g, n) && !BeatsTwoHop(g, n) && !Misses(g, n, {})
  }

  ghost function NoFlags(g: Mesh): map<nat, set<nat>> {
    map n | n in g.Nodes() :: {}
  }

  /** The election of graphRider over clean flags. */
  ghost function RiderSet(g: Mesh): set<nat> {
    set n | n in g.Nodes() && RiderElects(g, n, {})
  }

  lemma RiderSetIsElected(g: Mesh)
    requires g.Valid()
    ensures Elected(g, RiderSet(g), NoFlags(g))
  {
  }

  /** What graphExample drops of it are the suppressed nodes, */
  lemma ExampleDropsSuppressed(g: Mesh, example: set<nat>, n: nat)
    requires ElectedByExample(g, example) && n in g.Nodes()
    ensures n in example <==> n in RiderSet(g) && !Suppressed(g, n)
    ensures n in RiderSet(g) <==> RiderElects(g, n, {})
  {
    assert {} - g.Nbrs(n) == {};
    if n in example {
      ExampleWithinRider(g, n, {});
    }
  }

  /** ... of which no two are adjacent. */
  lemma SuppressedApart(g: Mesh, n: nat, m: nat)
    requires g.Valid() && g.Edge(n, m) && n != m && Suppressed(g, n)
    ensures !Suppressed(g, m)
  {
    assert g.Edge(m, n) && !g.Above(m, n);
  }

  /** A walk to another node leaves the first one. */
  lemma {:induction false} LeavesStart(g: Mesh, allowed: set<nat>, u: nat, v: nat, w: seq<nat>) returns (next: nat)
    requires WalkBetween(g, allowed, u, v, w) && u != v
    ensures next in allowed && next != u && g.Edge(u, next)
    decreases |w|
  {
    assert g.Edge(w[0], w[1]);
    next := w[1];
    if w[1] == u {
      next := LeavesStart(g, allowed, u, v, w[1..]);
    }
  }

  /** A suppressed node is never uncovered: the node two hops away that beats it has a relay that
      graphRider joins to it, and the next relay on the way stays elected. */
  lemma SuppressedIsCovered(g: Mesh, example: set<nat>, n: nat)
    requires ElectedByExample(g, example) && n in g.Nodes() && Suppressed(g, n)
    ensures Covered(g, example, n)
  {
    var rider := RiderSet(g);
    RiderSetIsElected(g);
    ExampleDropsSuppressed(g, example, n);
    assert {} - g.Nbrs(n) == {};
    var r := FarRelay(g, rider, NoFlags(g), n);
    RelaysConnected(g, rider, NoFlags(g), n, r);
    var w :| WalkBetween(g, rider, n, r, w);
    var u := LeavesStart(g, rider, n, r, w);
    SuppressedApart(g, n, u);
    ExampleDropsSuppressed(g, example, u);
    assert g.Edge(u, n);
  }

  /** Another relay in the component of a suppressed node. */
  lemma FarRelay(g: Mesh, relays: set<nat>, flags: map<nat, set<nat>>, n: nat) returns (r: nat)
    requires Elected(g, relays, flags) && n in relays && Suppressed(g, n)
    ensures r in relays && r != n && Linked(g, g.Nodes(), n, r)
  {
    var x :| TwoHop(g, n, x) && x != n && g.Above(x, n);
    var y :| y in g.Nbrs(n) && x in g.Nbrs(y);
    assert g.Edge(n, y) && g.Edge(y, x) && g.Edge(y, n) && g.Edge(x, y);
    assert y != n && x !in g.Nbrs(n);
    assert !OrphanOrPair(g, x) by {
      assert n in g.Nbrs(y) && n != x;
    }
    CoveredUnlessOrphan(g, relays, flags, x);
    LinkedEdge(g, g.Nodes(), n, y);
    LinkedEdge(g, g.Nodes(), y, x);
    LinkedTrans(g, g.Nodes(), n, y, x);
    if x in relays {
      r := x;
    } else {
      r :| r in relays && g.Edge(r, x);
      assert g.Edge(x, r);
      LinkedEdge(g, g.Nodes(), x, r);
      LinkedTrans(g, g.Nodes(), n, x, r);
    }
  }

  /** Not elected, and next to no elected node that is not suppressed: what a caller can look up. */
  ghost predicate Stranded(g: Mesh, v: nat) {
    && !RiderElects(g, v, {})
    && forall u :: u in g.Nbrs(v) && RiderElects(g, u, {}) ==> Suppressed(g, u)
  }

  /** Outside small components, graphExample leaves exactly the stranded nodes without a relay. */
  lemma UncoveredIffStranded(g: Mesh, example: set<nat>, v: nat)
    requires ElectedByExample(g, example) && v in g.Nodes() && !SmallComponent(g, v)
    ensures !Covered(g, example, v) <==> Stranded(g, v)
  {
    ExampleDropsSuppressed(g, example, v);
    forall u | g.Edge(v, u) ensures u in example <==> RiderElects(g, u, {}) && !Suppressed(g, u) {
      ExampleDropsSuppressed(g, example, u);
    }
    if Suppressed(g, v) {
      SuppressedIsCovered(g, example, v);
    }
    assert forall u :: g.Edge(u, v) ==> g.Edge(v, u);
    if Stranded(g, v) {
      assert !Covered(g, example, v);
    } else if RiderElects(g, v, {}) {
      assert v in example || Suppressed(g, v);
    } else {
      var u :| u in g.Nbrs(v) && RiderElects(g, u, {}) && !Suppressed(g, u);
      assert g.Edge(v, u) && g.Edge(u, v);
    }
  }

  /** Small components stay uncovered. */
  lemma SmallIsUncovered(g: Mesh, example: set<nat>, v: nat)
    requires ElectedByExample(g, example) && v in g.Nodes() && SmallComponent(g, v)
    ensures !Covered(g, example, v)
  {
    RiderSetIsElected(g);
    ExampleRelaysAreRiderRelays(g, example, RiderSet(g), NoFlags(g));
    RelaysFormCDS(g, RiderSet(g), NoFlags(g));
  }

  /** A leaf can only be stranded at a node that is linked to itself. */
  lemma LeafIsNotStranded(g: Mesh, v: nat, u: nat)
    requires g.Valid() && v in g.Nodes() && g.Nbrs(v) == {u} && u != v && !g.Edge(u, u) && !SmallComponent(g, v)
    ensures !Stranded(g, v)
  {
    RiderSetIsElected(g);
    OrphanIffSmallComponent(g, v);
    LeafIsCovered(g, RiderSet(g), NoFlags(g), v);
    assert g.Edge(v, u) && g.Edge(u, v);
    assert {} - g.Nbrs(u) == {};
    var other := TwoMembers(g.Nbrs(u), v);
    var top := Top(g, u);
    if Suppressed(g, u) {
      var _, _ := FoundEnds(g, u, top, {}, if top == v then other else v);
    }
  }

  /** The nodes graphExample elects. */
  ghost function ExampleSet(g: Mesh): set<nat> {
    set n | n in g.Nodes() && ExampleElects(g, n)
  }

  /** A suppressed node that leaves its neighbours to a neighbour which declines as well. */
  ghost predicate Weak(g: Mesh, n: nat) {
    Suppressed(g, n) && !ExampleElects(g, Top(g, n))
  }

  /** A weak node between elected nodes that nothing else joins. */
  ghost predicate Severs(g: Mesh, n: nat) {
    Weak(g, n) && !JoinsRelays(g, ExampleSet(g), n)
  }

  /** Stranded nodes are found only next to weak ones: their greatest neighbour is weak. */
  lemma StrandedAtWeak(g: Mesh, v: nat) returns (m: nat)
    requires g.Valid() && v in g.Nodes() && Stranded(g, v) && !SmallComponent(g, v)
    ensures IsGreatest(g, g.Nbrs(v), m) && Weak(g, m)
  {
    RiderSetIsElected(g);
    OrphanIffSmallComponent(g, v);
    m := RelayAtTop(g, v);
    assert g.Edge(v, m) && g.Edge(m, v);
    var t := Top(g, m);
    if ExampleElects(g, t) {
      ElectedIsNotStranded(g, t, v);
      if t == m {
        assert false;
      }
      var _, last := FoundEnds(g, m, t, {}, v);
      ElectedIsNotStranded(g, last, v);
    }
  }

  /** The greatest neighbour of a stranded node is elected by graphRider. */
  lemma RelayAtTop(g: Mesh, v: nat) returns (m: nat)
    requires g.Valid() && v in g.Nodes() && Stranded(g, v) && !OrphanOrPair(g, v)
    ensures IsGreatest(g, g.Nbrs(v), m) && RiderElects(g, m, {}) && Suppressed(g, m)
  {
    var rider := RiderSet(g);
    RiderSetIsElected(g);
    assert v !in rider;
    if |g.Nbrs(v)| >= 2 {
      m := TopNbrIsRelay(g, rider, NoFlags(g), v);
    } else {
      LeafIsCovered(g, rider, NoFlags(g), v);
      m :| m in rider && g.Edge(m, v);
      assert g.Edge(v, m);
      forall x | x in g.Nbrs(v) ensures x == m {
        if x != m {
          AtLeastTwo(g.Nbrs(v), x, m);
        }
      }
    }
  }

  /** A stranded node is neither elected by graphExample nor next to an elected node. */
  lemma ElectedIsNotStranded(g: Mesh, t: nat, v: nat)
    requires g.Valid() && Stranded(g, v)
    ensures ExampleElects(g, t) ==> t != v && !g.Edge(v, t)
  {
    if ExampleElects(g, t) {
      ExampleWithinRider(g, t, {});
    }
  }

  /** What graphExample declines is bypassed, unless it is weak; and weak nodes are, unless they sever. */
  lemma DeclinedIsBypassed(g: Mesh, n: nat)
    requires g.Valid() && n in g.Nodes() && !ExampleElects(g, n) && !Severs(g, n)
    ensures Bypassed(g, ExampleSet(g), n)
  {
    if |g.Nbrs(n)| >= 2 {
      var m := Top(g, n);
      assert ReachesAll(g, n, m);
      assert g.Edge(n, m);
      if !BeatsNbrs(g, n) {
        var a :| a in g.Nbrs(n) && g.Above(a, n);
        assert g.Above(m, n);
      }
    }
  }

  /** graphExample's relays are connected within components exactly when no weak node severs them. */
  lemma ConnectedIffNotSevered(g: Mesh, example: set<nat>)
    requires ElectedByExample(g, example)
    ensures (forall a, b :: a in example && b in example && Linked(g, g.Nodes(), a, b) ==> Linked(g, example, a, b))
            <==> forall n :: n in g.Nodes() ==> !Severs(g, n)
  {
    assert example == ExampleSet(g);
    if n :| n in g.Nodes() && Severs(g, n) {
      var a, b :| a in example && b in example && g.Edge(n, a) && g.Edge(n, b) && !Linked(g, example, a, b);
      assert g.Edge(a, n);
      LinkedEdge(g, g.Nodes(), a, n);
      LinkedEdge(g, g.Nodes(), n, b);
      LinkedTrans(g, g.Nodes(), a, n, b);
    } else {
      forall n | n in g.Nodes() - example ensures Bypassed(g, example, n) {
        DeclinedIsBypassed(g, n);
      }
      forall a, b | a in example && b in example && Linked(g, g.Nodes(), a, b) ensures Linked(g, example, a, b) {
        SpannedIsConnected(g, example, a, b);
      }
    }
  }

  /** graphExample elects a connected dominating set exactly when no node outside the small components
      is stranded and no weak node severs the relays. */
  lemma ExampleIsCDSIff(g: Mesh, example: set<nat>)
    requires ElectedByExample(g, example)
    ensures ConnectedDominating(g, example) <==>
            && (forall v :: v in g.Nodes() && !SmallComponent(g, v) ==> !Stranded(g, v))
            && (forall n :: n in g.Nodes() ==> !Severs(g, n))
  {
    ConnectedIffNotSevered(g, example);
    forall v | v in g.Nodes()
      ensures (Covered(g, example, v) <==> !SmallComponent(g, v)) <==> (SmallComponent(g, v) || !Stranded(g, v))
    {
      if SmallComponent(g, v) {
        SmallIsUncovered(g, example, v);
      } else {
        UncoveredIffStranded(g, example, v);
      }
    }
    hide Covered, SmallComponent, Stranded, Severs;
  }

  /** A condition that looks two hops around each node: the greatest neighbour of every suppressed node
      is elected. Then graphExample elects a connected dominating set. */
  lemma ElectedTopsSuffice(g: Mesh, example: set<nat>)
    requires ElectedByExample(g, example) && forall n :: n in g.Nodes() ==> !Weak(g, n)
    ensures ConnectedDominating(g, example)
  {
    forall v | v in g.Nodes() && !SmallComponent(g, v) ensures !Stranded(g, v) {
      if Stranded(g, v) {
        var m := StrandedAtWeak(g, v);
        assert g.Edge(v, m);
      }
    }
    ExampleIsCDSIff(g, example);
  }

  /** With clean flags the two rules elect the same relays exactly when no node is suppressed. */
  lemma ExampleAgreesIffNoneSuppressed(g: Mesh, example: set<nat>, rider: set<nat>)
    requires ElectedByExample(g, example) && Elected(g, rider, NoFlags(g))
    ensures example == rider <==> forall n :: n in g.Nodes() ==> !Suppressed(g, n)
  {
    ExampleRelaysAreRiderRelays(g, example, rider, NoFlags(g));
    forall n | n in g.Nodes() ensures Suppressed(g, n) <==> n in rider && n !in example {
      assert {} - g.Nbrs(n) == {};
    }
    if example != rider {
      var n :| n in rider && n !in example;
      assert Suppressed(g, n);
    }
  }

  /** In particular the example's set is connected and dominating when no node is suppressed at all. */
  lemma NoneSuppressedIsCDS(g: Mesh, example: set<nat>)
    requires ElectedByExample(g, example) && forall n :: n in g.Nodes() ==> !Suppressed(g, n)
    ensures ConnectedDominating(g, example)
  {
    ElectedTopsSuffice(g, example);
  }

  /** Five nodes of equal priority on which graphExample's relay set does not dominate. */
  function Kite(): Mesh {
    Mesh(map[1 := {3, 5, 9}, 2 := {3, 5}, 3 := {1, 2, 5}, 5 := {1, 2, 3}, 9 := {1}], map[])
  }

  /** A beaten node declines when its top neighbour is linked to all its other neighbours. */
  lemma StarDeclines(g: Mesh, n: nat, top: nat)
    requires IsGreatest(g, g.Nbrs(n), top) && !BeatsTwoHop(g, n)
    requires forall v :: v in g.Nbrs(n) ==> v != n && g.Edge(v, n) && (v == top || g.Edge(top, v))
    ensures !ExampleElects(g, n)
  {
    assert Top(g, n) == top;
    forall v | v in g.Nbrs(n) ensures Found(g, n, top, {}, v) {
      var w := if v == top then [top] else [top, v];
      assert SearchWalk(g, n, top, {}, v, w);
    }
  }

  /** A node elects itself when its top neighbour leads nowhere else. */
  lemma DeadEndElects(g: Mesh, n: nat, top: nat, other: nat)
    requires IsGreatest(g, g.Nbrs(n), top) && g.Nbrs(top) == {n} && other in g.Nbrs(n) && other != top
    ensures ExampleElects(g, n)
  {
    AtLeastTwo(g.Nbrs(n), top, other);
    assert Top(g, n) == top;
    forall w ensures !SearchWalk(g, n, top, {}, other, w) {
      if |w| > 1 && Hop(g, n, w[0], w[1]) {
        assert w[0] != top;
      }
    }
  }

  ghost predicate IsKite(g: Mesh) {
    && g.Valid() && g.Nodes() == {1, 2, 3, 5, 9}
    && g.Nbrs(1) == {3, 5, 9} && g.Nbrs(2) == {3, 5} && g.Nbrs(3) == {1, 2, 5}
    && g.Nbrs(5) == {1, 2, 3} && g.Nbrs(9) == {1}
    && forall u :: g.Priority(u) == 0
  }

  lemma KiteDeclines(g: Mesh, n: nat)
    requires IsKite(g) && n in {2, 3, 5}
    ensures !ExampleElects(g, n)
  {
    if n == 5 {
      assert 1 in g.Nbrs(5) && 9 in g.Nbrs(1);
      assert TwoHop(g, 5, 9) && g.Above(9, 5);
      StarDeclines(g, 5, 3);
    } else {
      assert 5 in g.Nbrs(n) && g.Above(5, n);
      StarDeclines(g, n, 5);
    }
  }

  lemma KiteElects(g: Mesh)
    requires IsKite(g)
    ensures ExampleElects(g, 1) && !ExampleElects(g, 9)
  {
    DeadEndElects(g, 1, 9, 3);
  }

  lemma KiteElection(g: Mesh)
    requires IsKite(g)
    ensures ElectedByExample(g, {1})
  {
    forall n | n in g.Nodes() ensures n in {1} <==> ExampleElects(g, n) {
      if n in {2, 3, 5} {
        KiteDeclines(g, n);
      } else {
        KiteElects(g);
      }
    }
  }

  lemma KiteFacts()
    ensures IsKite(Kite())
  {
  }

  lemma KiteUncovered(g: Mesh)
    requires IsKite(g)
    ensures !Covered(g, {1}, 2) && !OrphanOrPair(g, 2)
  {
    assert 3 in g.Nbrs(2) && 5 in g.Nbrs(2);
  }

  /** On the kite the example elects node 1 only, and node 2, no orphan, is left without a relay. */
  lemma KiteIsNotDominated()
    ensures ElectedByExample(Kite(), {1})
    ensures !Covered(Kite(), {1}, 2) && !OrphanOrPair(Kite(), 2)
  {
    hide *;
    KiteFacts();
    KiteElection(Kite());
    KiteUncovered(Kite());
  }

  /** Six nodes of equal priority on which graphExample's relays dominate but are not connected. */
  function Bridge(): Mesh {
    Mesh(map[1 := {3, 5, 9}, 2 := {3, 5, 8}, 3 := {1, 2, 5}, 5 := {1, 2, 3}, 8 := {2}, 9 := {1}], map[])
  }

  ghost predicate IsBridge(g: Mesh) {
    && g.Valid() && g.Nodes() == {1, 2, 3, 5, 8, 9}
    && g.Nbrs(1) == {3, 5, 9} && g.Nbrs(2) == {3, 5, 8} && g.Nbrs(3) == {1, 2, 5}
    && g.Nbrs(5) == {1, 2, 3} && g.Nbrs(8) == {2} && g.Nbrs(9) == {1}
    && forall u :: g.Priority(u) == 0
  }

  lemma BridgeFacts()
    ensures IsBridge(Bridge())
  {
  }

  lemma BridgeDeclines(g: Mesh, n: nat)
    requires IsBridge(g) && n in {3, 5, 8, 9}
    ensures !ExampleElects(g, n)
  {
    if n == 5 {
      assert 1 in g.Nbrs(5) && 9 in g.Nbrs(1);
      assert TwoHop(g, 5, 9) && g.Above(9, 5);
      StarDeclines(g, 5, 3);
    } else if n == 3 {
      assert 5 in g.Nbrs(3) && g.Above(5, 3);
      StarDeclines(g, 3, 5);
    }
  }

  lemma BridgeElection(g: Mesh)
    requires IsBridge(g)
    ensures ElectedByExample(g, {1, 2})
  {
    DeadEndElects(g, 1, 9, 3);
    DeadEndElects(g, 2, 8, 3);
    forall n | n in g.Nodes() ensures n in {1, 2} <==> ExampleElects(g, n) {
      if n !in {1, 2} {
        BridgeDeclines(g, n);
      }
    }
  }

  lemma BridgeIsCut(g: Mesh)
    requires IsBridge(g)
    ensures Linked(g, g.Nodes(), 1, 2) && !Linked(g, {1, 2}, 1, 2)
  {
    assert g.Edge(1, 3) && g.Edge(3, 2);
    assert WalkBetween(g, g.Nodes(), 1, 2, [1, 3, 2]);
    if w :| WalkBetween(g, {1, 2}, 1, 2, w) {
      var next := LeavesStart(g, {1, 2}, 1, 2, w);
      assert false;
    }
  }

  lemma BridgeIsCovered(g: Mesh)
    requires IsBridge(g)
    ensures forall v :: v in g.Nodes() ==> Covered(g, {1, 2}, v)
  {
    assert g.Edge(1, 3) && g.Edge(1, 5) && g.Edge(1, 9) && g.Edge(2, 8);
  }

  /** On the bridge the example elects nodes 1 and 2, which cover everything and are joined by no relay. */
  lemma BridgeIsNotConnected()
    ensures ElectedByExample(Bridge(), {1, 2})
    ensures forall v :: v in Bridge().Nodes() ==> Covered(Bridge(), {1, 2}, v)
    ensures Linked(Bridge(), Bridge().Nodes(), 1, 2) && !Linked(Bridge(), {1, 2}, 1, 2)
  {
    hide *;
    BridgeFacts();
    BridgeElection(Bridge());
    BridgeIsCovered(Bridge());
    BridgeIsCut(Bridge());
  }
}
