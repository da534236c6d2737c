/** Connectivity graphs as values: the snapshot of a ManetGraph that relay selection reasons about. */
module Meshes {

  /** `nbrs` maps every node id to the ids it has links to; `priority` holds router priorities. */
  datatype Mesh = Mesh(nbrs: map<nat, set<nat>>, priority: map<nat, int>) {

    function Nodes(): set<nat> {
      nbrs.Keys
    }

    function Nbrs(u: nat): set<nat> {
      if u in nbrs then nbrs[u] else {}
    }

    predicate Edge(u: nat, v: nat) {
      v in Nbrs(u)
    }

    function Priority(u: nat): int {
      if u in priority then priority[u] else 0
    }

    /** The election order: larger priority first, larger id on a tie. */
    predicate Above(u: nat, v: nat) {
      Priority(u) > Priority(v) || (Priority(u) == Priority(v) && u > v)
    }

    /** Links lead to known nodes and run both ways. A node may be linked to itself. */
    ghost predicate Valid() {
      && (forall u, v :: Edge(u, v) ==> v in Nodes())
      && (forall u, v :: Edge(u, v) ==> Edge(v, u))
    }
  }

  /** A walk whose nodes all lie in `allowed`. */
  ghost predicate Walk(g: Mesh, allowed: set<nat>, w: seq<nat>) {
    && |w| > 0
    && (forall i :: 0 <= i < |w| ==> w[i] in allowed)
    && (forall i :: 0 < i < |w| ==> g.Edge(w[i - 1], w[i]))
  }

  ghost predicate WalkBetween(g: Mesh, allowed: set<nat>, u: nat, v: nat, w: seq<nat>) {
    Walk(g, allowed, w) && w[0] == u && w[|w| - 1] == v
  }

  /** `u` and `v` are joined by a walk through `allowed` nodes only. */
  ghost predicate Linked(g: Mesh, allowed: set<nat>, u: nat, v: nat) {
    exists w :: WalkBetween(g, allowed, u, v, w)
  }

  /** The connected component of `u`. */
  ghost function Component(g: Mesh, u: nat): set<nat> {
    set v | v in g.Nodes() && Linked(g, g.Nodes(), u, v)
  }

  lemma LinkedRefl(g: Mesh, allowed: set<nat>, u: nat)
    requires u in allowed
    ensures Linked(g, allowed, u, u)
  {
    assert WalkBetween(g, allowed, u, u, [u]);
  }

  lemma LinkedEdge(g: Mesh, allowed: set<nat>, u: nat, v: nat)
    requires u in allowed && v in allowed && g.Edge(u, v)
    ensures Linked(g, allowed, u, v)
  {
    assert WalkBetween(g, allowed, u, v, [u, v]);
  }

  lemma LinkedTrans(g: Mesh, allowed: set<nat>, u: nat, v: nat, x: nat)
    requires Linked(g, allowed, u, v) && Linked(g, allowed, v, x)
    ensures Linked(g, allowed, u, x)
  {
    var p :| WalkBetween(g, allowed, u, v, p);
    var q :| WalkBetween(g, allowed, v, x, q);
    var w := p + q[1..];
    assert forall i :: 0 < i < |w| ==> g.Edge(w[i - 1], w[i]) by {
      forall i | 0 < i < |w| ensures g.Edge(w[i - 1], w[i]) {
        if i >= |p| {
          assert w[i] == q[i - |p| + 1] && w[i - 1] == q[i - |p|];
        }
      }
    }
    assert WalkBetween(g, allowed, u, x, w);
  }

  function Reverse(w: seq<nat>): (r: seq<nat>)
    ensures |r| == |w| && forall i :: 0 <= i < |w| ==> r[i] == w[|w| - 1 - i]
  {
    seq(|w|, i requires 0 <= i < |w| => w[|w| - 1 - i])
  }

  lemma LinkedSym(g: Mesh, allowed: set<nat>, u: nat, v: nat)
    requires g.Valid() && Linked(g, allowed, u, v)
    ensures Linked(g, allowed, v, u)
  {
    var p :| WalkBetween(g, allowed, u, v, p);
    var r := Reverse(p);
    forall i | 0 < i < |r| ensures g.Edge(r[i - 1], r[i]) {
      assert g.Edge(p[|p| - 1 - i], p[|p| - i]);
    }
    assert WalkBetween(g, allowed, v, u, r);
  }

  lemma LinkedMono(g: Mesh, small: set<nat>, large: set<nat>, u: nat, v: nat)
    requires small <= large && Linked(g, small, u, v)
    ensures Linked(g, large, u, v)
  {
    var p :| WalkBetween(g, small, u, v, p);
    assert WalkBetween(g, large, u, v, p);
  }

  /** A set closed under links keeps every walk that starts inside it. */
  lemma {:induction false} WalkStaysInside(g: Mesh, inside: set<nat>, u: nat, v: nat, w: seq<nat>)
    requires WalkBetween(g, g.Nodes(), u, v, w) && u in inside
    requires forall x, y :: x in inside && g.Edge(x, y) ==> y in inside
    ensures v in inside
    decreases |w|
  {
    if |w| > 1 {
      assert g.Edge(w[0], w[1]);
      WalkStaysInside(g, inside, w[1], v, w[1..]);
    }
  }

  /** `m` is the greatest (least) member of `s` in the election order. */
  ghost predicate IsGreatest(g: Mesh, s: set<nat>, m: nat) {
    m in s && forall x :: x in s ==> x == m || g.Above(m, x)
  }

  ghost predicate IsLeast(g: Mesh, s: set<nat>, m: nat) {
    m in s && forall x :: x in s ==> x == m || g.Above(x, m)
  }

  lemma {:induction false} GreatestOf(g: Mesh, s: set<nat>) returns (m: nat)
    requires s != {}
    ensures IsGreatest(g, s, m)
  {
    var a :| a in s;
    m := a;
    if s != {a} {
      var rest := GreatestOf(g, s - {a});
      assert forall x :: x in s ==> x == a || x in s - {a};
      m := if g.Above(rest, a) then rest else a;
    }
  }

  lemma GreatestExists(g: Mesh, s: set<nat>)
    requires s != {}
    ensures exists m :: IsGreatest(g, s, m)
  {
    var _ := GreatestOf(g, s);
  }

  lemma {:induction false} LeastOf(g: Mesh, s: set<nat>) returns (m: nat)
    requires s != {}
    ensures IsLeast(g, s, m)
  {
    var a :| a in s;
    m := a;
    if s != {a} {
      var rest := LeastOf(g, s - {a});
      assert forall x :: x in s ==> x == a || x in s - {a};
      m := if g.Above(a, rest) then rest else a;
    }
  }
}
