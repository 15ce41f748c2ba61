/**
 Hop-count shortest paths over the topology graph: the part of
 `nx.shortest_path(G, source, target)` that `path_recalc` relies on. A path is
 computed level by level: `Ball(g, h, k)` holds the nodes that reach `h` in at most
 `k` hops, `Hops` is the first level that holds the source, and `Trace` walks down
 the levels, taking at each step the first neighbour (in node order) one level
 closer. The reference definition it is proved against is the plain notion of a
 walk along edges, and of one no longer than any other.
 */
module Routes {
  import opened Topology

  /** A walk: a non-empty sequence of graph nodes, each joined to the next by an edge. */
  ghost predicate IsWalk(g: Graph, p: seq<Node>) {
    && |p| >= 1
    && (forall i :: 0 <= i < |p| ==> p[i] in g.nodes)
    && (forall i :: 0 <= i < |p| - 1 ==> (p[i], p[i + 1]) in g.edges)
  }

  ghost predicate IsWalkBetween(g: Graph, p: seq<Node>, s: Node, h: Node) {
    IsWalk(g, p) && p[0] == s && p[|p| - 1] == h
  }

  /** A walk from `s` to `h` with no more nodes than any other walk from `s` to `h`. */
  ghost predicate IsShortestWalk(g: Graph, p: seq<Node>, s: Node, h: Node) {
    IsWalkBetween(g, p, s, h) && forall q :: IsWalkBetween(g, q, s, h) ==> |p| <= |q|
  }

  /** The nodes of `b` together with every node that has an edge into `b`. */
  function Grow(g: Graph, b: set<Node>): (r: set<Node>)
    ensures r <= NodeSet(g)
    ensures b <= NodeSet(g) ==> b <= r
  {
    set u | u in g.nodes && (u in b || exists v :: v in b && (u, v) in g.edges)
  }

  /** The nodes that reach `h` along at most `k` edges. */
  function Ball(g: Graph, h: Node, k: nat): set<Node>
  {
    if k == 0 then (if h in g.nodes then {h} else {})
    else Grow(g, Ball(g, h, k - 1))
  }

  /** Level `k` adds nothing to the one after it. */
  predicate Stable(g: Graph, h: Node, k: nat) {
    Grow(g, Ball(g, h, k)) == Ball(g, h, k)
  }

  lemma BallInNodes(g: Graph, h: Node, k: nat)
    ensures Ball(g, h, k) <= NodeSet(g)
  {
  }

  lemma {:induction false} BallMono(g: Graph, h: Node, i: nat, j: nat)
    requires i <= j
    ensures Ball(g, h, i) <= Ball(g, h, j)
  {
    if i < j {
      BallMono(g, h, i, j - 1);
      BallInNodes(g, h, j - 1);
    }
  }

  /** Every node of a level has a walk to `h` of at most that many edges. */
  lemma {:induction false} WalkFromBall(g: Graph, h: Node, k: nat, s: Node)
    requires s in Ball(g, h, k)
    ensures exists p :: IsWalkBetween(g, p, s, h) && |p| <= k + 1
  {
    if k == 0 {
      assert IsWalkBetween(g, [s], s, h);
    } else if s in Ball(g, h, k - 1) {
      WalkFromBall(g, h, k - 1, s);
    } else {
      var v :| v in Ball(g, h, k - 1) && (s, v) in g.edges;
      WalkFromBall(g, h, k - 1, v);
      var q :| IsWalkBetween(g, q, v, h) && |q| <= k;
      var p := [s] + q;
      assert p[1..] == q;
      assert IsWalkBetween(g, p, s, h);
    }
  }

  /** The start of a walk lies in the level of its number of edges. */
  lemma {:induction false} BallFromWalk(g: Graph, p: seq<Node>)
    requires IsWalk(g, p)
    ensures p[0] in Ball(g, p[|p| - 1], |p| - 1)
  {
    if |p| > 1 {
      var q := p[1..];
      assert IsWalk(g, q) by {
        forall i | 0 <= i < |q| - 1 ensures (q[i], q[i + 1]) in g.edges {
          assert q[i] == p[i + 1] && q[i + 1] == p[i + 2];
        }
      }
      BallFromWalk(g, q);
      assert (p[0], q[0]) in g.edges;
    }
  }

  /** Once a level adds nothing, no later level does. */
  lemma {:induction false} BallStable(g: Graph, h: Node, i: nat, j: nat)
    requires Stable(g, h, i) && i <= j
    ensures Ball(g, h, j) == Ball(g, h, i)
  {
    if j != i {
      BallStable(g, h, i, j - 1);
      GrowSame(g, Ball(g, h, j - 1), Ball(g, h, i));
    }
  }

  lemma GrowSame(g: Graph, b: set<Node>, c: set<Node>)
    requires b == c
    ensures Grow(g, b) == Grow(g, c)
  {
  }

  lemma SubsetCard(a: set<Node>, b: set<Node>)
    requires a <= b
    ensures |a| <= |b|
    ensures a != b ==> |a| < |b|
  {
    assert b == a + (b - a);
    if a != b {
      var x :| x in b - a;
      assert {x} <= b - a;
      assert |b - a| >= 1;
    }
  }

  lemma {:induction false} BallGrowsUntilStable(g: Graph, h: Node, m: nat)
    ensures |Ball(g, h, m)| >= m || exists i :: 0 <= i < m && Stable(g, h, i)
  {
    if m > 0 {
      BallGrowsUntilStable(g, h, m - 1);
      if !Stable(g, h, m - 1) {
        BallMono(g, h, m - 1, m);
        SubsetCard(Ball(g, h, m - 1), Ball(g, h, m));
      }
    }
  }

  lemma {:induction false} SeqSetCard(s: seq<Node>)
    ensures |set v | v in s| <= |s|
  {
    if s != [] {
      SeqSetCard(s[1..]);
      assert (set v | v in s) == {s[0]} + (set v | v in s[1..]);
    }
  }

  /** Every level is contained in the level numbered by the number of nodes. */
  lemma BallBounded(g: Graph, h: Node, k: nat)
    ensures Ball(g, h, k) <= Ball(g, h, |g.nodes|)
  {
    var n := |g.nodes|;
    if k <= n {
      BallMono(g, h, k, n);
    } else {
      BallGrowsUntilStable(g, h, n + 1);
      BallInNodes(g, h, n + 1);
      SeqSetCard(g.nodes);
      SubsetCard(Ball(g, h, n + 1), NodeSet(g));
      var i :| 0 <= i < n + 1 && Stable(g, h, i);
      BallStable(g, h, i, k);
      BallMono(g, h, i, n);
    }
  }

  /** The first level at or after `k` (and at most the number of nodes) that holds `s`. */
  function HopsFrom(g: Graph, s: Node, h: Node, k: nat): (r: Option<nat>)
    decreases |g.nodes| + 1 - k
    ensures r.Some? ==> k <= r.value <= |g.nodes| && s in Ball(g, h, r.value)
    ensures r.Some? ==> forall j :: k <= j < r.value ==> s !in Ball(g, h, j)
    ensures r.None? ==> forall j :: k <= j <= |g.nodes| ==> s !in Ball(g, h, j)
  {
    if k > |g.nodes| then None
    else if s in Ball(g, h, k) then Some(k)
    else HopsFrom(g, s, h, k + 1)
  }

  /** The hop distance from `s` to `h`, None when `h` cannot be reached. */
  function Hops(g: Graph, s: Node, h: Node): (r: Option<nat>)
    ensures r.Some? ==> r.value <= |g.nodes| && OnLevel(g, h, r.value, s)
    ensures r.None? ==> s !in Ball(g, h, |g.nodes|)
  {
    HopsFrom(g, s, h, 0)
  }

  /** The first of `g.nodes[i..]` that is in `b` and has an edge from `s`. */
  function FirstNeighbourIn(g: Graph, s: Node, b: set<Node>, i: nat): (v: Node)
    requires exists j :: i <= j < |g.nodes| && g.nodes[j] in b && (s, g.nodes[j]) in g.edges
    decreases |g.nodes| - i
    ensures v in g.nodes && v in b && (s, v) in g.edges
  {
    if g.nodes[i] in b && (s, g.nodes[i]) in g.edges then g.nodes[i]
    else FirstNeighbourIn(g, s, b, i + 1)
  }

  /** A node on level `d` and not below it has a neighbour on level `d - 1`. */
  lemma CloserNeighbour(g: Graph, s: Node, h: Node, d: nat)
    requires d > 0 && s in Ball(g, h, d) && s !in Ball(g, h, d - 1)
    ensures exists j :: 0 <= j < |g.nodes| && g.nodes[j] in Ball(g, h, d - 1) && (s, g.nodes[j]) in g.edges
  {
    var v :| v in Ball(g, h, d - 1) && (s, v) in g.edges;
    BallInNodes(g, h, d - 1);
    var j :| 0 <= j < |g.nodes| && g.nodes[j] == v;
  }

  /** A node with an edge into a level lies on the next level. */
  lemma EdgeIntoBall(g: Graph, h: Node, k: nat, s: Node, v: Node)
    requires s in g.nodes && (s, v) in g.edges
    ensures k > 0 && v in Ball(g, h, k - 1) ==> s in Ball(g, h, k)
  {
  }

  /** `s` is on level `d` and not below it: `d` is its hop distance to `h`. */
  predicate OnLevel(g: Graph, h: Node, d: nat, s: Node) {
    s in Ball(g, h, d) && (d > 0 ==> s !in Ball(g, h, d - 1))
  }

  /** The next hop of `Trace`: the first neighbour of `s` (in node order) one level closer. */
  function NextHop(g: Graph, s: Node, h: Node, d: nat): (v: Node)
    requires d > 0 && OnLevel(g, h, d, s)
    ensures s in g.nodes && (s, v) in g.edges
    ensures OnLevel(g, h, d - 1, v)
  {
    CloserNeighbour(g, s, h, d);
    BallInNodes(g, h, d);
    var v := FirstNeighbourIn(g, s, Ball(g, h, d - 1), 0);
    EdgeIntoBall(g, h, d - 1, s, v);
    v
  }

  /** The walk from a node on level `d` (and not below) down to `h`, one level per step. */
  function Trace(g: Graph, s: Node, h: Node, d: nat): (p: seq<Node>)
    requires OnLevel(g, h, d, s)
    decreases d
    ensures |p| == d + 1 && IsWalkBetween(g, p, s, h)
  {
    if d == 0 then
      [s]
    else
      var q := Trace(g, NextHop(g, s, h, d), h, d - 1);
      WalkCons(g, s, q);
      [s] + q
  }

  /** A walk stays a walk when a node with an edge to its start is put in front. */
  lemma WalkCons(g: Graph, s: Node, q: seq<Node>)
    requires IsWalk(g, q) && s in g.nodes && (s, q[0]) in g.edges
    ensures IsWalk(g, [s] + q) && |[s] + q| == |q| + 1
    ensures ([s] + q)[0] == s && ([s] + q)[|q|] == q[|q| - 1]
  {
    var p := [s] + q;
    forall i | 0 <= i < |p| - 1 ensures (p[i], p[i + 1]) in g.edges {
      if i > 0 {
        assert p[i] == q[i - 1] && p[i + 1] == q[i];
      }
    }
    forall i | 0 <= i < |p| ensures p[i] in g.nodes {
      if i > 0 {
        assert p[i] == q[i - 1];
      }
    }
  }

  /** `nx.shortest_path(G, s, h)`: a walk from `s` to `h` of fewest hops, None where networkx
      raises NetworkXNoPath. */
  function ShortestPath(g: Graph, s: Node, h: Node): (r: Option<seq<Node>>)
    ensures r.Some? ==> IsWalkBetween(g, r.value, s, h)
  {
    match Hops(g, s, h)
    case None => None
    case Some(d) => Some(Trace(g, s, h, d))
  }

  /** ShortestPath finds a path exactly when one exists, and the one it finds is no longer
      than any other. */
  lemma ShortestPathCorrect(g: Graph, s: Node, h: Node)
    ensures ShortestPath(g, s, h).None? <==> forall p :: !IsWalkBetween(g, p, s, h)
    ensures ShortestPath(g, s, h).Some? ==> IsShortestWalk(g, ShortestPath(g, s, h).value, s, h)
  {
    var n := |g.nodes|;
    match Hops(g, s, h)
    case None =>
      forall p | IsWalkBetween(g, p, s, h) ensures false {
        BallFromWalk(g, p);
        BallBounded(g, h, |p| - 1);
      }
    case Some(d) =>
      var p := ShortestPath(g, s, h).value;
      forall q | IsWalkBetween(g, q, s, h) ensures |p| <= |q| {
        BallFromWalk(g, q);
      }
  }

  /** Every step of a shortest path is itself a shortest path to the same target: the next hop
      adjacent to `s` lies on a minimum-hop path. */
  lemma ShortestSuffix(g: Graph, p: seq<Node>, s: Node, h: Node)
    requires IsShortestWalk(g, p, s, h) && |p| > 1
    ensures (s, p[1]) in g.edges
    ensures IsShortestWalk(g, p[1..], p[1], h)
  {
    var t := p[1..];
    assert IsWalk(g, t) by {
      forall i | 0 <= i < |t| - 1 ensures (t[i], t[i + 1]) in g.edges {
        assert t[i] == p[i + 1] && t[i + 1] == p[i + 2];
      }
    }
    forall q | IsWalkBetween(g, q, p[1], h) ensures |t| <= |q| {
      var w := [s] + q;
      assert w[1..] == q;
      assert IsWalkBetween(g, w, s, h);
    }
  }
}
