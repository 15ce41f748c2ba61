/**
 The topology store's graph: the module-global undirected networkx graph `G` of
 spf_network.py, written as a value. Nodes keep their insertion order (networkx
 iterates nodes in that order), carry an optional `tp` attribute, and every
 undirected edge is stored in both orientations with one `ports` label.
 */
module Topology {

  type Dpid = nat
  type Port = nat
  /** An Ethernet address, byte by byte. */
  type Mac = seq<bv8>

  datatype Option<T> = None | Some(value: T)

  /** A node id: a switch's datapath id or a host's Ethernet address. */
  datatype Node = Sw(dpid: Dpid) | Host(mac: Mac)

  /** The `tp` node attribute. */
  datatype Tp = TpSwitch | TpHost

  /** The `ports` edge attribute: the ingress port of a host, or "port:sw_port" of an uplink. */
  datatype Ports = HostPort(port: Port) | LinkPorts(local: Port, remote: Option<Port>)

  /** Nodes in insertion order, the `tp` attribute of the nodes that have one, and edges. */
  datatype Graph = Graph(nodes: seq<Node>, tp: map<Node, Tp>, edges: map<(Node, Node), Ports>)

  const Empty := Graph([], map[], map[])

  /** No element occurs twice: each element is absent from the part before it. */
  predicate Distinct<T(==)>(s: seq<T>) {
    |s| == 0 || (s[|s| - 1] !in s[..|s| - 1] && Distinct(s[..|s| - 1]))
  }

  /** Every prefix of a duplicate-free sequence is duplicate-free, and the element after it
      is not in it. */
  lemma {:induction false} DistinctPrefix<T>(s: seq<T>, k: nat)
    requires Distinct(s) && k < |s|
    ensures Distinct(s[..k]) && s[k] !in s[..k]
  {
    var n := |s| - 1;
    if k < n {
      DistinctPrefix(s[..n], k);
      assert s[..n][..k] == s[..k];
    }
  }

  /** The recursive definition agrees with the pairwise one. */
  lemma {:induction false} DistinctPairwise<T>(s: seq<T>)
    ensures Distinct(s) <==> forall i, j :: 0 <= i < j < |s| ==> s[i] != s[j]
  {
    if |s| > 0 {
      var n := |s| - 1;
      var p := s[..n];
      DistinctPairwise(p);
      if Distinct(s) {
        forall i, j | 0 <= i < j < |s| ensures s[i] != s[j] {
          if j == n {
            assert s[i] == p[i];
          } else {
            assert s[i] == p[i] && s[j] == p[j];
          }
        }
      }
      if forall i, j :: 0 <= i < j < |s| ==> s[i] != s[j] {
        forall i, j | 0 <= i < j < |p| ensures p[i] != p[j] {
          assert p[i] == s[i] && p[j] == s[j];
        }
        forall x | x in p ensures x != s[n] {
          var i :| 0 <= i < |p| && p[i] == x;
          assert s[i] == x;
        }
      }
    }
  }

  lemma AppendAssoc<T>(a: seq<T>, b: seq<T>, c: seq<T>)
    ensures a + b + c == a + (b + c)
  {
  }

  function NodeSet(g: Graph): set<Node> {
    set v | v in g.nodes
  }

  /** What networkx keeps true of its graph: nodes are unique, attributes and edges
      only mention nodes, and an undirected edge is seen the same from both ends. */
  ghost predicate WellFormed(g: Graph) {
    && Distinct(g.nodes)
    && (forall v :: v in g.tp ==> v in g.nodes)
    && (forall u, v :: (u, v) in g.edges ==>
          && u in g.nodes && v in g.nodes
          && (v, u) in g.edges && g.edges[(v, u)] == g.edges[(u, v)])
  }

  /** A node added without attributes, as `add_edge` does for an endpoint it has not seen. */
  function WithNode(g: Graph, v: Node): (r: Graph)
    ensures forall x :: x in r.nodes <==> x in g.nodes || x == v
    ensures r.tp == g.tp && r.edges == g.edges
    ensures |g.nodes| <= |r.nodes| && r.nodes[..|g.nodes|] == g.nodes
  {
    if v in g.nodes then g else g.(nodes := g.nodes + [v])
  }

  lemma WithNodeWellFormed(g: Graph, v: Node)
    requires WellFormed(g)
    ensures WellFormed(WithNode(g, v))
  {
    if v !in g.nodes {
      var n := g.nodes + [v];
      assert n[..|n| - 1] == g.nodes;
    }
  }

  /** `G.add_node(v, tp=t)`: appends a new node, and (re)sets the attribute of an existing one. */
  function AddNode(g: Graph, v: Node, t: Tp): (r: Graph)
    ensures forall x :: x in r.nodes <==> x in g.nodes || x == v
    ensures r.tp == g.tp[v := t] && r.edges == g.edges
    ensures |g.nodes| <= |r.nodes| && r.nodes[..|g.nodes|] == g.nodes
  {
    var h := WithNode(g, v);
    h.(tp := h.tp[v := t])
  }

  /** `add_node` keeps the graph well-formed. */
  lemma AddNodeWellFormed(g: Graph, v: Node, t: Tp)
    requires WellFormed(g)
    ensures WellFormed(AddNode(g, v, t))
  {
    WithNodeWellFormed(g, v);
  }

  /** `G.add_edge(u, v, ports=p)`: adds the missing endpoints without attributes and sets the
      label of the undirected edge, overwriting an old one. */
  function AddEdge(g: Graph, u: Node, v: Node, p: Ports): (r: Graph)
    ensures forall x :: x in r.nodes <==> x in g.nodes || x == u || x == v
    ensures r.tp == g.tp
    ensures forall e :: e in r.edges <==> e in g.edges || e == (u, v) || e == (v, u)
    ensures r.edges[(u, v)] == p && r.edges[(v, u)] == p
    ensures forall e :: e in g.edges && e != (u, v) && e != (v, u) ==> r.edges[e] == g.edges[e]
    ensures |g.nodes| <= |r.nodes| && r.nodes[..|g.nodes|] == g.nodes
  {
    var h1 := WithNode(g, u);
    var h := WithNode(h1, v);
    assert h.nodes[..|g.nodes|] == h.nodes[..|h1.nodes|][..|g.nodes|];
    h.(edges := h.edges[(u, v) := p][(v, u) := p])
  }

  /** `add_edge` keeps the graph well-formed: both endpoints are nodes and both orientations
      carry the same label. */
  lemma AddEdgeWellFormed(g: Graph, u: Node, v: Node, p: Ports)
    requires WellFormed(g)
    ensures WellFormed(AddEdge(g, u, v, p))
  {
    WithNodeWellFormed(g, u);
    WithNodeWellFormed(WithNode(g, u), v);
    LabelledWellFormed(WithNode(WithNode(g, u), v), u, v, p);
  }

  /** Labelling both orientations of an edge between two existing nodes keeps the graph
      well-formed. */
  lemma LabelledWellFormed(h: Graph, u: Node, v: Node, p: Ports)
    requires WellFormed(h) && u in h.nodes && v in h.nodes
    ensures WellFormed(h.(edges := h.edges[(u, v) := p][(v, u) := p]))
  {
    var r := h.(edges := h.edges[(u, v) := p][(v, u) := p]);
    forall a, b | (a, b) in r.edges
      ensures a in r.nodes && b in r.nodes && (b, a) in r.edges && r.edges[(b, a)] == r.edges[(a, b)]
    {
      if (a, b) != (u, v) && (a, b) != (v, u) {
        assert (a, b) in h.edges;
      }
    }
  }

  /** `G.remove_edge(u, v)`: None where networkx raises NetworkXError. */
  function RemoveEdge(g: Graph, u: Node, v: Node): (r: Option<Graph>)
    ensures r.None? <==> (u, v) !in g.edges
    ensures r.Some? ==> r.value.nodes == g.nodes && r.value.tp == g.tp
    ensures r.Some? ==> forall e :: e in r.value.edges <==> e in g.edges && e != (u, v) && e != (v, u)
  {
    if (u, v) in g.edges then Some(g.(edges := g.edges - {(u, v), (v, u)})) else None
  }

  /** The reference meaning of removing the undirected edge {a, b}. */
  function Unlinked(g: Graph, a: Node, b: Node): (r: Graph)
    ensures r.nodes == g.nodes && r.tp == g.tp
    ensures forall e :: e in r.edges <==> e in g.edges && e != (a, b) && e != (b, a)
    ensures forall e :: e in r.edges ==> r.edges[e] == g.edges[e]
  {
    g.(edges := g.edges - {(a, b), (b, a)})
  }

  /** Removing an undirected edge keeps the graph well-formed. */
  lemma UnlinkedWellFormed(g: Graph, a: Node, b: Node)
    requires WellFormed(g)
    ensures WellFormed(Unlinked(g, a, b))
  {
  }

  /** The node sequence with `v` taken out, the others in their order. */
  function Without(s: seq<Node>, v: Node): (r: seq<Node>)
    ensures forall x :: x in r <==> x in s && x != v
    ensures Distinct(s) ==> Distinct(r)
  {
    if s == [] then []
    else
      var n := |s| - 1;
      var rest := Without(s[..n], v);
      assert s == s[..n] + [s[n]];
      if s[n] == v then rest
      else rest + [s[n]]
  }

  /** Taking out a node that is not there changes nothing. */
  lemma {:induction false} WithoutAbsent(s: seq<Node>, v: Node)
    requires v !in s
    ensures Without(s, v) == s
  {
    if s != [] {
      var n := |s| - 1;
      assert s == s[..n] + [s[n]];
      WithoutAbsent(s[..n], v);
    }
  }

  /** In a duplicate-free sequence, taking out the node at `i` drops exactly that position;
      the other nodes keep their order, so `path_recalc` still visits them in insertion
      order. */
  lemma {:induction false} WithoutKeepsOrder(s: seq<Node>, v: Node, i: nat)
    requires Distinct(s) && i < |s| && s[i] == v
    ensures Without(s, v) == s[..i] + s[i + 1..]
  {
    var n := |s| - 1;
    assert s == s[..n] + [s[n]];
    if i == n {
      WithoutAbsent(s[..n], v);
    } else {
      assert s[..n][i] == v;
      assert s[n] != v;
      WithoutKeepsOrder(s[..n], v, i);
      assert s[..n][..i] == s[..i];
      assert s[..n][i + 1..] + [s[n]] == s[i + 1..];
    }
  }

  /** `G.remove_node(v)`: drops the node, its attribute and every edge touching it; None where
      networkx raises NetworkXError because the node is absent. */
  function RemoveNode(g: Graph, v: Node): (r: Option<Graph>)
    ensures r.None? <==> v !in g.nodes
    ensures r.Some? ==> r.value.nodes == Without(g.nodes, v)
    ensures r.Some? ==> forall x :: x in r.value.tp <==> x in g.tp && x != v
    ensures r.Some? ==> forall x :: x in r.value.tp ==> r.value.tp[x] == g.tp[x]
    ensures r.Some? ==> forall u, w :: (u, w) in r.value.edges <==> (u, w) in g.edges && u != v && w != v
  {
    if v !in g.nodes then None
    else
      Some(Graph(Without(g.nodes, v), g.tp - {v},
                 map e | e in g.edges && e.0 != v && e.1 != v :: g.edges[e]))
  }

  /** `remove_node` keeps the graph well-formed. */
  lemma RemoveNodeWellFormed(g: Graph, v: Node)
    requires WellFormed(g) && v in g.nodes
    ensures WellFormed(RemoveNode(g, v).value)
  {
    var r := RemoveNode(g, v).value;
    forall a, b | (a, b) in r.edges
      ensures a in r.nodes && b in r.nodes && (b, a) in r.edges && r.edges[(b, a)] == r.edges[(a, b)]
    {
    }
  }

  /** Adding a node that is already present changes neither the node sequence nor the edges;
      only its `tp` attribute is (re)set. */
  lemma AddNodePresent(g: Graph, v: Node, t: Tp)
    requires v in g.nodes
    ensures AddNode(g, v, t).nodes == g.nodes
    ensures AddNode(g, v, t).edges == g.edges
    ensures AddNode(AddNode(g, v, t), v, t) == AddNode(g, v, t)
  {
  }

  /** Adding an edge that is already present changes neither the nodes nor the edge set. */
  lemma AddEdgePresent(g: Graph, u: Node, v: Node, p: Ports)
    requires WellFormed(g) && (u, v) in g.edges
    ensures AddEdge(g, u, v, p).nodes == g.nodes
    ensures AddEdge(g, u, v, p).edges.Keys == g.edges.Keys
    ensures AddEdge(AddEdge(g, u, v, p), u, v, p) == AddEdge(g, u, v, p)
  {
    assert u in g.nodes && v in g.nodes;
    assert WithNode(WithNode(g, u), v) == g;
  }

  /** An edge added from either end is the same undirected edge. */
  lemma AddEdgeEitherEnd(g: Graph, u: Node, v: Node, p: Ports)
    ensures AddEdge(g, u, v, p).edges == AddEdge(g, v, u, p).edges
    ensures AddEdge(g, u, v, p).tp == AddEdge(g, v, u, p).tp
    ensures forall x :: x in AddEdge(g, u, v, p).nodes <==> x in AddEdge(g, v, u, p).nodes
  {
    var e := g.edges;
    assert AddEdge(g, u, v, p).edges == e[(u, v) := p][(v, u) := p];
    assert AddEdge(g, v, u, p).edges == e[(v, u) := p][(u, v) := p];
    assert e[(u, v) := p][(v, u) := p] == e[(v, u) := p][(u, v) := p];
  }

  /** On a well-formed graph, removing {a, b} is the same whichever end is named first, and
      removing an absent edge leaves the graph as it was. */
  lemma UnlinkedSymmetric(g: Graph, a: Node, b: Node)
    ensures Unlinked(g, a, b) == Unlinked(g, b, a)
    ensures (a, b) !in g.edges && (b, a) !in g.edges ==> Unlinked(g, a, b) == g
  {
    assert {(a, b), (b, a)} == {(b, a), (a, b)};
    if (a, b) !in g.edges && (b, a) !in g.edges {
      assert g.edges - {(a, b), (b, a)} == g.edges;
    }
  }
}
