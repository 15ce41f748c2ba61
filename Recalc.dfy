/**
 The route computation of `SPFNetwork.path_recalc`, stated on a snapshot of the
 state it reads: the graph and, per registered switch, its `neighbourtable` and
 `uplinkports`. `Recalc` is the sequence of forwarding-rule intents the loops emit,
 in emission order; the lemmas say which intents those are.

 The invariants `Routable` (what `path_recalc` needs so that none of its dictionary
 lookups raises KeyError) and `Wired` (what the event handlers keep) live here too,
 with the lemmas that the handlers' updates preserve `Wired`.
 */
module Recalc {
  import opened Topology
  import opened Routes
  import opened Uplinks

  /** The per-switch tables `path_recalc` reads. */
  datatype Tables = Tables(neighbours: map<Mac, Port>, uplinks: seq<Uplink>)

  /** The state `path_recalc` reads: the graph `G` and the registry `switches`. */
  datatype Snapshot = Snapshot(g: Graph, tables: map<Dpid, Tables>)

  /** A message to a switch's control channel: `add_flow`, `rm_flow`, `clear_flowtable`. */
  datatype FlowMod =
    | AddFlow(dpid: Dpid, dst: Node, port: Port)
    | DeleteFlow(dpid: Dpid, dst: Node, port: Port)
    | ClearFlows(dpid: Dpid)

  predicate IsSwitch(g: Graph, v: Node) {
    v in g.tp && g.tp[v] == TpSwitch
  }

  predicate IsHost(g: Graph, v: Node) {
    v in g.tp && g.tp[v] == TpHost
  }

  /** Every node has a `tp` attribute. */
  ghost predicate AllTagged(g: Graph) {
    forall v :: v in g.nodes ==> v in g.tp
  }

  /** `switches[switch[0]]` succeeds for every node tagged "switch". */
  ghost predicate SwitchesRegistered(s: Snapshot) {
    forall v :: IsSwitch(s.g, v) ==> v.Sw? && v.dpid in s.tables
  }

  /** `sw.neighbourtable[path[1]]` succeeds for every host adjacent to a switch. */
  ghost predicate HostsBound(s: Snapshot) {
    forall d, m :: IsSwitch(s.g, Sw(d)) && (Sw(d), Host(m)) in s.g.edges ==>
      d in s.tables && m in s.tables[d].neighbours
  }

  /** Every lookup of `path_recalc` succeeds: each node has a `tp`, each node tagged as a
      switch is a registered datapath id, and a host adjacent to a switch is in that
      switch's `neighbourtable`. */
  ghost predicate Routable(s: Snapshot) {
    WellFormed(s.g) && AllTagged(s.g) && SwitchesRegistered(s) && HostsBound(s)
  }

  /** The "switch" tag is carried by exactly the switch nodes. */
  ghost predicate SwitchTagsExact(g: Graph) {
    forall v :: v in g.tp ==> (g.tp[v] == TpSwitch <==> v.Sw?)
  }

  /** Every registered switch is a node tagged "switch". */
  ghost predicate RegisteredPresent(s: Snapshot) {
    forall d :: d in s.tables ==> IsSwitch(s.g, Sw(d))
  }

  /** What the event handlers keep: Routable, switch nodes are exactly the registered
      switches, and they carry the `tp` "switch". */
  ghost predicate Wired(s: Snapshot) {
    Routable(s) && SwitchTagsExact(s.g) && RegisteredPresent(s)
  }

  /** The output port for next hop `next`: a host's port from `neighbourtable`; for a switch,
      the first uplink port bound to it. */
  function PortFor(t: Tables, next: Node): (r: Option<Port>)
    requires next.Host? ==> next.mac in t.neighbours
    ensures next.Host? ==> r.Some? && next.mac in t.neighbours && t.neighbours[next.mac] == r.value
    ensures next.Sw? ==> (r.None? <==> forall u :: u in t.uplinks ==> u.peer != next.dpid)
    ensures next.Sw? && r.Some? ==>
      exists i :: 0 <= i < |t.uplinks| && t.uplinks[i] == Uplink(r.value, next.dpid)
                  && forall j :: 0 <= j < i ==> t.uplinks[j].peer != next.dpid
  {
    match next
    case Host(m) => Some(t.neighbours[m])
    case Sw(d) => FirstUplinkTo(t.uplinks, d)
  }

  /** The port switch `v` forwards traffic for `h` on, None when no rule is emitted. */
  function RouteFor(s: Snapshot, v: Node, h: Node): (r: Option<Port>)
    requires Routable(s) && IsSwitch(s.g, v)
    ensures r.Some? ==> v != h && exists p :: IsWalkBetween(s.g, p, v, h)
  {
    match ShortestPath(s.g, v, h)
    case None => None
    case Some(p) =>
      if |p| > 1 then
        ShortestPathCorrect(s.g, v, h);
        assert IsWalkBetween(s.g, [v], v, v);
        assert (p[0], p[1]) in s.g.edges;
        PortFor(s.tables[v.dpid], p[1])
      else None
  }

  /** The rule emitted for switch `v` and node `h`, if `h` is a host that has a route. */
  function FlowTo(s: Snapshot, v: Node, h: Node): (r: seq<FlowMod>)
    requires Routable(s) && IsSwitch(s.g, v)
    ensures |r| <= 1 && (r != [] ==> IsHost(s.g, h))
    ensures forall i :: 0 <= i < |r| ==> r[i].AddFlow? && r[i].dpid == v.dpid && r[i].dst == h
  {
    if IsHost(s.g, h) then
      match RouteFor(s, v, h)
      case Some(port) => [AddFlow(v.dpid, h, port)]
      case None => []
    else []
  }

  /** The inner loop after its first `k` nodes. */
  function HostFlows(s: Snapshot, v: Node, k: nat): (r: seq<FlowMod>)
    requires Routable(s) && IsSwitch(s.g, v) && k <= |s.g.nodes|
    ensures |r| <= k
  {
    if k == 0 then [] else HostFlows(s, v, k - 1) + FlowTo(s, v, s.g.nodes[k - 1])
  }

  /** The outer loop after its first `k` nodes. */
  function SwitchFlows(s: Snapshot, k: nat): (r: seq<FlowMod>)
    requires Routable(s) && k <= |s.g.nodes|
    ensures |r| <= k * |s.g.nodes|
  {
    if k == 0 then []
    else
      var v := s.g.nodes[k - 1];
      SwitchFlows(s, k - 1) + (if IsSwitch(s.g, v) then HostFlows(s, v, |s.g.nodes|) else [])
  }

  /** Everything one call of `path_recalc` emits, in order. */
  function Recalc(s: Snapshot): (r: seq<FlowMod>)
    requires Routable(s)
    ensures |r| <= |s.g.nodes| * |s.g.nodes|
  {
    SwitchFlows(s, |s.g.nodes|)
  }

  /** One step of the outer loop: the next node contributes its rules if it is a switch. */
  lemma SwitchFlowsStep(s: Snapshot, k: nat)
    requires Routable(s) && k < |s.g.nodes|
    ensures SwitchFlows(s, k + 1) == SwitchFlows(s, k)
      + if IsSwitch(s.g, s.g.nodes[k]) then HostFlows(s, s.g.nodes[k], |s.g.nodes|) else []
  {
  }

  /** Every rule of the inner loop is an add-flow for switch `v` towards one of the nodes
      visited so far. */
  lemma {:induction false} HostFlowsOwner(s: Snapshot, v: Node, k: nat)
    requires Routable(s) && IsSwitch(s.g, v) && k <= |s.g.nodes|
    ensures forall i :: 0 <= i < |HostFlows(s, v, k)| ==>
      HostFlows(s, v, k)[i].AddFlow? && HostFlows(s, v, k)[i].dpid == v.dpid
      && HostFlows(s, v, k)[i].dst in s.g.nodes[..k]
  {
    if k > 0 {
      HostFlowsOwner(s, v, k - 1);
      var h := s.g.nodes[k - 1];
      assert s.g.nodes[..k] == s.g.nodes[..k - 1] + [h];
      assert HostFlows(s, v, k) == HostFlows(s, v, k - 1) + FlowTo(s, v, h);
      TargetsAppend(HostFlows(s, v, k - 1), FlowTo(s, v, h), s.g.nodes[..k - 1], v.dpid, h);
    }
  }

  /** Appending add-flows of switch `d` towards `h` to its add-flows towards nodes of `seen`. */
  lemma TargetsAppend(prev: seq<FlowMod>, last: seq<FlowMod>, seen: seq<Node>, d: Dpid, h: Node)
    requires forall i :: 0 <= i < |prev| ==> prev[i].AddFlow? && prev[i].dpid == d && prev[i].dst in seen
    requires forall i :: 0 <= i < |last| ==> last[i].AddFlow? && last[i].dpid == d && last[i].dst == h
    ensures forall i :: 0 <= i < |prev + last| ==>
      (prev + last)[i].AddFlow? && (prev + last)[i].dpid == d && (prev + last)[i].dst in seen + [h]
  {
    forall i | 0 <= i < |prev + last|
      ensures (prev + last)[i].AddFlow? && (prev + last)[i].dpid == d && (prev + last)[i].dst in seen + [h]
    {
      if i < |prev| {
        assert (prev + last)[i] == prev[i];
      } else {
        assert (prev + last)[i] == last[i - |prev|];
      }
    }
  }

  /** The inner loop after `k` nodes holds the add-flow of `v` towards `dst` out of `port`
      exactly when `dst` is among those nodes, is tagged "host", and its route leaves `v`
      through `port`. */
  lemma {:induction false} HostFlowsContent(s: Snapshot, v: Node, k: nat, dst: Node, port: Port)
    requires Routable(s) && IsSwitch(s.g, v) && k <= |s.g.nodes|
    ensures AddFlow(v.dpid, dst, port) in HostFlows(s, v, k) <==>
      dst in s.g.nodes[..k] && IsHost(s.g, dst) && RouteFor(s, v, dst) == Some(port)
  {
    if k > 0 {
      HostFlowsContent(s, v, k - 1, dst, port);
      var h := s.g.nodes[k - 1];
      assert s.g.nodes[..k] == s.g.nodes[..k - 1] + [h];
      assert HostFlows(s, v, k) == HostFlows(s, v, k - 1) + FlowTo(s, v, h);
      FlowToHas(s, v, h, dst, port);
    }
  }

  /** The rule for node `h` is the add-flow towards `h` out of its route's port. */
  lemma FlowToHas(s: Snapshot, v: Node, h: Node, dst: Node, port: Port)
    requires Routable(s) && IsSwitch(s.g, v)
    ensures AddFlow(v.dpid, dst, port) in FlowTo(s, v, h) <==>
      dst == h && IsHost(s.g, h) && RouteFor(s, v, h) == Some(port)
  {
  }

  /** The inner loop emits at most one rule per destination. */
  lemma {:induction false} HostFlowsPairs(s: Snapshot, v: Node, k: nat)
    requires Routable(s) && IsSwitch(s.g, v) && k <= |s.g.nodes|
    ensures forall i :: 0 <= i < |HostFlows(s, v, k)| ==> HostFlows(s, v, k)[i].AddFlow?
    ensures forall i, j :: 0 <= i < j < |HostFlows(s, v, k)| ==>
      HostFlows(s, v, k)[i].dst != HostFlows(s, v, k)[j].dst
  {
    if k > 0 {
      HostFlowsPairs(s, v, k - 1);
      var h := s.g.nodes[k - 1];
      assert HostFlows(s, v, k) == HostFlows(s, v, k - 1) + FlowTo(s, v, h);
      HostFlowsOwner(s, v, k - 1);
      DistinctPrefix(s.g.nodes, k - 1);
      DstsAppend(HostFlows(s, v, k - 1), FlowTo(s, v, h), s.g.nodes[..k - 1], h);
    }
  }

  /** Appending at most one add-flow towards `h`, not in `seen`, to add-flows with distinct
      destinations in `seen` keeps the destinations distinct. */
  lemma DstsAppend(prev: seq<FlowMod>, last: seq<FlowMod>, seen: seq<Node>, h: Node)
    requires forall i :: 0 <= i < |prev| ==> prev[i].AddFlow? && prev[i].dst in seen
    requires forall i, j :: 0 <= i < j < |prev| ==> prev[i].dst != prev[j].dst
    requires |last| <= 1 && forall i :: 0 <= i < |last| ==> last[i].AddFlow? && last[i].dst == h
    requires h !in seen
    ensures forall i :: 0 <= i < |prev + last| ==> (prev + last)[i].AddFlow?
    ensures forall i, j :: 0 <= i < j < |prev + last| ==> (prev + last)[i].dst != (prev + last)[j].dst
  {
    forall i | 0 <= i < |prev + last| ensures (prev + last)[i].AddFlow? {
      if i < |prev| {
        assert (prev + last)[i] == prev[i];
      } else {
        assert (prev + last)[i] == last[i - |prev|];
      }
    }
    forall i, j | 0 <= i < j < |prev + last| ensures (prev + last)[i].dst != (prev + last)[j].dst {
      if j >= |prev| {
        assert (prev + last)[i] == prev[i] && (prev + last)[j] == last[j - |prev|];
      } else {
        assert (prev + last)[i] == prev[i] && (prev + last)[j] == prev[j];
      }
    }
  }

  /** Every rule of the outer loop is for one of the switches visited so far. */
  lemma {:induction false} SwitchFlowsOwner(s: Snapshot, k: nat)
    requires Routable(s) && k <= |s.g.nodes|
    ensures forall i :: 0 <= i < |SwitchFlows(s, k)| ==>
      SwitchFlows(s, k)[i].AddFlow? && Sw(SwitchFlows(s, k)[i].dpid) in s.g.nodes[..k]
  {
    if k > 0 {
      SwitchFlowsOwner(s, k - 1);
      var n := |s.g.nodes|;
      var v := s.g.nodes[k - 1];
      assert s.g.nodes[..k] == s.g.nodes[..k - 1] + [v];
      var prev: seq<FlowMod> := SwitchFlows(s, k - 1);
      if IsSwitch(s.g, v) {
        assert SwitchFlows(s, k) == prev + HostFlows(s, v, n);
        HostFlowsOwner(s, v, n);
        OwnersAppend(prev, HostFlows(s, v, n), s.g.nodes[..k - 1], v.dpid);
      } else {
        assert SwitchFlows(s, k) == prev;
      }
    }
  }

  /** Appending the add-flows of switch `d` to add-flows of switches in `seen`. */
  lemma OwnersAppend(prev: seq<FlowMod>, last: seq<FlowMod>, seen: seq<Node>, d: Dpid)
    requires forall i :: 0 <= i < |prev| ==> prev[i].AddFlow? && Sw(prev[i].dpid) in seen
    requires forall i :: 0 <= i < |last| ==> last[i].AddFlow? && last[i].dpid == d
    ensures forall i :: 0 <= i < |prev + last| ==>
      (prev + last)[i].AddFlow? && Sw((prev + last)[i].dpid) in seen + [Sw(d)]
  {
    forall i | 0 <= i < |prev + last|
      ensures (prev + last)[i].AddFlow? && Sw((prev + last)[i].dpid) in seen + [Sw(d)]
    {
      if i < |prev| {
        assert (prev + last)[i] == prev[i];
      } else {
        assert (prev + last)[i] == last[i - |prev|];
      }
    }
  }

  /** The outer loop after `k` nodes holds an add-flow of switch `d` exactly when `Sw(d)` is
      among those nodes, is tagged "switch", and its inner loop emits that rule. */
  lemma {:induction false} SwitchFlowsContent(s: Snapshot, k: nat, d: Dpid, dst: Node, port: Port)
    requires Routable(s) && k <= |s.g.nodes|
    ensures AddFlow(d, dst, port) in SwitchFlows(s, k) <==>
      Sw(d) in s.g.nodes[..k] && IsSwitch(s.g, Sw(d))
      && AddFlow(d, dst, port) in HostFlows(s, Sw(d), |s.g.nodes|)
  {
    var n := |s.g.nodes|;
    if k > 0 {
      SwitchFlowsContent(s, k - 1, d, dst, port);
      var v := s.g.nodes[k - 1];
      assert s.g.nodes[..k] == s.g.nodes[..k - 1] + [v];
      var f := AddFlow(d, dst, port);
      if IsSwitch(s.g, v) {
        var last: seq<FlowMod> := HostFlows(s, v, n);
        assert SwitchFlows(s, k) == SwitchFlows(s, k - 1) + last;
        if f in last {
          HostFlowsOwner(s, v, n);
          var i :| 0 <= i < |last| && last[i] == f;
        }
      } else {
        assert SwitchFlows(s, k) == SwitchFlows(s, k - 1);
      }
    }
  }

  /** The outer loop emits at most one rule per (switch, destination) pair. */
  lemma {:induction false} SwitchFlowsPairs(s: Snapshot, k: nat)
    requires Routable(s) && k <= |s.g.nodes|
    ensures forall i :: 0 <= i < |SwitchFlows(s, k)| ==> SwitchFlows(s, k)[i].AddFlow?
    ensures forall i, j :: 0 <= i < j < |SwitchFlows(s, k)| ==>
      SwitchFlows(s, k)[i].dpid != SwitchFlows(s, k)[j].dpid
      || SwitchFlows(s, k)[i].dst != SwitchFlows(s, k)[j].dst
  {
    var n := |s.g.nodes|;
    if k > 0 {
      SwitchFlowsPairs(s, k - 1);
      var v := s.g.nodes[k - 1];
      var prev: seq<FlowMod> := SwitchFlows(s, k - 1);
      SwitchFlowsOwner(s, k - 1);
      if IsSwitch(s.g, v) {
        var last: seq<FlowMod> := HostFlows(s, v, n);
        assert SwitchFlows(s, k) == prev + last;
        DistinctPrefix(s.g.nodes, k - 1);
        HostFlowsOwner(s, v, n);
        HostFlowsPairs(s, v, n);
        PairsAppend(prev, last, s.g.nodes[..k - 1], v.dpid);
      } else {
        assert SwitchFlows(s, k) == prev;
      }
    }
  }

  /** Appending the rules of a switch not seen before to rules with one per pair keeps one
      per pair. */
  lemma PairsAppend(prev: seq<FlowMod>, last: seq<FlowMod>, seen: seq<Node>, d: Dpid)
    requires forall i :: 0 <= i < |prev| ==> prev[i].AddFlow? && Sw(prev[i].dpid) in seen
    requires forall i :: 0 <= i < |last| ==> last[i].AddFlow? && last[i].dpid == d
    requires Sw(d) !in seen
    requires forall i, j :: 0 <= i < j < |prev| ==> prev[i].dpid != prev[j].dpid || prev[i].dst != prev[j].dst
    requires forall i, j :: 0 <= i < j < |last| ==> last[i].dst != last[j].dst
    ensures forall i :: 0 <= i < |prev + last| ==> (prev + last)[i].AddFlow?
    ensures forall i, j :: 0 <= i < j < |prev + last| ==>
      (prev + last)[i].dpid != (prev + last)[j].dpid || (prev + last)[i].dst != (prev + last)[j].dst
  {
    forall i, j | 0 <= i < j < |prev + last|
      ensures (prev + last)[i].dpid != (prev + last)[j].dpid || (prev + last)[i].dst != (prev + last)[j].dst
    {
      if i >= |prev| {
        assert (prev + last)[i] == last[i - |prev|] && (prev + last)[j] == last[j - |prev|];
      } else if j >= |prev| {
        assert (prev + last)[i] == prev[i] && (prev + last)[j] == last[j - |prev|];
      } else {
        assert (prev + last)[i] == prev[i] && (prev + last)[j] == prev[j];
      }
    }
  }

  /** Soundness and completeness of the emitted rules: switch `d` gets a rule for `h` out of
      `port` exactly when `d` is a node tagged "switch", `h` a node tagged "host", and the
      route from `d` to `h` leaves through `port`. */
  lemma RecalcContent(s: Snapshot, d: Dpid, h: Node, port: Port)
    requires Routable(s)
    ensures AddFlow(d, h, port) in Recalc(s) <==>
      IsSwitch(s.g, Sw(d)) && IsHost(s.g, h) && RouteFor(s, Sw(d), h) == Some(port)
  {
    var n := |s.g.nodes|;
    SwitchFlowsContent(s, n, d, h, port);
    assert s.g.nodes[..n] == s.g.nodes;
    if IsSwitch(s.g, Sw(d)) {
      HostFlowsContent(s, Sw(d), n, h, port);
    }
  }

  /** At most one rule per (switch, host) pair, and only add-flow intents. */
  lemma RecalcOnePerPair(s: Snapshot)
    requires Routable(s)
    ensures forall f :: f in Recalc(s) ==> f.AddFlow?
    ensures forall i, j :: 0 <= i < j < |Recalc(s)| ==>
      Recalc(s)[i].dpid != Recalc(s)[j].dpid || Recalc(s)[i].dst != Recalc(s)[j].dst
  {
    SwitchFlowsOwner(s, |s.g.nodes|);
    SwitchFlowsPairs(s, |s.g.nodes|);
    forall f | f in Recalc(s) ensures f.AddFlow? {
      var i :| 0 <= i < |Recalc(s)| && Recalc(s)[i] == f;
    }
  }

  /** What a route means: none when `h` cannot be reached; otherwise the hop count path's next
      node is adjacent and on a minimum-hop path, and the port is that host's
      `neighbourtable` entry or the first uplink port bound to that switch (none if no
      uplink port is bound to it). */
  lemma RouteMeaning(s: Snapshot, v: Node, h: Node)
    requires Routable(s) && IsSwitch(s.g, v)
    ensures (forall p :: !IsWalkBetween(s.g, p, v, h)) ==> RouteFor(s, v, h) == None
    ensures RouteFor(s, v, h).Some? ==>
      var p := ShortestPath(s.g, v, h).value;
      var t := s.tables[v.dpid];
      && IsShortestWalk(s.g, p, v, h) && |p| > 1
      && (v, p[1]) in s.g.edges && IsShortestWalk(s.g, p[1..], p[1], h)
      && (p[1].Host? ==> RouteFor(s, v, h) == Some(t.neighbours[p[1].mac]))
      && (p[1].Sw? ==> exists i :: 0 <= i < |t.uplinks| && t.uplinks[i] == Uplink(RouteFor(s, v, h).value, p[1].dpid)
                                   && forall j :: 0 <= j < i ==> t.uplinks[j].peer != p[1].dpid)
    ensures ShortestPath(s.g, v, h).Some? && |ShortestPath(s.g, v, h).value| > 1
            && ShortestPath(s.g, v, h).value[1].Sw?
            && (forall u :: u in s.tables[v.dpid].uplinks ==> u.peer != ShortestPath(s.g, v, h).value[1].dpid)
            ==> RouteFor(s, v, h) == None
  {
    ShortestPathCorrect(s.g, v, h);
    var r := ShortestPath(s.g, v, h);
    if r.Some? && |r.value| > 1 {
      ShortestSuffix(s.g, r.value, v, h);
    }
  }

  /** A host seen on a port that is an uplink port only adds the host node. */
  lemma HostNodeKeepsWired(s: Snapshot, mac: Mac)
    requires Wired(s)
    ensures Wired(Snapshot(AddNode(s.g, Host(mac), TpHost), s.tables))
  {
    AddNodeWellFormed(s.g, Host(mac), TpHost);
  }

  /** The host edge of switch `d` to host `mac`, with the host bound in `neighbourtable`
      (unless it already was), keeps Wired. */
  lemma HostEdgeKeepsWired(s: Snapshot, d: Dpid, mac: Mac, port: Port)
    requires Wired(s) && d in s.tables && Host(mac) in s.g.nodes
    ensures var t := s.tables[d];
            var nt := if mac in t.neighbours then t.neighbours else t.neighbours[mac := port];
            Wired(Snapshot(AddEdge(s.g, Sw(d), Host(mac), HostPort(port)), s.tables[d := t.(neighbours := nt)]))
  {
    var t := s.tables[d];
    var g := AddEdge(s.g, Sw(d), Host(mac), HostPort(port));
    AddEdgeWellFormed(s.g, Sw(d), Host(mac), HostPort(port));
    var nt := if mac in t.neighbours then t.neighbours else t.neighbours[mac := port];
    var s' := Snapshot(g, s.tables[d := t.(neighbours := nt)]);
    assert IsSwitch(s.g, Sw(d));
    assert g.nodes == s.g.nodes;
    assert HostsBound(s') by {
      forall e, m | IsSwitch(g, Sw(e)) && (Sw(e), Host(m)) in g.edges
        ensures e in s'.tables && m in s'.tables[e].neighbours
      {
        if (Sw(e), Host(m)) != (Sw(d), Host(mac)) {
          assert (Sw(e), Host(m)) in s.g.edges;
        }
      }
    }
    assert SwitchesRegistered(s');
  }

  /** A host seen on another port of switch `d` adds the host node and edge; the host is then
      bound in `neighbourtable` unless it already was. */
  lemma HostLinkKeepsWired(s: Snapshot, d: Dpid, mac: Mac, port: Port)
    requires Wired(s) && d in s.tables
    ensures var t := s.tables[d];
            var g := AddEdge(AddNode(s.g, Host(mac), TpHost), Sw(d), Host(mac), HostPort(port));
            var nt := if mac in t.neighbours then t.neighbours else t.neighbours[mac := port];
            Wired(Snapshot(g, s.tables[d := t.(neighbours := nt)]))
  {
    var g0 := AddNode(s.g, Host(mac), TpHost);
    HostNodeKeepsWired(s, mac);
    HostEdgeKeepsWired(Snapshot(g0, s.tables), d, mac, port);
  }

  /** An uplink from `d` to a registered switch `peer`, with `d` taking new uplinks but keeping
      its neighbour table, keeps Wired. */
  lemma UplinkKeepsWired(s: Snapshot, d: Dpid, t: Tables, peer: Dpid, l: Ports)
    requires Wired(s) && d in s.tables && peer in s.tables
    requires t.neighbours == s.tables[d].neighbours
    ensures Wired(Snapshot(AddEdge(s.g, Sw(d), Sw(peer), l), s.tables[d := t]))
  {
    var g := AddEdge(s.g, Sw(d), Sw(peer), l);
    AddEdgeWellFormed(s.g, Sw(d), Sw(peer), l);
    var s' := Snapshot(g, s.tables[d := t]);
    assert IsSwitch(s.g, Sw(d)) && IsSwitch(s.g, Sw(peer));
    assert HostsBound(s') by {
      forall e, m | IsSwitch(g, Sw(e)) && (Sw(e), Host(m)) in g.edges
        ensures e in s'.tables && m in s'.tables[e].neighbours
      {
        assert (Sw(e), Host(m)) in s.g.edges;
      }
    }
  }

  /** Removing an edge (whichever it names) while switch `d` takes new uplinks but keeps its
      neighbour table keeps Wired. */
  lemma UnlinkKeepsWired(s: Snapshot, d: Dpid, t: Tables, a: Node, b: Node)
    requires Wired(s) && d in s.tables
    requires t.neighbours == s.tables[d].neighbours
    ensures Wired(Snapshot(Unlinked(s.g, a, b), s.tables[d := t]))
  {
    var g := Unlinked(s.g, a, b);
    var s' := Snapshot(g, s.tables[d := t]);
    UnlinkedWellFormed(s.g, a, b);
    assert HostsBound(s');
  }

  /** The state after switch `d` sees host `mac` on `port` (`Switch.add_host`): the host node
      is (re)tagged; unless `port` is an uplink port, the host edge is (re)labelled and the
      host is bound to `port` if it was not bound already. */
  function HostSeen(s: Snapshot, d: Dpid, mac: Mac, port: Port): (r: Snapshot)
    requires d in s.tables
    ensures r.tables.Keys == s.tables.Keys
  {
    var t := s.tables[d];
    var g := AddNode(s.g, Host(mac), TpHost);
    if port in PortsOf(t.uplinks) then Snapshot(g, s.tables)
    else
      var nt := if mac in t.neighbours then t.neighbours else t.neighbours[mac := port];
      Snapshot(AddEdge(g, Sw(d), Host(mac), HostPort(port)), s.tables[d := t.(neighbours := nt)])
  }

  /** What `add_host` promises: the host node is tagged "host"; on an uplink port nothing
      else changes; otherwise the host is linked to the switch on `port`, and it is bound to
      `port` only when it had no binding yet (an existing binding is kept, even for another
      port). Other switches' tables and this switch's uplinks are untouched. */
  lemma HostSeenEffect(s: Snapshot, d: Dpid, mac: Mac, port: Port)
    requires d in s.tables
    ensures var r := HostSeen(s, d, mac, port);
      && Host(mac) in r.g.nodes && r.g.tp[Host(mac)] == TpHost
      && (forall e :: e in s.tables && e != d ==> r.tables[e] == s.tables[e])
      && r.tables[d].uplinks == s.tables[d].uplinks
    ensures var r := HostSeen(s, d, mac, port);
      port in PortsOf(s.tables[d].uplinks) ==> r == Snapshot(AddNode(s.g, Host(mac), TpHost), s.tables)
    ensures var r := HostSeen(s, d, mac, port);
      port !in PortsOf(s.tables[d].uplinks) ==>
        && (Sw(d), Host(mac)) in r.g.edges && r.g.edges[(Sw(d), Host(mac))] == HostPort(port)
        && (mac in s.tables[d].neighbours ==> r.tables == s.tables)
        && (mac !in s.tables[d].neighbours ==> r.tables[d].neighbours == s.tables[d].neighbours[mac := port])
  {
  }

  /** Whether `add_host` learns a new binding, and so recomputes the routes. */
  predicate Learns(s: Snapshot, d: Dpid, mac: Mac, port: Port): (b: bool)
    requires d in s.tables
    ensures b <==> mac !in s.tables[d].neighbours && mac in HostSeen(s, d, mac, port).tables[d].neighbours
  {
    port !in PortsOf(s.tables[d].uplinks) && mac !in s.tables[d].neighbours
  }

  lemma HostSeenKeepsWired(s: Snapshot, d: Dpid, mac: Mac, port: Port)
    requires Wired(s) && d in s.tables
    ensures Wired(HostSeen(s, d, mac, port))
  {
    if port in PortsOf(s.tables[d].uplinks) {
      HostNodeKeepsWired(s, mac);
    } else {
      HostLinkKeepsWired(s, d, mac, port);
    }
  }

  /** What `start_switch` does to the network for datapath `d`: a switch not yet known is
      registered with empty tables and a node tagged "switch"; a known one is left alone. */
  function Connected(s: Snapshot, d: Dpid): (r: Snapshot)
    ensures d in r.tables
    ensures forall e :: e in s.tables ==> e in r.tables && r.tables[e] == s.tables[e]
  {
    if d in s.tables then s
    else Snapshot(AddNode(s.g, Sw(d), TpSwitch), s.tables[d := Tables(map[], [])])
  }

  /** A connection-up event keeps the network wired. */
  lemma ConnectedKeepsWired(s: Snapshot, d: Dpid)
    requires Wired(s)
    ensures Wired(Connected(s, d))
  {
    if d !in s.tables {
      RegisterKeepsWired(s, d);
    }
  }

  /** Registering a switch that was not known adds its node with empty tables. */
  lemma RegisterKeepsWired(s: Snapshot, d: Dpid)
    requires Wired(s) && d !in s.tables
    ensures Wired(Snapshot(AddNode(s.g, Sw(d), TpSwitch), s.tables[d := Tables(map[], [])]))
  {
    var g := AddNode(s.g, Sw(d), TpSwitch);
    AddNodeWellFormed(s.g, Sw(d), TpSwitch);
    var s' := Snapshot(g, s.tables[d := Tables(map[], [])]);
    assert Sw(d) !in s.g.tp;
    assert Sw(d) !in s.g.nodes;
    assert HostsBound(s') by {
      forall e, m | IsSwitch(g, Sw(e)) && (Sw(e), Host(m)) in g.edges
        ensures e in s'.tables && m in s'.tables[e].neighbours
      {
        assert (Sw(e), Host(m)) in s.g.edges;
      }
    }
  }
}
