/**
 The controller state of spf_network.py as objects updated in place. `SPFNetwork`
 holds what the module keeps in globals: the graph `G`, the registry `switches`, and
 (standing in for the switches' control connections) the log of forwarding-rule
 intents sent so far. `Switch` holds one device's `neighbourtable` and
 `uplinkports`; `SwitchHandler` turns device events into calls on its switch;
 `StartSwitch` is the connection-up handler of `launch`.
 */
module Controller {
  import opened Topology
  import opened Routes
  import opened Uplinks
  import opened Recalc

  class Switch {
    const dpid: Dpid
    /** The control-connection handle (opaque here). */
    var connection: nat
    const n: SPFNetwork
    /** host mac -> port */
    var neighbourtable: map<Mac, Port>
    /** port -> neighbouring dpid, in insertion order */
    var uplinkports: seq<Uplink>

    ghost predicate Valid()
      reads this`uplinkports
    {
      UniquePorts(uplinkports)
    }

    /** The tables `path_recalc` reads from this switch. */
    function View(): Tables
      reads this`neighbourtable, this`uplinkports
    {
      Tables(neighbourtable, uplinkports)
    }

    constructor (dpid: Dpid, connection: nat, n: SPFNetwork)
      ensures Valid()
      ensures this.dpid == dpid && this.connection == connection && this.n == n
      ensures neighbourtable == map[] && uplinkports == []
    {
      this.dpid := dpid;
      this.connection := connection;
      this.n := n;
      neighbourtable := map[];
      uplinkports := [];
    }

    /** This switch is the one registered under its dpid in a consistent network. */
    ghost predicate Registered()
      reads n`g, n`switches, n.switches.Values`uplinkports
    {
      n.Valid() && dpid in n.switches && n.switches[dpid] == this
    }

    /** A packet from host `mac` arrived on `port`. */
    method AddHost(mac: Mac, port: Port)
      requires Registered() && Wired(n.State())
      modifies this`neighbourtable, n`g, n`channel
      ensures Registered() && Wired(n.State())
      ensures n.State() == HostSeen(old(n.State()), dpid, mac, port)
      ensures n.channel == old(n.channel) + if Learns(old(n.State()), dpid, mac, port) then Recalc.Recalc(n.State()) else []
    {
      ghost var s := n.State();
      var learned := Record(mac, port);
      HostSeenKeepsWired(s, dpid, mac, port);
      Recompute(learned);
    }

    /** `path_recalc` when a binding was added, nothing otherwise. */
    method Recompute(learned: bool)
      requires n.Valid() && Routable(n.State())
      modifies n`channel
      ensures n.channel == old(n.channel) + if learned then Recalc.Recalc(n.State()) else []
    {
      if learned {
        n.PathRecalc();
      }
    }

    /** The bookkeeping of `add_host` before the recomputation: the host node, and unless
        `port` is an uplink, its edge and (when new) its binding. `learned` says whether a
        binding was added. */
    method Record(mac: Mac, port: Port) returns (learned: bool)
      requires Registered()
      modifies this`neighbourtable, n`g
      ensures Registered()
      ensures n.State() == HostSeen(old(n.State()), dpid, mac, port)
      ensures learned == Learns(old(n.State()), dpid, mac, port)
    {
      ghost var s := n.State();
      assert s.tables[dpid] == View();
      n.AddHost(Host(mac));
      learned := false;
      if port !in PortsOf(uplinkports) {
        learned := LinkHost(mac, port);
      }
    }

    /** The non-uplink branch of `add_host`: the edge from this switch to the host and, when
        the host is new here, its binding. */
    method LinkHost(mac: Mac, port: Port) returns (learned: bool)
      requires Registered()
      modifies this`neighbourtable, n`g
      ensures Registered()
      ensures n.g == AddEdge(old(n.g), Sw(dpid), Host(mac), HostPort(port))
      ensures learned == (mac !in old(neighbourtable))
      ensures neighbourtable == if learned then old(neighbourtable)[mac := port] else old(neighbourtable)
      ensures n.State() == Snapshot(n.g, old(n.State()).tables[dpid := View()])
    {
      n.AddLink(Sw(dpid), Host(mac), HostPort(port));
      learned := mac !in neighbourtable;
      if learned {
        neighbourtable := neighbourtable[mac := port];
      }
      TablesUpdated(this);
    }

    /** A link came up between local `port` and port `swPort` of switch `swDpid`. */
    method AddUplink(port: Port, swDpid: Dpid, swPort: Option<Port>)
      requires Registered()
      modifies this`uplinkports, n`g
      ensures Registered()
      ensures uplinkports == Put(old(uplinkports), port, swDpid)
      ensures n.g == AddEdge(old(n.g), Sw(dpid), Sw(swDpid), LinkPorts(port, swPort))
      ensures old(Wired(n.State())) && swDpid in n.switches ==> Wired(n.State())
    {
      ghost var s := n.State();
      uplinkports := Put(uplinkports, port, swDpid);
      n.AddLink(Sw(dpid), Sw(swDpid), LinkPorts(port, swPort));
      TablesUpdated(this);
      if Wired(s) && swDpid in n.switches {
        UplinkKeepsWired(s, dpid, View(), swDpid, LinkPorts(port, swPort));
      }
    }

    /** The link on local `port` to switch `swDpid` went down. */
    method RmUplink(port: Port, swDpid: Dpid)
      requires Registered()
      modifies this`uplinkports, n`g
      ensures Registered()
      ensures uplinkports == Pop(old(uplinkports), port)
      ensures n.g == Unlinked(old(n.g), Sw(dpid), Sw(swDpid))
      ensures old(Wired(n.State())) ==> Wired(n.State())
    {
      ghost var s := n.State();
      uplinkports := Pop(uplinkports, port);
      n.RmLink(Sw(dpid), Sw(swDpid));
      TablesUpdated(this);
      if Wired(s) {
        UnlinkKeepsWired(s, dpid, View(), Sw(dpid), Sw(swDpid));
      }
    }

    method AddFlow(dst: Node, port: Port)
      modifies n`channel
      ensures n.channel == old(n.channel) + [FlowMod.AddFlow(dpid, dst, port)]
    {
      n.channel := n.channel + [FlowMod.AddFlow(dpid, dst, port)];
    }

    method RmFlow(dst: Node, port: Port)
      modifies n`channel
      ensures n.channel == old(n.channel) + [FlowMod.DeleteFlow(dpid, dst, port)]
    {
      n.channel := n.channel + [FlowMod.DeleteFlow(dpid, dst, port)];
    }

    method ClearFlowtable()
      modifies n`channel
      ensures n.channel == old(n.channel) + [FlowMod.ClearFlows(dpid)]
    {
      n.channel := n.channel + [FlowMod.ClearFlows(dpid)];
    }

    /** The output port `path_recalc` picks for next hop `next`: the `neighbourtable` entry of
        a host, the first uplink port bound to a switch. */
    method PortTowards(next: Node) returns (port: Option<Port>)
      requires next.Host? ==> next.mac in neighbourtable
      ensures port == PortFor(View(), next)
    {
      if next.Host? {
        port := Some(neighbourtable[next.mac]);
      } else {
        port := UplinkPortTo(next.dpid);
      }
    }

    /** The inner search of `path_recalc`: the first uplink port whose neighbour is `peer`. */
    method UplinkPortTo(peer: Dpid) returns (port: Option<Port>)
      ensures port == FirstUplinkTo(uplinkports, peer)
      ensures port.None? <==> forall u :: u in uplinkports ==> u.peer != peer
      ensures port.Some? ==> exists i :: 0 <= i < |uplinkports| && uplinkports[i] == Uplink(port.value, peer)
                                         && forall j :: 0 <= j < i ==> uplinkports[j].peer != peer
    {
      var k := 0;
      while k < |uplinkports|
        invariant k <= |uplinkports|
        invariant forall j :: 0 <= j < k ==> uplinkports[j].peer != peer
        invariant k <= FirstIndexTo(uplinkports, peer)
      {
        if uplinkports[k].peer == peer {
          return Some(uplinkports[k].port);
        }
        k := k + 1;
      }
      return None;
    }
  }

  class SPFNetwork {
    /** The module-global graph `G`. */
    var g: Graph
    /** The module-global registry `switches`. */
    var switches: map<Dpid, Switch>
    /** Every rule intent sent to the switches' control connections, in order. */
    var channel: seq<FlowMod>

    ghost predicate Valid()
      reads this`g, this`switches, switches.Values`uplinkports
    {
      && WellFormed(g)
      && forall d :: d in switches ==> switches[d].dpid == d && switches[d].n == this && switches[d].Valid()
    }

    /** The tables of every registered switch, by dpid. */
    ghost function TableMap(): map<Dpid, Tables>
      reads this`switches, switches.Values`neighbourtable, switches.Values`uplinkports
    {
      map d | d in switches :: switches[d].View()
    }

    /** What `path_recalc` reads. */
    ghost function State(): Snapshot
      reads this`g, this`switches, switches.Values`neighbourtable, switches.Values`uplinkports
    {
      Snapshot(g, TableMap())
    }

    constructor ()
      ensures Valid() && Wired(State())
      ensures g == Empty && switches == map[] && channel == []
    {
      g := Empty;
      switches := map[];
      channel := [];
    }

    method AddSwitch(id: Node)
      requires Valid()
      modifies this`g
      ensures TableMap() == old(TableMap())
      ensures Valid()
      ensures g == AddNode(old(g), id, TpSwitch)
    {
      AddNodeWellFormed(g, id, TpSwitch);
      g := AddNode(g, id, TpSwitch);
    }

    method AddHost(id: Node)
      requires Valid()
      modifies this`g
      ensures TableMap() == old(TableMap())
      ensures Valid()
      ensures g == AddNode(old(g), id, TpHost)
    {
      AddNodeWellFormed(g, id, TpHost);
      g := AddNode(g, id, TpHost);
    }

    method AddLink(from: Node, to: Node, ports: Ports)
      requires Valid()
      modifies this`g
      ensures TableMap() == old(TableMap())
      ensures Valid()
      ensures g == AddEdge(old(g), from, to, ports)
    {
      AddEdgeWellFormed(g, from, to, ports);
      g := AddEdge(g, from, to, ports);
    }

    /** `G.remove_node` is not guarded here: for an absent node the NetworkXError propagates
        (`ok` is false) and nothing changes. */
    method RmSwitch(id: Node) returns (ok: bool)
      requires Valid()
      modifies this`g
      ensures TableMap() == old(TableMap())
      ensures Valid()
      ensures ok <==> id in old(g.nodes)
      ensures g == if ok then RemoveNode(old(g), id).value else old(g)
    {
      var r := RemoveNode(g, id);
      ok := r.Some?;
      if ok {
        RemoveNodeWellFormed(g, id);
        g := r.value;
      }
    }

    method RmHost(id: Node) returns (ok: bool)
      requires Valid()
      modifies this`g
      ensures TableMap() == old(TableMap())
      ensures Valid()
      ensures ok <==> id in old(g.nodes)
      ensures g == if ok then RemoveNode(old(g), id).value else old(g)
    {
      var r := RemoveNode(g, id);
      ok := r.Some?;
      if ok {
        RemoveNodeWellFormed(g, id);
        g := r.value;
      }
    }

    /** Tries `remove_edge(from, to)`, then `remove_edge(to, from)`, then gives up quietly. */
    method RmLink(from: Node, to: Node)
      modifies this`g
      ensures TableMap() == old(TableMap())
      ensures old(Valid()) ==> Valid()
      ensures g == Unlinked(old(g), from, to)
    {
      if Valid() {
        UnlinkedWellFormed(g, from, to);
      }
      var r := RemoveEdge(g, from, to);
      if r.Some? {
        g := r.value;
      } else {
        r := RemoveEdge(g, to, from);
        if r.Some? {
          g := r.value;
        }
        UnlinkedSymmetric(old(g), from, to);
      }
    }

    /** For every node tagged "switch" and every node tagged "host", in node order, emits the
        rule for the next hop of a shortest path. */
    method PathRecalc()
      requires Valid() && Routable(State())
      modifies this`channel
      ensures Valid() && State() == old(State())
      ensures channel == old(channel) + Recalc.Recalc(State())
    {
      ghost var s := State();
      var nodes := g.nodes;
      for i := 0 to |nodes|
        invariant State() == s
        invariant channel == old(channel) + SwitchFlows(s, i)
      {
        var v := nodes[i];
        SwitchFlowsStep(s, i);
        if g.tp[v] == TpSwitch {
          assert s.tables[v.dpid] == switches[v.dpid].View();
          RoutesFrom(s, v);
          AppendAssoc(old(channel), SwitchFlows(s, i), HostFlows(s, v, |nodes|));
        }
      }
    }

    /** The port switch node `v` (whose Switch is `sw`) forwards traffic for node `h` on,
        None when `h` is not tagged "host", has no path, is `v` itself, or is behind a switch
        that no uplink port of `sw` leads to. `s` is the network as `path_recalc` reads it. */
    method RouteTo(ghost s: Snapshot, sw: Switch, v: Node, h: Node) returns (port: Option<Port>)
      requires Routable(s) && s.g == g && IsSwitch(g, v) && h in g.nodes
      requires s.tables[v.dpid] == sw.View()
      ensures port == if IsHost(g, h) then RouteFor(s, v, h) else None
    {
      port := None;
      if g.tp[h] == TpHost {
        var path := ShortestPath(g, v, h);
        if path.Some? && |path.value| > 1 {
          assert (path.value[0], path.value[1]) in g.edges;
          port := sw.PortTowards(path.value[1]);
        }
      }
    }

    /** The inner loop of `path_recalc` for the switch node `v`: its rule for every host, in
        node order. */
    method RoutesFrom(ghost s: Snapshot, v: Node)
      requires Routable(s) && s.g == g && IsSwitch(g, v)
      requires v.dpid in switches && switches[v.dpid].n == this && switches[v.dpid].dpid == v.dpid
      requires s.tables[v.dpid] == switches[v.dpid].View()
      modifies this`channel
      ensures channel == old(channel) + HostFlows(s, v, |g.nodes|)
    {
      var sw := switches[v.dpid];
      var nodes := g.nodes;
      for j := 0 to |nodes|
        invariant channel == old(channel) + HostFlows(s, v, j)
      {
        EmitRoute(s, sw, v, nodes[j]);
        AppendAssoc(old(channel), HostFlows(s, v, j), FlowTo(s, v, nodes[j]));
      }
    }

    /** The body of the inner loop of `path_recalc`: sends `sw` the rule for node `h`, if
        there is one. */
    method EmitRoute(ghost s: Snapshot, sw: Switch, v: Node, h: Node)
      requires Routable(s) && s.g == g && IsSwitch(g, v) && h in g.nodes
      requires s.tables[v.dpid] == sw.View() && sw.n == this && sw.dpid == v.dpid
      modifies this`channel
      ensures channel == old(channel) + FlowTo(s, v, h)
    {
      var port := RouteTo(s, sw, v, h);
      if port.Some? {
        sw.AddFlow(h, port.value);
      }
    }
  }

  /** After a step that changed at most the graph and the tables of `sw`, the tables of
      `sw`'s network are the old ones with `sw`'s entry replaced. */
  twostate lemma TablesUpdated(sw: Switch)
    requires old(sw.dpid in sw.n.switches) && old(sw.n.switches[sw.dpid]) == sw
    requires sw.n.switches == old(sw.n.switches)
    requires forall d :: d in sw.n.switches && d != sw.dpid ==>
      sw.n.switches[d].neighbourtable == old(sw.n.switches[d].neighbourtable)
    requires forall d :: d in sw.n.switches && d != sw.dpid ==>
      sw.n.switches[d].uplinkports == old(sw.n.switches[d].uplinkports)
    ensures sw.n.TableMap() == old(sw.n.TableMap())[sw.dpid := sw.View()]
    ensures sw.n.State() == Snapshot(sw.n.g, old(sw.n.State()).tables[sw.dpid := sw.View()])
  {
  }

  /** After `sw`, a Switch not yet registered, is entered in the registry and nothing else
      changed, the network is consistent and its tables gain `sw`'s entry. */
  twostate lemma Enrolled(sw: Switch)
    requires old(sw.n.Valid()) && old(sw.dpid !in sw.n.switches)
    requires sw.n.switches == old(sw.n.switches)[sw.dpid := sw] && sw.n.g == old(sw.n.g)
    requires sw.Valid()
    requires forall d :: d in old(sw.n.switches) ==> unchanged(old(sw.n.switches)[d])
    ensures sw.n.Valid()
    ensures sw.n.TableMap() == old(sw.n.TableMap())[sw.dpid := sw.View()]
  {
  }

  /** A link between port1 of switch dpid1 and port2 of switch dpid2. */
  datatype Link = Link(dpid1: Dpid, port1: Port, dpid2: Dpid, port2: Port)

  /** What a link event asks of the switch that handles it. */
  datatype UplinkChange =
    | AddUplink(port: Port, peer: Dpid, peerPort: Port)
    | RmUplink(port: Port, peer: Dpid)

  /** The choice `_handle_LinkEvent` makes for switch `self`: nothing when `self` is neither
      end; otherwise the local port is port1 when `self` is dpid1 and port2 when it is not. */
  function LinkChange(self: Dpid, l: Link, added: bool): (r: Option<UplinkChange>)
    ensures r.None? <==> self != l.dpid1 && self != l.dpid2
    ensures r.Some? ==> r.value.AddUplink? == added
  {
    if self != l.dpid1 && self != l.dpid2 then None
    else
      var (local, peer, peerPort) :=
        if l.dpid1 == self then (l.port1, l.dpid2, l.port2) else (l.port2, l.dpid1, l.port1);
      if added then Some(AddUplink(local, peer, peerPort)) else Some(RmUplink(local, peer))
  }

  /** The switch at either end takes its own port as the local one and the other end as the
      peer. */
  lemma LinkChangeEnds(self: Dpid, l: Link, added: bool)
    requires self == l.dpid1 || self == l.dpid2
    ensures var c := LinkChange(self, l, added).value;
      || (self == l.dpid1 && c.port == l.port1 && c.peer == l.dpid2)
      || (self == l.dpid2 && c.port == l.port2 && c.peer == l.dpid1)
    ensures var c := LinkChange(self, l, added).value;
      c.AddUplink? ==> c.peerPort == if l.dpid1 == self then l.port2 else l.port1
  {
  }

  /** The two ends of a link between different switches see mirror images of one event: each
      end's local port is the other's peer port, so both add (or both remove) the same
      undirected edge. */
  lemma LinkEndsMirror(l: Link, added: bool)
    requires l.dpid1 != l.dpid2
    ensures var a := LinkChange(l.dpid1, l, added).value;
            var b := LinkChange(l.dpid2, l, added).value;
            && a.port == l.port1 && a.peer == l.dpid2
            && b.port == l.port2 && b.peer == l.dpid1
            && (added ==> a.peerPort == b.port && b.peerPort == a.port)
  {
  }

  class SwitchHandler {
    const sw: Switch

    constructor (sw: Switch)
      ensures this.sw == sw
    {
      this.sw := sw;
    }

    /** A parsed packet's source is recorded as a host seen on its ingress port. */
    method HandlePacketIn(parsed: bool, src: Mac, inPort: Port)
      requires sw.Registered() && Wired(sw.n.State())
      modifies sw`neighbourtable, sw.n`g, sw.n`channel
      ensures sw.Registered() && Wired(sw.n.State())
      ensures !parsed ==> sw.n.g == old(sw.n.g) && sw.neighbourtable == old(sw.neighbourtable)
                          && sw.n.channel == old(sw.n.channel)
      ensures parsed ==> sw.n.State() == HostSeen(old(sw.n.State()), sw.dpid, src, inPort)
      ensures parsed ==> sw.n.channel == old(sw.n.channel)
                         + if Learns(old(sw.n.State()), sw.dpid, src, inPort) then Recalc.Recalc(sw.n.State()) else []
    {
      if !parsed {
        return;
      }
      sw.AddHost(src, inPort);
    }

    method HandleLinkEvent(l: Link, added: bool)
      requires sw.Registered() && Wired(sw.n.State())
      requires l.dpid1 in sw.n.switches && l.dpid2 in sw.n.switches
      modifies sw`uplinkports, sw.n`g, sw.n`channel
      ensures sw.Registered() && Wired(sw.n.State())
      ensures LinkChange(sw.dpid, l, added).None? ==>
        sw.uplinkports == old(sw.uplinkports) && sw.n.g == old(sw.n.g) && sw.n.channel == old(sw.n.channel)
      ensures LinkChange(sw.dpid, l, added).Some? ==>
        && Relinked(LinkChange(sw.dpid, l, added).value, old(sw.uplinkports), old(sw.n.g))
        && sw.n.channel == old(sw.n.channel) + Recalc.Recalc(sw.n.State())
    {
      if sw.dpid != l.dpid1 && sw.dpid != l.dpid2 {
        return;
      }
      Relink(l, added);
      sw.n.PathRecalc();
    }

    /** What the new uplink table and graph are after change `c` to a table `ups` and a
        graph `g`. */
    ghost predicate Relinked(c: UplinkChange, ups: seq<Uplink>, g: Graph)
      reads sw`uplinkports, sw.n`g
    {
      match c
      case AddUplink(port, peer, peerPort) =>
        sw.uplinkports == Put(ups, port, peer)
        && sw.n.g == AddEdge(g, Sw(sw.dpid), Sw(peer), LinkPorts(port, Some(peerPort)))
      case RmUplink(port, peer) =>
        sw.uplinkports == Pop(ups, port) && sw.n.g == Unlinked(g, Sw(sw.dpid), Sw(peer))
    }

    /** The uplink bookkeeping of `_handle_LinkEvent` for a link this switch is an end of. */
    method Relink(l: Link, added: bool)
      requires sw.Registered() && Wired(sw.n.State())
      requires l.dpid1 in sw.n.switches && l.dpid2 in sw.n.switches
      requires sw.dpid == l.dpid1 || sw.dpid == l.dpid2
      modifies sw`uplinkports, sw.n`g
      ensures sw.Registered() && Wired(sw.n.State())
      ensures Relinked(LinkChange(sw.dpid, l, added).value, old(sw.uplinkports), old(sw.n.g))
    {
      if added {
        if l.dpid1 == sw.dpid {
          sw.AddUplink(l.port1, l.dpid2, Some(l.port2));
        } else {
          sw.AddUplink(l.port2, l.dpid1, Some(l.port1));
        }
      } else {
        if l.dpid1 == sw.dpid {
          sw.RmUplink(l.port1, l.dpid2);
        } else {
          sw.RmUplink(l.port2, l.dpid1);
        }
      }
    }
  }

  /** The new-switch branch of the connection-up handler: a Switch with empty tables, a node
      tagged "switch" and a registry entry. */
  method Enrol(net: SPFNetwork, dpid: Dpid, connection: nat) returns (sw: Switch)
    requires net.Valid() && dpid !in net.switches
    modifies net`g, net`switches
    ensures net.Valid() && fresh(sw)
    ensures sw.dpid == dpid && sw.connection == connection && sw.n == net
    ensures net.switches == old(net.switches)[dpid := sw]
    ensures net.g == AddNode(old(net.g), Sw(dpid), TpSwitch)
    ensures net.TableMap() == old(net.TableMap())[dpid := Tables(map[], [])]
  {
    sw := new Switch(dpid, connection, net);
    net.AddSwitch(Sw(dpid));
    label Before:
    net.switches := net.switches[dpid := sw];
    Enrolled@Before(sw);
  }

  /** The connection-up handler of `launch`: a new dpid gets a Switch, a node tagged "switch"
      and a registry entry; a known one only gets the new connection. Either way a handler
      is attached. */
  method StartSwitch(net: SPFNetwork, dpid: Dpid, connection: nat) returns (h: SwitchHandler)
    requires net.Valid()
    modifies net`g, net`switches, if dpid in net.switches then {net.switches[dpid]} else {}
    ensures h.sw.Registered() && h.sw.n == net && h.sw.dpid == dpid && h.sw.connection == connection
    ensures net.State() == Connected(old(net.State()), dpid)
    ensures old(dpid in net.switches) ==> h.sw == old(net.switches[dpid]) && net.switches == old(net.switches)
    ensures old(dpid !in net.switches) ==> fresh(h.sw) && net.switches == old(net.switches)[dpid := h.sw]
  {
    var sw: Switch;
    ghost var s := net.State();
    if dpid !in net.switches {
      sw := Enrol(net, dpid, connection);
    } else {
      sw := net.switches[dpid];
      sw.connection := connection;
    }
    h := new SwitchHandler(sw);
  }
}
