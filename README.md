# Shortest-path SDN controller: topology store, switch bookkeeping and route computation

This project models, in Dafny, the core of the single-controller POX component
`spf_network.py` of the sdn_poc repository. The controller does four things:

- It keeps the network topology in one undirected networkx graph `G`. Switches are keyed by
  datapath id (dpid), hosts by Ethernet address, and each node carries a `tp` attribute.
- Per switch it keeps `neighbourtable` (host to ingress port) and `uplinkports` (local port
  to neighbouring dpid). Packet-in and link events update them through `Switch`.
- After a new host binding and after every link event, `path_recalc` walks every
  (switch, host) pair. For each pair with a path it sends the switch an add-flow rule for
  the next hop of a minimum-hop path.
- `launch.start_switch` registers a connecting switch, or gives a known one its new
  connection.

Modules:

- `Topology`: the graph as a value. The node sequence keeps networkx insertion order, `tp`
  is a map, and each undirected edge is stored in both orientations under one `ports`
  label. It defines `add_node`, `add_edge`, `remove_edge` and `remove_node` with the
  networkx error cases, and proves that they keep the graph well-formed.
- `Routes`: hop-count shortest paths, proved against the plain definition of a walk and of
  a walk no longer than any other.
- `Uplinks`: the `uplinkports` dict as an insertion-ordered entry sequence. It provides
  assignment, `pop` with `KeyError` swallowed, and the "first uplink port to a switch"
  search.
- `Recalc`: a snapshot of what `path_recalc` reads and the rules it emits, in order. It
  holds the lemmas saying which rules those are. It also defines two invariants:
  - `Routable`: no lookup in `path_recalc` can raise `KeyError`;
  - `Wired`: the stronger invariant the event handlers keep.
- `Controller`: the imperative layer, as classes whose fields are updated in place:
  - `Switch`, `SPFNetwork` and `SwitchHandler`;
  - `StartSwitch`, the connection-up handler.

  `SPFNetwork` holds what the module keeps in globals (`G`, `switches`). It also holds
  `channel`, the sequence of rule intents sent to the switches. Each method is proved
  against the value functions above: `State()` is tied to `HostSeen`, `Connected` and
  `Recalc`, and the lemmas about those functions carry the properties.

Three behaviours of the source to note:

- Removing an absent switch or host lets networkx's `NetworkXError` escape from
  `rm_switch`/`rm_host` (`spf_network.py:143-149`). The model returns `ok == false` and
  leaves the graph as it was.
- A packet from a host already bound on the switch still re-tags the host node and, unless
  the port is an uplink, re-labels the host edge. The edge is added first and the binding
  second (`spf_network.py:37-42`).
- Routes are recomputed only when `add_host` learns a new binding (`spf_network.py:41-43`)
  and after every link event (`spf_network.py:122`). `SPFNetwork`'s own add/remove
  operations do not trigger a recomputation.

## Model

| member | source | states |
|---|---|---|
| Topology.WithNode | spf_network.py:139-141 | the node `add_edge` creates for a missing endpoint: the node set gains `v`, the old order is a prefix, and attributes and edges are unchanged |
| Topology.AddNode | spf_network.py:131-137 | `G.add_node(v, tp=t)`: the nodes become the old nodes plus `v`, with the old order kept as a prefix; `tp[v]` is (re)set to `t`; the edges are unchanged |
| Topology.AddNodeWellFormed | spf_network.py:131-137 | adding a node keeps the graph well-formed: nodes are distinct, and attributes and edges mention only nodes with both orientations labelled alike |
| Topology.AddNodePresent | spf_network.py:131-137 | adding a node that is already present changes neither the node sequence nor the edges, and adding it twice equals adding it once |
| Topology.AddEdge | spf_network.py:139-141 | `G.add_edge(u, v, ports=p)`: a missing endpoint is added without a `tp`; both orientations are labelled `p`, which overwrites an old label; every other edge and its label is kept; the old node order is a prefix |
| Topology.AddEdgeWellFormed | spf_network.py:139-141 | adding an edge keeps the graph well-formed |
| Topology.AddEdgePresent | spf_network.py:139-141 | re-adding an existing edge leaves the nodes and the edge set as they were, and adding it twice equals adding it once |
| Topology.AddEdgeEitherEnd | spf_network.py:139-141 | an edge added from either end gives the same edges, attributes and node set |
| Topology.RemoveEdge | spf_network.py:153 | `G.remove_edge(u, v)` fails (None) exactly when the edge is absent; otherwise both orientations go and the nodes and attributes stay |
| Topology.Unlinked | spf_network.py:151-162 | the reference meaning of removing the undirected edge {a, b}: the nodes and attributes stay, the edges are the old ones except both orientations of {a, b}, each with its old label |
| Topology.UnlinkedWellFormed | spf_network.py:151-162 | removing an undirected edge keeps the graph well-formed |
| Topology.UnlinkedSymmetric | spf_network.py:151-162 | removing {a, b} is the same whichever end is named first, and removing an absent edge leaves the graph unchanged |
| Topology.Without | spf_network.py:144 | the node sequence minus `v` holds exactly the other nodes and stays duplicate-free |
| Topology.WithoutKeepsOrder | spf_network.py:144 | taking out the node at position `i` of a duplicate-free sequence drops exactly that position; the other nodes keep their insertion order |
| Topology.RemoveNode | spf_network.py:143-149 | `G.remove_node(v)` fails (None) exactly when `v` is absent; otherwise the node goes from the sequence and from `tp`, with every edge touching it, and all else stays |
| Topology.RemoveNodeWellFormed | spf_network.py:143-149 | removing a node keeps the graph well-formed |
| Topology.DistinctPairwise | spf_network.py:131-141 | the node-uniqueness invariant equals "no two positions hold the same node" |
| Routes.Hops | spf_network.py:172 | the hop distance of the breadth-first levels: when found it is at most the number of nodes and `s` lies on that level and not below; otherwise `s` is on no level up to the number of nodes |
| Routes.NextHop | spf_network.py:172 | the next hop down the levels is adjacent to `s` and lies exactly one level closer to `h` |
| Routes.ShortestPath | spf_network.py:172-174 | `nx.shortest_path(G, s, h)`: when it succeeds, the result is a walk along edges from `s` to `h` |
| Routes.ShortestPathCorrect | spf_network.py:172-174 | the search fails (`NetworkXNoPath`) exactly when no walk from `s` to `h` exists; the path it returns is no longer than any walk from `s` to `h` |
| Routes.ShortestSuffix | spf_network.py:176-186 | on a shortest path the next hop `path[1]` is adjacent to the source, and the rest of the path is a shortest path from it |
| Routes.Trace | spf_network.py:172 | the path built level by level has the hop distance's length and is a walk from `s` to `h` |
| Uplinks.Lookup | spf_network.py:33 | a port has no neighbour exactly when it is not a key; an entry it maps to is in the table |
| Uplinks.Put | spf_network.py:46 | `uplinkports[port] = sw_dpid`: the keys gain `port`, and a table without repeated keys stays so |
| Uplinks.PutLookup | spf_network.py:46 | after the assignment `port` maps to the new neighbour, and every other key keeps its neighbour or its absence |
| Uplinks.PutKeepsOrder | spf_network.py:46 | overwriting a key keeps every entry in its place; a new key is appended at the end (dict insertion order) |
| Uplinks.Pop | spf_network.py:50-53 | `uplinkports.pop(port)` with `KeyError` swallowed: the key goes, no repeated keys appear, and an absent key leaves the table unchanged |
| Uplinks.PopKeepsOrder | spf_network.py:50-53 | popping the key of entry `i` drops exactly that entry; the other entries keep their insertion order, which `path_recalc`'s first-port search reads |
| Uplinks.PopLookup | spf_network.py:50-53 | after the pop `port` has no neighbour, and every other key keeps its neighbour or its absence |
| Uplinks.FirstUplinkTo | spf_network.py:181-186 | the search finds nothing exactly when no entry leads to `peer`; otherwise it returns the port of the first entry (in insertion order) leading to `peer` |
| Recalc.PortFor | spf_network.py:176-186 | for a host next hop, the port is its `neighbourtable` entry; for a switch next hop, there is no port exactly when no uplink entry leads to it, and otherwise the port is that of the first entry (in insertion order) leading to it |
| Recalc.RouteFor | spf_network.py:170-186 | a switch has a port for a node only when the node is another node that it can reach along edges |
| Recalc.FlowTo | spf_network.py:170-186 | one inner-loop step sends at most one rule, only for a node tagged "host", and it is an add-flow of this switch towards that node |
| Recalc.HostFlows | spf_network.py:169-186 | the inner loop over the first `k` nodes sends at most `k` rules |
| Recalc.SwitchFlows | spf_network.py:165-186 | the outer loop over the first `k` nodes sends at most `k` times the node count rules |
| Recalc.Recalc | spf_network.py:164-187 | one call of `path_recalc` sends at most the square of the node count rules; which rules they are is stated by RecalcContent and RecalcOnePerPair |
| Recalc.RecalcContent | spf_network.py:164-187 | `path_recalc` sends switch `d` an add-flow for `h` out of `port` exactly when `Sw(d)` is tagged "switch", `h` is tagged "host", and the route from `d` to `h` leaves through `port` |
| Recalc.RecalcOnePerPair | spf_network.py:164-187 | `path_recalc` sends only add-flow rules, and at most one per (switch, host) pair |
| Recalc.RouteMeaning | spf_network.py:171-186 | no rule when the host is unreachable; otherwise the path is a shortest walk and the next hop is adjacent and on a minimum-hop path; the port is the host's `neighbourtable` entry, or the first uplink port to the next switch; there is no rule when no uplink port leads to that switch |
| Recalc.SwitchFlowsContent | spf_network.py:165-168 | after the first `k` nodes the outer loop has sent a rule for switch `d` exactly when `Sw(d)` is among them, is tagged "switch", and its inner loop sends that rule |
| Recalc.HostFlowsContent | spf_network.py:169-186 | after the first `k` nodes the inner loop for `v` has sent the add-flow towards `dst` out of `port` exactly when `dst` is among those nodes, is tagged "host", and its route leaves through `port` |
| Recalc.HostFlowsPairs | spf_network.py:169-186 | the inner loop sends only add-flows, with pairwise distinct destinations |
| Recalc.SwitchFlowsPairs | spf_network.py:165-186 | the outer loop sends only add-flows, with at most one per (switch, destination) pair |
| Recalc.HostFlowsOwner | spf_network.py:169-186 | every rule of the inner loop for `v` is an add-flow of `v` towards a node visited so far |
| Recalc.SwitchFlowsOwner | spf_network.py:165-186 | every rule of the outer loop belongs to a switch visited so far |
| Recalc.FlowToHas | spf_network.py:170-186 | the single step for node `h` sends the add-flow out of `port` exactly when `h` is tagged "host" and its route leaves through `port` |
| Recalc.HostSeen | spf_network.py:35-43 | the state after `add_host`: the registry keeps the same switches; its full effect is stated by HostSeenEffect |
| Recalc.Learns | spf_network.py:39-41 | `add_host` learns exactly when the host had no binding on this switch and has one after `add_host` |
| Recalc.HostSeenEffect | spf_network.py:35-43 | after `add_host` the host node is tagged "host", other switches' tables and this switch's uplinks are unchanged; on an uplink port nothing else changes; otherwise the host edge is labelled with `port`, and a new host is bound to `port` while an existing binding is kept |
| Recalc.HostSeenKeepsWired | spf_network.py:35-43 | `add_host` keeps `Wired`, so the following `path_recalc` cannot raise `KeyError` |
| Recalc.HostNodeKeepsWired | spf_network.py:37 | a host seen on an uplink port only adds the host node, which keeps `Wired` |
| Recalc.HostEdgeKeepsWired | spf_network.py:40-42 | the host edge plus the binding (unless already bound) keeps `Wired` |
| Recalc.HostLinkKeepsWired | spf_network.py:37-42 | a host seen on a non-uplink port (node, edge, binding) keeps `Wired` |
| Recalc.UplinkKeepsWired | spf_network.py:45-47 | an uplink to a registered switch keeps `Wired` |
| Recalc.UnlinkKeepsWired | spf_network.py:49-54 | removing an uplink keeps `Wired` |
| Recalc.Connected | spf_network.py:224-232 | after `start_switch` the dpid is registered and every switch registered before keeps its tables |
| Recalc.ConnectedKeepsWired | spf_network.py:222-234 | `start_switch` keeps `Wired` |
| Recalc.RegisterKeepsWired | spf_network.py:227-229 | registering a new switch with empty tables and a "switch" node keeps `Wired` |
| Controller.Switch.constructor | spf_network.py:27-33 | a fresh switch has the given dpid, connection and network, and empty `neighbourtable` and `uplinkports` |
| Controller.Switch.AddHost | spf_network.py:35-43 | keeps the switch registered and the network `Wired`; the new network state is `HostSeen` of the old one; `path_recalc`'s rules are sent exactly when a new binding was learned |
| Controller.Switch.Record | spf_network.py:37-42 | the graph and table updates of `add_host` give `HostSeen`; `learned` is true exactly when the port is not an uplink port and the host had no binding |
| Controller.Switch.LinkHost | spf_network.py:39-42 | the host edge is added with label `port`; the host is bound to `port` exactly when it was unbound; only this switch's tables change |
| Controller.Switch.Recompute | spf_network.py:41-43 | sends `path_recalc`'s rules when a binding was learned, nothing otherwise |
| Controller.Switch.AddUplink | spf_network.py:45-47 | `uplinkports` becomes the assignment of `port`; the graph gains the uplink labelled "port:sw_port"; `Wired` is kept when the peer is registered |
| Controller.Switch.RmUplink | spf_network.py:49-54 | `uplinkports` becomes the pop of `port`; the link to the peer is removed in either orientation; `Wired` is kept |
| Controller.Switch.AddFlow | spf_network.py:56-61 | appends an add-flow intent (this dpid, destination, output port) to the channel |
| Controller.Switch.RmFlow | spf_network.py:63-68 | appends a delete-flow intent (this dpid, destination, output port) to the channel |
| Controller.Switch.ClearFlowtable | spf_network.py:70-73 | appends a delete-all intent for this dpid to the channel |
| Controller.Switch.PortTowards | spf_network.py:176-186 | the port `path_recalc` picks for the next hop agrees with `PortFor` on this switch's tables |
| Controller.Switch.UplinkPortTo | spf_network.py:181-186 | the loop over `uplinkports.items()` returns the port of the first entry leading to `peer`, and None exactly when no entry does |
| Controller.SPFNetwork.constructor | spf_network.py:22-23 | a new network has the empty graph, no switches and an empty channel, and is `Wired` |
| Controller.SPFNetwork.AddSwitch | spf_network.py:131-133 | the graph becomes `AddNode(g, id, "switch")`; it stays well-formed; the tables are untouched |
| Controller.SPFNetwork.AddHost | spf_network.py:135-137 | the graph becomes `AddNode(g, id, "host")`; it stays well-formed; the tables are untouched |
| Controller.SPFNetwork.AddLink | spf_network.py:139-141 | the graph becomes `AddEdge(g, from, to, ports)`; it stays well-formed; the tables are untouched |
| Controller.SPFNetwork.RmSwitch | spf_network.py:143-145 | succeeds exactly when the node exists and then removes it with its edges; otherwise the graph is unchanged |
| Controller.SPFNetwork.RmHost | spf_network.py:147-149 | succeeds exactly when the node exists and then removes it with its edges; otherwise the graph is unchanged |
| Controller.SPFNetwork.RmLink | spf_network.py:151-162 | trying both orientations removes the undirected edge {from, to}; an absent edge leaves the graph unchanged; well-formedness is kept |
| Controller.SPFNetwork.PathRecalc | spf_network.py:164-187 | changes nothing but the channel, and appends exactly `Recalc(State())` to it |
| Controller.SPFNetwork.RoutesFrom | spf_network.py:169-186 | the inner loop for switch node `v` appends its rules for every host, in node order |
| Controller.SPFNetwork.EmitRoute | spf_network.py:170-186 | one inner-loop step appends the rule for node `h`, if there is one |
| Controller.SPFNetwork.RouteTo | spf_network.py:170-186 | the port chosen for node `h` is the route's port when `h` is tagged "host", and None otherwise |
| Controller.LinkChange | spf_network.py:104-119 | a link event is ignored exactly when this switch is neither end; otherwise it is an add exactly when the link came up |
| Controller.LinkChangeEnds | spf_network.py:108-119 | the local port is `port1` (peer `dpid2`) when this switch is `dpid1`, and `port2` (peer `dpid1`) otherwise; an added link records the peer's port |
| Controller.LinkEndsMirror | spf_network.py:108-119 | the two ends of a link see mirror images of one event: each end's local port is the other end's peer port |
| Controller.SwitchHandler.constructor | spf_network.py:81-84 | the handler wraps the given switch |
| Controller.SwitchHandler.HandlePacketIn | spf_network.py:86-97 | an unparsed packet changes nothing; a parsed one has the effect of `add_host(src, in_port)`; `Wired` is kept |
| Controller.SwitchHandler.HandleLinkEvent | spf_network.py:99-123 | ignored when this switch is neither end; otherwise the uplink table and graph change as `LinkChange` says, and `path_recalc`'s rules for the new state are sent; `Wired` is kept |
| Controller.SwitchHandler.Relink | spf_network.py:108-119 | applies `add_uplink` or `rm_uplink` with the local port and peer `LinkChange` picks; `Wired` is kept |
| Controller.Enrol | spf_network.py:226-229 | a new switch gets a fresh `Switch` with empty tables, a node tagged "switch" and a registry entry |
| Controller.StartSwitch | spf_network.py:222-234 | the network state becomes `Connected(old state, dpid)`; a known dpid keeps its `Switch` and gets the new connection; a new one gets a fresh registered `Switch` |

## Left out

- Drawing: `redraw` (matplotlib), `colormap`, `plt.ion()` and the PNG file are left out. They only display the graph.
- The stdin loop `SPFNetwork.run` is left out. It is a manual test driver, not part of the controller.
- Logging and the `print(e)` calls in `rm_link` are left out. They have no effect on state.
- OpenFlow messages are not built: `ofp_flow_mod` and `connection.send` become the intents `AddFlow`, `DeleteFlow` and `ClearFlows`, appended to `SPFNetwork.channel`.
- The connection object is an opaque `nat` handle. Sending on it is the append to `channel`.
- POX event plumbing is left out: `addListeners`, `addListenerByName` and `core` lookups. The handlers take the event's fields as parameters. Packet parsing is reduced to the `parsed` flag, the source address and the ingress port.
- The `flow_table` field is left out. It is initialised and never read or written.
- The edge label string `"{port}:{sw_port}"` is the datatype `LinkPorts(local, remote)`. The default `sw_port=None` is `remote == None`.
- Deciding whether a node is a host with `isinstance(path[1], EthAddr)` is the `Host` constructor of `Node`.
- Datapath ids and ports are unbounded naturals. The core does no arithmetic on them, so widths do not matter.
- The `assert(l.dpid1 in switches)` and `assert(l.dpid2 in switches)` of `_handle_LinkEvent` are preconditions of `HandleLinkEvent`. The source fails with `AssertionError` otherwise.
- Controller.SPFNetwork.PathRecalc: requires `Routable` rather than modelling a `KeyError` escaping part-way through. Routable holds when every node has a `tp`, every "switch" node is registered, and every host next to a switch is in its `neighbourtable`. The handlers keep the stronger `Wired`, so in the event-driven controller the `KeyError` never happens.
- Routes.ShortestPath: when several next hops lie on minimum-hop paths, it picks a fixed one: the first neighbour in node order that is one hop closer. networkx's bidirectional search may return another shortest path. Every property stated holds for any shortest path; only the choice among equal-length ones is not modelled.
- Recalc.RouteFor: inherits that tie-break from Routes.ShortestPath, so the exact port chosen when two minimum-hop next hops exist is not modelled.
- Controller.StartSwitch: its contract gives the new state as `Connected`. That this keeps `Wired` is the separate lemma `Recalc.ConnectedKeepsWired`.
- Controller.SPFNetwork.RmSwitch: keeps the graph well-formed but not `Wired`. Removing a registered switch's node leaves its registry entry without a node, as in the source. The event handlers never call it.
- Controller.SPFNetwork.RmHost: keeps the graph well-formed but not `Wired`, for the same reason as `rm_switch`.
- The handler objects themselves and listener de-registration are left out. A `SwitchHandler` is created per connection and kept by POX.
- pyre_loop.py (the distributed gossip loop) and spftopo.py (the Mininet topology) are not part of this model.
