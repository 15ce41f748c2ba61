/**
 A switch's `uplinkports` dictionary (local port to neighbouring datapath id). A
 Python dict iterates in insertion order, and `path_recalc` takes the FIRST port
 bound to a neighbour, so the table is kept as a sequence of entries in that order.
 */
module Uplinks {
  import opened Topology

  datatype Uplink = Uplink(port: Port, peer: Dpid)

  function PortsOf(s: seq<Uplink>): set<Port> {
    set u | u in s :: u.port
  }

  /** A dict has at most one entry per key. */
  predicate UniquePorts(s: seq<Uplink>) {
    forall i, j :: 0 <= i < j < |s| ==> s[i].port != s[j].port
  }

  lemma Cons(u: Uplink, s: seq<Uplink>)
    ensures ([u] + s)[0] == u && ([u] + s)[1..] == s
    ensures PortsOf([u] + s) == {u.port} + PortsOf(s)
    ensures UniquePorts([u] + s) <==> UniquePorts(s) && u.port !in PortsOf(s)
  {
    var t := [u] + s;
    assert forall x :: x in t <==> x == u || x in s;
    if UniquePorts(t) {
      forall i, j | 0 <= i < j < |s| ensures s[i].port != s[j].port {
        assert s[i] == t[i + 1] && s[j] == t[j + 1];
      }
      forall x | x in s ensures x.port != u.port {
        var k :| 0 <= k < |s| && s[k] == x;
        assert t[0] == u && t[k + 1] == x;
      }
    }
    if UniquePorts(s) && u.port !in PortsOf(s) {
      forall i, j | 0 <= i < j < |t| ensures t[i].port != t[j].port {
        if i > 0 {
          assert t[i] == s[i - 1] && t[j] == s[j - 1];
        } else {
          assert t[j] == s[j - 1];
          assert t[j] in s;
        }
      }
    }
  }

  /** `uplinkports.get(port)`. */
  function Lookup(s: seq<Uplink>, port: Port): (r: Option<Dpid>)
    ensures r.None? <==> port !in PortsOf(s)
    ensures r.Some? ==> Uplink(port, r.value) in s
  {
    if s == [] then None
    else if s[0].port == port then Some(s[0].peer)
    else Lookup(s[1..], port)
  }

  /** `uplinkports[port] = peer`: an existing key keeps its place, a new one goes last. */
  function Put(s: seq<Uplink>, port: Port, peer: Dpid): (r: seq<Uplink>)
    ensures PortsOf(r) == PortsOf(s) + {port}
    ensures UniquePorts(s) ==> UniquePorts(r)
  {
    if s == [] then [Uplink(port, peer)]
    else
      Cons(s[0], s[1..]);
      assert s == [s[0]] + s[1..];
      if s[0].port == port then
        Cons(Uplink(port, peer), s[1..]);
        [Uplink(port, peer)] + s[1..]
      else
        var rest := Put(s[1..], port, peer);
        Cons(s[0], rest);
        [s[0]] + rest
  }

  /** After `uplinkports[port] = peer`, `port` maps to `peer` and every other key keeps its
      neighbour (or its absence). */
  lemma {:induction false} PutLookup(s: seq<Uplink>, port: Port, peer: Dpid, q: Port)
    ensures Lookup(Put(s, port, peer), q) == if q == port then Some(peer) else Lookup(s, q)
  {
    if s != [] {
      var r := Put(s, port, peer);
      if s[0].port == port {
        Cons(Uplink(port, peer), s[1..]);
        if q != port {
          LookupAfterHead(s, port, q);
        }
      } else {
        PutLookup(s[1..], port, peer, q);
        Cons(s[0], Put(s[1..], port, peer));
      }
    }
  }

  /** Replacing the head entry of key `port` does not change the lookup of another key. */
  lemma LookupAfterHead(s: seq<Uplink>, port: Port, q: Port)
    requires s != [] && s[0].port == port && q != port
    ensures Lookup(s, q) == Lookup(s[1..], q)
  {
  }

  /** Overwriting a key keeps every entry in its place; a new key is appended. */
  lemma {:induction false} PutKeepsOrder(s: seq<Uplink>, port: Port, peer: Dpid)
    ensures port in PortsOf(s) ==> |Put(s, port, peer)| == |s|
    ensures port in PortsOf(s) ==> forall i :: 0 <= i < |s| && s[i].port != port ==> Put(s, port, peer)[i] == s[i]
    ensures port !in PortsOf(s) ==> Put(s, port, peer) == s + [Uplink(port, peer)]
  {
    if s != [] {
      Cons(s[0], s[1..]);
      assert s == [s[0]] + s[1..];
      if s[0].port != port {
        PutKeepsOrder(s[1..], port, peer);
        var rest := Put(s[1..], port, peer);
        var r := [s[0]] + rest;
        assert Put(s, port, peer) == r;
        if port in PortsOf(s) {
          forall i | 0 <= i < |s| && s[i].port != port ensures r[i] == s[i] {
            if i > 0 {
              assert r[i] == rest[i - 1] && s[i] == s[1..][i - 1];
            }
          }
        } else {
          assert r == s + [Uplink(port, peer)];
        }
      }
    }
  }

  /** `uplinkports.pop(port)` with the KeyError swallowed: the entry goes, the rest keep
      their order, and an absent key leaves the table as it was. */
  function Pop(s: seq<Uplink>, port: Port): (r: seq<Uplink>)
    ensures PortsOf(r) == PortsOf(s) - {port}
    ensures UniquePorts(s) ==> UniquePorts(r)
    ensures port !in PortsOf(s) ==> r == s
  {
    if s == [] then []
    else
      Cons(s[0], s[1..]);
      assert s == [s[0]] + s[1..];
      if s[0].port == port then Pop(s[1..], port)
      else
        var rest := Pop(s[1..], port);
        Cons(s[0], rest);
        [s[0]] + rest
  }

  /** After `uplinkports.pop(port)`, `port` has no neighbour and every other key keeps its
      neighbour (or its absence). */
  lemma {:induction false} PopLookup(s: seq<Uplink>, port: Port, q: Port)
    ensures Lookup(Pop(s, port), q) == if q == port then None else Lookup(s, q)
  {
    if s != [] {
      PopLookup(s[1..], port, q);
      if s[0].port != port {
        Cons(s[0], Pop(s[1..], port));
      }
    }
  }

  /** Popping the key of the first entry drops that entry. */
  lemma PopHead(s: seq<Uplink>, port: Port)
    requires UniquePorts(s) && s != [] && s[0].port == port
    ensures Pop(s, port) == s[1..]
  {
    Cons(s[0], s[1..]);
    assert s == [s[0]] + s[1..];
  }

  /** The entries after the first still have distinct keys. */
  lemma UniqueTail(s: seq<Uplink>)
    requires UniquePorts(s) && s != []
    ensures UniquePorts(s[1..])
  {
    forall i, j | 0 <= i < j < |s| - 1 ensures s[1..][i].port != s[1..][j].port {
      assert s[1..][i] == s[i + 1] && s[1..][j] == s[j + 1];
    }
  }

  /** Popping another key keeps the first entry in front. */
  lemma PopOther(s: seq<Uplink>, port: Port)
    requires s != [] && s[0].port != port
    ensures Pop(s, port) == [s[0]] + Pop(s[1..], port)
  {
  }

  /** Popping the key of entry `i` drops exactly that entry; the others keep their order, so
      the first uplink port to each neighbour is still found in insertion order. */
  lemma {:induction false} PopKeepsOrder(s: seq<Uplink>, port: Port, i: nat)
    requires UniquePorts(s) && i < |s| && s[i].port == port
    ensures Pop(s, port) == s[..i] + s[i + 1..]
  {
    if i == 0 {
      PopHead(s, port);
    } else {
      assert s[0].port != s[i].port;
      PopOther(s, port);
      UniqueTail(s);
      PopKeepsOrder(s[1..], port, i - 1);
      assert s[..i] == [s[0]] + s[1..][..i - 1];
      assert s[i + 1..] == s[1..][i..];
    }
  }

  /** The index of the first entry whose neighbour is `peer`, |s| when there is none. */
  function FirstIndexTo(s: seq<Uplink>, peer: Dpid): (k: nat)
    ensures k <= |s|
    ensures forall j :: 0 <= j < k ==> s[j].peer != peer
    ensures k < |s| ==> s[k].peer == peer
  {
    if s == [] then 0
    else if s[0].peer == peer then 0
    else 1 + FirstIndexTo(s[1..], peer)
  }

  /** The first uplink port (in insertion order) whose neighbour is `peer`, if any. */
  function FirstUplinkTo(s: seq<Uplink>, peer: Dpid): (r: Option<Port>)
    ensures r.None? <==> forall u :: u in s ==> u.peer != peer
    ensures r.Some? ==> exists i :: 0 <= i < |s| && s[i] == Uplink(r.value, peer)
                                    && forall j :: 0 <= j < i ==> s[j].peer != peer
  {
    var k := FirstIndexTo(s, peer);
    if k < |s| then Some(s[k].port) else None
  }
}
