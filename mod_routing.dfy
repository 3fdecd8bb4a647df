/** `ns3::ModRouting`, the IPv4 routing protocol installed on each node.
    Its per-packet decisions are fixed-order dispatches that consult the
    shared `ModRoutingTable`; the ns-3 callbacks they would invoke are
    returned as an outcome value instead. */
module Routing {
  import opened Types
  import opened RoutingTable
  import RangeGraph
  import HopCount

  /** The fields of `Ipv4Header` that routing reads. */
  datatype Header = Header(source: Ipv4Address, destination: Ipv4Address)

  /** `Ipv4InterfaceAddress`: the local address and the subnet broadcast
      address of an interface. */
  datatype InterfaceAddress = InterfaceAddress(local: Ipv4Address, broadcast: Ipv4Address)

  /** `Ipv4Route`; the output device `m_ipv4->GetNetDevice (iface)` is
      identified by its interface index. */
  datatype Route = Route(gateway: Ipv4Address, source: Ipv4Address, destination: Ipv4Address, outputIface: U32)

  /** Which callback `RouteInput` invokes, with its arguments: the local
      delivery callback with the inbound interface, none at all for a
      broadcast, or the unicast forward callback with a route. */
  datatype InputOutcome =
    | LocalDeliver(iface: int)
    | BroadcastAccepted
    | UnicastForward(route: Route)

  /** `Socket::SocketErrno`, of which `RouteOutput` only ever sets one. */
  datatype SocketErrno = ErrorNotError

  class ModRouting {
    var ipv4: Handle
    var rtable: ModRoutingTable?
    var ifaceId: U32
    var address: Ipv4Address
    var broadcast: Ipv4Address

    constructor ()
      ensures rtable == null
    {
      rtable := null;
    }

    /** What the lookup of `dst` from this node needs from the table, and
        the current node distances it compares against the range. */
    ghost predicate CanRoute(dst: Ipv4Address, now: seq<seq<real>>)
      reads this, rtable
      reads if rtable == null then {} else {rtable.modNext, rtable.modDist}
    {
      rtable != null && rtable.CanLookup(address, dst, now)
    }

    /** The three-way dispatch on the destination, local address first:
        a packet for this node is delivered locally on the interface it
        arrived on; a broadcast is accepted with no callback; anything
        else is forwarded once, through this node's interface, to the
        relay the table gives, even when that relay is the node's own
        address ("no route", which is only logged). Every path accepts
        the packet. */
    method RouteInput(h: Header, inIface: int, now: seq<seq<real>>) returns (accepted: bool, outcome: InputOutcome)
      requires h.destination != address && h.destination != broadcast ==> CanRoute(h.destination, now)
      ensures accepted
      ensures outcome.LocalDeliver? <==> h.destination == address
      ensures outcome.BroadcastAccepted? <==> h.destination != address && h.destination == broadcast
      ensures outcome.LocalDeliver? ==> outcome.iface == inIface
      ensures outcome.UnicastForward? ==>
        outcome.route == Route(rtable.Relay(address, h.destination, now), h.source, h.destination, ifaceId)
    {
      if h.destination == address {
        return true, LocalDeliver(inIface);
      } else if h.destination == broadcast {
        return true, BroadcastAccepted;
      } else {
        var relay := rtable.LookupRoute(address, h.destination, now);
        var route := Route(relay, h.source, h.destination, ifaceId);
        return true, UnicastForward(route);
      }
    }

    /** The route for a locally originated packet: from this node's own
        address to the header's destination through the relay the table
        gives (the node's own address when there is none); no error is
        ever reported. */
    method RouteOutput(h: Header, now: seq<seq<real>>) returns (route: Route, sockerr: SocketErrno)
      requires CanRoute(h.destination, now)
      ensures route == Route(rtable.Relay(address, h.destination, now), address, h.destination, ifaceId)
      ensures sockerr == ErrorNotError
    {
      var relay := rtable.LookupRoute(address, h.destination, now);
      route := Route(relay, address, h.destination, ifaceId);
      sockerr := ErrorNotError;
    }

    method NotifyInterfaceUp(iface: U32)
      ensures unchanged(this)
    {
    }

    method NotifyInterfaceDown(iface: U32)
      ensures unchanged(this)
    {
    }

    /** The interface and its addresses become this node's. */
    method NotifyAddAddress(iface: U32, addr: InterfaceAddress)
      modifies this`ifaceId, this`address, this`broadcast
      ensures ifaceId == iface && address == addr.local && broadcast == addr.broadcast
    {
      ifaceId := iface;
      address := addr.local;
      broadcast := addr.broadcast;
    }

    method NotifyRemoveAddress(iface: U32, addr: InterfaceAddress)
      ensures unchanged(this)
    {
    }

    method SetIpv4(p: Handle)
      modifies this`ipv4
      ensures ipv4 == p
    {
      ipv4 := p;
    }

    method SetRtable(p: ModRoutingTable?)
      modifies this`rtable
      ensures rtable == p
    {
      rtable := p;
    }
  }

  /** A forwarded packet's gateway is never an arbitrary node: it is the
      node's own address ("no route"), the destination itself, or a direct
      neighbour of this node on a shortest path to the destination in the
      range graph the table was built from. This holds whatever the nodes'
      positions at forwarding time: the node where the lookup's walk stops
      depends on the built matrices alone, and the current distances only
      decide whether that node or the "no route" answer is returned. */
  lemma ForwardGateway(r: ModRouting, h: Header, now: seq<seq<real>>)
    requires r.CanRoute(h.destination, now)
    requires h.destination != r.address && h.destination != r.broadcast
    ensures var t := r.rtable;
      var g := t.Relay(r.address, h.destination, now);
      var i, j := IndexOf(t.nodeTable, r.address), IndexOf(t.nodeTable, h.destination);
      g == r.address || g == h.destination ||
      exists k :: 0 <= k < t.built.n && t.nodeTable[k].addr == g &&
        RangeGraph.Edge(t.built, i, k) &&
        HopCount.Plus(HopCount.Fin(1), RangeGraph.Hops(t.built, t.built.n, k, j)) == RangeGraph.Hops(t.built, t.built.n, i, j)
  {
    var t := r.rtable;
    var i, j := IndexOf(t.nodeTable, r.address), IndexOf(t.nodeTable, h.destination);
    RangeGraph.FirstHopOnShortestPath(t.built, i, j);
    var k := RangeGraph.FirstHop(t.built, i, j);
    if RangeGraph.Hops(t.built, t.built.n, i, j).Fin? && now[i][k] <= t.txRange {
      assert t.Relay(r.address, h.destination, now) == t.nodeTable[k].addr;
    }
  }
}
