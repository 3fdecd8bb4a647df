/** `ns3::ModRoutingTable`: the node registry, the write-only list of
    explicit routes, and the flat hop-count and predecessor buffers that
    `UpdateRoute` rebuilds and `LookupRoute` and `GetDistance` read. */
module RoutingTable {
  import opened Types
  import opened HopCount
  import opened FlatIndex
  import opened RangeGraph
  import opened FloydWarshall

  /** `ModNodeEntry`: a registered node and its address. A node's index
      is its position in the node table. */
  datatype NodeEntry = NodeEntry(node: Handle, addr: Ipv4Address)

  /** `ModtableEntry`: an explicit route; stored, never consulted. */
  datatype RouteEntry = RouteEntry(srcAddr: Ipv4Address, relayAddr: Ipv4Address, dstAddr: Ipv4Address)

  predicate Registered(table: seq<NodeEntry>, addr: Ipv4Address) {
    exists t :: 0 <= t < |table| && table[t].addr == addr
  }

  /** Where the lookup's scan stops: the first entry with the address, or
      one past the end when there is none. */
  function IndexOf(table: seq<NodeEntry>, addr: Ipv4Address): (i: nat)
    ensures i <= |table|
    ensures i < |table| <==> Registered(table, addr)
    ensures i < |table| ==> table[i].addr == addr
    ensures forall t :: 0 <= t < i ==> table[t].addr != addr
  {
    if table == [] then 0
    else if table[0].addr == addr then 0
    else
      var r := 1 + IndexOf(table[1..], addr);
      assert forall t :: 1 <= t < |table| ==> table[t] == table[1..][t - 1];
      r
  }

  /** The counter-updating scan of `LookupRoute` and `GetDistance`; the
      counter is a `uint16_t`, so the table must be indexable by it. */
  method Resolve(table: seq<NodeEntry>, addr: Ipv4Address) returns (i: nat)
    requires |table| < U16_LIMIT
    ensures i == IndexOf(table, addr)
  {
    i := 0;
    while i < |table|
      invariant 0 <= i <= |table|
      invariant forall t :: 0 <= t < i ==> table[t].addr != addr
    {
      if table[i].addr == addr {
        break;
      }
      i := i + 1;
    }
    IndexOfIsFirst(table, addr, i);
  }

  /** A position with the address and none before it is what `IndexOf`
      finds. */
  lemma {:induction false} IndexOfIsFirst(table: seq<NodeEntry>, addr: Ipv4Address, i: nat)
    requires i <= |table|
    requires i < |table| ==> table[i].addr == addr
    requires forall t :: 0 <= t < i ==> table[t].addr != addr
    ensures IndexOf(table, addr) == i
  {
  }

  /** The do-while loop of `LookupRoute`: starting from `j`, step to the
      predecessor in row `i` of the relaxed matrix until that predecessor
      is `i`, and return the last node visited. The walk stops at once
      when `j` is unreachable (its predecessor is still `i`), and
      otherwise after as many steps as `j` is hops away. */
  method WalkBack(ghost g: Graph, n: nat, pred: array<U16>, i: nat, j: nat) returns (k: nat)
    requires WellFormed(g) && n == g.n && i < n && j < n && i != j
    requires PredAtStage(pred[..], g, g.n)
    ensures k == FirstHop(g, i, j)
    ensures k < g.n && k != i
  {
    PredFacts(g, n, i, j);
    k := j;
    var p := pred[Cell(n, i, k)] as nat;
    while i != p
      invariant k < n && k != i && p < n
      invariant p == PredAt(g, n, i, k)
      invariant FirstHop(g, i, k) == FirstHop(g, i, j)
      decreases if Hops(g, n, i, k).Fin? then Hops(g, n, i, k).count else 0
    {
      PredFacts(g, n, i, k);
      PredOnShortestPath(g, i, k);
      PredFacts(g, n, i, p);
      k := p;
      p := pred[Cell(n, i, k)] as nat;
    }
  }

  class ModRoutingTable {
    var modtable: seq<RouteEntry>
    var nodeTable: seq<NodeEntry>
    var modNext: array?<U16>
    var modDist: array?<Hop>
    var txRange: real

    /** The distances, range and node count the current buffers were
        built from. */
    ghost var built: Graph

    /** Before the first rebuild both buffers are null and the range is 0;
        afterwards both hold the relaxed matrices of `built`, whose range is
        `txRange`. */
    ghost predicate Valid()
      reads this, modNext, modDist
    {
      && WellFormed(built)
      && built.n < U16_LIMIT
      && built.n <= |nodeTable|
      && built.range == txRange
      && (modNext == null <==> modDist == null)
      && (modDist == null ==> txRange == 0.0 && built.n == 0)
      && (modDist != null ==>
            DistAtStage(modDist[..], built, built.n) && PredAtStage(modNext[..], built, built.n))
    }

    /** The buffers were built for the current node table: no node was
        added since the last rebuild. */
    ghost predicate Current()
      reads this, modNext, modDist
    {
      Valid() && modDist != null && built.n == |nodeTable|
    }

    /** What a lookup from `src` to `dst` needs: matrices for the current
        table, both addresses registered and different, and the current
        distances between the registered nodes. */
    ghost predicate CanLookup(src: Ipv4Address, dst: Ipv4Address, now: seq<seq<real>>)
      reads this, modNext, modDist
    {
      && Current()
      && Registered(nodeTable, src) && Registered(nodeTable, dst) && src != dst
      && IsDistances(now) && |now| == |nodeTable|
    }

    /** The answer of `LookupRoute`: the node where the predecessor walk of
        the built matrices stops, unless it is out of range now, in which
        case the source's own address. The explicit-route list is not in
        its frame. */
    ghost function Relay(src: Ipv4Address, dst: Ipv4Address, now: seq<seq<real>>): Ipv4Address
      reads this`nodeTable, this`txRange, this`built
      requires WellFormed(built) && built.n == |nodeTable|
      requires Registered(nodeTable, src) && Registered(nodeTable, dst) && src != dst
      requires IsDistances(now) && |now| == |nodeTable|
    {
      var i, j := IndexOf(nodeTable, src), IndexOf(nodeTable, dst);
      var k := FirstHop(built, i, j);
      if now[i][k] > txRange then src else nodeTable[k].addr
    }

    /** When the positions have not moved since the rebuild, the lookup
        answers with a neighbour of the source that lies on a shortest path
        to a reachable destination. For an unreachable destination the walk
        stops at the destination itself, which is returned only when it is
        in range (a node at the source's own position), and otherwise the
        source's address is the "no route" answer. */
    lemma RelayOnShortestPath(src: Ipv4Address, dst: Ipv4Address)
      requires Current()
      requires Registered(nodeTable, src) && Registered(nodeTable, dst) && src != dst
      requires |built.d| == |nodeTable|
      ensures var i, j := IndexOf(nodeTable, src), IndexOf(nodeTable, dst);
        Hops(built, built.n, i, j).Fin? ==>
          exists k :: 0 <= k < built.n && Edge(built, i, k) &&
            Plus(Fin(1), Hops(built, built.n, k, j)) == Hops(built, built.n, i, j) &&
            Relay(src, dst, built.d) == nodeTable[k].addr
      ensures var i, j := IndexOf(nodeTable, src), IndexOf(nodeTable, dst);
        Hops(built, built.n, i, j) == Inf ==>
          Relay(src, dst, built.d) == if built.d[i][j] > txRange then src else dst
    {
      var i, j := IndexOf(nodeTable, src), IndexOf(nodeTable, dst);
      FirstHopOnShortestPath(built, i, j);
      var k := FirstHop(built, i, j);
      if Hops(built, built.n, i, j).Fin? {
        assert Edge(built, i, k);
        assert Relay(src, dst, built.d) == nodeTable[k].addr;
      }
    }

    constructor ()
      ensures Valid()
      ensures modtable == [] && nodeTable == []
      ensures modNext == null && modDist == null && txRange == 0.0
    {
      modtable, nodeTable := [], [];
      modNext, modDist := null, null;
      txRange := 0.0;
      built := Graph([], 0.0, 0);
    }

    method AddRoute(srcAddr: Ipv4Address, relayAddr: Ipv4Address, dstAddr: Ipv4Address)
      requires Valid()
      modifies this`modtable
      ensures Valid()
      ensures modtable == old(modtable) + [RouteEntry(srcAddr, relayAddr, dstAddr)]
    {
      modtable := modtable + [RouteEntry(srcAddr, relayAddr, dstAddr)];
    }

    /** Registration appends; the new node's index is the old node count.
        The buffers are left alone and no longer match the table. */
    method AddNode(node: Handle, addr: Ipv4Address)
      requires Valid()
      modifies this`nodeTable
      ensures Valid() && !Current()
      ensures nodeTable == old(nodeTable) + [NodeEntry(node, addr)]
      ensures nodeTable[old(|nodeTable|)] == NodeEntry(node, addr)
    {
      nodeTable := nodeTable + [NodeEntry(node, addr)];
    }

    /** Records the range and replaces both buffers with fresh ones holding
        the relaxed hop counts and predecessors of the range graph over the
        first `|nodeTable| mod 2^16` nodes (the node count is stored in a
        `uint16_t`). Nothing of the previous buffers survives. */
    method UpdateRoute(range: real, d: seq<seq<real>>)
      requires Valid()
      requires IsDistances(d) && |d| == |nodeTable|
      modifies this
      ensures Valid()
      ensures txRange == range
      ensures built == Graph(d, range, |nodeTable| % U16_LIMIT)
      ensures nodeTable == old(nodeTable) && modtable == old(modtable)
      ensures modNext != null && modDist != null && fresh(modNext) && fresh(modDist)
      ensures DistAtStage(modDist[..], built, built.n) && PredAtStage(modNext[..], built, built.n)
      ensures |nodeTable| < U16_LIMIT ==> Current()
    {
      txRange := range;
      var n := |nodeTable| % U16_LIMIT;
      var g := Graph(d, range, n);
      var dist := new Hop[n * n];
      var pred := new U16[n * n];
      InitMatrices(g, dist, pred);
      Relax(g, dist, pred);
      modNext, modDist := pred, dist;
      built := g;
    }

    /** Resolves both addresses, walks the predecessor row of the source
        back from the destination until the predecessor is the source, and
        returns the node reached, or the source's own address when that
        node is out of range now. */
    method LookupRoute(src: Ipv4Address, dst: Ipv4Address, now: seq<seq<real>>) returns (relay: Ipv4Address)
      requires CanLookup(src, dst, now)
      ensures relay == Relay(src, dst, now)
    {
      var i := Resolve(nodeTable, src);
      var j := Resolve(nodeTable, dst);
      var k := WalkBack(built, |nodeTable|, modNext, i, j);
      if now[i][k] > txRange {
        return src;
      }
      return nodeTable[k].addr;
    }

    /** The relaxed hop count between the two registered nodes. */
    method GetDistance(src: Ipv4Address, dst: Ipv4Address) returns (r: Hop)
      requires Current()
      requires Registered(nodeTable, src) && Registered(nodeTable, dst)
      ensures r == Hops(built, built.n, IndexOf(nodeTable, src), IndexOf(nodeTable, dst))
      ensures src == dst ==> r == Fin(0)
    {
      var n := |nodeTable|;
      var i := Resolve(nodeTable, src);
      var j := Resolve(nodeTable, dst);
      DiagonalZero(built, n, i);
      r := modDist[Cell(n, i, j)];
    }
  }
}
