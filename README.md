# ModAlgo routing core in Dafny

A verified model of the position-aware routing core of the ModAlgo ns-3
module. Three parts:

- `ModRoutingTable`: the node registry and the explicit-route list. `UpdateRoute` rebuilds an all-pairs
  shortest-hop table over the "range graph" with Floyd–Warshall, keeping a flat
  hop-count buffer and a flat predecessor buffer. `LookupRoute` answers "first
  relay toward a destination" by walking the predecessor buffer back from the
  destination.
- `ModRouting`: the per-packet decision. `RouteInput` delivers locally, accepts a broadcast, or
  forwards by unicast to the table's relay. `RouteOutput` builds the route for a
  locally originated packet. The address setters are modelled too.
- `MyTag`: a per-packet byte-vector tag. It has a length-prefixed serialiser and
  deserialiser, an item count that sizes the serialised form, and 1-based slot
  access.

Files and modules:

| file | module | what it holds |
|---|---|---|
| `types.dfy` | `Types` | IPv4 addresses and the `uint8_t`/`uint16_t`/`uint32_t` widths |
| `hop.dfy` | `HopCount` | hop counts with an infinite value (the `double` entries that hold `HUGE_VAL`), `+` and `std::min` on them |
| `flat_index.dfy` | `FlatIndex` | the `i * n + j` addressing of the flat buffers |
| `range_graph.dfy` | `RangeGraph` | the range graph, the Floyd–Warshall recurrence (`Hops`) and its predecessor entries (`PredAt`), the predecessor walk (`FirstHop`), and what they satisfy |
| `floyd_warshall.dfy` | `FloydWarshall` | the initialisation and relaxation loops of `UpdateRoute` on arrays, proved against `Hops`/`PredAt` |
| `mod_routing_table.dfy` | `RoutingTable` | class `ModRoutingTable` and the address scan and predecessor walk of `LookupRoute` |
| `mod_routing.dfy` | `Routing` | class `ModRouting`; callbacks are returned as an `InputOutcome` |
| `my_tag.dfy` | `Tag` | class `MyTag`; a `TagBuffer` is a byte sequence |

Design of the model:

- The distance `DistFromTable (i, j)` between node positions is an input. `UpdateRoute` takes
  the matrix of distances at rebuild time (`d`). `LookupRoute` takes the
  distances at lookup time (`now`), because nodes may have moved since the
  rebuild. Two distinct nodes are linked when `0 < d <= range`. Nodes at the
  same position are not linked.
- The class keeps a ghost `built` graph: the distances, the range and the node
  count of the last rebuild. `Valid()` ties both arrays to the relaxed
  recurrence over `built`. `Current()` adds that no node was registered since.
- `UpdateRoute` allocates fresh arrays and replaces both buffers. Its
  postcondition determines every hop-count cell and every off-diagonal
  predecessor cell from `(d, range, n)` alone. The predecessor diagonal is
  never written, and no lookup whose preconditions hold reads it.
- Node indices and the node count are `uint16_t` in the source. The rebuild covers
  `|nodeTable| mod 2^16` nodes, as the source's `uint16_t n` does. The model
  does not capture the `int` overflow of `n * n` for larger counts (see
  "## Left out"). Lookups require the buffers to be current, which bounds the
  table below 2^16.

Behaviour of the source that the model keeps:

- An unregistered address resolves to the node count, not to 0 (`IndexOf`). The
  flat read `i * n + n` then lands on the first entry of the next row, or past
  the end for the last row. Lookups therefore require both addresses to be
  registered.
- Every off-diagonal predecessor starts as the row's node, linked or not
  (mod1/mod-routing-table.cc:167). So the walk from an unreachable
  destination stops after one step, at the destination itself. It cannot loop
  forever, and `WalkBack` proves that it terminates.
- No lookup tests for an infinite hop count. The source's own address is
  returned when the node where the walk stops is out of range at lookup time.
  So an unreachable node at the source's own position (distance 0) is returned
  as the relay (`RelayOnShortestPath`).
- `FirstHop(a, a)` has no defined result: `pred[i][i]` is never written. Lookups
  require distinct addresses.
- The source has no deflection state and no interface-retry loop. `RouteInput`
  is a three-way dispatch.
- Three nodes 1 and 2 apart on a line are not connected end to end at range 1.5,
  since the second link is 2 long (`ThreeOnALineShortRange`). They are 2 hops
  apart, through the middle node, at range 2.5 (`ThreeOnALineLongRange`).

## Model

| member | source | states |
|---|---|---|
| `HopCount.Plus` | mod1/mod-routing-table.cc:179 | a sum of hop counts is finite exactly when both are, and then it is their sum; `HUGE_VAL` absorbs |
| `HopCount.Min` | mod1/mod-routing-table.cc:179-180 | `std::min` is at most both arguments and is one of them; it differs from the current entry exactly when the candidate is strictly smaller, so ties keep the current entry |
| `FlatIndex.Cell` | mod/mod-routing-table.h:69-70 | `a * n + b` is inside the `n * n` buffer and gives back row `a` and column `b`, so distinct cells never share a slot |
| `RangeGraph.DiagonalZero` | mod1/mod-routing-table.cc:151-153 | the diagonal is 0 after initialisation and stays 0 through every round of relaxation |
| `RangeGraph.HopsSymmetric` | mod1/mod-routing-table.cc:147-187 | with symmetric distances, the hop count from i to j equals the one from j to i at every stage |
| `RangeGraph.PivotStable` | mod1/mod-routing-table.cc:179-183 | the round with pivot k leaves row k and column k unchanged, so the in-place update may read them before or after they are visited |
| `RangeGraph.WalkOf` | mod1/mod-routing-table.cc:173-187 | every finite entry is the length of a walk in the range graph between the two nodes whose relays are all below the stage |
| `RangeGraph.Shortest` | mod1/mod-routing-table.cc:173-187 | no walk whose relays are below stage k is shorter than the stage-k entry |
| `RangeGraph.HopsAreShortest` | mod1/mod-routing-table.cc:122-187 | after the rebuild, any walk from i to j makes the entry finite and at most its length, and the entry is the length of a walk: it is the minimum hop count |
| `RangeGraph.UnreachableHasNoWalk` | mod1/mod-routing-table.cc:163-166 | an entry left at infinity means that no walk links the two nodes |
| `RangeGraph.Triangle` | mod1/mod-routing-table.cc:173-187 | after the rebuild, `dist[i][j] <= dist[i][m] + dist[m][j]` for every m |
| `RangeGraph.PredFacts` | mod1/mod-routing-table.cc:167 | at every stage an off-diagonal predecessor is a node index; it is i while j is unreachable; otherwise it is linked to j and at least one hop closer to i |
| `RangeGraph.PredOnShortestPath` | mod1/mod-routing-table.cc:183 | after the rebuild, the predecessor of a reachable j is linked to j and exactly one hop closer to i than j |
| `RangeGraph.FirstHop` | mod1/mod-routing-table.cc:103-110 | the predecessor walk back from j terminates at a node other than i whose predecessor is i |
| `RangeGraph.FirstHopOnShortestPath` | mod1/mod-routing-table.cc:103-110 | the walk stops at j itself when j is unreachable, and otherwise at a direct neighbour of i on a shortest path to j |
| `RangeGraph.NoRangeNoRoutes` | mod1/mod-routing-table.cc:157-166 | with a range of 0 or less every off-diagonal entry is infinite at every stage |
| `RangeGraph.RoundKeeps` | mod1/mod-routing-table.cc:179-184 | a round whose pivot gives no strictly shorter path leaves the entry and its predecessor as they were |
| `RangeGraph.ThreeOnALineShortRange` | mod1/mod-routing-table.cc:147-187 | three nodes at 0, 1 and 3 on a line with range 1.5: nodes 0 and 1 are one hop apart, node 2 is unreachable, and the walk stops at node 2 |
| `RangeGraph.ThreeOnALineLongRange` | mod1/mod-routing-table.cc:103-110 | the same nodes with range 2.5: node 2 is two hops from node 0 and the walk stops at node 1 |
| `FloydWarshall.InitMatrices` | mod1/mod-routing-table.cc:147-170 | dist is 0 on the diagonal, 1 where `0 < d <= range`, infinite elsewhere; every off-diagonal pred is the row's node; the diagonal of pred is not written |
| `FloydWarshall.Relax` | mod1/mod-routing-table.cc:172-187 | the triple loop turns the initial buffers into the final stage of the recurrence and of the predecessor entries |
| `FloydWarshall.RelaxPivot` | mod1/mod-routing-table.cc:173-187 | one round with pivot k moves every cell from stage k to stage k + 1 |
| `FloydWarshall.RelaxCell` | mod1/mod-routing-table.cc:177-185 | the inner body overwrites dist and copies the pivot row's predecessor only for a strictly shorter path, and moves that one cell to the next stage |
| `RoutingTable.IndexOf` | mod1/mod-routing-table.cc:81-101 | the scan's index is the first entry with the address; it is the table size exactly when the address is not registered |
| `RoutingTable.Resolve` | mod1/mod-routing-table.cc:83-92 | the counter-updating scan loop computes `IndexOf` |
| `RoutingTable.WalkBack` | mod1/mod-routing-table.cc:103-110 | the do-while loop over the predecessor buffer terminates and stops at `FirstHop`, a node other than the source |
| `RoutingTable.ModRoutingTable.constructor` | mod1/mod-routing-table.cc:47-52 | both tables empty, both buffers null, range 0 |
| `RoutingTable.ModRoutingTable.AddRoute` | mod1/mod-routing-table.cc:57-66 | appends one entry to the explicit-route list and may change nothing else |
| `RoutingTable.ModRoutingTable.AddNode` | mod1/mod-routing-table.cc:69-76 | appends one entry at the end of the node table, so the new node's index is the old count; buffers untouched and no longer current |
| `RoutingTable.ModRoutingTable.UpdateRoute` | mod1/mod-routing-table.cc:124-190 | records the range and replaces both buffers with fresh ones holding the relaxed hop counts and predecessors of the range graph over `|nodeTable| mod 2^16` nodes |
| `RoutingTable.ModRoutingTable.LookupRoute` | mod1/mod-routing-table.cc:79-120 | returns the source address when the node where the walk stops is out of range now, and that node's address otherwise; the explicit-route list is outside what it reads |
| `RoutingTable.ModRoutingTable.RelayOnShortestPath` | mod1/mod-routing-table.cc:103-119 | with unmoved positions, a reachable destination's relay is a direct neighbour of the source on a shortest path; an unreachable one gives the source's address, or the destination's when it is at distance 0 |
| `RoutingTable.ModRoutingTable.GetDistance` | mod1/mod-routing-table.cc:207-233 | returns the relaxed hop count between the two resolved nodes, 0 for a node and itself |
| `Routing.ModRouting.constructor` | mod/mod-routing.cc:50-53 | no routing table is attached yet |
| `Routing.ModRouting.RouteInput` | mod/mod-routing.cc:82-118 | local delivery on the inbound interface exactly when the destination is the node's address; no callback exactly for a broadcast to another address; otherwise one unicast forward whose route has the table's relay as gateway, the header's source and destination, and the node's interface; always accepts |
| `Routing.ModRouting.RouteOutput` | mod/mod-routing.cc:60-80 | the route has the table's relay as gateway, the node's address as source, the header's destination, the node's interface; the error is always `ERROR_NOTERROR` |
| `Routing.ForwardGateway` | mod/mod-routing.cc:100-116 | for any positions at forwarding time, a forwarded packet's gateway is the node's own address ("no route", still forwarded), the destination, or a neighbour on a shortest path to it in the range graph the table was built from |
| `Routing.ModRouting.NotifyInterfaceUp` | mod/mod-routing.cc:120-124 | no state changes |
| `Routing.ModRouting.NotifyInterfaceDown` | mod/mod-routing.cc:125-129 | no state changes |
| `Routing.ModRouting.NotifyAddAddress` | mod/mod-routing.cc:130-137 | sets the interface, the local address and the broadcast address from its arguments and nothing else |
| `Routing.ModRouting.NotifyRemoveAddress` | mod/mod-routing.cc:138-142 | no state changes |
| `Routing.ModRouting.SetIpv4` | mod/mod-routing.cc:143-148 | stores the IPv4 stack and nothing else |
| `Routing.ModRouting.SetRtable` | mod/mod-routing.cc:155-160 | stores the routing table and nothing else |
| `Tag.ToI32` | mod1/MyTag.cc:66 | converting the vector size to `int` keeps sizes below 2^31 and is otherwise congruent modulo 2^32 |
| `Tag.DecodeEncode` | mod1/MyTag.cc:38-53 | reading back what `Serialize` wrote, whatever follows, gives the value cut to its length modulo 256: the whole value exactly when it has at most 255 bytes |
| `Tag.EncodeDecoded` | mod1/MyTag.cc:46-53 | re-serialising what `Deserialize` read reproduces the bytes it consumed |
| `Tag.ItemsCountEncoding` | mod1/MyTag.cc:3-7 | one more than the item count set from a vector, as `uint32_t`, equals the number of bytes `Serialize` writes for it, modulo 2^32 |
| `Tag.MyTag.constructor` | mod1/MyTag.cc:18 | the byte vector starts empty, as a default-constructed `std::vector` does (the constructor's body is in Mytag.h, which this model does not cover; see "## Left out") |
| `Tag.MyTag.GetTagItems` | mod1/MyTag.cc:3-7 | the item count plus one as `uint32_t`: exactly `items + 1` for a count of -1 or more, and `items + 1 + 2^32` below that |
| `Tag.MyTag.GetSerializedSize` | mod1/MyTag.cc:32-37 | while the item count is the converted size of the value, the reserved size is the number of bytes `Serialize` writes, modulo 2^32 |
| `Tag.MyTag.GetSimpleValue` | mod1/MyTag.cc:69-73 | a copy of the value whose slot `t`, numbered from 1, is what `GetSimpleValueByIndex (t)` returns |
| `Tag.MyTag.GetSimpleValueByIndex` | mod1/MyTag.cc:78-80 | slot `index`, numbered from 1, is byte `index` of the serialised form, just after the length byte |
| `Tag.MyTag.SetTagItems` | mod1/MyTag.cc:8-12 | sets the item count and nothing else |
| `Tag.MyTag.Serialize` | mod1/MyTag.cc:38-45 | appends one length byte, the size modulo 256, then the value's bytes in order; the tag is unchanged |
| `Tag.MyTag.Deserialize` | mod1/MyTag.cc:46-53 | reads a length byte L and the next L bytes, which become the value; the rest is left unread; the item count is not updated |
| `Tag.MyTag.SetSimpleValue` | mod1/MyTag.cc:62-67 | stores the vector and its size as item count, so the serialised size is the byte count `Serialize` writes (modulo 2^32) |
| `Tag.MyTag.SetSimpleValueByIndex` | mod1/MyTag.cc:74-80 | writes slot `index - 1`; length, item count and every other slot unchanged; `GetSimpleValueByIndex(index)` then returns the value set |

## Left out

- `DistFromTable` (mod1/mod-routing-table.cc:235-249) uses floating-point `pow`/`sqrt` on mobility-model positions. It is replaced by a matrix of real distances given at rebuild and at lookup. Symmetry of that matrix is assumed only where a lemma says so (`HopsSymmetric`).
- `double` entries of `m_modDist`: only 0, 1, their sums and `HUGE_VAL` occur, so they are exact as naturals plus infinity. `GetDistance` returns such a value, not a `double`.
- Logging, the predecessor-matrix string dump (mod1/mod-routing-table.cc:192-202), the empty `Print`, `PrintRoutingTable`, and `MyTag::Print`/`printTag`: console output only.
- ns-3 `TypeId` and attribute registration, and mod1/mod-routing-helper.cc: factory plumbing.
- `new`/`delete` of the buffers, including `delete` used on arrays: a rebuild allocates fresh arrays that replace the old ones.
- `Ipv4`, `NetDevice`, packets and callbacks are opaque. The output device is the interface index it comes from. The inbound interface (`GetInterfaceForDevice (idev)`) is a parameter. The callbacks invoked are the returned `InputOutcome`.
- `RoutingTable.ModRoutingTable.LookupRoute` requires both addresses to be registered and different, and the buffers to be current (`Current()`: a rebuild has happened, and none of the `AddNode` calls came after it). An unregistered address reads the wrong row or past the buffer. Equal addresses read the unwritten `pred[i][i]`. Before the first rebuild the buffers are null. After an `AddNode` the row stride `m_nodeTable.size()` no longer matches the buffers. The model has no value for any of these.
- `RoutingTable.ModRoutingTable.GetDistance` requires both addresses to be registered and the buffers to be current, for the same reasons.
- `RoutingTable.ModRoutingTable.UpdateRoute` does not model the overflow of `n * n` and `i * n + j`. These are computed in `int` from `uint16_t` operands (mod1/mod-routing-table.cc:143-144). For 46341 <= n < 2^16 the product overflows, which is undefined behaviour. In practice `new[]` then fails and no rebuild happens. The model rebuilds at every size.
- `Routing.ModRouting.RouteInput` and `Routing.ModRouting.RouteOutput` inherit that requirement for the destination they look up. They also require a routing table to be attached (`rtable != null` in `CanRoute`): with none, `m_rtable->LookupRoute` dereferences a null `Ptr`. `RouteOutput` thus does not model a locally originated packet addressed to the node itself.
- `Tag.MyTag.Serialize` and `Tag.MyTag.Deserialize` assume that `TagBuffer::WriteVector` and `ReadVector (itemsToRead)` (mod1/MyTag.cc:43, 51) write and read the raw bytes in order, with no prefix of their own. Neither is defined in mod1/MyTag.cc nor in the stock ns-3 `TagBuffer`.
- `Tag.MyTag.Serialize` writes into an unbounded sequence. It does not check the capacity `GetSerializedSize ()` reserves. That capacity is less than `|v| + 1` after a `Deserialize` or a `SetTagItems` that leaves the item count behind the value.
- `Tag.MyTag.Deserialize` requires the buffer to hold the length byte and the bytes it announces. Reading past the end of a `TagBuffer` is not modelled.
- `Tag.MyTag.SetSimpleValueByIndex` and `GetSimpleValueByIndex` require `1 <= index <= size`. The source writes out of bounds otherwise.
- `Tag.MyTag.constructor`: Mytag.h is not part of this model. It holds the constructor's body and the member declarations. The model assumes two things it cannot show from the source: `m_simpleValue` starts as an empty, default-constructed `std::vector`, and `m_items` has type `int` (only the `int` parameter of `SetTagItems` in mod1/MyTag.cc shows the type). The constructor promises nothing about the initial item count.
- Deflection forwarding and interface retries do not occur in the source's forwarding code and are not modelled.
- Concurrency: everything here runs on one simulated event at a time.
