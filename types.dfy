/** Machine-level value types shared by the routing table, the routing
    protocol and the packet tag. */
module Types {

  /** An IPv4 address, a 32-bit unsigned value (ns-3 `Ipv4Address`). */
  newtype Ipv4Address = x: int | 0 <= x < 0x1_0000_0000

  /** `uint8_t` */
  newtype U8 = x: int | 0 <= x < 0x100

  /** `uint16_t`, the width of the routing table's node indices. */
  newtype U16 = x: int | 0 <= x < 0x1_0000

  /** `uint32_t` */
  newtype U32 = x: int | 0 <= x < 0x1_0000_0000

  const U16_LIMIT: nat := 0x1_0000
  const U32_LIMIT: nat := 0x1_0000_0000

  /** An opaque handle for an ns-3 object the model does not look into
      (`Ptr<Node>`, `Ptr<Ipv4>`, a net device). */
  type Handle = nat
}
