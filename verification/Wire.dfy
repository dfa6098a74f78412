/** Machine words and big-endian byte access shared by the packet models. */
module Wire {
  type U8 = x: int | 0 <= x < 0x100
  type U16 = x: int | 0 <= x < 0x1_0000
  type U32 = x: int | 0 <= x < 0x1_0000_0000

  const ETHER_IPV4: U16 := 0x0800
  const ETHER_VLAN: U16 := 0x8100
  const PROTO_ICMP: U8 := 1
  const PROTO_TCP: U8 := 6
  const PROTO_UDP: U8 := 17

  datatype Option<+T> = None | Some(value: T)

  /** The 16-bit big-endian word at byte offset `i`. */
  function WordAt(s: seq<U8>, i: nat): U16
    requires i + 2 <= |s|
  {
    (s[i] as int) * 256 + s[i + 1]
  }
}
