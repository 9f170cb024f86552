/** A frame seen on the PF_PACKET socket.

    The kernel's socket filter sees the frame's metadata through its
    ancillary loads, and the reader sees the same metadata in the
    `sockaddr_ll` that comes with each frame. Because the socket is of type
    SOCK_DGRAM, `data` starts at the network header. */
module Frames {
  import opened Bytes

  /** `PACKET_OUTGOING` of the Linux packet socket interface. */
  const PACKET_OUTGOING: u32 := 4

  /** `ETH_P_IP`, the IPv4 protocol number on the link. */
  const ETH_P_IP: u16 := 0x0800

  datatype Frame = Frame(
    pkttype: u32,        // sll_pkttype
    ifindex: u32,        // sll_ifindex
    protocol: u16,       // sll_protocol, in host order
    llAddr: seq<byte>,   // the first sll_halen bytes of sll_addr
    data: seq<byte>)     // the datagram the kernel delivered
}
