/** The interface and peer registries as the filter builder and the reader
    see them: finite lists, walked in order, and the selector that picks
    peers out of the peer list. The registries themselves (nhrp_interface.c,
    nhrp_peer.c) are not part of this model; the selector semantics below
    are the meaning of `struct nhrp_peer_selector`'s interface, type-mask
    and flag fields as the callers use them. */
module Registry {
  import opened Options
  import opened Bytes

  /** The peer types the core names; every other type is `Unlisted`. */
  datatype PeerType = Local | Static | Dynamic | Cached | Unlisted

  /** `ETHPROTO_IP`, the protocol type of an IPv4 peer. */
  const ETHPROTO_IP: u16 := 0x0800

  datatype Peer = Peer(
    kind: PeerType,
    protocolType: u16,
    protocolAddress: u32,   // the IPv4 address as the filter compares it
    prefixLength: nat,
    nextHop: seq<byte>,     // next_hop_address, the NBMA address
    up: bool,               // NHRP_PEER_FLAG_UP
    ifindex: u32)           // index of the interface the peer belongs to

  /** `struct nhrp_peer_selector` restricted to the fields the core sets. */
  datatype Selector = Selector(iface: Option<u32>, kinds: set<PeerType>, upOnly: bool)

  predicate Matches(sel: Selector, p: Peer)
  {
    (sel.iface.None? || p.ifindex == sel.iface.value)
    && p.kind in sel.kinds
    && (sel.upOnly ==> p.up)
  }

  /** The peers a `nhrp_peer_foreach` with `sel` visits, in registry order. */
  function Select(peers: seq<Peer>, sel: Selector): (r: seq<Peer>)
    ensures |r| <= |peers|
    ensures forall p :: p in r <==> p in peers && Matches(sel, p)
  {
    if peers == [] then []
    else if Matches(sel, peers[0]) then [peers[0]] + Select(peers[1..], sel)
    else Select(peers[1..], sel)
  }

  /** Selecting from a concatenation selects from each part, so the order of
      the registry is kept. */
  lemma {:induction false} SelectAppend(a: seq<Peer>, b: seq<Peer>, sel: Selector)
    ensures Select(a + b, sel) == Select(a, sel) + Select(b, sel)
    decreases |a|
  {
    if a == [] {
      assert a + b == b;
    } else {
      assert (a + b)[1..] == a[1..] + b;
      SelectAppend(a[1..], b, sel);
    }
  }

  /** The LOCAL peers the filter builder walks (nhrp/sysdep_pfpacket.c:155-157). */
  const LOCAL_PEERS: Selector := Selector(None, {Local}, false)

  /** The peers a multicast frame on interface `ifindex` is replicated to
      (nhrp/sysdep_pfpacket.c:299-305). */
  function ReplicationPeers(ifindex: u32): Selector
  {
    Selector(Some(ifindex), {Static, Dynamic, Cached}, true)
  }
}
