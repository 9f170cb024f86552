/** Concrete and cross-cutting consequences of the filter and reader
    models: the filter and the reader agree on the checks both make, and
    concrete situations of the theorems above. */
module Scenarios {
  import opened Options
  import opened Bytes
  import opened Frames
  import opened Bpf
  import opened Registry
  import opened FilterAssembler
  import Prefixes
  import opened FilterPolicy
  import opened FilterLayout
  import opened FilterVerdict
  import opened Capture

  /** The reader repeats the filter's first two checks: a frame that is not
      outgoing, or not on a known interface, is dropped by any installed
      filter and skipped by the reader. */
  lemma FilterAndReaderAgree(ifaces: seq<u32>, peers: seq<Peer>, fr: Frame,
                             parse: (u16, seq<byte>) -> Option<Addresses>,
                             isMulticast: seq<byte> -> bool)
    requires fr.pkttype != PACKET_OUTGOING || fr.ifindex !in ifaces
    ensures Classify(fr, ifaces, peers, parse, isMulticast) == Skip
    ensures var r := BuildFilter(ifaces, peers);
      r.Some? ==> Exec(r.value, 0, 0, fr) == Returned(0)
  {
    InstalledFilterVerdict(ifaces, peers, fr);
  }

  /** A minimal IPv4 header with the given source and destination. */
  function Ipv4Header(src: seq<byte>, dst: seq<byte>): (r: seq<byte>)
    requires |src| == 4 && |dst| == 4
    ensures |r| == 20 && r[12..16] == src && r[16..20] == dst
  {
    [0x45, 0, 0, 20, 0, 0, 0, 0, 64, 17, 0, 0] + src + dst
  }

  /** Interfaces 5 and 9 and no LOCAL peer: a filter is installed, it is
      well formed, and it drops every frame that is not outgoing. */
  lemma TwoInterfacesNoPeers(fr: Frame)
    requires fr.pkttype != PACKET_OUTGOING
    ensures var r := BuildFilter([5, 9], []);
      r.Some? && WellFormed(r.value) && Exec(r.value, 0, 0, fr) == Returned(0)
  {
    BuildFilterLayout([5, 9], []);
    assert PeerCode(Select([], LOCAL_PEERS)) == [];
    InstalledFilterWellFormed([5, 9], []);
    InstalledFilterVerdict([5, 9], [], fr);
  }

  /** The LOCAL peer 10.0.0.0/24 on interface 1. */
  const LOCAL_NET: Peer := Peer(Local, ETHPROTO_IP, 0x0A00_0000, 24, [], true, 1)

  /** An outgoing IPv4 unicast frame on interface 1 from `src` to 10.0.2.1. */
  function UnicastFrom(src: seq<byte>): Frame
    requires |src| == 4
  {
    Frame(PACKET_OUTGOING, 1, ETH_P_IP, [], Ipv4Header(src, [10, 0, 2, 1]))
  }

  /** The block of 10.0.0.0/24 runs from 10.0.0.0 to 10.0.0.255. */
  lemma LocalNetBlock()
    ensures RangeLow(LOCAL_NET) == 0x0A00_0000 && RangeHigh(LOCAL_NET) == 0x0A00_00FF
  {
    assert Prefixes.Pow2(8) == 256;
  }

  /** The filter for interface 1 and the LOCAL peer 10.0.0.0/24 fits. */
  lemma LocalFilterBuilt()
    ensures BuildFilter([1], [LOCAL_NET]).Some?
  {
    var locals := Select([LOCAL_NET], LOCAL_PEERS);
    assert locals == [LOCAL_NET];
    assert |PeerCode(locals)| == 2;
    BuildFilterLayout([1], [LOCAL_NET]);
  }

  /** 10.0.0.5 lies in 10.0.0.0/24 and 10.0.1.5 does not. */
  lemma LocalSources()
    ensures !Admitted(UnicastFrom([10, 0, 0, 5]), [1], Select([LOCAL_NET], LOCAL_PEERS))
    ensures Admitted(UnicastFrom([10, 0, 1, 5]), [1], Select([LOCAL_NET], LOCAL_PEERS))
  {
    var locals := Select([LOCAL_NET], LOCAL_PEERS);
    assert locals == [LOCAL_NET];
    LocalNetBlock();
    var inside := UnicastFrom([10, 0, 0, 5]);
    var outside := UnicastFrom([10, 0, 1, 5]);
    assert ReadBE32(inside.data, IP_SADDR) == 0x0A00_0005;
    assert InPrefix(0x0A00_0005, locals[0]);
    assert ReadBE32(outside.data, IP_SADDR) == 0x0A00_0105;
    assert ReadBE32(outside.data, IP_DADDR) == 0x0A00_0201;
    assert !InPrefix(0x0A00_0105, locals[0]);
  }

  /** With the LOCAL peer 10.0.0.0/24, a unicast frame from 10.0.0.5 is
      locally sourced and dropped, and one from 10.0.1.5 is kept. */
  lemma LocalPrefixExample()
    ensures var r := BuildFilter([1], [LOCAL_NET]);
      r.Some?
      && Exec(r.value, 0, 0, UnicastFrom([10, 0, 0, 5])) == Returned(0)
      && Exec(r.value, 0, 0, UnicastFrom([10, 0, 1, 5])) == Returned(ACCEPT_ALL)
  {
    LocalFilterBuilt();
    LocalSources();
    InstalledFilterVerdict([1], [LOCAL_NET], UnicastFrom([10, 0, 0, 5]));
    InstalledFilterVerdict([1], [LOCAL_NET], UnicastFrom([10, 0, 1, 5]));
  }

  /** A multicast frame with an all-zero link-layer address on an interface
      with two up STATIC peers is sent twice, once to each peer's next hop,
      with its bytes unchanged. */
  lemma ReplicateToTwoPeers(fr: Frame, p1: Peer, p2: Peer, addrs: Addresses,
                            parse: (u16, seq<byte>) -> Option<Addresses>,
                            isMulticast: seq<byte> -> bool)
    requires fr.pkttype == PACKET_OUTGOING && fr.llAddr == [0, 0, 0, 0]
    requires p1.kind == Static && p1.up && p1.ifindex == fr.ifindex
    requires p2.kind == Static && p2.up && p2.ifindex == fr.ifindex
    requires parse(fr.protocol, fr.data) == Some(addrs) && isMulticast(addrs.dst)
    ensures Run([fr], Reader([fr.ifindex], [p1, p2], parse, isMulticast)) == [
      Sent(Transmit(fr.ifindex, fr.protocol, p1.nextHop, fr.data)),
      Sent(Transmit(fr.ifindex, fr.protocol, p2.nextHop, fr.data))]
  {
    var sel := ReplicationPeers(fr.ifindex);
    assert Select([p1, p2], sel) == [p1, p2] by {
      assert [p1, p2][1..] == [p2];
    }
    assert !NbmaSet(fr.llAddr);
    var d := Classify(fr, [fr.ifindex], [p1, p2], parse, isMulticast);
    assert d == Replicate(Sends(fr, [p1, p2]));
    assert [fr][1..] == [];
  }

  /** A unicast frame on a known interface is handed to the traffic path
      exactly once, and nothing is sent. */
  lemma UnicastHandedOffOnce(fr: Frame, ifaces: seq<u32>, peers: seq<Peer>, addrs: Addresses,
                             parse: (u16, seq<byte>) -> Option<Addresses>,
                             isMulticast: seq<byte> -> bool)
    requires fr.pkttype == PACKET_OUTGOING && fr.ifindex in ifaces
    requires parse(fr.protocol, fr.data) == Some(addrs) && !isMulticast(addrs.dst)
    ensures Run([fr], Reader(ifaces, peers, parse, isMulticast)) == [Traffic(fr.ifindex, fr.protocol, fr.data)]
  {
    assert [fr][1..] == [];
  }
}
