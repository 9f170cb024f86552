/** The capture filter built by `install_filter_callback`
    (nhrp/sysdep_pfpacket.c:92-118, 130-183): keep outgoing frames on a
    known interface that are IPv4 and either go to a multicast group or do
    not come from one of the LOCAL peers' address ranges.

    The builder is split at the source's comment blocks: the interface
    check, the protocol and multicast checks, the local-source check, and
    the exit code. */
module FilterPolicy {
  import opened Options
  import opened Bytes
  import opened Frames
  import opened Bpf
  import opened Registry
  import opened FilterAssembler
  import opened Prefixes

  /** The two ends of the IPv4 multicast range compared against. */
  const MULTICAST_LOW: u32 := 0xe000_0000
  const MULTICAST_HIGH: u32 := 0xf000_0000

  /** The snapshot length returned for an accepted frame. */
  const ACCEPT_ALL: u32 := 65535

  /** `check_interface`: accept when the loaded index is this one. */
  function CheckInterface(f: Filter, index: u32): (r: Filter)
    requires Valid(f)
    ensures Valid(r) && r.numops == f.numops + 1 && r.pos == f.pos
    ensures f.numops < MAX_OPCODES ==> r.code == f.code + [Insn(JEQ_K, LABEL_IF_OK, LABEL_NEXT, index)]
  {
    EmitJump(f, JEQ_K, index, LABEL_IF_OK, LABEL_NEXT)
  }

  /** `nhrp_interface_foreach(check_interface, f)` over the interface
      indices in registry order. */
  function CheckInterfaces(f: Filter, ifaces: seq<u32>): (r: Filter)
    requires Valid(f)
    ensures Valid(r) && r.numops == f.numops + |ifaces| && r.pos == f.pos
    decreases |ifaces|
  {
    if ifaces == [] then f else CheckInterfaces(CheckInterface(f, ifaces[0]), ifaces[1..])
  }

  /** `addr & ~mask`: the first address of a peer's prefix. */
  function RangeLow(p: Peer): u32
  {
    BlockLow(p.protocolAddress, p.prefixLength)
  }

  /** `addr | mask`: the last address of a peer's prefix. */
  function RangeHigh(p: Peer): u32
  {
    BlockHigh(p.protocolAddress, p.prefixLength)
  }

  /** The instructions `check_ipv4` emits for one peer: nothing for a
      non-IPv4 peer, an equality test to DROP for a host route, and a
      two-sided range test whose inside goes to DROP otherwise. */
  function Ipv4Code(p: Peer): (r: seq<Insn>)
    ensures |r| <= 2 && Labelled(r)
  {
    if p.protocolType != ETHPROTO_IP then []
    else if p.prefixLength != 32 then
      [Insn(JGE_K, LABEL_NEXT, LABEL_SKIP1, RangeLow(p)),
       Insn(JGT_K, LABEL_NEXT, LABEL_DROP, RangeHigh(p))]
    else [Insn(JEQ_K, LABEL_DROP, LABEL_NEXT, p.protocolAddress)]
  }

  /** `check_ipv4`. */
  function CheckIpv4(f: Filter, p: Peer): (r: Filter)
    requires Valid(f)
    ensures Valid(r) && r.numops == f.numops + |Ipv4Code(p)| && r.pos == f.pos
    ensures f.numops + |Ipv4Code(p)| <= MAX_OPCODES ==> r.code == f.code + Ipv4Code(p)
  {
    if p.protocolType != ETHPROTO_IP then f
    else if p.prefixLength != 32 then
      var f1 := EmitJump(f, JGE_K, RangeLow(p), LABEL_NEXT, LABEL_SKIP1);
      EmitJump(f1, JGT_K, RangeHigh(p), LABEL_NEXT, LABEL_DROP)
    else EmitJump(f, JEQ_K, p.protocolAddress, LABEL_DROP, LABEL_NEXT)
  }

  /** The instructions emitted for a list of peers, in order. */
  function PeerCode(peers: seq<Peer>): (r: seq<Insn>)
    ensures Labelled(r)
    decreases |peers|
  {
    if peers == [] then [] else Ipv4Code(peers[0]) + PeerCode(peers[1..])
  }

  /** `nhrp_peer_foreach(check_ipv4, f, sel)` over the selected peers. */
  function CheckPeers(f: Filter, peers: seq<Peer>): (r: Filter)
    requires Valid(f)
    ensures Valid(r) && r.numops == f.numops + |PeerCode(peers)| && r.pos == f.pos
    decreases |peers|
  {
    if peers == [] then f else CheckPeers(CheckIpv4(f, peers[0]), peers[1..])
  }

  /** Lines 132-138: outgoing frames only, then one test per interface. */
  function InterfaceStage(ifaces: seq<u32>): (r: Filter)
    ensures Valid(r) && r.numops == 3 + |ifaces|
    ensures forall l :: 0 <= l < NUM_LABELS ==> r.pos[l] == 0
  {
    var f0 := EmitStmt(Empty(), LD_W_ABS, SKF_AD_OFF + SKF_AD_PKTTYPE);
    var f1 := EmitJump(f0, JEQ_K, PACKET_OUTGOING, LABEL_NEXT, LABEL_DROP);
    var f2 := EmitStmt(f1, LD_W_ABS, SKF_AD_OFF + SKF_AD_IFINDEX);
    CheckInterfaces(f2, ifaces)
  }

  /** Lines 141-153: the interface checkpoint, the IPv4 test, the multicast
      destination test, and the load of the source address. */
  function ProtocolStage(f: Filter): (r: Filter)
    requires Valid(f)
    ensures Valid(r) && r.numops == f.numops + 6
    ensures r.pos == f.pos[LABEL_IF_OK := f.numops]
  {
    var f0 := Mark(f, LABEL_IF_OK);
    var f1 := EmitStmt(f0, LD_W_ABS, SKF_AD_OFF + SKF_AD_PROTOCOL);
    var f2 := EmitJump(f1, JEQ_K, ETH_P_IP as u32, LABEL_NEXT, LABEL_NOT_IPV4);
    var f3 := EmitStmt(f2, LD_W_ABS, IP_DADDR);
    var f4 := EmitJump(f3, JGE_K, MULTICAST_LOW, LABEL_NEXT, LABEL_SKIP1);
    var f5 := EmitJump(f4, JGE_K, MULTICAST_HIGH, LABEL_NEXT, LABEL_ACCEPT);
    EmitStmt(f5, LD_W_ABS, IP_SADDR)
  }

  /** Lines 155-158: one test per LOCAL peer, then accept. */
  function PeerStage(f: Filter, peers: seq<Peer>): (r: Filter)
    requires Valid(f)
    ensures Valid(r) && r.numops == f.numops + |PeerCode(Select(peers, LOCAL_PEERS))| + 1
    ensures r.pos == f.pos
  {
    var f0 := CheckPeers(f, Select(peers, LOCAL_PEERS));
    EmitStmt(f0, RET_K, ACCEPT_ALL)
  }

  /** Lines 160-166: NOT_IPV4 and DROP both mark the drop return, then the
      accept return. */
  function ExitStage(f: Filter): (r: Filter)
    requires Valid(f)
    ensures Valid(r) && r.numops == f.numops + 2
    ensures r.pos == f.pos[LABEL_NOT_IPV4 := f.numops][LABEL_DROP := f.numops][LABEL_ACCEPT := f.numops + 1]
  {
    var f0 := Mark(f, LABEL_NOT_IPV4);
    var f1 := Mark(f0, LABEL_DROP);
    var f2 := EmitStmt(f1, RET_K, 0);
    var f3 := Mark(f2, LABEL_ACCEPT);
    EmitStmt(f3, RET_K, ACCEPT_ALL)
  }

  /** Lines 130-166, with the patch of the interface tests guarded: the
      patch is attempted only when the last interface test has a slot (see
      `InterfaceStageOverflows` for the unguarded read). None when there is
      no interface to test. */
  function Assemble(ifaces: seq<u32>, peers: seq<Peer>): (r: Option<Filter>)
    ensures r.Some? ==> Valid(r.value)
  {
    var f0 := InterfaceStage(ifaces);
    if f0.numops > MAX_OPCODES then None
    else
      var f1 :- PatchJump(f0, LABEL_DROP);
      Some(ExitStage(PeerStage(ProtocolStage(f1), peers)))
  }

  /** Lines 130-183: the program installed, or None when nothing is. */
  function BuildFilter(ifaces: seq<u32>, peers: seq<Peer>): (r: Option<seq<Insn>>)
    ensures r.Some? ==> 12 + |ifaces| <= |r.value| < MAX_OPCODES
  {
    var f :- Assemble(ifaces, peers);
    if f.numops >= MAX_OPCODES then None else Some(Resolved(f))
  }

  /** The slot `patch_jump` reads after the interface tests as the source
      is written: `code[numops - 1]`. With 98 interfaces or more that index
      is at least MAX_OPCODES, past the last slot `code[MAX_OPCODES - 1]`
      of the buffer, so the unguarded read (and the writes of the NEXT
      targets after it) is out of bounds. */
  lemma InterfaceStageOverflows(ifaces: seq<u32>)
    requires |ifaces| >= 98
    ensures InterfaceStage(ifaces).numops - 1 >= MAX_OPCODES
  {
  }
}
