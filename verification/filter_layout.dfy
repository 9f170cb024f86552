/** The shape of the assembled filter: when the build succeeds, the
    instruction buffer is the concatenation of the code each part of
    `install_filter_callback` emits, and the labels sit at fixed positions
    determined by the number of interfaces and the size of the LOCAL peer
    code. */
module FilterLayout {
  import opened Options
  import opened Bytes
  import opened Frames
  import opened Bpf
  import opened Registry
  import opened FilterAssembler
  import opened FilterPolicy

  /** The interface tests as `check_interface` emits them. */
  function IfaceJumps(ifaces: seq<u32>): (r: seq<Insn>)
    ensures |r| == |ifaces|
  {
    seq(|ifaces|, j requires 0 <= j < |ifaces| => Insn(JEQ_K, LABEL_IF_OK, LABEL_NEXT, ifaces[j]))
  }

  /** The interface tests after `patch_jump`: a miss on the last one drops. */
  function IfaceCode(ifaces: seq<u32>): (r: seq<Insn>)
    ensures |r| == |ifaces| && Labelled(r)
  {
    seq(|ifaces|, j requires 0 <= j < |ifaces| =>
      Insn(JEQ_K, LABEL_IF_OK, if j == |ifaces| - 1 then LABEL_DROP else LABEL_NEXT, ifaces[j]))
  }

  /** Outgoing test and interface-index load. */
  const HEAD: seq<Insn> := [
    Insn(LD_W_ABS, 0, 0, SKF_AD_OFF + SKF_AD_PKTTYPE),
    Insn(JEQ_K, LABEL_NEXT, LABEL_DROP, PACKET_OUTGOING),
    Insn(LD_W_ABS, 0, 0, SKF_AD_OFF + SKF_AD_IFINDEX)]

  /** Protocol test, multicast destination test, source-address load. */
  const MID: seq<Insn> := [
    Insn(LD_W_ABS, 0, 0, SKF_AD_OFF + SKF_AD_PROTOCOL),
    Insn(JEQ_K, LABEL_NEXT, LABEL_NOT_IPV4, ETH_P_IP as u32),
    Insn(LD_W_ABS, 0, 0, IP_DADDR),
    Insn(JGE_K, LABEL_NEXT, LABEL_SKIP1, MULTICAST_LOW),
    Insn(JGE_K, LABEL_NEXT, LABEL_ACCEPT, MULTICAST_HIGH),
    Insn(LD_W_ABS, 0, 0, IP_SADDR)]

  /** Accept after the peer tests, then the drop and accept exits. */
  const TAIL: seq<Insn> := [Insn(RET_K, 0, 0, ACCEPT_ALL), Insn(RET_K, 0, 0, 0), Insn(RET_K, 0, 0, ACCEPT_ALL)]

  /** The whole buffer before fixup, for `n` interfaces and LOCAL peers `locals`. */
  function Unresolved(ifaces: seq<u32>, locals: seq<Peer>): seq<Insn>
  {
    HEAD + IfaceCode(ifaces) + MID + PeerCode(locals) + TAIL
  }

  /** The label positions for `n` interface tests and `m` peer instructions:
      IF_OK after the interface tests, NOT_IPV4 and DROP both at the drop
      return, ACCEPT at the last instruction. The literal labels are never
      marked. */
  function Positions(n: nat, m: nat): (r: seq<nat>)
    ensures |r| == NUM_LABELS
  {
    [0, 0, 0, 10 + n + m, 11 + n + m, 3 + n, 10 + n + m]
  }

  /** The filter `install_filter_callback` holds before fixup. */
  function Layout(ifaces: seq<u32>, locals: seq<Peer>): Filter
  {
    Filter(Positions(|ifaces|, |PeerCode(locals)|), 12 + |ifaces| + |PeerCode(locals)|, Unresolved(ifaces, locals))
  }

  lemma SeqAssoc(a: seq<Insn>, b: seq<Insn>, c: seq<Insn>)
    ensures (a + b) + c == a + (b + c)
  {
  }

  lemma {:induction false} CheckInterfacesAppend(f: Filter, ifaces: seq<u32>)
    requires Valid(f) && f.numops + |ifaces| <= MAX_OPCODES
    ensures CheckInterfaces(f, ifaces).code == f.code + IfaceJumps(ifaces)
    decreases |ifaces|
  {
    if ifaces != [] {
      var f1 := CheckInterface(f, ifaces[0]);
      CheckInterfacesAppend(f1, ifaces[1..]);
      assert IfaceJumps(ifaces) == [IfaceJumps(ifaces)[0]] + IfaceJumps(ifaces[1..]);
      assert f1.code + IfaceJumps(ifaces[1..]) == f.code + IfaceJumps(ifaces);
    }
  }

  lemma {:induction false} CheckPeersAppend(f: Filter, peers: seq<Peer>)
    requires Valid(f) && f.numops + |PeerCode(peers)| <= MAX_OPCODES
    ensures CheckPeers(f, peers).code == f.code + PeerCode(peers)
    decreases |peers|
  {
    if peers != [] {
      var f1 := CheckIpv4(f, peers[0]);
      assert |PeerCode(peers)| == |Ipv4Code(peers[0])| + |PeerCode(peers[1..])|;
      CheckPeersAppend(f1, peers[1..]);
      assert f1.code == f.code + Ipv4Code(peers[0]);
      calc {
        f1.code + PeerCode(peers[1..]);
        (f.code + Ipv4Code(peers[0])) + PeerCode(peers[1..]);
        { SeqAssoc(f.code, Ipv4Code(peers[0]), PeerCode(peers[1..])); }
        f.code + PeerCode(peers);
      }
    }
  }

  /** Lines 132-138 write the outgoing test and one test per interface. */
  lemma InterfaceStageCode(ifaces: seq<u32>)
    requires 3 + |ifaces| <= MAX_OPCODES
    ensures InterfaceStage(ifaces).code == HEAD + IfaceJumps(ifaces)
  {
    var f0 := EmitStmt(Empty(), LD_W_ABS, SKF_AD_OFF + SKF_AD_PKTTYPE);
    var f1 := EmitJump(f0, JEQ_K, PACKET_OUTGOING, LABEL_NEXT, LABEL_DROP);
    var f2 := EmitStmt(f1, LD_W_ABS, SKF_AD_OFF + SKF_AD_IFINDEX);
    assert f2.code == HEAD;
    CheckInterfacesAppend(f2, ifaces);
  }

  /** `patch_jump` after the interface tests fails exactly when there are
      none, and otherwise sends a miss on the last test to DROP. */
  lemma PatchInterfaces(ifaces: seq<u32>)
    requires 3 + |ifaces| <= MAX_OPCODES
    ensures var r := PatchJump(InterfaceStage(ifaces), LABEL_DROP);
      (r.Some? <==> |ifaces| > 0)
      && (r.Some? ==> r.value == Filter(Empty().pos, 3 + |ifaces|, HEAD + IfaceCode(ifaces)))
  {
    var f := InterfaceStage(ifaces);
    InterfaceStageCode(ifaces);
    var r := PatchJump(f, LABEL_DROP);
    if |ifaces| == 0 {
      assert f.code[f.numops - 1] == HEAD[2];
    } else {
      var n := |ifaces|;
      assert f.code[f.numops - 1] == IfaceJumps(ifaces)[n - 1];
      var g := r.value;
      assert g.pos == Empty().pos;
      assert g.code == HEAD + IfaceCode(ifaces) by {
        forall i | 0 <= i < 3 + n
          ensures g.code[i] == (HEAD + IfaceCode(ifaces))[i]
        {
          if i < 2 + n {
            assert g.code[i] == g.code[..2 + n][i] == f.code[..2 + n][i];
          }
        }
      }
    }
  }

  /** Lines 141-153 append `MID` and mark IF_OK. */
  lemma ProtocolStageCode(f: Filter)
    requires Valid(f) && f.numops + 6 <= MAX_OPCODES
    ensures ProtocolStage(f).code == f.code + MID
  {
    var f0 := Mark(f, LABEL_IF_OK);
    var f1 := EmitStmt(f0, LD_W_ABS, SKF_AD_OFF + SKF_AD_PROTOCOL);
    var f2 := EmitJump(f1, JEQ_K, ETH_P_IP as u32, LABEL_NEXT, LABEL_NOT_IPV4);
    var f3 := EmitStmt(f2, LD_W_ABS, IP_DADDR);
    var f4 := EmitJump(f3, JGE_K, MULTICAST_LOW, LABEL_NEXT, LABEL_SKIP1);
    var f5 := EmitJump(f4, JGE_K, MULTICAST_HIGH, LABEL_NEXT, LABEL_ACCEPT);
    assert f5.code == f.code + MID[..5];
  }

  /** Lines 155-158 append the peer tests and the accept return. */
  lemma PeerStageCode(f: Filter, peers: seq<Peer>)
    requires Valid(f) && f.numops + |PeerCode(Select(peers, LOCAL_PEERS))| + 1 <= MAX_OPCODES
    ensures PeerStage(f, peers).code == f.code + PeerCode(Select(peers, LOCAL_PEERS)) + [TAIL[0]]
  {
    CheckPeersAppend(f, Select(peers, LOCAL_PEERS));
  }

  /** Lines 160-166 append the drop and accept returns. */
  lemma ExitStageCode(g: Filter)
    requires Valid(g) && g.numops + 2 <= MAX_OPCODES
    ensures ExitStage(g).code == g.code + [TAIL[1], TAIL[2]]
  {
  }

  /** Lines 155-166 append the peer tests and the three returns. */
  lemma ExitCode(f: Filter, peers: seq<Peer>)
    requires Valid(f) && f.numops + |PeerCode(Select(peers, LOCAL_PEERS))| + 3 <= MAX_OPCODES
    ensures ExitStage(PeerStage(f, peers)).code == f.code + PeerCode(Select(peers, LOCAL_PEERS)) + TAIL
  {
    var locals := Select(peers, LOCAL_PEERS);
    PeerStageCode(f, peers);
    var g := PeerStage(f, peers);
    ExitStageCode(g);
    TailSplit(f.code + PeerCode(locals));
  }

  lemma TailSplit(a: seq<Insn>)
    ensures a + [TAIL[0]] + [TAIL[1], TAIL[2]] == a + TAIL
  {
  }

  /** Lines 130-166 produce a filter exactly when there is an interface
      whose last test has a slot, and that filter counts 12 instructions
      besides the interface and peer tests. */
  lemma AssembleCount(ifaces: seq<u32>, peers: seq<Peer>)
    ensures var r := Assemble(ifaces, peers);
      (r.Some? <==> 0 < |ifaces| <= MAX_OPCODES - 3)
      && (r.Some? ==> r.value.numops == 12 + |ifaces| + |PeerCode(Select(peers, LOCAL_PEERS))|)
  {
    if 3 + |ifaces| <= MAX_OPCODES {
      PatchInterfaces(ifaces);
    }
  }

  /** Lines 141-166 append `MID`, the peer tests and `TAIL`. */
  lemma LaterStagesCode(f: Filter, peers: seq<Peer>)
    requires Valid(f) && f.numops + 9 + |PeerCode(Select(peers, LOCAL_PEERS))| <= MAX_OPCODES
    ensures ExitStage(PeerStage(ProtocolStage(f), peers)).code
      == f.code + MID + PeerCode(Select(peers, LOCAL_PEERS)) + TAIL
  {
    ProtocolStageCode(f);
    ExitCode(ProtocolStage(f), peers);
  }

  /** The exit marks of lines 160-166 after `n` interface tests and `m`
      peer instructions. */
  lemma ExitPositions(g: Filter, n: nat, m: nat)
    requires Valid(g) && g.pos == Empty().pos[LABEL_IF_OK := 3 + n] && g.numops == 10 + n + m
    ensures ExitStage(g).pos == Positions(n, m)
  {
  }

  /** Lines 141-166 mark IF_OK at the protocol test and the exits after
      the peer tests. */
  lemma LaterStagesPositions(f: Filter, peers: seq<Peer>)
    requires Valid(f) && f.pos == Empty().pos && f.numops >= 3
    ensures ExitStage(PeerStage(ProtocolStage(f), peers)).pos
      == Positions(f.numops - 3, |PeerCode(Select(peers, LOCAL_PEERS))|)
  {
    var g := PeerStage(ProtocolStage(f), peers);
    ExitPositions(g, f.numops - 3, |PeerCode(Select(peers, LOCAL_PEERS))|);
  }

  /** The stages after the patched interface tests, applied to the
      filter `PatchInterfaces` describes. */
  lemma LaterStages(ifaces: seq<u32>, peers: seq<Peer>, f1: Filter)
    requires var locals := Select(peers, LOCAL_PEERS);
      |ifaces| > 0 && 12 + |ifaces| + |PeerCode(locals)| < MAX_OPCODES
    requires f1 == Filter(Empty().pos, 3 + |ifaces|, HEAD + IfaceCode(ifaces))
    ensures Valid(f1)
    ensures ExitStage(PeerStage(ProtocolStage(f1), peers)) == Layout(ifaces, Select(peers, LOCAL_PEERS))
  {
    assert Valid(f1);
    LaterStagesCode(f1, peers);
    LaterStagesPositions(f1, peers);
  }

  /** When the whole program fits, the assembled filter is `Layout`. */
  lemma AssembleLayout(ifaces: seq<u32>, peers: seq<Peer>)
    requires var locals := Select(peers, LOCAL_PEERS);
      |ifaces| > 0 && 12 + |ifaces| + |PeerCode(locals)| < MAX_OPCODES
    ensures Assemble(ifaces, peers) == Some(Layout(ifaces, Select(peers, LOCAL_PEERS)))
  {
    PatchInterfaces(ifaces);
    var f1 := PatchJump(InterfaceStage(ifaces), LABEL_DROP).value;
    LaterStages(ifaces, peers, f1);
  }

  /** Lines 130-183 install nothing exactly when there is no interface or
      the program would need MAX_OPCODES instructions or more; otherwise
      the installed program is `Layout` with its labels resolved. */
  lemma BuildFilterLayout(ifaces: seq<u32>, peers: seq<Peer>)
    ensures var locals := Select(peers, LOCAL_PEERS);
      var r := BuildFilter(ifaces, peers);
      (r.Some? <==> |ifaces| > 0 && 12 + |ifaces| + |PeerCode(locals)| < MAX_OPCODES)
      && (r.Some? ==> Valid(Layout(ifaces, locals)) && r.value == Resolved(Layout(ifaces, locals)))
  {
    var locals := Select(peers, LOCAL_PEERS);
    AssembleCount(ifaces, peers);
    if |ifaces| > 0 && 12 + |ifaces| + |PeerCode(locals)| < MAX_OPCODES {
      AssembleLayout(ifaces, peers);
    }
  }
}
