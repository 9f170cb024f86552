/** What the installed filter does to a frame. Running the resolved
    program on the BPF interpreter keeps a frame (65535 bytes) exactly when
    the policy below admits it and drops it (0) otherwise; a non-IPv4
    frame is dropped, because NOT_IPV4 is marked at the drop return. */
module FilterVerdict {
  import opened Options
  import opened Bytes
  import opened Frames
  import opened Bpf
  import opened Registry
  import opened FilterAssembler
  import opened FilterPolicy
  import opened FilterLayout

  /** Whether IPv4 address `a` belongs to a LOCAL peer's prefix: the whole
      address for a host route, otherwise `[addr & ~mask, addr | mask]`. */
  predicate InPrefix(a: u32, p: Peer)
  {
    if p.prefixLength == 32 then a == p.protocolAddress
    else RangeLow(p) <= a <= RangeHigh(p)
  }

  /** Whether `a` is the address of one of the IPv4 peers in `locals`. */
  predicate LocallySourced(a: u32, locals: seq<Peer>)
  {
    exists j :: 0 <= j < |locals| && locals[j].protocolType == ETHPROTO_IP && InPrefix(a, locals[j])
  }

  predicate IsMulticast(a: u32)
  {
    MULTICAST_LOW <= a < MULTICAST_HIGH
  }

  /** The capture policy: an outgoing IPv4 frame on one of `ifaces`, long
      enough to hold both addresses, sent to a multicast group or from an
      address outside every LOCAL peer's prefix. */
  predicate Admitted(fr: Frame, ifaces: seq<u32>, locals: seq<Peer>)
  {
    fr.pkttype == PACKET_OUTGOING
    && fr.ifindex in ifaces
    && fr.protocol == ETH_P_IP
    && |fr.data| >= IP_DADDR as int + 4
    && (IsMulticast(ReadBE32(fr.data, IP_DADDR)) || !LocallySourced(ReadBE32(fr.data, IP_SADDR), locals))
  }

  /** Instruction `i` of `prog` jumps to `t` when taken and to `e` when not. */
  predicate JumpAt(prog: seq<Insn>, i: nat, code: u16, k: u32, t: nat, e: nat)
  {
    i < |prog| && prog[i].code == code && prog[i].k == k
    && i + 1 + prog[i].jt == t && i + 1 + prog[i].jf == e
  }

  /** Instruction `i` of `prog` is the non-jump `code` with constant `k`. */
  predicate StmtAt(prog: seq<Insn>, i: nat, code: u16, k: u32)
  {
    i < |prog| && prog[i].code == code && prog[i].k == k
  }

  /** The interface tests for `ifaces` start at `s`: a hit goes to `ok`, a
      miss falls through to the next test, and a miss on the last to `d`. */
  predicate IfacesAt(prog: seq<Insn>, s: nat, ifaces: seq<u32>, ok: nat, d: nat)
    decreases |ifaces|
  {
    |ifaces| > 0
    && JumpAt(prog, s, JEQ_K, ifaces[0], ok, if |ifaces| == 1 then d else s + 1)
    && (|ifaces| > 1 ==> IfacesAt(prog, s + 1, ifaces[1..], ok, d))
  }

  /** The peer tests for `locals` start at `s` and end at `e`; an address
      inside a peer's prefix goes to `d`. */
  predicate PeersAt(prog: seq<Insn>, s: nat, locals: seq<Peer>, d: nat, e: nat)
    decreases |locals|
  {
    if locals == [] then s == e
    else
      var p := locals[0];
      if p.protocolType != ETHPROTO_IP then PeersAt(prog, s, locals[1..], d, e)
      else if p.prefixLength != 32 then
        JumpAt(prog, s, JGE_K, RangeLow(p), s + 1, s + 2)
        && JumpAt(prog, s + 1, JGT_K, RangeHigh(p), s + 2, d)
        && PeersAt(prog, s + 2, locals[1..], d, e)
      else
        JumpAt(prog, s, JEQ_K, p.protocolAddress, d, s + 1)
        && PeersAt(prog, s + 1, locals[1..], d, e)
  }

  /** The instructions around the interface and peer tests, for `n`
      interface tests and `m` peer instructions: the outgoing test, the
      protocol and multicast tests, and the three returns. */
  predicate FixedAt(prog: seq<Insn>, n: nat, m: nat)
  {
    var ok, drop, accept := 3 + n, 10 + n + m, 11 + n + m;
    StmtAt(prog, 0, LD_W_ABS, SKF_AD_OFF + SKF_AD_PKTTYPE)
    && JumpAt(prog, 1, JEQ_K, PACKET_OUTGOING, 2, drop)
    && StmtAt(prog, 2, LD_W_ABS, SKF_AD_OFF + SKF_AD_IFINDEX)
    && StmtAt(prog, ok, LD_W_ABS, SKF_AD_OFF + SKF_AD_PROTOCOL)
    && JumpAt(prog, ok + 1, JEQ_K, ETH_P_IP as u32, ok + 2, drop)
    && StmtAt(prog, ok + 2, LD_W_ABS, IP_DADDR)
    && JumpAt(prog, ok + 3, JGE_K, MULTICAST_LOW, ok + 4, ok + 5)
    && JumpAt(prog, ok + 4, JGE_K, MULTICAST_HIGH, ok + 5, accept)
    && StmtAt(prog, ok + 5, LD_W_ABS, IP_SADDR)
    && StmtAt(prog, 9 + n + m, RET_K, ACCEPT_ALL)
    && StmtAt(prog, drop, RET_K, 0)
    && StmtAt(prog, accept, RET_K, ACCEPT_ALL)
  }

  /** The resolved program in terms of jumps between absolute positions:
      the interface tests from 3 go to the protocol test at `3 + n` or to
      the drop return at `10 + n + m`, and the peer tests from `9 + n` go
      to the drop return or fall through to the accept at `9 + n + m`. */
  predicate PolicyLayout(prog: seq<Insn>, ifaces: seq<u32>, locals: seq<Peer>)
  {
    var n, m := |ifaces|, |PeerCode(locals)|;
    |prog| == 12 + n + m
    && FixedAt(prog, n, m)
    && IfacesAt(prog, 3, ifaces, 3 + n, 10 + n + m)
    && PeersAt(prog, 9 + n, locals, 10 + n + m, 9 + n + m)
  }

  /** Walking the interface tests ends at `ok` exactly when the loaded
      index is one of `ifaces`. */
  lemma {:induction false} IfaceScan(prog: seq<Insn>, s: nat, ifaces: seq<u32>, ok: nat, d: nat, a: u32, fr: Frame)
    requires IfacesAt(prog, s, ifaces, ok, d)
    ensures Exec(prog, s, a, fr) == Exec(prog, if a in ifaces then ok else d, a, fr)
    decreases |ifaces|
  {
    if |ifaces| > 1 {
      IfaceScan(prog, s + 1, ifaces[1..], ok, d, a, fr);
      assert ifaces == [ifaces[0]] + ifaces[1..];
      assert a in ifaces <==> a == ifaces[0] || a in ifaces[1..];
    }
  }

  /** `a` comes from the first peer or from one of the rest. */
  lemma LocallySourcedStep(a: u32, locals: seq<Peer>)
    requires locals != []
    ensures LocallySourced(a, locals) <==>
      (locals[0].protocolType == ETHPROTO_IP && InPrefix(a, locals[0])) || LocallySourced(a, locals[1..])
  {
    if LocallySourced(a, locals[1..]) {
      var j :| 0 <= j < |locals[1..]| && locals[1..][j].protocolType == ETHPROTO_IP && InPrefix(a, locals[1..][j]);
      assert locals[j + 1] == locals[1..][j];
    }
    if LocallySourced(a, locals) {
      var j :| 0 <= j < |locals| && locals[j].protocolType == ETHPROTO_IP && InPrefix(a, locals[j]);
      if j > 0 {
        assert locals[1..][j - 1] == locals[j];
      }
    }
  }

  /** Walking the peer tests ends at `d` exactly when the loaded source
      address lies in some LOCAL peer's prefix, and at `e` otherwise. */
  lemma {:induction false} PeerScan(prog: seq<Insn>, s: nat, locals: seq<Peer>, d: nat, e: nat, a: u32, fr: Frame)
    requires PeersAt(prog, s, locals, d, e)
    ensures Exec(prog, s, a, fr) == Exec(prog, if LocallySourced(a, locals) then d else e, a, fr)
    decreases |locals|
  {
    if locals != [] {
      var p := locals[0];
      LocallySourcedStep(a, locals);
      if p.protocolType != ETHPROTO_IP {
        PeerScan(prog, s, locals[1..], d, e, a, fr);
      } else if p.prefixLength != 32 {
        PeerScan(prog, s + 2, locals[1..], d, e, a, fr);
      } else {
        PeerScan(prog, s + 1, locals[1..], d, e, a, fr);
      }
    }
  }

  /** The multicast test on the destination address: a multicast group
      is accepted at once, anything else goes on to the source load. */
  lemma MulticastTest(prog: seq<Insn>, ifaces: seq<u32>, locals: seq<Peer>, fr: Frame, daddr: u32)
    requires PolicyLayout(prog, ifaces, locals)
    ensures var ok := 3 + |ifaces|;
      Exec(prog, ok + 3, daddr, fr)
        == if IsMulticast(daddr) then Returned(ACCEPT_ALL) else Exec(prog, ok + 5, daddr, fr)
  {
    var n, m := |ifaces|, |PeerCode(locals)|;
    var ok, accept := 3 + n, 11 + n + m;
    assert Exec(prog, accept, daddr, fr) == Returned(ACCEPT_ALL);
    if daddr >= MULTICAST_LOW {
      assert Exec(prog, ok + 3, daddr, fr) == Exec(prog, ok + 4, daddr, fr);
      if daddr < MULTICAST_HIGH {
        assert Exec(prog, ok + 4, daddr, fr) == Exec(prog, accept, daddr, fr);
      } else {
        assert Exec(prog, ok + 4, daddr, fr) == Exec(prog, ok + 5, daddr, fr);
      }
    } else {
      assert Exec(prog, ok + 3, daddr, fr) == Exec(prog, ok + 5, daddr, fr);
    }
  }

  /** The source test: a locally sourced address drops, any other is
      accepted. */
  lemma SourceTest(prog: seq<Insn>, ifaces: seq<u32>, locals: seq<Peer>, fr: Frame, daddr: u32)
    requires PolicyLayout(prog, ifaces, locals)
    requires |fr.data| >= IP_DADDR as int + 4
    ensures var ok := 3 + |ifaces|;
      Exec(prog, ok + 5, daddr, fr)
        == Returned(if LocallySourced(ReadBE32(fr.data, IP_SADDR), locals) then 0 else ACCEPT_ALL)
  {
    var n, m := |ifaces|, |PeerCode(locals)|;
    var ok, drop := 3 + n, 10 + n + m;
    var saddr := ReadBE32(fr.data, IP_SADDR);
    assert Exec(prog, ok + 5, daddr, fr) == Exec(prog, ok + 6, saddr, fr);
    PeerScan(prog, ok + 6, locals, drop, 9 + n + m, saddr, fr);
    assert Exec(prog, drop, saddr, fr) == Returned(0);
    assert Exec(prog, 9 + n + m, saddr, fr) == Returned(ACCEPT_ALL);
  }

  /** From the checkpoint after the interface tests, the verdict depends on
      the protocol and the addresses only. */
  lemma AfterInterfaces(prog: seq<Insn>, ifaces: seq<u32>, locals: seq<Peer>, fr: Frame, a: u32)
    requires PolicyLayout(prog, ifaces, locals)
    ensures Exec(prog, 3 + |ifaces|, a, fr) == Returned(
      if fr.protocol == ETH_P_IP && |fr.data| >= IP_DADDR as int + 4
         && (IsMulticast(ReadBE32(fr.data, IP_DADDR)) || !LocallySourced(ReadBE32(fr.data, IP_SADDR), locals))
      then ACCEPT_ALL else 0)
  {
    var n, m := |ifaces|, |PeerCode(locals)|;
    var ok, drop := 3 + n, 10 + n + m;
    assert Exec(prog, drop, fr.protocol, fr) == Returned(0);
    assert Exec(prog, ok, a, fr) == Exec(prog, ok + 1, fr.protocol, fr);
    if fr.protocol == ETH_P_IP {
      assert Exec(prog, ok + 1, fr.protocol, fr) == Exec(prog, ok + 2, fr.protocol, fr);
      if |fr.data| >= IP_DADDR as int + 4 {
        var daddr := ReadBE32(fr.data, IP_DADDR);
        assert Exec(prog, ok + 2, fr.protocol, fr) == Exec(prog, ok + 3, daddr, fr);
        MulticastTest(prog, ifaces, locals, fr, daddr);
        SourceTest(prog, ifaces, locals, fr, daddr);
      } else {
        assert Exec(prog, ok + 2, fr.protocol, fr) == Returned(0);
      }
    } else {
      assert Exec(prog, ok + 1, fr.protocol, fr) == Exec(prog, drop, fr.protocol, fr);
    }
  }

  /** The installed program keeps exactly the admitted frames. */
  lemma PolicyVerdict(prog: seq<Insn>, ifaces: seq<u32>, locals: seq<Peer>, fr: Frame)
    requires PolicyLayout(prog, ifaces, locals)
    ensures Exec(prog, 0, 0, fr) == Returned(if Admitted(fr, ifaces, locals) then ACCEPT_ALL else 0)
  {
    var n, m := |ifaces|, |PeerCode(locals)|;
    var drop := 10 + n + m;
    assert Exec(prog, 0, 0, fr) == Exec(prog, 1, fr.pkttype, fr);
    if fr.pkttype == PACKET_OUTGOING {
      assert Exec(prog, 1, fr.pkttype, fr) == Exec(prog, 2, fr.pkttype, fr) == Exec(prog, 3, fr.ifindex, fr);
      IfaceScan(prog, 3, ifaces, 3 + n, drop, fr.ifindex, fr);
      AfterInterfaces(prog, ifaces, locals, fr, fr.ifindex);
      assert Exec(prog, drop, fr.ifindex, fr) == Returned(0);
    } else {
      assert Exec(prog, 1, fr.pkttype, fr) == Exec(prog, drop, fr.pkttype, fr) == Returned(0);
    }
  }

  /** Instruction `i` of `prog` is `insn` after fixup. */
  predicate ResolvedAt(prog: seq<Insn>, i: nat, insn: Insn, pos: seq<nat>)
  {
    |pos| == NUM_LABELS && (Class(insn.code) == BPF_JMP ==> insn.jt < NUM_LABELS && insn.jf < NUM_LABELS)
    && i < |prog| && prog[i] == ResolveInsn(insn, pos, i)
  }

  /** Every instruction of `part` is resolved at its own position, counted
      from `s`, in `prog`. */
  predicate SliceResolved(prog: seq<Insn>, s: nat, part: seq<Insn>, pos: seq<nat>)
  {
    forall k :: 0 <= k < |part| ==> ResolvedAt(prog, s + k, part[k], pos)
  }

  /** Resolved interface tests from position `3 + j` on. */
  lemma {:induction false} IfacesResolved(prog: seq<Insn>, ifaces: seq<u32>, pos: seq<nat>, j: nat)
    requires |pos| == NUM_LABELS && j < |ifaces|
    requires pos[LABEL_IF_OK] == 3 + |ifaces| <= pos[LABEL_DROP] < 0x100
    requires SliceResolved(prog, 3, IfaceCode(ifaces), pos)
    ensures IfacesAt(prog, 3 + j, ifaces[j..], pos[LABEL_IF_OK], pos[LABEL_DROP])
    decreases |ifaces| - j
  {
    assert ResolvedAt(prog, 3 + j, IfaceCode(ifaces)[j], pos);
    if j + 1 < |ifaces| {
      IfacesResolved(prog, ifaces, pos, j + 1);
      assert ifaces[j..][1..] == ifaces[j + 1..];
    }
  }

  /** The tests for the first peer and for the peers after it, each
      resolved at its own position. */
  lemma SplitResolved(prog: seq<Insn>, s: nat, locals: seq<Peer>, pos: seq<nat>)
    requires |pos| == NUM_LABELS && locals != []
    requires SliceResolved(prog, s, PeerCode(locals), pos)
    ensures var c, rest := Ipv4Code(locals[0]), PeerCode(locals[1..]);
      SliceResolved(prog, s, c, pos)
      && SliceResolved(prog, s + |c|, rest, pos)
  {
    var c := Ipv4Code(locals[0]);
    var rest := PeerCode(locals[1..]);
    assert PeerCode(locals) == c + rest;
    SliceSplit(prog, s, c, rest, pos);
  }

  /** The resolved tests for one peer jump where `PeersAt` says. */
  lemma PeerHeadResolved(prog: seq<Insn>, s: nat, p: Peer, pos: seq<nat>)
    requires |pos| == NUM_LABELS && s + |Ipv4Code(p)| <= pos[LABEL_DROP] < 0x100
    requires SliceResolved(prog, s, Ipv4Code(p), pos)
    ensures p.protocolType == ETHPROTO_IP && p.prefixLength != 32 ==>
      JumpAt(prog, s, JGE_K, RangeLow(p), s + 1, s + 2)
      && JumpAt(prog, s + 1, JGT_K, RangeHigh(p), s + 2, pos[LABEL_DROP])
    ensures p.protocolType == ETHPROTO_IP && p.prefixLength == 32 ==>
      JumpAt(prog, s, JEQ_K, p.protocolAddress, pos[LABEL_DROP], s + 1)
  {
    var c := Ipv4Code(p);
    if |c| > 0 {
      assert ResolvedAt(prog, s, c[0], pos);
    }
    if |c| > 1 {
      assert ResolvedAt(prog, s + 1, c[1], pos);
    }
  }

  /** Resolved peer tests from position `s` on. */
  lemma {:induction false} PeersResolved(prog: seq<Insn>, s: nat, locals: seq<Peer>, pos: seq<nat>)
    requires |pos| == NUM_LABELS && s + |PeerCode(locals)| <= pos[LABEL_DROP] < 0x100
    requires SliceResolved(prog, s, PeerCode(locals), pos)
    ensures PeersAt(prog, s, locals, pos[LABEL_DROP], s + |PeerCode(locals)|)
    decreases |locals|
  {
    if locals != [] {
      var c := Ipv4Code(locals[0]);
      SplitResolved(prog, s, locals, pos);
      PeerHeadResolved(prog, s, locals[0], pos);
      PeersResolved(prog, s + |c|, locals[1..], pos);
    }
  }

  /** Fixup resolves every instruction of the buffer at its own position. */
  lemma AllResolved(f: Filter, prog: seq<Insn>)
    requires Valid(f) && f.numops < MAX_OPCODES && prog == Resolved(f)
    ensures SliceResolved(prog, 0, f.code, f.pos)
  {
  }

  /** A resolved run of instructions splits into two resolved runs. */
  lemma SliceSplit(prog: seq<Insn>, s: nat, x: seq<Insn>, y: seq<Insn>, pos: seq<nat>)
    requires SliceResolved(prog, s, x + y, pos)
    ensures SliceResolved(prog, s, x, pos) && SliceResolved(prog, s + |x|, y, pos)
  {
    forall k | 0 <= k < |x|
      ensures ResolvedAt(prog, s + k, x[k], pos)
    {
      assert (x + y)[k] == x[k];
    }
    forall k | 0 <= k < |y|
      ensures ResolvedAt(prog, s + |x| + k, y[k], pos)
    {
      assert (x + y)[|x| + k] == y[k];
      assert ResolvedAt(prog, s + (|x| + k), (x + y)[|x| + k], pos);
    }
  }

  /** Each of five consecutive parts of a buffer, resolved at its own
      position. */
  lemma ResolvedFive(f: Filter, prog: seq<Insn>, a: seq<Insn>, b: seq<Insn>, c: seq<Insn>, d: seq<Insn>, e: seq<Insn>)
    requires Valid(f) && f.numops < MAX_OPCODES && prog == Resolved(f)
    requires f.code == a + b + c + d + e
    ensures SliceResolved(prog, 0, a, f.pos)
    ensures SliceResolved(prog, |a|, b, f.pos)
    ensures SliceResolved(prog, |a| + |b|, c, f.pos)
    ensures SliceResolved(prog, |a| + |b| + |c|, d, f.pos)
    ensures SliceResolved(prog, |a| + |b| + |c| + |d|, e, f.pos)
  {
    AllResolved(f, prog);
    SliceSplit(prog, 0, a + b + c + d, e, f.pos);
    SliceSplit(prog, 0, a + b + c, d, f.pos);
    SliceSplit(prog, 0, a + b, c, f.pos);
    SliceSplit(prog, 0, a, b, f.pos);
  }

  /** Each part of a buffer cut like `Layout` (interface code `ic`, peer
      code `pc`) is resolved at its own position in `prog`. */
  predicate PartsResolved(prog: seq<Insn>, pos: seq<nat>, ic: seq<Insn>, pc: seq<Insn>)
  {
    var n, m := |ic|, |pc|;
    |prog| == 12 + n + m
    && SliceResolved(prog, 0, HEAD, pos)
    && SliceResolved(prog, 3, ic, pos)
    && SliceResolved(prog, 3 + n, MID, pos)
    && SliceResolved(prog, 9 + n, pc, pos)
    && SliceResolved(prog, 9 + n + m, TAIL, pos)
  }

  /** Fixup resolves each part of a buffer cut like `Layout` at its own
      position. */
  lemma ResolvedParts(f: Filter, prog: seq<Insn>, ic: seq<Insn>, pc: seq<Insn>)
    requires Valid(f) && f.numops < MAX_OPCODES && prog == Resolved(f)
    requires f.code == HEAD + ic + MID + pc + TAIL
    ensures PartsResolved(prog, f.pos, ic, pc)
  {
    ResolvedFive(f, prog, HEAD, ic, MID, pc, TAIL);
  }

  /** The fixed instructions around the interface and peer tests. */
  lemma FixedResolved(prog: seq<Insn>, n: nat, m: nat)
    requires 12 + n + m < 0x100
    requires SliceResolved(prog, 0, HEAD, Positions(n, m))
    requires SliceResolved(prog, 3 + n, MID, Positions(n, m))
    requires SliceResolved(prog, 9 + n + m, TAIL, Positions(n, m))
    ensures FixedAt(prog, n, m)
  {
    var pos := Positions(n, m);
    assert ResolvedAt(prog, 0, HEAD[0], pos) && ResolvedAt(prog, 1, HEAD[1], pos) && ResolvedAt(prog, 2, HEAD[2], pos);
    assert ResolvedAt(prog, 3 + n, MID[0], pos) && ResolvedAt(prog, 3 + n + 1, MID[1], pos);
    assert ResolvedAt(prog, 3 + n + 2, MID[2], pos) && ResolvedAt(prog, 3 + n + 3, MID[3], pos);
    assert ResolvedAt(prog, 3 + n + 4, MID[4], pos) && ResolvedAt(prog, 3 + n + 5, MID[5], pos);
    assert ResolvedAt(prog, 9 + n + m, TAIL[0], pos) && ResolvedAt(prog, 9 + n + m + 1, TAIL[1], pos);
    assert ResolvedAt(prog, 9 + n + m + 2, TAIL[2], pos);
  }

  /** Resolved interface tests at 3, for the positions of `Layout`. */
  lemma IfacesFromParts(prog: seq<Insn>, ifaces: seq<u32>, m: nat)
    requires |ifaces| > 0 && 12 + |ifaces| + m < 0x100
    requires SliceResolved(prog, 3, IfaceCode(ifaces), Positions(|ifaces|, m))
    ensures IfacesAt(prog, 3, ifaces, 3 + |ifaces|, 10 + |ifaces| + m)
  {
    IfacesResolved(prog, ifaces, Positions(|ifaces|, m), 0);
    assert ifaces[0..] == ifaces;
  }

  /** A program made of the parts of `Layout`, each resolved at its own
      position, jumps where `PolicyLayout` says. */
  lemma PartsMakePolicyLayout(prog: seq<Insn>, ifaces: seq<u32>, locals: seq<Peer>)
    requires |ifaces| > 0 && 12 + |ifaces| + |PeerCode(locals)| < MAX_OPCODES
    requires PartsResolved(prog, Positions(|ifaces|, |PeerCode(locals)|), IfaceCode(ifaces), PeerCode(locals))
    ensures PolicyLayout(prog, ifaces, locals)
  {
    var n, m := |ifaces|, |PeerCode(locals)|;
    FixedResolved(prog, n, m);
    IfacesFromParts(prog, ifaces, m);
    PeersResolved(prog, 9 + n, locals, Positions(n, m));
  }

  /** The resolved `Layout` jumps where `PolicyLayout` says. */
  lemma ResolvedPolicyLayout(f: Filter, ifaces: seq<u32>, locals: seq<Peer>)
    requires Valid(f) && f.numops < MAX_OPCODES && |ifaces| > 0
    requires f.code == HEAD + IfaceCode(ifaces) + MID + PeerCode(locals) + TAIL
    requires f.pos == Positions(|ifaces|, |PeerCode(locals)|)
    ensures PolicyLayout(Resolved(f), ifaces, locals)
  {
    ResolvedParts(f, Resolved(f), IfaceCode(ifaces), PeerCode(locals));
    PartsMakePolicyLayout(Resolved(f), ifaces, locals);
  }

  /** Whatever `install_filter_callback` installs keeps exactly the frames
      the policy admits, for the LOCAL peers of the registry. */
  lemma InstalledFilterVerdict(ifaces: seq<u32>, peers: seq<Peer>, fr: Frame)
    ensures var r := BuildFilter(ifaces, peers);
      r.Some? ==>
        Exec(r.value, 0, 0, fr) == Returned(if Admitted(fr, ifaces, Select(peers, LOCAL_PEERS)) then ACCEPT_ALL else 0)
  {
    var locals := Select(peers, LOCAL_PEERS);
    BuildFilterLayout(ifaces, peers);
    if BuildFilter(ifaces, peers).Some? {
      ResolvedPolicyLayout(Layout(ifaces, locals), ifaces, locals);
      PolicyVerdict(Resolved(Layout(ifaces, locals)), ifaces, locals, fr);
    }
  }

  /** Every interface test jumps inside a program holding `ok` and `d`. */
  lemma {:induction false} IfacesInside(prog: seq<Insn>, s: nat, ifaces: seq<u32>, ok: nat, d: nat)
    requires IfacesAt(prog, s, ifaces, ok, d) && ok < |prog| && d < |prog|
    ensures s + |ifaces| <= |prog|
    ensures forall i :: s <= i < s + |ifaces| ==>
      IsJump(prog[i].code) && i + 1 + prog[i].jt < |prog| && i + 1 + prog[i].jf < |prog|
    decreases |ifaces|
  {
    if |ifaces| > 1 {
      IfacesInside(prog, s + 1, ifaces[1..], ok, d);
    }
  }

  /** The peer tests fill `[s, e)` and jump inside a program holding `d`
      and `e`. */
  lemma {:induction false} PeersInside(prog: seq<Insn>, s: nat, locals: seq<Peer>, d: nat, e: nat)
    requires PeersAt(prog, s, locals, d, e) && d < |prog| && e < |prog|
    ensures s <= e
    ensures forall i :: s <= i < e ==>
      IsJump(prog[i].code) && i + 1 + prog[i].jt < |prog| && i + 1 + prog[i].jf < |prog|
    decreases |locals|
  {
    if locals != [] {
      var p := locals[0];
      if p.protocolType != ETHPROTO_IP {
        PeersInside(prog, s, locals[1..], d, e);
      } else if p.prefixLength != 32 {
        PeersInside(prog, s + 2, locals[1..], d, e);
      } else {
        PeersInside(prog, s + 1, locals[1..], d, e);
      }
    }
  }

  /** A program laid out as `PolicyLayout` says is well formed. */
  lemma PolicyLayoutWellFormed(prog: seq<Insn>, ifaces: seq<u32>, locals: seq<Peer>)
    requires PolicyLayout(prog, ifaces, locals)
    ensures WellFormed(prog)
  {
    var n, m := |ifaces|, |PeerCode(locals)|;
    IfacesInside(prog, 3, ifaces, 3 + n, 10 + n + m);
    PeersInside(prog, 9 + n, locals, 10 + n + m, 9 + n + m);
    forall i | 0 <= i < |prog|
      ensures prog[i].code == LD_W_ABS || prog[i].code == RET_K
        || (IsJump(prog[i].code) && i + 1 + prog[i].jt < |prog| && i + 1 + prog[i].jf < |prog|)
    {
      if i < 3 {
      } else if i < 3 + n {
      } else if i < 9 + n {
        assert i - 3 - n in {0, 1, 2, 3, 4, 5};
      } else if i < 9 + n + m {
      } else {
        assert i - 9 - n - m in {0, 1, 2};
      }
    }
  }

  /** Every label the installed program uses was marked after the jumps
      that use it, so every resolved jump lands inside the program; and
      the program ends with a return. */
  lemma InstalledFilterWellFormed(ifaces: seq<u32>, peers: seq<Peer>)
    ensures var r := BuildFilter(ifaces, peers);
      r.Some? ==> WellFormed(r.value)
  {
    var locals := Select(peers, LOCAL_PEERS);
    BuildFilterLayout(ifaces, peers);
    if BuildFilter(ifaces, peers).Some? {
      ResolvedPolicyLayout(Layout(ifaces, locals), ifaces, locals);
      PolicyLayoutWellFormed(Resolved(Layout(ifaces, locals)), ifaces, locals);
    }
  }
}
