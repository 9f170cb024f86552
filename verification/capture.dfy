/** The PF_PACKET reader `pfp_read` (nhrp/sysdep_pfpacket.c:231-311).

    Each frame is either skipped, ends the read loop (when its addresses
    cannot be parsed), is sent again once per eligible peer with the peer's
    NBMA next hop as link-layer destination, or is handed to the NHRP
    traffic path. Socket reads, errno handling and the sends themselves
    are not part of this model: frames arrive as a sequence and sends are
    returned as events. Address parsing and the multicast test belong to
    the address utilities and are parameters. */
module Capture {
  import opened Options
  import opened Bytes
  import opened Frames
  import opened Registry

  /** The source and destination protocol addresses of a frame, as
      `nhrp_address_parse_packet` extracts them. */
  datatype Addresses = Addresses(src: seq<byte>, dst: seq<byte>)

  /** One `sendmsg` of `pfp_send_mcast`: the frame's bytes, unchanged, on
      the frame's interface, with a peer's next hop as link-layer address. */
  datatype Transmit = Transmit(ifindex: u32, protocol: u16, llAddr: seq<byte>, data: seq<byte>)

  datatype Decision =
    | Skip
    | StopReading
    | Replicate(sends: seq<Transmit>)
    | HandOff(ifindex: u32, protocol: u16, data: seq<byte>)

  /** `nbmaset`: some byte of the frame's link-layer address is non-zero. */
  predicate NbmaSet(llAddr: seq<byte>)
  {
    exists i :: 0 <= i < |llAddr| && llAddr[i] != 0
  }

  /** The loop of lines 285-288 computing `nbmaset`. */
  method ComputeNbmaSet(llAddr: seq<byte>) returns (nbmaset: bool)
    ensures nbmaset <==> NbmaSet(llAddr)
  {
    nbmaset := false;
    var i := 0;
    while i < |llAddr|
      invariant 0 <= i <= |llAddr|
      invariant nbmaset <==> exists j :: 0 <= j < i && llAddr[j] != 0
    {
      if llAddr[i] != 0 {
        nbmaset := true;
      }
      i := i + 1;
    }
  }

  /** The sends of `nhrp_peer_foreach(pfp_send_mcast, ...)` for frame `fr`
      over `peers`, one per peer and in order. */
  function Sends(fr: Frame, peers: seq<Peer>): (r: seq<Transmit>)
    ensures |r| == |peers|
    ensures forall j :: 0 <= j < |r| ==>
      r[j].llAddr == peers[j].nextHop && r[j].data == fr.data
      && r[j].ifindex == fr.ifindex && r[j].protocol == fr.protocol
  {
    seq(|peers|, j requires 0 <= j < |peers| => Transmit(fr.ifindex, fr.protocol, peers[j].nextHop, fr.data))
  }

  /** The decision for one frame delivered on the socket: `ifaces` are the
      indices of the known interfaces, `peers` the peer registry. */
  function Classify(fr: Frame, ifaces: seq<u32>, peers: seq<Peer>,
                    parse: (u16, seq<byte>) -> Option<Addresses>,
                    isMulticast: seq<byte> -> bool): (d: Decision)
    ensures d.Skip? <==>
      fr.pkttype != PACKET_OUTGOING || fr.ifindex !in ifaces
      || (parse(fr.protocol, fr.data).Some? && isMulticast(parse(fr.protocol, fr.data).value.dst) && NbmaSet(fr.llAddr))
    ensures d.StopReading? <==>
      fr.pkttype == PACKET_OUTGOING && fr.ifindex in ifaces && parse(fr.protocol, fr.data).None?
    ensures d.Replicate? ==>
      isMulticast(parse(fr.protocol, fr.data).value.dst) && !NbmaSet(fr.llAddr)
      && var targets := Select(peers, ReplicationPeers(fr.ifindex));
         |d.sends| == |targets|
         && forall j :: 0 <= j < |d.sends| ==> d.sends[j].llAddr == targets[j].nextHop && d.sends[j].data == fr.data
    ensures d.HandOff? <==>
      fr.pkttype == PACKET_OUTGOING && fr.ifindex in ifaces
      && parse(fr.protocol, fr.data).Some? && !isMulticast(parse(fr.protocol, fr.data).value.dst)
    ensures d.HandOff? ==> d == HandOff(fr.ifindex, fr.protocol, fr.data)
  {
    if fr.pkttype != PACKET_OUTGOING then Skip
    else if fr.ifindex !in ifaces then Skip
    else match parse(fr.protocol, fr.data)
      case None => StopReading
      case Some(addrs) =>
        if isMulticast(addrs.dst) then
          if NbmaSet(fr.llAddr) then Skip
          else Replicate(Sends(fr, Select(peers, ReplicationPeers(fr.ifindex))))
        else HandOff(fr.ifindex, fr.protocol, fr.data)
  }

  /** What the reader does with the frames: sends, and hand-offs to the
      traffic path. */
  datatype Event =
    | Sent(t: Transmit)
    | Traffic(ifindex: u32, protocol: u16, data: seq<byte>)

  function SentAll(sends: seq<Transmit>): (r: seq<Event>)
    ensures |r| == |sends| && forall j :: 0 <= j < |r| ==> r[j] == Sent(sends[j])
  {
    seq(|sends|, j requires 0 <= j < |sends| => Sent(sends[j]))
  }

  /** The events of one frame that does not end the loop. */
  function Effect(d: Decision): seq<Event>
  {
    match d
    case Replicate(sends) => SentAll(sends)
    case HandOff(i, p, data) => [Traffic(i, p, data)]
    case _ => []
  }

  /** The decision `pfp_read` takes for each frame, given the registries
      and the address utilities. */
  function Reader(ifaces: seq<u32>, peers: seq<Peer>,
                  parse: (u16, seq<byte>) -> Option<Addresses>,
                  isMulticast: seq<byte> -> bool): Frame -> Decision
  {
    fr => Classify(fr, ifaces, peers, parse, isMulticast)
  }

  /** The events of reading `frames` in order, deciding each with
      `decide`, until one ends the loop. */
  function Run(frames: seq<Frame>, decide: Frame -> Decision): (r: seq<Event>)
    ensures forall e | e in r :: exists j | 0 <= j < |frames| :: e in Effect(decide(frames[j]))
    decreases |frames|
  {
    if frames == [] then []
    else if decide(frames[0]).StopReading? then []
    else Effect(decide(frames[0])) + Run(frames[1..], decide)
  }

  /** None of `frames` ends the loop. */
  predicate NoStop(frames: seq<Frame>, decide: Frame -> Decision)
  {
    forall i :: 0 <= i < |frames| ==> !decide(frames[i]).StopReading?
  }

  /** One iteration of the read loop. */
  lemma RunStep(frames: seq<Frame>, i: nat, decide: Frame -> Decision)
    requires i < |frames|
    ensures Run(frames[i..], decide)
      == if decide(frames[i]).StopReading? then [] else Effect(decide(frames[i])) + Run(frames[i + 1..], decide)
    ensures NoStop(frames[..i], decide) && !decide(frames[i]).StopReading? ==> NoStop(frames[..i + 1], decide)
  {
    assert frames[i..][0] == frames[i];
    assert frames[i..][1..] == frames[i + 1..];
    assert frames[..i + 1] == frames[..i] + [frames[i]];
  }

  /** A frame that does not end the loop adds its effect to the events. */
  lemma ContinueStep(frames: seq<Frame>, i: nat, decide: Frame -> Decision, events: seq<Event>)
    requires i < |frames| && !decide(frames[i]).StopReading?
    requires events + Run(frames[i..], decide) == Run(frames, decide)
    requires NoStop(frames[..i], decide)
    ensures (events + Effect(decide(frames[i]))) + Run(frames[i + 1..], decide) == Run(frames, decide)
    ensures NoStop(frames[..i + 1], decide)
  {
    RunStep(frames, i, decide);
    EventsAssoc(events, Effect(decide(frames[i])), Run(frames[i + 1..], decide));
  }

  lemma EventsAssoc(a: seq<Event>, b: seq<Event>, c: seq<Event>)
    ensures (a + b) + c == a + (b + c)
  {
  }

  /** When the loop returns, the events so far are all there will be. */
  lemma StopStep(frames: seq<Frame>, i: nat, decide: Frame -> Decision, events: seq<Event>)
    requires i <= |frames|
    requires i < |frames| ==> decide(frames[i]).StopReading?
    requires events + Run(frames[i..], decide) == Run(frames, decide)
    ensures events == Run(frames, decide)
  {
    if i < |frames| {
      RunStep(frames, i, decide);
    } else {
      assert frames[i..] == [];
    }
    assert events + [] == events;
  }

  /** The `while (TRUE)` loop of lines 255-311 over the frames the socket
      delivers, with the per-frame decision `decide`: the events it causes
      and the number of frames it consumed before returning. It returns
      at the first frame that ends the loop, or when the frames run out. */
  method ReadLoop(frames: seq<Frame>, decide: Frame -> Decision) returns (events: seq<Event>, consumed: nat)
    ensures consumed <= |frames|
    ensures events == Run(frames, decide)
    ensures NoStop(frames[..consumed], decide)
    ensures consumed < |frames| ==> decide(frames[consumed]).StopReading?
  {
    events := [];
    var i := 0;
    assert frames[0..] == frames;
    while i < |frames|
      invariant 0 <= i <= |frames|
      invariant events + Run(frames[i..], decide) == Run(frames, decide)
      invariant NoStop(frames[..i], decide)
    {
      var d := decide(frames[i]);
      if d.StopReading? {
        StopStep(frames, i, decide, events);
        return events, i;
      }
      ContinueStep(frames, i, decide, events);
      events := events + Effect(d);
      i := i + 1;
    }
    StopStep(frames, i, decide, events);
    consumed := i;
  }

  /** Reading a batch and then another is reading both, as long as the
      first batch does not end the loop. */
  lemma {:induction false} RunAppend(a: seq<Frame>, b: seq<Frame>, decide: Frame -> Decision)
    requires NoStop(a, decide)
    ensures Run(a + b, decide) == Run(a, decide) + Run(b, decide)
    decreases |a|
  {
    if a != [] {
      assert (a + b)[0] == a[0];
      assert (a + b)[1..] == a[1..] + b;
      assert NoStop(a[1..], decide) by {
        forall i | 0 <= i < |a[1..]|
          ensures !decide(a[1..][i]).StopReading?
        {
          assert a[1..][i] == a[i + 1];
        }
      }
      RunAppend(a[1..], b, decide);
    } else {
      assert a + b == b;
    }
  }

  /** Frames after one that ends the loop are never looked at. */
  lemma StopDiscardsRest(a: seq<Frame>, stop: Frame, b: seq<Frame>, decide: Frame -> Decision)
    requires NoStop(a, decide) && decide(stop).StopReading?
    ensures Run(a + [stop] + b, decide) == Run(a, decide)
  {
    RunAppend(a, [stop] + b, decide);
    assert a + [stop] + b == a + ([stop] + b);
    assert ([stop] + b)[0] == stop;
  }
}
