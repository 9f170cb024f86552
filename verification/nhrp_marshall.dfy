/** The marshaller of nhrp_packet.c: a bounded cursor writer and the
    functions that drive it to serialise a packet, with back-patching of the
    extension lengths and of the header fields known only at the end. */
module NhrpMarshall {
  import opened Options
  import opened Bytes
  import opened NhrpHeader
  import opened NhrpWire

  /** The cursor: what has been written so far (`pos - pdu` is `|out|`) and
      the room left (`pduleft`). */
  datatype Writer = Writer(out: seq<byte>, left: nat)

  /** `marshall_binary`: copy `raw` at the cursor if it fits. */
  function MarshallBinary(w: Writer, raw: seq<byte>): (r: Option<Writer>)
    ensures r.Some? <==> |raw| <= w.left
    ensures r.Some? ==> |r.value.out| == |w.out| + |raw|
    ensures r.Some? ==> r.value.out[..|w.out|] == w.out && r.value.out[|w.out|..] == raw
    ensures r.Some? ==> |r.value.out| + r.value.left == |w.out| + w.left
  {
    if w.left < |raw| then None
    else Some(Writer(w.out + raw, w.left - |raw|))
  }

  /** `marshall_protocol_address` */
  function MarshallProtocolAddress(w: Writer, pa: ProtocolAddress): (r: Option<Writer>)
    ensures r.Some? <==> |pa.addr| <= w.left
    ensures r.Some? ==> r.value.out == w.out + pa.addr && r.value.left == w.left - |pa.addr|
  {
    MarshallBinary(w, pa.addr)
  }

  /** `marshall_nbma_address`: address bytes, then sub-address bytes. */
  function MarshallNbmaAddress(w: Writer, na: NbmaAddress): (r: Option<Writer>)
    ensures r.Some? <==> |na.addr| + |na.subaddr| <= w.left
    ensures r.Some? ==> r.value.out == w.out + na.addr + na.subaddr
    ensures r.Some? ==> r.value.left == w.left - |na.addr| - |na.subaddr|
  {
    var w1 :- MarshallBinary(w, na.addr);
    MarshallBinary(w1, na.subaddr)
  }

  /** `marshall_payload`: nothing for NONE, the buffer for RAW, failure for
      any other payload type. */
  function MarshallPayload(w: Writer, p: Payload): (r: Option<Writer>)
    ensures r.Some? <==> Supported(p) && |ContentBytes(p.content)| <= w.left
    ensures r.Some? ==> r.value.out == w.out + ContentBytes(p.content)
    ensures r.Some? ==> r.value.left == w.left - |ContentBytes(p.content)|
  {
    match p.content
    case NoContent => Some(w)
    case Raw(data) => MarshallBinary(w, data)
    case OtherType(_) => None
  }

  /** One iteration of the extension loop for a populated slot: a header
      with length 0, the content, then the length back-patched. */
  function MarshallExtension(w: Writer, i: nat, p: Payload): (r: Option<Writer>)
    ensures r.Some? ==> |w.out| <= |r.value.out| && r.value.out[..|w.out|] == w.out
    ensures r.Some? ==> |r.value.out| + r.value.left == |w.out| + w.left
  {
    var start := |w.out|;
    var w1 :- MarshallBinary(w, ExtensionHeader(TypeField(i, p.compulsory), 0));
    var w2 :- MarshallPayload(w1, p);
    Some(w2.(out := PatchBE16(w2.out, start + 2, (|w2.out| - start - EXTENSION_HEADER_SIZE) % 0x1_0000)))
  }

  /** The extension loop from slot `i` on; NONE slots are skipped. */
  function MarshallExtensions(w: Writer, slots: seq<Payload>, i: nat): (r: Option<Writer>)
    ensures r.Some? ==> |w.out| <= |r.value.out| && r.value.out[..|w.out|] == w.out
    ensures r.Some? ==> |r.value.out| + r.value.left == |w.out| + w.left
    decreases |slots| - i
  {
    if i >= |slots| then Some(w)
    else if slots[i].content.NoContent? then MarshallExtensions(w, slots, i + 1)
    else
      var w1 :- MarshallExtension(w, i, slots[i]);
      MarshallExtensions(w1, slots, i + 1)
  }

  /** The final back-patches: packet size, zero checksum, and the four
      address-length bytes. */
  function PatchHeader(out: seq<byte>, p: Packet): (r: seq<byte>)
    requires HEADER_SIZE <= |out|
    ensures |r| == |out|
    ensures r[HEADER_SIZE..] == out[HEADER_SIZE..]
  {
    var o1 := PatchBE16(out, OFF_PACKET_SIZE, |out| % 0x1_0000);
    var o2 := PatchBE16(o1, OFF_CHECKSUM, 0);
    var o3 := PatchByte(o2, OFF_SRC_NBMA_LEN, |p.srcNbma.addr|);
    var o4 := PatchByte(o3, OFF_SRC_NBMA_SUB_LEN, |p.srcNbma.subaddr|);
    var o5 := PatchByte(o4, OFF_SRC_PROTO_LEN, |p.srcProto.addr|);
    PatchByte(o5, OFF_DST_PROTO_LEN, |p.dstProto.addr|)
  }

  /** The first part of `marshall_packet`: header, source NBMA address,
      source and destination protocol addresses, payload. */
  function MarshallMandatory(p: Packet, cap: nat): (r: Option<Writer>)
    ensures r.Some? ==> HEADER_SIZE <= |r.value.out|
    ensures r.Some? ==> |r.value.out| + r.value.left == cap
  {
    var w1 :- MarshallBinary(Writer([], cap), Encode(p.hdr));
    var w2 :- MarshallNbmaAddress(w1, p.srcNbma);
    var w3 :- MarshallProtocolAddress(w2, p.srcProto);
    var w4 :- MarshallProtocolAddress(w3, p.dstProto);
    MarshallPayload(w4, p.extension[NHRP_EXTENSION_PAYLOAD])
  }

  /** `marshall_packet` into a buffer of `cap` bytes: the PDU (whose length
      is the C return value), or None where the C code returns -1. */
  function MarshallPacket(p: Packet, cap: nat): (r: Option<seq<byte>>)
    ensures r.Some? ==> HEADER_SIZE + EXTENSION_HEADER_SIZE <= |r.value| <= cap
  {
    var w5 :- MarshallMandatory(p, cap);
    var w6 := w5.(out := PatchBE16(w5.out, OFF_EXTENSION_OFFSET, |w5.out| % 0x1_0000));
    var w7 :- MarshallExtensions(w6, p.extension, 1);
    var w8 :- MarshallBinary(w7, END_MARKER);
    Some(PatchHeader(w8.out, p))
  }

  const MAX_PDU_SIZE: nat := 1500

  /** `nhrp_packet_send`: marshals into a 1500-byte buffer and reports
      failure whatever happens; `dumped` is what it hex-dumps. */
  datatype SendOutcome = SendOutcome(sent: bool, dumped: Option<seq<byte>>)

  function PacketSend(p: Packet): (r: SendOutcome)
    ensures !r.sent
    ensures r.dumped.Some? <==> AllSupported(p.extension) && EncodedLength(p) <= MAX_PDU_SIZE
    ensures r.dumped.Some? ==> r.dumped.value == Encoding(p)
  {
    MarshallPacketIsEncoding(p, MAX_PDU_SIZE);
    SendOutcome(false, MarshallPacket(p, MAX_PDU_SIZE))
  }

  /** `nhrp_packet_recv`: a stub that never produces a packet. */
  function PacketRecv(p: Packet): (received: bool)
    ensures !received
  {
    false
  }

  // ---------------------------------------------------------------------
  // Correctness of the cursor implementation against the wire image.

  /** Back-patching the length of a just-written extension header. */
  lemma PatchExtensionLength(prefix: seq<byte>, t: u16, c: seq<byte>)
    ensures PatchBE16(prefix + ExtensionHeader(t, 0) + c, |prefix| + 2, |c| % 0x1_0000)
         == prefix + ExtensionHeader(t, |c| % 0x1_0000) + c
  {
    var a := prefix + ExtensionHeader(t, 0) + c;
    var b := prefix + ExtensionHeader(t, |c| % 0x1_0000) + c;
    var r := PatchBE16(a, |prefix| + 2, |c| % 0x1_0000);
    assert |r| == |b|;
    forall k | 0 <= k < |r|
      ensures r[k] == b[k]
    {
      if k < |prefix| {
      } else if k < |prefix| + EXTENSION_HEADER_SIZE {
      } else {
        assert r[k] == a[k] == c[k - |prefix| - EXTENSION_HEADER_SIZE];
      }
    }
  }

  lemma MarshallExtensionSpec(w: Writer, i: nat, p: Payload)
    requires !p.content.NoContent?
    ensures MarshallExtension(w, i, p)
         == if Supported(p) && |ExtensionRecord(i, p)| <= w.left
            then Some(Writer(w.out + ExtensionRecord(i, p), w.left - |ExtensionRecord(i, p)|))
            else None
  {
    var c := ContentBytes(p.content);
    var t := TypeField(i, p.compulsory);
    if Supported(p) && |ExtensionRecord(i, p)| <= w.left {
      PatchExtensionLength(w.out, t, c);
      assert w.out + ExtensionHeader(t, |c| % 0x1_0000) + c == w.out + ExtensionRecord(i, p);
    }
  }

  /** What the extension loop must do from slot `i` on: append the
      extension chain when every slot has a supported type and the chain
      fits, and fail otherwise. */
  function ChainWrite(w: Writer, slots: seq<Payload>, i: nat): Option<Writer>
  {
    if SupportedFrom(slots, i) && |ExtensionChain(slots, i)| <= w.left
    then Some(Writer(w.out + ExtensionChain(slots, i), w.left - |ExtensionChain(slots, i)|))
    else None
  }

  /** The extension loop writes exactly the extension chain, or fails when a
      slot has an unsupported type or the chain does not fit. */
  lemma {:induction false} MarshallExtensionsSpec(w: Writer, slots: seq<Payload>, i: nat)
    ensures MarshallExtensions(w, slots, i) == ChainWrite(w, slots, i)
    decreases |slots| - i
  {
    if i >= |slots| {
      assert w.out + ExtensionChain(slots, i) == w.out;
    } else if slots[i].content.NoContent? {
      SupportedFromStep(slots, i);
      MarshallExtensionsSpec(w, slots, i + 1);
    } else {
      MarshallPopulatedStep(w, slots, i);
    }
  }

  lemma {:induction false} MarshallPopulatedStep(w: Writer, slots: seq<Payload>, i: nat)
    requires i < |slots| && !slots[i].content.NoContent?
    ensures MarshallExtensions(w, slots, i) == ChainWrite(w, slots, i)
    decreases |slots| - i, 0
  {
    var rec := ExtensionRecord(i, slots[i]);
    MarshallExtensionSpec(w, i, slots[i]);
    if Supported(slots[i]) && |rec| <= w.left {
      var w1 := Writer(w.out + rec, w.left - |rec|);
      ExtensionsAfterRecord(w, slots, i, w1);
      MarshallExtensionsSpec(w1, slots, i + 1);
      ChainWriteStep(w, slots, i);
    } else {
      ExtensionsAfterRecord(w, slots, i, w);
      ChainWriteFails(w, slots, i);
    }
  }

  /** Past a populated slot whose record fits, the chain still to write is
      the rest of the chain. */
  lemma ChainWriteStep(w: Writer, slots: seq<Payload>, i: nat)
    requires i < |slots| && !slots[i].content.NoContent?
    requires Supported(slots[i]) && |ExtensionRecord(i, slots[i])| <= w.left
    ensures var rec := ExtensionRecord(i, slots[i]);
      ChainWrite(w, slots, i) == ChainWrite(Writer(w.out + rec, w.left - |rec|), slots, i + 1)
  {
    var rec := ExtensionRecord(i, slots[i]);
    SupportedFromStep(slots, i);
    ChainStep(slots, i);
    WriterAppend(w, rec, ExtensionChain(slots, i + 1));
  }

  /** A populated slot that is unsupported or does not fit fails the loop. */
  lemma ChainWriteFails(w: Writer, slots: seq<Payload>, i: nat)
    requires i < |slots| && !slots[i].content.NoContent?
    requires !(Supported(slots[i]) && |ExtensionRecord(i, slots[i])| <= w.left)
    ensures ChainWrite(w, slots, i).None?
  {
    SupportedFromStep(slots, i);
    ChainStep(slots, i);
  }

  lemma ChainStep(slots: seq<Payload>, i: nat)
    requires i < |slots| && !slots[i].content.NoContent?
    ensures ExtensionChain(slots, i) == ExtensionRecord(i, slots[i]) + ExtensionChain(slots, i + 1)
  {
  }

  /** The loop at a populated slot fails with its record, or goes on after it. */
  lemma ExtensionsAfterRecord(w: Writer, slots: seq<Payload>, i: nat, w1: Writer)
    requires i < |slots| && !slots[i].content.NoContent?
    ensures MarshallExtension(w, i, slots[i]).None? ==> MarshallExtensions(w, slots, i).None?
    ensures MarshallExtension(w, i, slots[i]) == Some(w1)
        ==> MarshallExtensions(w, slots, i) == MarshallExtensions(w1, slots, i + 1)
  {
  }

  /** Writing `a` and then `b` is writing `a + b`. */
  lemma WriterAppend(w: Writer, a: seq<byte>, b: seq<byte>)
    ensures (w.out + a) + b == w.out + (a + b)
  {
  }

  /** Marshalling produces exactly the wire image when every slot has a
      supported type and the image fits the buffer, and fails otherwise. */
  lemma MarshallPacketIsEncoding(p: Packet, cap: nat)
    ensures MarshallPacket(p, cap)
         == if AllSupported(p.extension) && EncodedLength(p) <= cap then Some(Encoding(p)) else None
  {
    if AllSupported(p.extension) && EncodedLength(p) <= cap {
      MarshallSuccess(p, cap);
    } else {
      MarshallFailure(p, cap);
    }
  }

  /** The first part writes the header and the body, or fails when they do
      not fit or the payload type is unsupported. */
  lemma MarshallMandatorySpec(p: Packet, cap: nat)
    ensures MarshallMandatory(p, cap)
         == if Supported(p.extension[NHRP_EXTENSION_PAYLOAD]) && HEADER_SIZE + |Body(p)| <= cap
            then Some(Writer(Encode(p.hdr) + Body(p), cap - HEADER_SIZE - |Body(p)|))
            else None
  {
    var e := Encode(p.hdr);
    var payload := ContentBytes(p.extension[NHRP_EXTENSION_PAYLOAD].content);
    assert e + Body(p) == e + p.srcNbma.addr + p.srcNbma.subaddr + p.srcProto.addr + p.dstProto.addr + payload;
  }

  lemma MarshallSuccess(p: Packet, cap: nat)
    requires AllSupported(p.extension) && EncodedLength(p) <= cap
    ensures MarshallPacket(p, cap) == Some(Encoding(p))
  {
    var body := Body(p);
    var chain := ExtensionChain(p.extension, 1);
    var h1 := OffsetHeader(p);
    var rest := body + chain + END_MARKER;
    MarshallWrites(p, cap);
    HeaderFinalPatches(h1, rest, p);
    ConcatAssoc(Encode(FinalHeader(p)), body, chain, END_MARKER);
  }

  /** The header offset of the first extension, as the packet's. */
  function OffsetHeader(p: Packet): Header
  {
    p.hdr.(extensionOffset := ExtensionStart(p) % 0x1_0000)
  }

  /** The first part, followed by the extension-offset back-patch. */
  lemma MandatoryPatched(p: Packet, cap: nat)
    requires AllSupported(p.extension) && EncodedLength(p) <= cap
    ensures MarshallMandatory(p, cap).Some?
    ensures HEADER_SIZE + |Body(p)| + |ExtensionChain(p.extension, 1)| + EXTENSION_HEADER_SIZE <= cap
    ensures var w5 := MarshallMandatory(p, cap).value;
      w5.(out := PatchBE16(w5.out, OFF_EXTENSION_OFFSET, |w5.out| % 0x1_0000))
        == Writer(Encode(OffsetHeader(p)) + Body(p), cap - HEADER_SIZE - |Body(p)|)
  {
    SupportedFromStep(p.extension, 0);
    MarshallMandatorySpec(p, cap);
    HeaderPatchedExtensionOffset(p.hdr, Body(p), ExtensionStart(p) % 0x1_0000);
  }

  /** The extension loop and the end marker, from the patched writer. */
  lemma ChainWritten(p: Packet, w6: Writer)
    requires AllSupported(p.extension)
    requires |ExtensionChain(p.extension, 1)| + EXTENSION_HEADER_SIZE <= w6.left
    ensures MarshallExtensions(w6, p.extension, 1).Some?
    ensures var w7 := MarshallExtensions(w6, p.extension, 1).value;
      MarshallBinary(w7, END_MARKER).Some?
      && MarshallBinary(w7, END_MARKER).value.out == w6.out + ExtensionChain(p.extension, 1) + END_MARKER
  {
    SupportedFromStep(p.extension, 0);
    MarshallExtensionsSpec(w6, p.extension, 1);
  }

  /** The stages of `MarshallPacket`, each succeeding with a known writer. */
  lemma MarshallPacketStages(p: Packet, cap: nat, w5: Writer, w7: Writer, w8: Writer)
    requires MarshallMandatory(p, cap) == Some(w5)
    requires MarshallExtensions(w5.(out := PatchBE16(w5.out, OFF_EXTENSION_OFFSET, |w5.out| % 0x1_0000)), p.extension, 1) == Some(w7)
    requires MarshallBinary(w7, END_MARKER) == Some(w8)
    ensures MarshallPacket(p, cap) == Some(PatchHeader(w8.out, p))
  {
  }

  /** The writers after the mandatory part, the extension loop and the end
      marker, with the buffer they leave before the final back-patches. */
  lemma WriterStages(p: Packet, cap: nat) returns (w5: Writer, w7: Writer, w8: Writer)
    requires AllSupported(p.extension) && EncodedLength(p) <= cap
    ensures MarshallMandatory(p, cap) == Some(w5)
    ensures MarshallExtensions(w5.(out := PatchBE16(w5.out, OFF_EXTENSION_OFFSET, |w5.out| % 0x1_0000)), p.extension, 1) == Some(w7)
    ensures MarshallBinary(w7, END_MARKER) == Some(w8)
    ensures w8.out == Encode(OffsetHeader(p)) + (Body(p) + ExtensionChain(p.extension, 1) + END_MARKER)
  {
    var head, body, chain := Encode(OffsetHeader(p)), Body(p), ExtensionChain(p.extension, 1);
    MandatoryPatched(p, cap);
    w5 := MarshallMandatory(p, cap).value;
    var w6 := w5.(out := PatchBE16(w5.out, OFF_EXTENSION_OFFSET, |w5.out| % 0x1_0000));
    assert w6.out == head + body && w6.left == cap - HEADER_SIZE - |body|;
    ChainWritten(p, w6);
    w7 := MarshallExtensions(w6, p.extension, 1).value;
    w8 := MarshallBinary(w7, END_MARKER).value;
    ConcatAssoc(head, body, chain, END_MARKER);
  }

  /** Before the final back-patches, the buffer holds the header with its
      extension offset set, the body, the chain and the end marker. */
  lemma MarshallWrites(p: Packet, cap: nat)
    requires AllSupported(p.extension) && EncodedLength(p) <= cap
    ensures MarshallPacket(p, cap)
         == Some(PatchHeader(Encode(OffsetHeader(p))
                             + (Body(p) + ExtensionChain(p.extension, 1) + END_MARKER), p))
  {
    var w5, w7, w8 := WriterStages(p, cap);
    MarshallPacketStages(p, cap, w5, w7, w8);
  }

  lemma ConcatAssoc(a: seq<byte>, b: seq<byte>, c: seq<byte>, d: seq<byte>)
    ensures a + b + c + d == a + (b + c + d)
  {
  }

  lemma HeaderPatchedExtensionOffset(h: Header, rest: seq<byte>, v: u16)
    ensures PatchBE16(Encode(h) + rest, OFF_EXTENSION_OFFSET, v) == Encode(h.(extensionOffset := v)) + rest
  {
    PatchBE16Prefix(Encode(h), rest, OFF_EXTENSION_OFFSET, v);
    assert PatchBE16(Encode(h), OFF_EXTENSION_OFFSET, v) == Encode(h.(extensionOffset := v));
  }

  /** The packet-size and checksum back-patches of `PatchHeader`. */
  lemma SizeChecksumPatches(h: Header, rest: seq<byte>, n: u16)
    ensures PatchBE16(PatchBE16(Encode(h) + rest, OFF_PACKET_SIZE, n), OFF_CHECKSUM, 0)
         == Encode(h.(packetSize := n, checksum := 0)) + rest
  {
    var h1 := h.(packetSize := n);
    PatchBE16Prefix(Encode(h), rest, OFF_PACKET_SIZE, n);
    assert PatchBE16(Encode(h), OFF_PACKET_SIZE, n) == Encode(h1);
    PatchBE16Prefix(Encode(h1), rest, OFF_CHECKSUM, 0);
    assert PatchBE16(Encode(h1), OFF_CHECKSUM, 0) == Encode(h1.(checksum := 0));
  }

  /** The four address-length back-patches of `PatchHeader`. */
  lemma LengthPatches(h: Header, rest: seq<byte>, p: Packet)
    ensures PatchByte(PatchByte(PatchByte(PatchByte(Encode(h) + rest,
              OFF_SRC_NBMA_LEN, |p.srcNbma.addr|),
              OFF_SRC_NBMA_SUB_LEN, |p.srcNbma.subaddr|),
              OFF_SRC_PROTO_LEN, |p.srcProto.addr|),
              OFF_DST_PROTO_LEN, |p.dstProto.addr|)
         == Encode(h.(srcNbmaLen := |p.srcNbma.addr|, srcNbmaSubLen := |p.srcNbma.subaddr|,
                      srcProtoLen := |p.srcProto.addr|, dstProtoLen := |p.dstProto.addr|)) + rest
  {
    var h3 := h.(srcNbmaLen := |p.srcNbma.addr|);
    PatchBytePrefix(Encode(h), rest, OFF_SRC_NBMA_LEN, |p.srcNbma.addr|);
    assert PatchByte(Encode(h), OFF_SRC_NBMA_LEN, |p.srcNbma.addr|) == Encode(h3);
    var h4 := h3.(srcNbmaSubLen := |p.srcNbma.subaddr|);
    PatchBytePrefix(Encode(h3), rest, OFF_SRC_NBMA_SUB_LEN, |p.srcNbma.subaddr|);
    assert PatchByte(Encode(h3), OFF_SRC_NBMA_SUB_LEN, |p.srcNbma.subaddr|) == Encode(h4);
    var h5 := h4.(srcProtoLen := |p.srcProto.addr|);
    PatchBytePrefix(Encode(h4), rest, OFF_SRC_PROTO_LEN, |p.srcProto.addr|);
    assert PatchByte(Encode(h4), OFF_SRC_PROTO_LEN, |p.srcProto.addr|) == Encode(h5);
    var h6 := h5.(dstProtoLen := |p.dstProto.addr|);
    PatchBytePrefix(Encode(h5), rest, OFF_DST_PROTO_LEN, |p.dstProto.addr|);
    assert PatchByte(Encode(h5), OFF_DST_PROTO_LEN, |p.dstProto.addr|) == Encode(h6);
  }

  lemma HeaderFinalPatches(h: Header, rest: seq<byte>, p: Packet)
    requires h.extensionOffset == ExtensionStart(p) % 0x1_0000
    requires HEADER_SIZE + |rest| == EncodedLength(p)
    requires h == p.hdr.(extensionOffset := h.extensionOffset)
    ensures PatchHeader(Encode(h) + rest, p) == Encode(FinalHeader(p)) + rest
  {
    var n := (HEADER_SIZE + |rest|) % 0x1_0000;
    SizeChecksumPatches(h, rest, n);
    var h2 := h.(packetSize := n, checksum := 0);
    LengthPatches(h2, rest, p);
  }

  lemma MarshallFailure(p: Packet, cap: nat)
    requires !(AllSupported(p.extension) && EncodedLength(p) <= cap)
    ensures MarshallPacket(p, cap).None?
  {
    var slots := p.extension;
    var body := Body(p);
    SupportedFromStep(slots, 0);
    MarshallMandatorySpec(p, cap);
    if HEADER_SIZE + |body| <= cap && Supported(slots[0]) {
      var w5 := Writer(Encode(p.hdr) + body, cap - HEADER_SIZE - |body|);
      var out6 := PatchBE16(w5.out, OFF_EXTENSION_OFFSET, |w5.out| % 0x1_0000);
      MarshallExtensionsSpec(Writer(out6, w5.left), slots, 1);
    }
  }

  // ---------------------------------------------------------------------
  // What a receiver finds in a marshalled PDU.

  /** The header read back from a marshalled PDU is the caller's header with
      exactly the size, checksum, extension offset and four address-length
      fields rewritten: the size field holds the PDU length, the checksum is
      zero, the extension offset counts the header, addresses and payload. */
  lemma MarshalledHeader(p: Packet, cap: nat, pdu: seq<byte>)
    requires MarshallPacket(p, cap) == Some(pdu)
    ensures HEADER_SIZE <= |pdu|
    ensures var h := Decode(pdu);
      && h.packetSize == |pdu| % 0x1_0000
      && h.checksum == 0
      && h.extensionOffset
         == (HEADER_SIZE + |p.srcNbma.addr| + |p.srcNbma.subaddr| + |p.srcProto.addr| + |p.dstProto.addr|
             + |ContentBytes(p.extension[NHRP_EXTENSION_PAYLOAD].content)|) % 0x1_0000
      && h.srcNbmaLen == |p.srcNbma.addr| && h.srcNbmaSubLen == |p.srcNbma.subaddr|
      && h.srcProtoLen == |p.srcProto.addr| && h.dstProtoLen == |p.dstProto.addr|
      && h == p.hdr.(packetSize := h.packetSize, checksum := 0, extensionOffset := h.extensionOffset,
                     srcNbmaLen := h.srcNbmaLen, srcNbmaSubLen := h.srcNbmaSubLen,
                     srcProtoLen := h.srcProtoLen, dstProtoLen := h.dstProtoLen)
  {
    MarshallPacketIsEncoding(p, cap);
    EncodedHeader(p, pdu);
  }

  lemma EncodedHeader(p: Packet, pdu: seq<byte>)
    requires pdu == Encoding(p)
    ensures HEADER_SIZE <= |pdu|
    ensures var h := Decode(pdu);
      && h.packetSize == |pdu| % 0x1_0000
      && h.checksum == 0
      && h.extensionOffset
         == (HEADER_SIZE + |p.srcNbma.addr| + |p.srcNbma.subaddr| + |p.srcProto.addr| + |p.dstProto.addr|
             + |ContentBytes(p.extension[NHRP_EXTENSION_PAYLOAD].content)|) % 0x1_0000
      && h.srcNbmaLen == |p.srcNbma.addr| && h.srcNbmaSubLen == |p.srcNbma.subaddr|
      && h.srcProtoLen == |p.srcProto.addr| && h.dstProtoLen == |p.dstProto.addr|
      && h == p.hdr.(packetSize := h.packetSize, checksum := 0, extensionOffset := h.extensionOffset,
                     srcNbmaLen := h.srcNbmaLen, srcNbmaSubLen := h.srcNbmaSubLen,
                     srcProtoLen := h.srcProtoLen, dstProtoLen := h.dstProtoLen)
  {
    var rest := Body(p) + ExtensionChain(p.extension, 1) + END_MARKER;
    assert Encoding(p) == Encode(FinalHeader(p)) + rest;
    DecodeEncode(FinalHeader(p), rest);
  }

  /** The address bytes follow the header in the order source NBMA address,
      source NBMA sub-address, source and destination protocol address, then
      the payload; the extensions start at the recorded offset. */
  lemma MarshalledBody(p: Packet, cap: nat, pdu: seq<byte>)
    requires MarshallPacket(p, cap) == Some(pdu)
    ensures ExtensionStart(p) <= |pdu|
    ensures pdu[HEADER_SIZE..ExtensionStart(p)]
         == p.srcNbma.addr + p.srcNbma.subaddr + p.srcProto.addr + p.dstProto.addr
            + ContentBytes(p.extension[NHRP_EXTENSION_PAYLOAD].content)
    ensures pdu[ExtensionStart(p)..] == ExtensionChain(p.extension, 1) + END_MARKER
  {
    MarshallPacketIsEncoding(p, cap);
    EncodedBody(p, pdu);
  }

  lemma EncodedBody(p: Packet, pdu: seq<byte>)
    requires pdu == Encoding(p)
    ensures ExtensionStart(p) <= |pdu|
    ensures pdu[HEADER_SIZE..ExtensionStart(p)]
         == p.srcNbma.addr + p.srcNbma.subaddr + p.srcProto.addr + p.dstProto.addr
            + ContentBytes(p.extension[NHRP_EXTENSION_PAYLOAD].content)
    ensures pdu[ExtensionStart(p)..] == ExtensionChain(p.extension, 1) + END_MARKER
  {
    var e := Encode(FinalHeader(p));
    var tail := ExtensionChain(p.extension, 1) + END_MARKER;
    assert pdu == e + Body(p) + tail;
    assert pdu[HEADER_SIZE..] == Body(p) + tail;
    assert pdu[HEADER_SIZE..ExtensionStart(p)] == Body(p);
    assert pdu[ExtensionStart(p)..] == tail;
  }

  /** A receiver that follows the extension offset and reads the extensions
      part finds the populated slots from 1 on, in slot order, each typed by
      its slot index with the compulsory bit iff it was flagged, followed by
      exactly one End Of Extensions record. The bounds say that slot indices
      fit the 15-bit type and the PDU fits its 16-bit size field. */
  lemma MarshalledExtensions(p: Packet, cap: nat, pdu: seq<byte>)
    requires MarshallPacket(p, cap) == Some(pdu)
    requires |p.extension| <= COMPULSORY_BIT && cap < 0x1_0000
    ensures HEADER_SIZE <= |pdu| && ReadBE16(pdu, OFF_PACKET_SIZE) == |pdu|
    ensures ReadBE16(pdu, OFF_EXTENSION_OFFSET) <= |pdu|
    ensures ParseExtensions(pdu[ReadBE16(pdu, OFF_EXTENSION_OFFSET)..]) == Some(Populated(p.extension, 1))
  {
    MarshallPacketIsEncoding(p, cap);
    EncodedExtensions(p, pdu);
  }

  lemma EncodedExtensions(p: Packet, pdu: seq<byte>)
    requires pdu == Encoding(p)
    requires |p.extension| <= COMPULSORY_BIT && |pdu| < 0x1_0000
    ensures HEADER_SIZE <= |pdu| && ReadBE16(pdu, OFF_PACKET_SIZE) == |pdu|
    ensures ReadBE16(pdu, OFF_EXTENSION_OFFSET) <= |pdu|
    ensures ParseExtensions(pdu[ReadBE16(pdu, OFF_EXTENSION_OFFSET)..]) == Some(Populated(p.extension, 1))
  {
    EncodedSizes(p, pdu);
    EncodedBody(p, pdu);
    EncodedRepresentable(p, pdu);
    ExtensionsRoundTrip(p.extension, 1);
  }

  /** In a PDU that fits its 16-bit size field, the size and extension
      offset fields hold the true values. */
  lemma EncodedSizes(p: Packet, pdu: seq<byte>)
    requires pdu == Encoding(p) && |pdu| < 0x1_0000
    ensures HEADER_SIZE <= |pdu| && ReadBE16(pdu, OFF_PACKET_SIZE) == |pdu|
    ensures ExtensionStart(p) <= |pdu| && ReadBE16(pdu, OFF_EXTENSION_OFFSET) == ExtensionStart(p)
  {
    EncodedHeader(p, pdu);
    EncodedBody(p, pdu);
    assert ReadBE16(pdu, OFF_PACKET_SIZE) == Decode(pdu).packetSize == |pdu| % 0x1_0000;
    SmallMod(|pdu|);
    assert ReadBE16(pdu, OFF_EXTENSION_OFFSET) == Decode(pdu).extensionOffset == ExtensionStart(p) % 0x1_0000;
    SmallMod(ExtensionStart(p));
  }

  /** In a PDU that fits its 16-bit size field, every slot fits its length
      field. */
  lemma EncodedRepresentable(p: Packet, pdu: seq<byte>)
    requires pdu == Encoding(p)
    requires |p.extension| <= COMPULSORY_BIT && |pdu| < 0x1_0000
    ensures Representable(p.extension)
  {
    EncodedBody(p, pdu);
    var chain := ExtensionChain(p.extension, 1);
    assert |chain| < 0x1_0000 by {
      assert pdu[ExtensionStart(p)..] == chain + END_MARKER;
    }
    ChainHoldsContents(p.extension, 1);
    assert |ContentBytes(p.extension[0].content)| <= |Body(p)|;
  }

  lemma SmallMod(x: nat)
    requires x < 0x1_0000
    ensures x % 0x1_0000 == x
  {
  }

  /** Every populated slot's content lies within the chain. */
  lemma {:induction false} ChainHoldsContents(slots: seq<Payload>, i: nat)
    ensures forall j | i <= j < |slots| :: |ContentBytes(slots[j].content)| <= |ExtensionChain(slots, i)|
    decreases |slots| - i
  {
    if i < |slots| {
      ChainHoldsContents(slots, i + 1);
    }
  }
}
