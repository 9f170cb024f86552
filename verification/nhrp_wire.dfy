/** The NHRP packet as the marshaller sees it, and the wire image it must
    produce, defined declaratively: header, source NBMA address and
    sub-address, source and destination protocol addresses, the payload,
    then the extensions part of section 5.3 of RFC 2332 closed by the
    End Of Extensions record of section 5.3.0. */
module NhrpWire {
  import opened Options
  import opened Bytes
  import opened NhrpHeader

  /** An address buffer whose length travels in a one-byte header field. */
  type ShortBytes = s: seq<byte> | |s| < 0x100

  datatype NbmaAddress = NbmaAddress(addr: ShortBytes, subaddr: ShortBytes)

  datatype ProtocolAddress = ProtocolAddress(addr: ShortBytes)

  /** The content of a payload or extension slot: NHRP_PAYLOAD_TYPE_NONE,
      NHRP_PAYLOAD_TYPE_RAW with its buffer, or any other payload type tag. */
  datatype Content = NoContent | Raw(data: seq<byte>) | OtherType(tag: nat)

  /** A slot of `packet->extension`; `compulsory` is whether
      NHRP_PAYLOAD_FLAG_COMPULSORY is among its flags. */
  datatype Payload = Payload(content: Content, compulsory: bool)

  /** The extension slots, indexed by extension type; slot 0 is the payload. */
  type Slots = s: seq<Payload> | |s| > 0 witness [Payload(NoContent, false)]

  datatype Packet = Packet(
    hdr: Header,
    srcNbma: NbmaAddress,
    srcProto: ProtocolAddress,
    dstProto: ProtocolAddress,
    extension: Slots)

  /** Extension type codes of section 5.3 of RFC 2332. */
  const NHRP_EXTENSION_PAYLOAD: nat := 0
  const NHRP_EXTENSION_END: u16 := 0
  const COMPULSORY_BIT: u16 := 0x8000
  const EXTENSION_HEADER_SIZE: nat := 4

  /** `t | NHRP_EXTENSION_FLAG_COMPULSORY` */
  function WithCompulsory(t: u16): (r: u16)
    ensures r >= COMPULSORY_BIT && r % COMPULSORY_BIT == t % COMPULSORY_BIT
  {
    if t >= COMPULSORY_BIT then t else t + COMPULSORY_BIT
  }

  /** The type field of the extension in slot `i`: the slot index truncated
      to 16 bits, with the compulsory bit OR'd in when the slot is flagged. */
  function TypeField(i: nat, compulsory: bool): u16
  {
    var t := i % 0x1_0000;
    if compulsory then WithCompulsory(t) else t
  }

  /** An extension header: type then length, both 16-bit network order. */
  function ExtensionHeader(t: u16, len: u16): (r: seq<byte>)
    ensures |r| == EXTENSION_HEADER_SIZE
  {
    BE16(t) + BE16(len)
  }

  /** The compulsory End Of Extensions record, of length 0. */
  const END_MARKER: seq<byte> := ExtensionHeader(WithCompulsory(NHRP_EXTENSION_END), 0)

  /** The bytes a slot's content contributes. */
  function ContentBytes(c: Content): seq<byte>
  {
    if c.Raw? then c.data else []
  }

  /** Whether the marshaller can write this slot's content at all. */
  predicate Supported(p: Payload)
  {
    !p.content.OtherType?
  }

  /** Every slot from index `i` on has a supported type. */
  predicate SupportedFrom(slots: seq<Payload>, i: nat)
  {
    forall j | i <= j < |slots| :: Supported(slots[j])
  }

  predicate AllSupported(slots: seq<Payload>)
  {
    SupportedFrom(slots, 0)
  }

  lemma SupportedFromStep(slots: seq<Payload>, i: nat)
    requires i < |slots|
    ensures SupportedFrom(slots, i) <==> Supported(slots[i]) && SupportedFrom(slots, i + 1)
  {
  }

  /** One emitted extension: header (length truncated to its 16-bit field)
      followed by the content. */
  function ExtensionRecord(i: nat, p: Payload): seq<byte>
  {
    var c := ContentBytes(p.content);
    ExtensionHeader(TypeField(i, p.compulsory), |c| % 0x1_0000) + c
  }

  /** The records of the populated slots from index `i` on, in slot order;
      empty slots contribute nothing. */
  function ExtensionChain(slots: seq<Payload>, i: nat): seq<byte>
    decreases |slots| - i
  {
    if i >= |slots| then []
    else if slots[i].content.NoContent? then ExtensionChain(slots, i + 1)
    else ExtensionRecord(i, slots[i]) + ExtensionChain(slots, i + 1)
  }

  /** Source NBMA address and sub-address, source and destination protocol
      addresses, and the payload: everything between header and extensions. */
  function Body(p: Packet): seq<byte>
  {
    p.srcNbma.addr + p.srcNbma.subaddr + p.srcProto.addr + p.dstProto.addr
      + ContentBytes(p.extension[NHRP_EXTENSION_PAYLOAD].content)
  }

  /** Offset of the first extension from the start of the PDU. */
  function ExtensionStart(p: Packet): nat
  {
    HEADER_SIZE + |Body(p)|
  }

  function EncodedLength(p: Packet): nat
  {
    ExtensionStart(p) + |ExtensionChain(p.extension, 1)| + EXTENSION_HEADER_SIZE
  }

  /** The header as it must appear on the wire: the caller's header with
      only size, checksum, extension offset and the four length bytes
      replaced. */
  function FinalHeader(p: Packet): Header
  {
    p.hdr.(
      packetSize := EncodedLength(p) % 0x1_0000,
      checksum := 0,
      extensionOffset := ExtensionStart(p) % 0x1_0000,
      srcNbmaLen := |p.srcNbma.addr|,
      srcNbmaSubLen := |p.srcNbma.subaddr|,
      srcProtoLen := |p.srcProto.addr|,
      dstProtoLen := |p.dstProto.addr|)
  }

  /** The complete PDU. */
  function Encoding(p: Packet): seq<byte>
  {
    Encode(FinalHeader(p)) + Body(p) + ExtensionChain(p.extension, 1) + END_MARKER
  }

  /** An extension as a receiver sees it. */
  datatype Extension = Extension(kind: nat, compulsory: bool, content: seq<byte>)

  /** The populated slots from `i` on, as the extensions they become. */
  function Populated(slots: seq<Payload>, i: nat): seq<Extension>
    decreases |slots| - i
  {
    if i >= |slots| then []
    else if slots[i].content.NoContent? then Populated(slots, i + 1)
    else [Extension(i, slots[i].compulsory, ContentBytes(slots[i].content))] + Populated(slots, i + 1)
  }

  /** A reader of an extensions part: records up to an End Of Extensions
      record, which must be compulsory, empty and last. */
  function ParseExtensions(s: seq<byte>): Option<seq<Extension>>
    decreases |s|
  {
    if |s| < EXTENSION_HEADER_SIZE then None
    else
      var t, len := ReadBE16(s, 0), ReadBE16(s, 2);
      if t % COMPULSORY_BIT == NHRP_EXTENSION_END then
        if t >= COMPULSORY_BIT && len == 0 && |s| == EXTENSION_HEADER_SIZE then Some([]) else None
      else if |s| < EXTENSION_HEADER_SIZE + len then None
      else
        var rest :- ParseExtensions(s[EXTENSION_HEADER_SIZE + len..]);
        Some([Extension(t % COMPULSORY_BIT, t >= COMPULSORY_BIT, s[EXTENSION_HEADER_SIZE..EXTENSION_HEADER_SIZE + len])] + rest)
  }

  /** Slots whose index fits the 15 bits of a type field and whose content
      fits a 16-bit length field. */
  predicate Representable(slots: seq<Payload>)
  {
    && |slots| <= COMPULSORY_BIT
    && forall j | 0 <= j < |slots| :: |ContentBytes(slots[j].content)| < 0x1_0000
  }

  lemma TypeFieldFields(i: nat, c: bool)
    requires 0 < i < COMPULSORY_BIT
    ensures TypeField(i, c) % COMPULSORY_BIT == i
    ensures TypeField(i, c) >= COMPULSORY_BIT <==> c
  {
  }

  /** Reading one non-end record and then the rest. */
  lemma ParseRecord(t: u16, c: seq<byte>, rest: seq<byte>, es: seq<Extension>)
    requires t % COMPULSORY_BIT != NHRP_EXTENSION_END
    requires |c| < 0x1_0000
    requires ParseExtensions(rest) == Some(es)
    ensures ParseExtensions(ExtensionHeader(t, |c|) + c + rest)
         == Some([Extension(t % COMPULSORY_BIT, t >= COMPULSORY_BIT, c)] + es)
  {
    var head := ExtensionHeader(t, |c|);
    var s := head + c + rest;
    assert s == head + (c + rest);
    assert s[0] == head[0] && s[1] == head[1] && s[2] == head[2] && s[3] == head[3];
    ReadBE16Of(s, 0, t);
    ReadBE16Of(s, 2, |c|);
    assert s[EXTENSION_HEADER_SIZE..] == c + rest;
    assert s[EXTENSION_HEADER_SIZE..EXTENSION_HEADER_SIZE + |c|] == c;
    assert s[EXTENSION_HEADER_SIZE + |c|..] == rest;
  }

  lemma ParseEnd()
    ensures ParseExtensions(END_MARKER) == Some([])
  {
    assert END_MARKER[0] == 0x80 && END_MARKER[1] == 0 && END_MARKER[2] == 0 && END_MARKER[3] == 0;
  }

  /** The chain from a populated slot is its record and then the rest. */
  lemma ChainRecord(slots: seq<Payload>, i: nat)
    requires 0 < i < |slots| && !slots[i].content.NoContent?
    requires |ContentBytes(slots[i].content)| < 0x1_0000
    ensures var c := ContentBytes(slots[i].content);
      ExtensionChain(slots, i) + END_MARKER
        == ExtensionHeader(TypeField(i, slots[i].compulsory), |c|) + c + (ExtensionChain(slots, i + 1) + END_MARKER)
  {
  }

  /** One populated slot: reading its record and then the rest. */
  lemma RoundTripStep(slots: seq<Payload>, i: nat)
    requires 0 < i < |slots| && !slots[i].content.NoContent?
    requires Representable(slots)
    requires ParseExtensions(ExtensionChain(slots, i + 1) + END_MARKER) == Some(Populated(slots, i + 1))
    ensures ParseExtensions(ExtensionChain(slots, i) + END_MARKER) == Some(Populated(slots, i))
  {
    var c := ContentBytes(slots[i].content);
    assert |c| < 0x1_0000;
    TypeFieldFields(i, slots[i].compulsory);
    ChainRecord(slots, i);
    ParseRecord(TypeField(i, slots[i].compulsory), c, ExtensionChain(slots, i + 1) + END_MARKER, Populated(slots, i + 1));
  }

  /** Reading the extensions part back yields the populated slots in slot
      order, each with its slot index as type, its compulsory flag and its
      content, closed by exactly one End Of Extensions record. */
  lemma {:induction false} ExtensionsRoundTrip(slots: seq<Payload>, i: nat)
    requires 0 < i <= |slots|
    requires Representable(slots)
    ensures ParseExtensions(ExtensionChain(slots, i) + END_MARKER) == Some(Populated(slots, i))
    decreases |slots| - i
  {
    if i == |slots| {
      assert ExtensionChain(slots, i) + END_MARKER == END_MARKER;
      ParseEnd();
    } else if slots[i].content.NoContent? {
      ExtensionsRoundTrip(slots, i + 1);
    } else {
      ExtensionsRoundTrip(slots, i + 1);
      RoundTripStep(slots, i);
    }
  }
}
