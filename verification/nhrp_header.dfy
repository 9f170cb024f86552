/** The NHRP packet header that the marshaller writes verbatim and then
    back-patches: the fixed header of section 5.1 of RFC 2332 followed by the
    common header of the mandatory part (section 5.2.0.1), 28 bytes in all.
    nhrp_packet.h, which declares the C struct, is not part of this model;
    the field order and widths here are those of RFC 2332. */
module NhrpHeader {
  import opened Bytes

  type Snap = s: seq<byte> | |s| == 5 witness [0, 0, 0, 0, 0]

  datatype Header = Header(
    afn: u16,               // ar$afn
    proType: u16,           // ar$pro.type
    proSnap: Snap,          // ar$pro.snap
    hopCount: byte,         // ar$hopcnt
    packetSize: u16,        // ar$pktsz
    checksum: u16,          // ar$chksum
    extensionOffset: u16,   // ar$extoff
    version: byte,          // ar$op.version
    opType: byte,           // ar$op.type
    srcNbmaLen: byte,       // ar$shtl
    srcNbmaSubLen: byte,    // ar$sstl
    srcProtoLen: byte,      // Src Proto Len
    dstProtoLen: byte,      // Dst Proto Len
    flags: u16,             // Flags
    requestId: u32)         // Request ID (error code and offset in an error indication)

  const HEADER_SIZE: nat := 28

  const OFF_PACKET_SIZE: nat := 10
  const OFF_CHECKSUM: nat := 12
  const OFF_EXTENSION_OFFSET: nat := 14
  const OFF_SRC_NBMA_LEN: nat := 18
  const OFF_SRC_NBMA_SUB_LEN: nat := 19
  const OFF_SRC_PROTO_LEN: nat := 20
  const OFF_DST_PROTO_LEN: nat := 21

  /** The header's wire image, field by field in network order. */
  function Encode(h: Header): (r: seq<byte>)
    ensures |r| == HEADER_SIZE
  {
    [ h.afn / 0x100, h.afn % 0x100,
      h.proType / 0x100, h.proType % 0x100,
      h.proSnap[0], h.proSnap[1], h.proSnap[2], h.proSnap[3], h.proSnap[4],
      h.hopCount,
      h.packetSize / 0x100, h.packetSize % 0x100,
      h.checksum / 0x100, h.checksum % 0x100,
      h.extensionOffset / 0x100, h.extensionOffset % 0x100,
      h.version, h.opType,
      h.srcNbmaLen, h.srcNbmaSubLen, h.srcProtoLen, h.dstProtoLen,
      h.flags / 0x100, h.flags % 0x100,
      h.requestId / 0x100_0000, (h.requestId / 0x1_0000) % 0x100,
      (h.requestId / 0x100) % 0x100, h.requestId % 0x100 ]
  }

  /** Read the header back out of the first 28 bytes of a PDU. */
  function Decode(s: seq<byte>): Header
    requires HEADER_SIZE <= |s|
  {
    Header(
      ReadBE16(s, 0), ReadBE16(s, 2), s[4..9], s[9],
      ReadBE16(s, OFF_PACKET_SIZE), ReadBE16(s, OFF_CHECKSUM),
      ReadBE16(s, OFF_EXTENSION_OFFSET), s[16], s[17],
      s[OFF_SRC_NBMA_LEN], s[OFF_SRC_NBMA_SUB_LEN],
      s[OFF_SRC_PROTO_LEN], s[OFF_DST_PROTO_LEN],
      ReadBE16(s, 22), ReadBE32(s, 24))
  }

  /** Decoding inverts encoding, whatever follows the header. */
  lemma DecodeEncode(h: Header, rest: seq<byte>)
    ensures Decode(Encode(h) + rest) == h
  {
    var s := Encode(h) + rest;
    var e := Encode(h);
    assert s[..HEADER_SIZE] == e;
    var p := h.proSnap;
    assert p == [p[0], p[1], p[2], p[3], p[4]];
    assert s[4..9] == [s[4], s[5], s[6], s[7], s[8]];
    ReadBE16Of(s, 0, h.afn);
    ReadBE16Of(s, 2, h.proType);
    ReadBE16Of(s, OFF_PACKET_SIZE, h.packetSize);
    ReadBE16Of(s, OFF_CHECKSUM, h.checksum);
    ReadBE16Of(s, OFF_EXTENSION_OFFSET, h.extensionOffset);
    ReadBE16Of(s, 22, h.flags);
    ReadBE32Of(s, 24, h.requestId);
  }

  /** Back-patching one header field changes that field of the decoded header
      and nothing else. */
  lemma PatchField16(s: seq<byte>, off: nat, v: u16)
    requires HEADER_SIZE <= |s|
    requires off == OFF_PACKET_SIZE || off == OFF_CHECKSUM || off == OFF_EXTENSION_OFFSET
    ensures var h, h' := Decode(s), Decode(PatchBE16(s, off, v));
      h' == if off == OFF_PACKET_SIZE then h.(packetSize := v)
            else if off == OFF_CHECKSUM then h.(checksum := v)
            else h.(extensionOffset := v)
  {
    var s' := PatchBE16(s, off, v);
    assert s'[4..9] == s[4..9];
  }

  lemma PatchLength(s: seq<byte>, off: nat, v: byte)
    requires HEADER_SIZE <= |s|
    requires OFF_SRC_NBMA_LEN <= off <= OFF_DST_PROTO_LEN
    ensures var h, h' := Decode(s), Decode(PatchByte(s, off, v));
      h' == if off == OFF_SRC_NBMA_LEN then h.(srcNbmaLen := v)
            else if off == OFF_SRC_NBMA_SUB_LEN then h.(srcNbmaSubLen := v)
            else if off == OFF_SRC_PROTO_LEN then h.(srcProtoLen := v)
            else h.(dstProtoLen := v)
  {
    var s' := PatchByte(s, off, v);
    assert s'[4..9] == s[4..9];
  }
}
