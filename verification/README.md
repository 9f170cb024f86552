# opennhrp: PDU marshaller and PF_PACKET filter, modelled in Dafny

This project models two engines of opennhrp, an NHRP (RFC 2332) daemon, and
proves properties about them.

**The NHRP PDU marshaller** (`nhrp/nhrp_packet.c`). A bounded cursor writer
(`marshall_binary`) serialises, in this order:
- the fixed header;
- the source NBMA address and sub-address;
- the source and destination protocol addresses;
- the payload;
- the populated extension slots, each with its length back-patched;
- a compulsory End Of Extensions record.

It then back-patches the extension offset, the packet size, the checksum and
the four address-length bytes of the header.
- `NhrpMarshall.MarshallPacket` is the code step by step.
- `NhrpWire.Encoding` defines the expected wire image declaratively.
- The lemmas tie the two together.
- `NhrpWire.ParseExtensions` is an independent reader of the extensions
  part. It gives the chain a round trip.

**The classic-BPF filter builder** (`nhrp/sysdep_pfpacket.c`). This is the
small label-based assembler:
- `emit_stmt` and `emit_jump`;
- `patch_jump` and `mark`;
- the per-item emitters `check_interface` and `check_ipv4`;
- the stages of `install_filter_callback`;
- the relative-offset fixup loop.

A small interpreter for the opcodes the filter uses (`Bpf.Exec`) runs the
built program. The main theorem is `FilterVerdict.InstalledFilterVerdict`:
the installed filter keeps a frame exactly when it is outgoing, on a listed
interface, IPv4, at least 20 bytes long, and either sent to a multicast group or from an
address outside every LOCAL peer's prefix.

**The PF_PACKET reader** `pfp_read`. Each frame is classified as one of:
skip, end the read loop, replicate to the eligible peers, or hand off to the
NHRP traffic path. The read loop runs over a finite sequence of delivered
frames.

Modules, one file each:
- Support:
  - `Options`: the failure-propagating Option.
  - `Bytes`: bytes, 16- and 32-bit fields in network order, patching.
- Marshaller:
  - `NhrpHeader`: the 28-byte header, encoded and decoded.
  - `NhrpWire`: the packet record, its wire image, and an extensions reader.
  - `NhrpMarshall`: the marshaller as written, and the proofs against the
    wire image.
- Filter:
  - `Frames`: frames as both the filter and the reader see them.
  - `Bpf`: instructions and the interpreter.
  - `Registry`: interfaces and peers as lists, and peer selectors.
  - `Prefixes`: the arithmetic form of `addr & ~mask` and `addr | mask`.
  - `FilterAssembler`: the assembler state, the emitters, and the fixup.
  - `FilterPolicy`: the emitters and stages of `install_filter_callback`.
  - `FilterLayout`: the exact unresolved program the stages build.
  - `FilterVerdict`: what the resolved program decides for every frame.
- Reader:
  - `Capture`: `pfp_read`'s classification and read loop.
- `Scenarios`: concrete instances of the theorems above.

Two behaviours of the code look unintended; the model follows the code:
- **Non-IPv4 frames are dropped, not passed.** `LABEL_NOT_IPV4` is marked at
  the same position as `LABEL_DROP` (nhrp/sysdep_pfpacket.c:160-164).
- **A frame whose addresses cannot be parsed ends the read loop.** It is not
  just skipped: `pfp_read` returns (nhrp/sysdep_pfpacket.c:280-283).

## Model

| member | source | states |
|---|---|---|
| NhrpMarshall.MarshallBinary | nhrp/nhrp_packet.c:50-60 | succeeds exactly when the bytes fit the room left; on success the old output is kept as a prefix, the bytes follow it, and output plus room is conserved; on failure nothing is produced |
| NhrpMarshall.MarshallProtocolAddress | nhrp/nhrp_packet.c:62-65 | succeeds exactly when the address fits; appends exactly the address bytes and reduces the room by their number |
| NhrpMarshall.MarshallNbmaAddress | nhrp/nhrp_packet.c:67-73 | succeeds exactly when address and sub-address fit together; writes the address bytes immediately followed by the sub-address bytes |
| NhrpMarshall.MarshallPayload | nhrp/nhrp_packet.c:75-85 | NONE writes nothing and succeeds, RAW writes exactly its buffer when it fits, any other type fails |
| NhrpMarshall.MarshallExtension | nhrp/nhrp_packet.c:107-121 | one extension iteration never disturbs what was written before it |
| NhrpMarshall.MarshallExtensionSpec | nhrp/nhrp_packet.c:112-121 | one populated slot writes its record (header with the slot index as type, compulsory bit iff flagged, back-patched length) followed by its content, or fails when the payload type is unsupported or the record does not fit |
| NhrpMarshall.PatchExtensionLength | nhrp/nhrp_packet.c:115-121 | back-patching the length field turns the zero-length header into one whose length is the number of content bytes after it, and changes nothing else |
| NhrpMarshall.MarshallExtensionsSpec | nhrp/nhrp_packet.c:106-122 | the loop from slot 1 equals the reference `ChainWrite`: the records of the populated slots in increasing index order, empty slots skipped, or failure when any slot is unsupported or the chain does not fit |
| NhrpMarshall.MarshallMandatorySpec | nhrp/nhrp_packet.c:94-103 | the mandatory part is the caller's header verbatim, then source NBMA address and sub-address, source and destination protocol addresses and payload, or failure when it does not fit or the payload type is unsupported |
| NhrpMarshall.MarshallWrites | nhrp/nhrp_packet.c:94-126 | before the final header patches the buffer holds the header with its extension offset set, the body, the extension chain and the end marker |
| NhrpMarshall.HeaderFinalPatches | nhrp/nhrp_packet.c:128-133 | the final patches rewrite only packet size, checksum and the four address-length bytes of the header and leave the rest of the PDU untouched |
| NhrpMarshall.MarshallSuccess | nhrp/nhrp_packet.c:94-135 | when every slot is supported and the encoding fits, `marshall_packet` produces exactly the wire image |
| NhrpMarshall.MarshallFailure | nhrp/nhrp_packet.c:94-126 | when a slot is unsupported or the encoding does not fit, `marshall_packet` fails and yields no length |
| NhrpMarshall.MarshallPacketIsEncoding | nhrp/nhrp_packet.c:87-136 | `marshall_packet` is the wire image when all slots are supported and it fits the capacity, and failure otherwise (both directions) |
| NhrpMarshall.MarshalledHeader | nhrp/nhrp_packet.c:94-135 | the decoded header of a marshalled PDU has packet size equal to the PDU length and extension offset equal to header plus addresses plus payload (both modulo 2^16, as the 16-bit fields hold them), checksum 0, the four address lengths of the descriptors, and every other field equal to the caller's header |
| NhrpMarshall.MarshalledBody | nhrp/nhrp_packet.c:94-126 | between header and extension offset the PDU holds the addresses and payload in order; after it, the extension chain and the end marker |
| NhrpMarshall.MarshalledExtensions | nhrp/nhrp_packet.c:105-126 | reading the marshalled PDU from its extension offset yields exactly the populated slots from 1 on, in order, with their types, compulsory bits and contents, closed by one compulsory empty End Of Extensions record |
| NhrpMarshall.EncodedHeader | nhrp/nhrp_packet.c:128-133 | the same header facts, for the declarative wire image |
| NhrpMarshall.EncodedBody | nhrp/nhrp_packet.c:94-103 | the same body layout, for the declarative wire image |
| NhrpMarshall.EncodedExtensions | nhrp/nhrp_packet.c:105-126 | the same extensions round trip, for the declarative wire image |
| NhrpMarshall.EncodedSizes | nhrp/nhrp_packet.c:105 | the packet-size field reads back as the PDU length and the extension-offset field as the end of the payload |
| NhrpMarshall.MarshallMandatory | nhrp/nhrp_packet.c:94-103 | the mandatory part writes at least the header and conserves written bytes plus room at the capacity; its exact output is stated by `MarshallMandatorySpec` |
| NhrpMarshall.MarshallExtensions | nhrp/nhrp_packet.c:106-122 | the extension loop keeps what was written before it and conserves written bytes plus room; its exact output is stated by `MarshallExtensionsSpec` |
| NhrpMarshall.PatchHeader | nhrp/nhrp_packet.c:128-133 | the final patches keep the PDU's length and every byte after the 28-byte header; which header fields they set is stated by `HeaderFinalPatches` |
| NhrpMarshall.MarshallPacket | nhrp/nhrp_packet.c:87-136 | a marshalled PDU holds at least the header and the end record and never exceeds the buffer; that it is exactly the wire image, or failure, is stated by `MarshallPacketIsEncoding` |
| NhrpMarshall.PacketSend | nhrp/nhrp_packet.c:167-179 | `nhrp_packet_send` always reports failure; it dumps exactly the wire image when marshalling into 1500 bytes succeeds, and nothing otherwise |
| NhrpMarshall.PacketRecv | nhrp/nhrp_packet.c:45-48 | `nhrp_packet_recv` always reports failure |
| NhrpWire.ExtensionsRoundTrip | nhrp/nhrp_packet.c:106-126 | the extensions reader recovers the populated slots, in order, from the chain followed by the end marker |
| NhrpWire.ParseRecord | nhrp/nhrp_packet.c:112-121 | a record with a non-END type and its content is read back as one extension in front of what follows |
| NhrpWire.ParseEnd | nhrp/nhrp_packet.c:123-126 | the end marker alone reads back as the end of the extensions |
| NhrpWire.TypeFieldFields | nhrp/nhrp_packet.c:112-114 | the type field carries the slot index in its low 15 bits and the compulsory bit exactly when the slot is flagged compulsory |
| NhrpWire.WithCompulsory | nhrp/nhrp_packet.c:113-114 | OR-ing in the compulsory flag sets the top bit and keeps the type |
| NhrpHeader.DecodeEncode | nhrp/nhrp_packet.c:94 | the header written verbatim is read back as the same header, whatever follows it |
| NhrpHeader.PatchField16 | nhrp/nhrp_packet.c:105-129 | patching the packet-size, checksum or extension-offset field changes exactly that field of the decoded header |
| NhrpHeader.PatchLength | nhrp/nhrp_packet.c:130-133 | patching one address-length byte changes exactly that field of the decoded header |
| FilterAssembler.Empty | nhrp/sysdep_pfpacket.c:130 | the zeroed builder state has no instructions and every label position 0 |
| FilterAssembler.Emit | nhrp/sysdep_pfpacket.c:53-73 | an emit always counts one more instruction, writes it exactly when a slot is free, keeps the earlier instructions and the label positions |
| FilterAssembler.EmitStmt | nhrp/sysdep_pfpacket.c:53-62 | `emit_stmt` counts one more instruction and, when a slot is free, writes it with both jump targets 0 |
| FilterAssembler.EmitJump | nhrp/sysdep_pfpacket.c:64-73 | `emit_jump` counts one more instruction and, when a slot is free, writes it with the given targets |
| FilterAssembler.PatchJump | nhrp/sysdep_pfpacket.c:75-85 | fails exactly when the last instruction is not a jump; otherwise replaces only the targets equal to LABEL_NEXT with the new label and changes nothing else |
| FilterAssembler.Mark | nhrp/sysdep_pfpacket.c:87-90 | sets the label's position to the instruction count and changes no other label and no instruction |
| FilterAssembler.Retarget | nhrp/sysdep_pfpacket.c:178-181 | literal targets (up to LABEL_SKIPN) are kept; a label marked ahead of the jump becomes the relative offset that lands on its position |
| FilterAssembler.ResolveInsn | nhrp/sysdep_pfpacket.c:177-182 | fixup keeps an instruction's opcode and constant, leaves a non-jump alone, and turns a label target marked within 256 instructions ahead into the relative offset that lands on it |
| FilterAssembler.Resolved | nhrp/sysdep_pfpacket.c:176-183 | fixup keeps every opcode and constant, and leaves every non-jump instruction unchanged |
| FilterAssembler.FixupJumps | nhrp/sysdep_pfpacket.c:176-183 | the in-place fixup loop computes exactly the resolved program |
| FilterPolicy.CheckInterface | nhrp/sysdep_pfpacket.c:92-99 | appends exactly one `JEQ ifindex`, to IF_OK when equal and to the next test otherwise |
| FilterPolicy.CheckInterfaces | nhrp/sysdep_pfpacket.c:138 | one instruction per interface, label positions unchanged |
| FilterPolicy.Ipv4Code | nhrp/sysdep_pfpacket.c:106-116 | a peer yields at most two tests, all naming labels; what they decide is stated by `PeerHeadResolved` and `PeerScan` |
| FilterPolicy.CheckIpv4 | nhrp/sysdep_pfpacket.c:101-118 | `check_ipv4` appends exactly the peer's tests when they fit |
| FilterPolicy.CheckPeers | nhrp/sysdep_pfpacket.c:155-157 | the walk over the LOCAL peers counts exactly their tests and marks no label |
| FilterLayout.CheckPeersAppend | nhrp/sysdep_pfpacket.c:155-157 | when they fit, the peers' tests are appended after the existing code in registry order, nothing before them changes |
| FilterLayout.CheckInterfacesAppend | nhrp/sysdep_pfpacket.c:138 | when they fit, one interface test per interface is appended in registry order, nothing before them changes |
| FilterPolicy.InterfaceStage | nhrp/sysdep_pfpacket.c:132-138 | three fixed instructions then one per interface, no label marked |
| FilterPolicy.ProtocolStage | nhrp/sysdep_pfpacket.c:141-153 | marks IF_OK at the current count and emits six instructions |
| FilterPolicy.PeerStage | nhrp/sysdep_pfpacket.c:155-158 | one test per LOCAL peer's bound and an accept return |
| FilterPolicy.ExitStage | nhrp/sysdep_pfpacket.c:160-166 | NOT_IPV4 and DROP both mark the drop return, ACCEPT the accept return after it |
| FilterPolicy.Assemble | nhrp/sysdep_pfpacket.c:130-166 | whenever the stages get past `patch_jump`, the builder state is consistent: the count matches the stored code up to the buffer size and every jump names a label |
| FilterPolicy.InterfaceStageOverflows | nhrp/sysdep_pfpacket.c:75-85 | with 98 interfaces or more, the slot `patch_jump` reads lies beyond the code buffer |
| FilterPolicy.BuildFilter | nhrp/sysdep_pfpacket.c:130-183 | an installed program holds at least the 12 fixed instructions plus one test per interface and fits below 100 instructions; exactly when it is installed is stated by `BuildFilterLayout`, and what it decides by `InstalledFilterVerdict` |
| FilterLayout.PatchInterfaces | nhrp/sysdep_pfpacket.c:137-141 | patching after the interface tests succeeds exactly when there is at least one interface, and then routes the last test's miss to DROP |
| FilterLayout.AssembleCount | nhrp/sysdep_pfpacket.c:137-140 | the builder gets past `patch_jump` exactly when there is at least one interface and at most 97, and then counts 12 instructions plus one per interface plus the peers' tests |
| FilterLayout.AssembleLayout | nhrp/sysdep_pfpacket.c:130-166 | the unresolved program is the fixed head, the interface tests, the protocol and multicast tests, the peer tests and the three returns, with each label at the position its `mark` call records |
| FilterLayout.BuildFilterLayout | nhrp/sysdep_pfpacket.c:130-183 | a filter is installed exactly when there is an interface and the program has fewer than 100 instructions (exactly 100 is rejected), and it is then the resolved layout |
| FilterVerdict.InstalledFilterVerdict | nhrp/sysdep_pfpacket.c:133-166 | the installed filter keeps a frame exactly when the policy admits it: outgoing, on a listed interface, IPv4, long enough to hold both addresses, and sent to 224.0.0.0/4 or from outside every LOCAL IPv4 peer's prefix; every other frame, non-IPv4 included, is dropped |
| FilterVerdict.PolicyVerdict | nhrp/sysdep_pfpacket.c:133-166 | any program laid out like the policy returns accept exactly for the admitted frames and drop for all others |
| FilterVerdict.AfterInterfaces | nhrp/sysdep_pfpacket.c:143-166 | from IF_OK on, the program accepts exactly the IPv4 frames that are multicast-bound or not locally sourced |
| FilterVerdict.MulticastTest | nhrp/sysdep_pfpacket.c:148-150 | a destination in [0xe0000000, 0xf0000000) jumps straight to accept; any other goes on to the source test |
| FilterVerdict.SourceTest | nhrp/sysdep_pfpacket.c:153-164 | the source test drops exactly the frames from inside some LOCAL IPv4 peer's prefix |
| FilterVerdict.IfaceScan | nhrp/sysdep_pfpacket.c:136-141 | the interface tests continue at IF_OK when the index is listed and at DROP otherwise |
| FilterVerdict.PeerScan | nhrp/sysdep_pfpacket.c:101-118 | the peer tests continue at DROP when the address lies in some IPv4 peer's prefix, and after the tests otherwise |
| FilterVerdict.LocallySourcedStep | nhrp/sysdep_pfpacket.c:155-157 | an address is locally sourced exactly when the first peer covers it or one of the rest does |
| Prefixes.PrefixRange | nhrp/sysdep_pfpacket.c:110-113 | an address lies between `addr & ~mask` and `addr \| mask` exactly when it agrees with `addr` on the prefix's leading bits |
| Prefixes.BlockBounds | nhrp/sysdep_pfpacket.c:111-113 | both bounds of the prefix test are 32-bit values |
| FilterVerdict.ResolvedPolicyLayout | nhrp/sysdep_pfpacket.c:176-183 | resolving the unresolved layout makes every jump land where the policy's control flow says |
| FilterVerdict.PeersResolved | nhrp/sysdep_pfpacket.c:178-181 | resolved peer tests jump to DROP or past themselves as the policy requires |
| FilterVerdict.InstalledFilterWellFormed | nhrp/sysdep_pfpacket.c:160-183 | the installed filter uses only known opcodes, every jump lands inside the program and the last instruction returns, because each label is marked after the jumps that use it |
| FilterVerdict.PolicyLayoutWellFormed | nhrp/sysdep_pfpacket.c:160-183 | a program laid out like the policy has only known opcodes, in-range jumps and a final return |
| Bpf.Load | nhrp/sysdep_pfpacket.c:148-153 | an absolute load of an address field reads the four bytes in network order, and fails when the frame is too short |
| Capture.Classify | nhrp/sysdep_pfpacket.c:273-310 | skip exactly when not outgoing, on an unknown interface, or multicast with a non-zero link-layer address; stop exactly when the addresses cannot be parsed; replicate a multicast frame with zero link-layer address once per eligible peer, with that peer's next hop; hand off every other frame once, unchanged |
| Capture.ComputeNbmaSet | nhrp/sysdep_pfpacket.c:285-288 | `nbmaset` is set exactly when some byte of the link-layer address is non-zero |
| Capture.Sends | nhrp/sysdep_pfpacket.c:208-229 | one transmission per peer, in order, carrying the frame's bytes unchanged to the peer's next hop |
| Capture.ReadLoop | nhrp/sysdep_pfpacket.c:255-311 | the loop's events are the decisions' effects in frame order; it consumes frames up to the first one that ends the loop and none after |
| Capture.Run | nhrp/sysdep_pfpacket.c:255-311 | every event of the read loop is a send or hand-off of one of the delivered frames; that the loop computes it is stated by `ReadLoop` |
| Capture.StopDiscardsRest | nhrp/sysdep_pfpacket.c:280-283 | once a frame ends the loop, the frames after it have no effect |
| Capture.RunAppend | nhrp/sysdep_pfpacket.c:255-311 | reading two batches in turn is reading their concatenation, as long as the first does not end the loop |
| Registry.Select | nhrp/sysdep_pfpacket.c:299-306 | a peer walk visits exactly the registry's peers that match the selector |
| Registry.SelectAppend | nhrp/sysdep_pfpacket.c:155-157 | the walk keeps registry order |
| Scenarios.FilterAndReaderAgree | nhrp/sysdep_pfpacket.c:273-278 | a frame the reader skips for direction or interface is also one the filter drops |
| Scenarios.TwoInterfacesNoPeers | nhrp/sysdep_pfpacket.c:130-183 | with two interfaces and no peers a well-formed filter is installed and drops incoming frames |
| Scenarios.LocalNetBlock | nhrp/sysdep_pfpacket.c:110-113 | a /24 LOCAL peer at 10.0.0.0 gets the bounds 10.0.0.0 and 10.0.0.255 |
| Scenarios.LocalPrefixExample | nhrp/sysdep_pfpacket.c:152-166 | with that peer, unicast from 10.0.0.5 is dropped and unicast from 10.0.1.5 is kept |
| Scenarios.ReplicateToTwoPeers | nhrp/sysdep_pfpacket.c:299-306 | a multicast frame with zero link-layer address is sent once to each of two eligible peers, in order |
| Scenarios.UnicastHandedOffOnce | nhrp/sysdep_pfpacket.c:307-310 | a unicast frame is handed to the traffic path exactly once |

## Left out

- `hex_dump` and the dump in `nhrp_packet_send` are stderr formatting. `PacketSend` returns the bytes that would be dumped instead.
- `nhrp_buffer_alloc`, `nhrp_buffer_free`, `nhrp_packet_alloc` and `nhrp_packet_free` are not modelled. They only wrap malloc and free.
- The C struct layout of the header is not part of this model, because nhrp_packet.h is not part of it. The header follows sections 5.1 and 5.2.0.1 of RFC 2332: 28 bytes, with 16-bit fields in network order. The End Of Extensions type (0) and the compulsory bit (0x8000) follow section 5.3 of RFC 2332.
- Host and network byte order is not modelled bit for bit. Addresses are 32-bit values, and 16-bit fields are big-endian. This includes the `unsigned long` read of an IPv4 address at nhrp/sysdep_pfpacket.c:109.
- The bit operations `addr & ~mask` and `addr | mask` are written arithmetically, as the ends of a block of 2^(32 - prefix length) addresses.
- Prefixes.HostBits: a prefix length above 32 is taken to leave no host bits. In C, `0xffffffff >> prefix_length` with a shift of 32 or more is undefined behaviour.
- NhrpMarshall.MarshalledExtensions: requires at most 2^15 extension slots and a capacity below 2^16. Past those bounds the 16-bit type and length fields wrap, and the slots can no longer be read back. `nhrp_packet_send`'s 1500-byte buffer is well inside both bounds.
- NhrpMarshall.EncodedExtensions: the same bounds, for the declarative wire image.
- NhrpMarshall.EncodedSizes: requires a PDU below 2^16 bytes, for the same reason.
- NhrpWire.ExtensionsRoundTrip: requires every extension's content to be shorter than 2^16 bytes and at most 2^15 slots, for the same reason.
- Registries are input lists, and the peer-selector meaning is assumed. `nhrp_interface_foreach`, `nhrp_peer_foreach` and `nhrp_interface_get_by_index` become lists and `Registry.Select`, because their bodies (nhrp_interface.c, nhrp_peer.c) are not part of this model.
- `nhrp_address_parse_packet` and `nhrp_address_is_multicast` are parameters of the reader, for the same reason.
- Bpf.Load: only the loads the filter uses are modelled. These are the three ancillary fields and word loads inside the frame. A load outside the frame ends the run with 0, as the kernel does. Every other opcode is an invalid program.
- FilterVerdict.Admitted requires the frame to hold at least 20 bytes, so that both IPv4 addresses can be read. A shorter IPv4 frame is dropped by the filter's out-of-frame load. The policy therefore says so explicitly.
- Kernel I/O is not modelled:
  - socket creation, `setsockopt(SO_ATTACH_FILTER)`, `recvmsg` and `sendmsg`;
  - `pfp_read`'s errno handling (EINTR, EAGAIN, overrun, EOF);
  - the `POLLIN` check.

  The read loop runs over the finite sequence of frames the socket delivers. Sends and hand-offs are returned as events.
- Task scheduling and cancellation (`install_filter_task`, `forward_local_addresses_changed`) are not modelled, and neither is the "installed" log line. They are side effects outside the builder.

## Findings

| source | as written | input that shows it | evidently intended | confidence | as-written member | corrected member |
|---|---|---|---|---|---|---|
| nhrp/sysdep_pfpacket.c:137-140 | `patch_jump` reads `f->code[f->numops-1]` right after the interface tests. With n interfaces, numops is 3 + n, and nothing checks it against the 100-slot buffer first. | 98 interfaces: numops is 101, so the read is `code[100]`, past the end of `code[MAX_OPCODES]`. | Nothing is installed. The buffer-size check at lines 169-173 rejects the filter anyway, so the read should not happen. | not executed | FilterPolicy.InterfaceStageOverflows | FilterLayout.AssembleCount |
