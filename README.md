# tf-vrouter core, modelled in Dafny

This project models the sequential, byte- and bit-level core of the OpenSDN
virtual router (tf-vrouter) and proves properties of it:

- the IPv6 datapath of `dp-core/vr_proto_ip6.c`:
  - the ones'-complement checksums and the incremental TCP/UDP checksum patch;
  - the flow classifier, which turns a packet into a flow key with per-protocol ports, reverse direction and fat-flow masking;
  - fragment byte accounting;
  - the neighbour-discovery decisions and the in-place proxy Neighbor Advertisement;
  - the in-place IPv6 NAT rewrite;
- the flow-table definitions of `include/vr_flow.h`: flag algebra, the packed key layout and its parse/serialise round trip, the key pad and the hold queue;
- the Linux host glue:
  - the fragment-assembler scan cursor and bucket choice;
  - the vhost interface registry;
  - page rounding, the allocation header, the UDP source-port mapping, the perf-queue check and the huge-page request split;
- the user-space tools:
  - `utils/vr_util.c`: the token extractor, address syntax checks, prefix masking, drop names and the drop-log walk;
  - `utils/flow.c`: the `flow` request builder, the `--match` parser and the match predicates;
  - `utils/vif.c`: keyword lookup, the flag string, option validation, rate counters, paging and the PCI decode;
- the encoders of the Python test library `utils/pylib/common.py`.

The model has one Dafny module per source file:

| module | file |
|---|---|
| `Base` | byte types, little-endian stores and loads |
| `Drops` | the VP_DROP_* reasons |
| `FlowDefs` | `vr_flow.h` |
| `Ip6Layout` | header offsets and memcpy into a packet |
| `Ip6Checksum` | checksums |
| `Ip6Flow` | the classifier |
| `Ip6Neighbor` | neighbour discovery |
| `Ip6Nat` | NAT |
| `FragAssembler` | the fragment assembler |
| `VrUtil` | `vr_util.c` |
| `FlowCli` | the entry request, the match predicates and the hold stats of `flow.c` |
| `FlowMatch` | `--match` |
| `VifCli` | `vif.c` |
| `VhostDev` | `vhost_dev.c` |
| `VrouterMod` | `vrouter_mod.c` |
| `PyCommon` | `common.py` |

The model follows each file's form:
- Code that rewrites a packet in place works on an `array<byte>` (the packet buffer). So does code that edits a caller's string (`vr_extract_token`, `address_mask`). Each such method is proved equal to a function on values, and the properties are proved about that function.
- State that the source keeps in globals or structures becomes a `class`: the vhost database and its private entries, the assembler cursor, the `flow` tool's match variables, the drop-log header flag and the flow-table view.
- Everything else is functions and lemmas.

The host is taken to be little-endian (x86-64): a 16-bit load of wire bytes `b0, b1` is `b0 + 256 * b1`, and `ntohs` swaps them.

The datapath calls collaborators whose code is not part of this model (for example `vr_ip6_transport_header_valid`, `vr_icmp6_error`, `vr_flow_fat_flow_lookup`, `vr_incremental_diff`, the fragment table and the route lookup). These are function-valued parameters. The values of constants that are not defined in the modelled files are parameters too (for example `VR_IP6_FRAG_OFFSET_BITS`, `VR_ASSEMBLER_BUCKET_COUNT`, `VHOST_MAX_INTERFACES`, the `VR_MUDP_PORT_RANGE_*` bounds and `VR_MAX_HUGE_PAGE_CFG`).

## Model

| member | source | states |
|---|---|---|
| `FlowDefs.DpBitsPartition` | include/vr_flow.h:47-54 | VR_FLOW_FLAG_DP_BITS and VR_FLOW_FLAG_MASK split any flags into two disjoint parts whose union is the flags |
| `FlowDefs.DpBitsExactly` | include/vr_flow.h:31-54 | DP_BITS keeps exactly, and FLAG_MASK removes exactly, EVICT_CANDIDATE, EVICTED, NEW_FLOW and MODIFIED |
| `FlowDefs.FlagMaskKeepsOthers` | include/vr_flow.h:47-54 | every flag that is not one of the four datapath flags survives VR_FLOW_FLAG_MASK |
| `FlowDefs.NatMaskFacts` | include/vr_flow.h:31-63 | NAT_MASK is 0x1e, the union of SNAT, SPAT, DNAT and DPAT, and is disjoint from ACTIVE and from the datapath flags |
| `FlowDefs.KeyAllIsUnionOfBits` | include/vr_flow.h:121-127 | VR_FLOW_KEY_ALL is exactly the union of the five key-parameter bits |
| `FlowDefs.FatFlowMaskIterationVisits` | include/vr_flow.h:475-480 | with VR_FAT_FLOW_MAX_MASK = 9 the doubling loop visits exactly 1, 2, 4 and 8 |
| `FlowDefs.KeyBytes` | include/vr_flow.h:158-178 | the packed key is 12 header bytes plus two addresses of the family's length, fields at their packed offsets |
| `FlowDefs.ParseKey` | include/vr_flow.h:158-178 | reading a packed key succeeds exactly on a buffer of the packed length for an address length of 4 or 16 |
| `FlowDefs.ParseKeyBytes` | include/vr_flow.h:158-178 | parsing the serialised key gives back the key |
| `FlowDefs.KeyBytesOfParse` | include/vr_flow.h:158-178 | serialising a parsed key gives back the bytes |
| `FlowDefs.HashSizeIsKeySize` | include/vr_flow.h:213-219 | VR_FLOW_HASH_SIZE of a packet type is the length of that family's packed key (20 or 44 bytes) |
| `FlowDefs.CommonViewOfKey` | include/vr_flow.h:146-154 | in the common view the source address is ip_addr[0..len) and the destination ip_addr[len..2len) |
| `FlowDefs.KeyPad` | include/vr_flow.h:361-362 | VR_FLOW_KEY_PAD is in [0, 8) and makes the structure size plus the pad a multiple of 8 |
| `FlowDefs.KeyPadOfFlow` | include/vr_flow.h:361-362 | the key of a flow entry needs 3 bytes of padding to the next multiple of 8 |
| `FlowDefs.HeldNodes` | include/vr_flow.h:305-309 | a hold queue holds at most VR_MAX_FLOW_QUEUE_ENTRIES = 3 packet nodes |
| `Ip6Layout.Write` | dp-core/vr_proto_ip6.c:617-618 | a memcpy into the packet changes exactly the written window, keeping the length |
| `Ip6Layout.CopyIn` | dp-core/vr_proto_ip6.c:617-618 | the in-place memcpy leaves exactly `Write` of the old buffer |
| `Ip6Checksum.Fold` | dp-core/vr_proto_ip6.c:104-107 | a value below 2^16 is its own fold, and the fold is a 16-bit value |
| `Ip6Checksum.FoldResidue` | dp-core/vr_proto_ip6.c:104-107 | the fold is congruent to its input modulo 0xffff and is 0 only for input 0 |
| `Ip6Checksum.FoldOfMultiple` | dp-core/vr_proto_ip6.c:104-107 | a non-zero multiple of 0xffff folds to 0xffff |
| `Ip6Checksum.VrSum` | dp-core/vr_proto_ip6.c:90-108 | vr_sum returns the end-around-carry fold of the 16-bit word sum of the bytes |
| `Ip6Checksum.PseudoHeaderSumMatchesRfc8200` | dp-core/vr_proto_ip6.c:117-124 | the code's field layout and RFC 8200's give the same word sum |
| `Ip6Checksum.PseudoHeaderBytes` | dp-core/vr_proto_ip6.c:113-124 | the buffer the function fills is the pseudo-header |
| `Ip6Checksum.PseudoHeaderSum` | dp-core/vr_proto_ip6.c:111-127 | the method's result is vr_sum over the pseudo-header |
| `Ip6Checksum.ClearKeepsHeader` | dp-core/vr_proto_ip6.c:134-137 | clearing the checksum leaves the IPv6 header, so the pseudo-header sum is taken before or after alike |
| `Ip6Checksum.SumOfTwo` | dp-core/vr_proto_ip6.c:139 | vr_sum of the two-element sum array is the fold of the two sums added |
| `Ip6Checksum.Icmp6Checksum` | dp-core/vr_proto_ip6.c:130-140 | the method clears the checksum in the packet, changes nothing else, and returns the ICMPv6 checksum |
| `Ip6Checksum.ChecksumIgnoresOldValue` | dp-core/vr_proto_ip6.c:136 | two packets differing only in the old checksum bytes get the same checksum |
| `Ip6Checksum.StoreChecksumValue` | dp-core/vr_proto_ip6.c:1002 | the stored field reads back as the complemented checksum |
| `Ip6Checksum.StoreOverCleared` | dp-core/vr_proto_ip6.c:1002 | storing over the cleared field or over the old value gives the same bytes |
| `Ip6Checksum.StoreIcmp6ChecksumInPlace` | dp-core/vr_proto_ip6.c:1002 | the in-place statement leaves exactly `StoreIcmp6Checksum` of the old packet |
| `Ip6Checksum.StoredChecksumVerifies` | dp-core/vr_proto_ip6.c:130-140 | with the complemented checksum stored, the receiver's sum over the message is all ones (section 2.3 of RFC 4443) |
| `Ip6Checksum.ClearedStoreVerifies` | dp-core/vr_proto_ip6.c:130-140 | the same verification, stated over a cleared checksum field |
| `Ip6Checksum.EndAroundCarry` | dp-core/vr_proto_ip6.c:879-894 | adding the high half back gives a 16-bit value congruent to the input modulo 0xffff |
| `Ip6Checksum.UpdatedChecksum` | dp-core/vr_proto_ip6.c:872-900 | the new field, read as a sum (complemented unless the checksum is partial), is congruent modulo 0xffff to the old one plus both increments |
| `Ip6Checksum.UpdateCsumTouchesOnlyChecksum` | dp-core/vr_proto_ip6.c:854-867 | without a TCP/UDP checksum field, or with a zero UDP checksum, the packet is unchanged; otherwise only the two checksum bytes may differ |
| `Ip6Checksum.UpdateCsum` | dp-core/vr_proto_ip6.c:843-904 | vr_ip6_update_csum; stated by UpdatedChecksum and UpdateCsumTouchesOnlyChecksum, and UpdateCsumInPlace is proved equal to it |
| `Ip6Checksum.UpdateCsumInPlace` | dp-core/vr_proto_ip6.c:843-904 | the in-place method leaves exactly `UpdateCsum` of the old packet |
| `Ip6Flow.ClearForTurn` | dp-core/vr_proto_ip6.c:349-368 | each turn of the switch clears its own key bit when the mask has that bit, and nothing else |
| `Ip6Flow.FatFlowClearedIsMask` | dp-core/vr_proto_ip6.c:348-369 | the loop clears exactly the key bits named by the mask bits |
| `Ip6Flow.FatFlowClearedBits` | dp-core/vr_proto_ip6.c:348-371 | only SRC_PORT, DST_PORT, SRC_IP and DST_IP can be cleared, each exactly when its mask bit is set; PROTO is kept and no bit is set |
| `Ip6Flow.FatFlowIdempotent` | dp-core/vr_proto_ip6.c:348-369 | applying the same fat-flow mask twice equals applying it once |
| `Ip6Flow.ClearFatFlowBits` | dp-core/vr_proto_ip6.c:348-369 | the loop method returns the key bits with exactly the masked bits cleared |
| `Ip6Flow.FillFlow` | dp-core/vr_proto_ip6.c:231-249 | vr_inet6_fill_flow gives a well-formed key with 16-byte addresses |
| `Ip6Flow.FillFlowAddresses` | dp-core/vr_proto_ip6.c:236-247 | an address appears in the key exactly when its key bit survives, and is all zero otherwise, because the key is zeroed first |
| `Ip6Flow.Transport` | dp-core/vr_proto_ip6.c:283-290 | the upper-layer protocol and header start, after skipping one fragment header |
| `Ip6Flow.AccountAllReceived` | dp-core/vr_proto_ip6.c:398-402 | over any sequence of fragments, f_received grows by exactly the payloads minus the 8-byte fragment headers; the ports never change |
| `Ip6Flow.ReceivedOrderIndependent` | dp-core/vr_proto_ip6.c:402 | two fragments counted in either order leave the same received count |
| `Ip6Flow.TailExpectedSticks` | dp-core/vr_proto_ip6.c:403-407 | after the tail, non-tail fragments never change f_expected |
| `Ip6Flow.FormSpecArgsValid` | dp-core/vr_proto_ip6.c:433-450 | every key the classifier builds has 16-byte addresses |
| `Ip6Flow.FormSpec` | dp-core/vr_proto_ip6.c:433-450 | vr_inet6_form_flow; its properties are stated by FormSpecArgsValid and IcmpErrorIgnoresDirection, and FormFlow is proved equal to it |
| `Ip6Flow.ProtoSpec` | dp-core/vr_proto_ip6.c:268-378 | vr_inet6_proto_flow; its properties are stated by ProtoPorts, ReverseSwaps and ProtoParamsMasked, and ProtoFlow is proved equal to it |
| `Ip6Flow.FragmentSpec` | dp-core/vr_proto_ip6.c:381-429 | vr_inet6_fragment_flow; its properties are stated by FragmentPath, and FragmentFlow is proved equal to it |
| `Ip6Flow.KeyFor` | dp-core/vr_proto_ip6.c:327-375 | the key of the full-header path; its properties are stated by KeyForMasked, and KeyForMethod is proved equal to it |
| `Ip6Flow.ProtoPorts` | dp-core/vr_proto_ip6.c:305-325 | forward ports: TCP/UDP/SCTP use the first two words; echo uses the identifier and the fixed reply port; NS/NA set FLOW_SET and build no key; other ICMPv6 uses 0 and the type; other protocols 0/0; the key's addresses are what the fat-flow lookup left in its copies of the packet's source and destination |
| `Ip6Flow.ReverseSwaps` | dp-core/vr_proto_ip6.c:327-345 | reverse-direction ports are the forward ones swapped on both paths; on the full-header path the addresses are swapped before the fat-flow lookup, so the key holds what the lookup makes of the swapped pair; on the fragment path, or when the lookup keeps the addresses, they are the forward ones swapped |
| `Ip6Flow.IcmpErrorIgnoresDirection` | dp-core/vr_proto_ip6.c:292-302 | an ICMPv6 error in the outermost header is classified on its embedded header in the reverse direction; one in an embedded header is refused with VP_DROP_ICMP_ERROR |
| `Ip6Flow.KeyForMasked` | dp-core/vr_proto_ip6.c:338-375 | the fill arguments carry the masked key parameters and the addresses the fat-flow lookup left in its copies of the oriented packet addresses |
| `Ip6Flow.ProtoParamsMasked` | dp-core/vr_proto_ip6.c:348-371 | on the full-header path PROTO is never cleared and the parameters are a subset of KEY_ALL |
| `Ip6Flow.FragmentPath` | dp-core/vr_proto_ip6.c:392-426 | a missing entry gives -VP_DROP_NO_FRAG_ENTRY and changes nothing; otherwise the counts advance, the entry is deleted exactly when they meet, and the key takes the entry's ports and the fragment's next header |
| `Ip6Flow.KeyForMethod` | dp-core/vr_proto_ip6.c:327-375 | the method that runs the mask loop returns the specified fill arguments, with the addresses the fat-flow lookup left in its copies |
| `Ip6Flow.FragmentFlow` | dp-core/vr_proto_ip6.c:381-429 | the method on a fragment entry object returns the specified result and updates f_received and f_expected as the specification says |
| `Ip6Flow.FormFlow` | dp-core/vr_proto_ip6.c:433-450 | the method returns the outcome FormSpec gives and leaves the fragment entry as FormSpec says |
| `Ip6Flow.ProtoFlow` | dp-core/vr_proto_ip6.c:268-378 | the method returns the outcome ProtoSpec gives and leaves the fragment entry as ProtoSpec says |
| `Ip6Flow.GetFlowKeyFailures` | dp-core/vr_proto_ip6.c:453-474 | a failed classification is returned as is and registers no fragment; a failed fragment add gives -VP_DROP_NO_MEMORY, and a fragment head whose add fails always gives it |
| `Ip6Flow.GetFlowKeyStatus` | dp-core/vr_proto_ip6.c:453-474 | after a classification that did not fail: FLOW_SET is reported exactly when the fragment entry had the key, which is then the key used; a packet that is not a fragment head gives 0; a head gives the add's value, or -VP_DROP_NO_MEMORY when it is negative |
| `Ip6Flow.GetFlowKeySpec` | dp-core/vr_proto_ip6.c:453-474 | vr_inet6_get_flow_key; its properties are stated by GetFlowKeyFailures and GetFlowKeyStatus |
| `Ip6Flow.FlowLookupDecisions` | dp-core/vr_proto_ip6.c:477-538 | a packet already looked up, or one on a policy-free interface without FLOW_GET, is forwarded; a failed classification is consumed (to the assembler or dropped with VP_DROP_MISC); a failed fragment add gives -VP_DROP_NO_MEMORY, and one on the key looked up always gives it |
| `Ip6Flow.FlowLookupResults` | dp-core/vr_proto_ip6.c:477-538 | on a lookup the key is the metadata key or the one FillFlow builds from the classification; FLOW_SET after classifying forwards; failing that, a head whose add fails is -VP_DROP_NO_MEMORY, and otherwise the result is vr_flow_lookup's on that key, cloned to the assembler exactly for a cloned head with the assembler set |
| `Ip6Flow.FlowLookupSpec` | dp-core/vr_proto_ip6.c:477-538 | vr_inet6_flow_lookup; its properties are stated by FlowLookupDecisions and FlowLookupResults |
| `Ip6Flow.LookupKey` | dp-core/vr_proto_ip6.c:505-512 | the key the lookup uses; FlowLookupResults states that it exists exactly when the classification built one |
| `Ip6Flow.FillFromReq` | dp-core/vr_proto_ip6.c:197-228 | vr_inet6_fill_flow_from_req gives a well-formed key with 16-byte addresses |
| `Ip6Flow.FillFromReqRoundTrip` | dp-core/vr_proto_ip6.c:197-211 | request words built from a key's addresses fill a key with the same addresses |
| `Ip6Flow.AddressRoundTrip` | dp-core/vr_proto_ip6.c:197-211 | two 64-bit loads of an address, stored back, give the address |
| `Ip6Flow.IsFatFlow` | dp-core/vr_proto_ip6.c:252-264 | a key is fat exactly when it is TCP, UDP or SCTP and one of its ports is 0 |
| `Ip6Flow.WellKnownPacket` | dp-core/vr_proto_ip6.c:801-840 | anything recognised is an IPv6 multicast to ff02::/16 that is not link-local; the ND types need ICMPv6; DHCP exactly for UDP from the DHCPv6 client port |
| `Ip6Flow.WellKnownNeighbourTypes` | dp-core/vr_proto_ip6.c:801-840 | the three ND types are recognised exactly by the ICMPv6 type after the header |
| `Ip6Neighbor.IsDad` | dp-core/vr_proto_ip6.c:70-86 | true exactly for a present header with version 6, an unspecified source and a length at most the ICMP header plus 16 |
| `Ip6Neighbor.DadNeedsZeroSource` | dp-core/vr_proto_ip6.c:70-86 | a DAD probe has an all-zero source and version 6; a longer packet is never DAD |
| `Ip6Neighbor.NeighborRequest` | dp-core/vr_proto_ip6.c:650-676 | VLAN-tagged packets flood; DAD is NOT_ME; otherwise MAC_PROXY or the route's proxy flag gives the proxy-MAC answer; else flood |
| `Ip6Neighbor.ProxyOnlyWhenAsked` | dp-core/vr_proto_ip6.c:650-676 | a proxy answer implies an untagged, non-DAD solicitation with a proxy flag |
| `Ip6Neighbor.NeighborReply` | dp-core/vr_proto_ip6.c:680-715 | xconnect or host interfaces cross-connect; non-fabric ones free with INVALID_IF; unhandled exactly for fabric with a label or another VRF |
| `Ip6Neighbor.NeighborInput` | dp-core/vr_proto_ip6.c:718-798 | short packets are freed; non-ICMPv6 and non-NS are returned unhandled; a proxy happens only for a full NS with a proxy answer |
| `Ip6Neighbor.DadIsBridged` | dp-core/vr_proto_ip6.c:650-798 | an untagged DAD probe is never proxied and a full one is returned unhandled |
| `Ip6Neighbor.NdInput` | dp-core/vr_proto_ip6.c:143-173 | NS goes to vr_neighbor_input and NA to vr_neighbor_reply, exactly; every other type is unhandled |
| `Ip6Neighbor.EthRewriteSays` | dp-core/vr_proto_ip6.c:612-615 | destination from the source link-layer option, source dmac, type 0x86DD; the other bytes are unchanged |
| `Ip6Neighbor.AddressSwapSays` | dp-core/vr_proto_ip6.c:617-618 | the new destination is the old source, the new source is the target; the other bytes are unchanged |
| `Ip6Neighbor.HeaderRewriteSays` | dp-core/vr_proto_ip6.c:612-618 | both header rewrites land where the advertisement needs them and nowhere else |
| `Ip6Neighbor.IcmpRewriteSays` | dp-core/vr_proto_ip6.c:620-631 | type NA; Solicited, plus Router when the MAC is mine; a TLLA option of length 1 carrying dmac; nothing outside the message changes |
| `Ip6Neighbor.ProxyFieldsKeepPlen` | dp-core/vr_proto_ip6.c:612-631 | the rewrites keep the IPv6 payload length and next-header fields |
| `Ip6Neighbor.ProxyFieldsSay` | dp-core/vr_proto_ip6.c:612-631 | every field of the advertisement, as the rewrites set it (sections 4.4 and 4.6.1 of RFC 4861) |
| `Ip6Neighbor.ProxyReplyVerifies` | dp-core/vr_proto_ip6.c:633-634 | the advertisement's ICMPv6 checksum verifies (section 2.3 of RFC 4443) |
| `Ip6Neighbor.NeighborProxy` | dp-core/vr_proto_ip6.c:589-639 | a failed push gives VP_DROP_PUSH with nothing written; otherwise the buffer becomes exactly ProxyReply |
| `Ip6Neighbor.ProxyInPlace` | dp-core/vr_proto_ip6.c:609-634 | after the push the buffer becomes exactly ProxyReply |
| `Ip6Neighbor.RewriteHeaders` | dp-core/vr_proto_ip6.c:612-618 | the in-place header writes leave exactly HeaderRewrite |
| `Ip6Neighbor.RewriteIcmp` | dp-core/vr_proto_ip6.c:620-631 | the in-place ICMPv6 writes leave exactly IcmpRewrite |
| `Ip6Nat.FlowNat` | dp-core/vr_proto_ip6.c:907-1018 | fail-closed: a negative fe_rflow, a missing reverse entry or no network header gives FLOW_CONSUMED with VP_DROP_FLOW_NAT_NO_RFLOW and the packet untouched; otherwise FLOW_FORWARD with the translated packet |
| `Ip6Nat.FlowNatTranslates` | dp-core/vr_proto_ip6.c:920-1012 | a call that passes the three checks forwards exactly the Translated bytes |
| `Ip6Nat.PortNatFrame` | dp-core/vr_proto_ip6.c:978-994 | the port rewrite writes nothing before the transport header |
| `Ip6Nat.AddressNatFrame` | dp-core/vr_proto_ip6.c:959-976 | the address rewrites keep the first 8 header bytes and everything after the addresses |
| `Ip6Nat.RewritesKeepHeader` | dp-core/vr_proto_ip6.c:931-994 | after the address and port rewrites the packet still fits and keeps its payload length and next header |
| `Ip6Nat.UpdateKeepsHeader` | dp-core/vr_proto_ip6.c:996-997 | the TCP/UDP checksum patch writes nothing before the transport checksum field |
| `Ip6Nat.ChecksumsFrame` | dp-core/vr_proto_ip6.c:996-1003 | the checksum steps write nothing before the transport header, and for ICMPv6 only the checksum field |
| `Ip6Nat.AddressNatSays` | dp-core/vr_proto_ip6.c:959-976 | where the two address rewrites land and what they leave |
| `Ip6Nat.RewrittenAddresses` | dp-core/vr_proto_ip6.c:959-976 | the addresses once the rewrites are done, by flag |
| `Ip6Nat.NatAddresses` | dp-core/vr_proto_ip6.c:959-976 | after NAT the source is the reverse flow's destination when SNAT applied and the source was the key's; the destination is the reverse flow's source under DNAT; otherwise unchanged |
| `Ip6Nat.PortNatSays` | dp-core/vr_proto_ip6.c:978-994 | with a valid transport header SPAT and DPAT set the two ports and nothing after them |
| `Ip6Nat.NatPorts` | dp-core/vr_proto_ip6.c:978-994 | for a non-ICMPv6 packet with a valid transport header, SPAT sets the source port to the reverse flow's dport and DPAT the destination port to its sport; otherwise the ports are unchanged |
| `Ip6Nat.SourceNat` | dp-core/vr_proto_ip6.c:959-967 | the SNAT step writes the reverse key's destination as the new source; stated by SourceNatInPlace and NatAddresses |
| `Ip6Nat.DestNat` | dp-core/vr_proto_ip6.c:969-976 | the DNAT step writes the reverse key's source as the new destination; stated by DestNatInPlace and NatAddresses |
| `Ip6Nat.PortNat` | dp-core/vr_proto_ip6.c:978-994 | the SPAT/DPAT step writes the reverse key's ports; stated by PortNatInPlace and NatPorts |
| `Ip6Nat.NatNexthop` | dp-core/vr_proto_ip6.c:1005-1010 | with VRF translation the next hop is looked up again on the new destination; FlowNat and NatAddresses state which destination that is |
| `Ip6Nat.PortNatPorts` | dp-core/vr_proto_ip6.c:978-994 | the ports after PortNat, set as SPAT and DPAT say or untouched |
| `Ip6Nat.QuotedWritesSay` | dp-core/vr_proto_ip6.c:936-955 | the four quoted-header writes land in four separate fields |
| `Ip6Nat.NatQuoted` | dp-core/vr_proto_ip6.c:931-957 | an ICMPv6 error's quoted destination and source become the reverse flow's destination and source under SNAT and DNAT, and the quoted ports the reverse flow's ports under SPAT and DPAT |
| `Ip6Nat.NatIcmpChecksum` | dp-core/vr_proto_ip6.c:999-1003 | when the ICMPv6 checksum is recomputed, the translated message verifies (section 2.3 of RFC 4443) |
| `Ip6Nat.FlowNatInPlace` | dp-core/vr_proto_ip6.c:907-1018 | the in-place method leaves exactly FlowNat's packet, verdict, drop reason and nexthop |
| `Ip6Nat.QuotedNatInPlace` | dp-core/vr_proto_ip6.c:931-957 | the in-place quoted-header rewrites leave exactly QuotedNat |
| `Ip6Nat.AddrDiffLoop` | dp-core/vr_proto_ip6.c:961-964 | the incremental-diff loop folds the four old and new 32-bit words of an address into the increment |
| `Ip6Nat.SourceNatInPlace` | dp-core/vr_proto_ip6.c:959-967 | leaves exactly SourceNat and returns the IP increment |
| `Ip6Nat.DestNatInPlace` | dp-core/vr_proto_ip6.c:969-976 | leaves exactly DestNat and continues the IP increment |
| `Ip6Nat.PortNatInPlace` | dp-core/vr_proto_ip6.c:978-994 | leaves exactly PortNat and returns the port increment |
| `Ip6Nat.ChecksumsInPlace` | dp-core/vr_proto_ip6.c:996-1003 | leaves exactly ChecksumsRedone |
| `FragAssembler.BucketAt` | linux/vr_fragment_assembler.c:95-97 | each step of a scan visits a valid bucket |
| `FragAssembler.Visits` | linux/vr_fragment_assembler.c:95-107 | a scan from step j visits between j and COUNT buckets |
| `FragAssembler.VisitsStopsAtFirstExcess` | linux/vr_fragment_assembler.c:100-104 | the scan stops right after the first excess |
| `FragAssembler.VisitsAllWhenUnder` | linux/vr_fragment_assembler.c:95-107 | with the total never over the threshold every bucket is visited |
| `FragAssembler.BucketsDistinct` | linux/vr_fragment_assembler.c:95-97 | no bucket is visited twice in one invocation |
| `FragAssembler.Assembler.Scan` | linux/vr_fragment_assembler.c:89-110 | returns the buckets visited from the saved cursor and saves (start + visited) mod COUNT, always in [0, COUNT) |
| `FragAssembler.FullCycleReturns` | linux/vr_fragment_assembler.c:96-108 | a scan within the threshold visits every bucket and the cursor returns to its start |
| `FragAssembler.ResumesAfterExcess` | linux/vr_fragment_assembler.c:100-108 | after an excess at step e the next scan starts at (start + e + 1) mod COUNT |
| `FragAssembler.AssembleBucket` | linux/vr_fragment_assembler.c:47-49 | a node is assembled in bucket hash mod COUNT |
| `FragAssembler.AssembleBucketPeriodic` | linux/vr_fragment_assembler.c:47-49 | hashes that differ by a multiple of COUNT share a bucket |
| `FragAssembler.EnqueueToAssembler` | linux/vr_fragment_assembler.c:66-86 | a cpu at or above vr_num_cpus drops with VP_DROP_FRAGMENTS and returns -EINVAL; every other case returns 0 |
| `VrUtil.End` | utils/vr_util.c:51-94 | the position of the terminating NUL, the first one from i |
| `VrUtil.SkipSpaces` | utils/vr_util.c:58-61 | the first position from i that is not a space, at or before the terminating NUL |
| `VrUtil.FindChar` | utils/vr_util.c:72 | strchr's stopping point: a position holding c or the NUL, at or before the terminating NUL |
| `VrUtil.TrimBack` | utils/vr_util.c:78-86 | the trailing-space loop stops at a non-space or at offset 0 |
| `VrUtil.ExtractToken` | utils/vr_util.c:51-94 | the token start and the buffer afterwards: None for an all-space string or a leading separator |
| `VrUtil.CutShape` | utils/vr_util.c:72-93 | the token's bytes are unchanged and end in a NUL right after the last kept character |
| `VrUtil.TokenShape` | utils/vr_util.c:58-93 | the token starts at the first non-space, has no separator and no trailing spaces; a trimmed separator becomes a space |
| `VrUtil.CutAfter` | utils/vr_util.c:72-93 | past the token's NUL the cut changes at most the separator, into a space |
| `VrUtil.Cut` | utils/vr_util.c:72-93 | the buffer after extract_token's cut; stated by CutShape and CutAfter |
| `VrUtil.TokenRest` | utils/vr_util.c:72-93 | after a cut, the rest of the string is still NUL-terminated at its old end |
| `VrUtil.RestAfterToken` | utils/vr_util.c:72-93 | the caller's resume point, one past the token's NUL, is again a string ending where the old one did |
| `VrUtil.NoTokenCases` | utils/vr_util.c:58-70 | an empty or all-space string, or a first non-space that is the separator, gives no token |
| `VrUtil.ExtractTokenInPlace` | utils/vr_util.c:51-94 | the in-place method returns ExtractToken's start and leaves its buffer |
| `VrUtil.CutInPlace` | utils/vr_util.c:72-93 | the in-place cut leaves exactly Cut |
| `VrUtil.TrimLoop` | utils/vr_util.c:78-86 | the loop returns TrimBack |
| `VrUtil.StrLen` | utils/vr_util.c:51-94 | strlen is the distance to the terminating NUL |
| `VrUtil.StrChr` | utils/vr_util.c:72 | the first c before the NUL, or None |
| `VrUtil.ValidIpv6Address` | utils/vr_util.c:97-125 | "*" is accepted; otherwise only alphanumerics and ':', groups of at most 4 and at most 7 colons, both directions |
| `VrUtil.AddressSyntaxNulFree` | utils/vr_util.c:97-162 | no address either validator accepts holds a NUL |
| `VrUtil.ValidIpv4Address` | utils/vr_util.c:128-162 | "*" is accepted; otherwise only digits and '.', no leading '.', groups of at most 3 digits and exactly 3 dots, both directions |
| `VrUtil.Ipv4Examples` | utils/vr_util.c:128-162 | "10.1.1.3" is accepted and "10.1.1" is refused |
| `VrUtil.ValidMacAddress` | utils/vr_util.c:165-173 | false exactly for NULL or an all-zero address |
| `VrUtil.AddressBytes` | utils/vr_util.c:2191-2213 | an address is 4 or 16 bytes |
| `VrUtil.MaskedBits` | utils/vr_util.c:2191-2213 | the first plen bits are kept, the other address bits cleared and the bytes after the address untouched |
| `VrUtil.MaskedKeepsRest` | utils/vr_util.c:2191-2213 | bytes past the family's address length are unchanged |
| `VrUtil.MaskedIdempotent` | utils/vr_util.c:2191-2213 | masking twice with the same prefix is masking once |
| `VrUtil.Masked` | utils/vr_util.c:2191-2213 | the address after the prefix mask; stated by MaskedBits, MaskedKeepsRest and MaskedIdempotent |
| `VrUtil.AddressMask` | utils/vr_util.c:2191-2213 | the in-place bit-by-bit method leaves exactly Masked |
| `VrUtil.MaskIsPrefix` | utils/vr_util.c:2199-2209 | once the loop has cleared bits plen and above, the mask bytes are the prefix bytes |
| `VrUtil.NexthopVifTypes` | utils/vr_util.c:1728-1745 | has_vif is true exactly for ENCAP, TUNNEL, RCV and L2_RCV |
| `VrUtil.ResponseCommonProcess` | utils/vr_util.c:804-824 | a negative code is returned with dump_pending false; otherwise 0, and dump_pending is set exactly when the DUMP_INCOMPLETE bit is |
| `VrUtil.ProtoString` | utils/vr_util.c:176-205 | "UNKNOWN" exactly for a number other than ICMP, TCP, UDP, ICMPv6 and SCTP |
| `VrUtil.VpTypeName` | utils/vr_util.c:561-573 | "UNKNOWN" exactly for a packet type outside the listed ones |
| `VrUtil.DropName` | utils/vr_util.c:576-691 | "Unknow" exactly for a drop code outside the listed ones |
| `VrUtil.ReasonNotUnknown` | utils/vr_util.c:576-691 | no listed reason is named "Unknow" |
| `VrUtil.LogBufferIter` | utils/vr_util.c:780-787 | one walk covers the rest of the configured buffer, at most the allowed size |
| `VrUtil.ShownIndicesSpec` | utils/vr_util.c:789-790 | the printed slots are exactly the shown ones below n, in increasing order |
| `VrUtil.DropLogInBounds` | utils/vr_util.c:780-790 | every printed slot is below the allowance and inside the configured buffer |
| `VrUtil.DropLogPrinter.PrintData` | utils/vr_util.c:692-773 | a slot prints when it has a type and passes the drop-type filter; the header prints once, before the first slot below VR_PKT_DROP_LOG_MAX |
| `VrUtil.AsWrittenHeaderOnce` | utils/vr_util.c:714-717 | as written, over any sequence of calls the header is printed at most once, and never once the file-scope flag is set |
| `VrUtil.ResetReprintsHeader` | utils/vr_util.c:794-798 | two full walks of a two-slot log print the header twice with the reset and once as written |
| `VrUtil.CorrectedHeaderAfterFullWalk` | utils/vr_util.c:794-798 | with the reset, the call after a walk that ends at VR_PKT_DROP_LOG_MAX prints the header exactly when it is due, whatever came before |
| `VrUtil.DropLogPrinter.WalkSlots` | utils/vr_util.c:780-790 | the loop returns the printed slots and one header exactly when the file-scope flag was clear and a printed slot is below VR_PKT_DROP_LOG_MAX; it sets the flag when it prints the header |
| `VrUtil.DropLogPrinter.PrintDropLog` | utils/vr_util.c:775-800 | as written: the printed slots and header as the walk gives them; the reset tests the function-local static, which nothing sets, so the file-scope flag is never cleared |
| `VrUtil.DropLogPrinter.PrintDropLogIntended` | utils/vr_util.c:775-800 | as intended: the same walk, and the file-scope flag cleared when the walk ends at VR_PKT_DROP_LOG_MAX |
| `FlowCli.AddrSize` | utils/flow.c:445-475 | VR_IP_ADDR_SIZE is 4 or 16 bytes |
| `FlowCli.FlowGet` | utils/flow.c:233-239 | NULL exactly when the index is at or above ft_num_entries |
| `FlowCli.FillFlowReq` | utils/flow.c:1882-1969 | -1 for a bad index, a non-IP entry or a refused action; on success the request carries the entry's key and gen id, the mapped action and the mirror flag |
| `FlowCli.FillKey` | utils/flow.c:1888-1933 | operation, index, family, ACTIVE flag and the entry's key fields |
| `FlowCli.FillAction` | utils/flow.c:1935-1959 | 'd' is DROP and 'f' FORWARD; 'i' is refused on an evicted entry and otherwise clears the flags and sets DROP; 'e' sets FORCE_EVICT; any other is refused |
| `FlowCli.FillMirror` | utils/flow.c:1962-1966 | MIRROR, with the index, exactly when a mirror is set |
| `FlowCli.AddressWords` | utils/flow.c:1906-1925 | the two 64-bit halves of a 16-byte address store back into its bytes |
| `FlowCli.OnlyInvalidateDeactivates` | utils/flow.c:1935-1959 | an 'i' request never carries ACTIVE, and every other successful one does |
| `FlowCli.MatchDestAsWritten` | utils/flow.c:445-459 | the destination test as written is undefined exactly for a NULL address with a port |
| `FlowCli.MatchNeedsAddressOrPort` | utils/flow.c:445-475 | neither test matches without an address or a port |
| `FlowCli.WildcardMatchesOnPort` | utils/flow.c:462-475 | with a NULL address the tests compare the ports alone |
| `FlowCli.MatchComparesKeyAddresses` | utils/flow.c:445-475 | on an IP entry, the tests compare the key's own source and destination addresses and ports |
| `FlowCli.MatchDestAgrees` | utils/flow.c:445-459 | the corrected test agrees with the source wherever the source is defined |
| `FlowCli.MatchDest` | utils/flow.c:445-459 | flow_match_dest with the NULL address not compared; stated by MatchDestAgrees and WildcardMatchesOnPort |
| `FlowCli.MatchSource` | utils/flow.c:462-475 | flow_match_source; stated by MatchNeedsAddressOrPort and MatchComparesKeyAddresses |
| `FlowCli.MatchDestNullAddress` | utils/flow.c:1301-1305 | "--match *:80" calls the destination test with the NULL address and port 80 |
| `FlowCli.FlowDropReason` | utils/flow.c:350-427 | a non-empty name for codes up to 0x22, NULL exactly above |
| `FlowCli.NewLineIfRequired` | utils/flow.c:1174-1182 | a newline exactly when the column count reaches the limit, which resets it |
| `FlowCli.NewLineKeepsBelow` | utils/flow.c:1174-1182 | after the call the column count is below a positive limit |
| `FlowCli.FlowTable.CopyHoldStats` | utils/flow.c:1819-1833 | copies at most 128 hold counters and records the count; with none given, the counters are cleared |
| `FlowMatch.ToInt32` | utils/flow.c:2268-2336 | keeping the low 32 bits of strtoul's value, as a signed int32 |
| `FlowMatch.Fit` | utils/flow.c:2268-2336 | the first n bytes inet_pton wrote, zero-padded |
| `FlowMatch.FamilySize` | utils/flow.c:2268-2336 | an address of either family is 4 or 16 bytes |
| `FlowMatch.PortOf` | utils/flow.c:2268-2336 | no port text, or port text starting with '*', leaves the port as it was |
| `FlowMatch.SetFamilyOf` | utils/flow.c:2268-2336 | flow_set_family returns 0 or -EINVAL, and a refused tuple leaves the match as it was |
| `FlowMatch.SetFamilyAccepts` | utils/flow.c:2273-2333 | a tuple is accepted exactly when an end is free, the address passes its family's check and the family agrees with the match |
| `FlowMatch.SetFamilyRejectsThird` | utils/flow.c:2273-2333 | with both ends set a third tuple is refused and changes nothing |
| `FlowMatch.SetFamilyRejectsMix` | utils/flow.c:2273-2333 | a tuple of the other family is refused and changes nothing |
| `FlowMatch.SetFamilyFillsFirstFree` | utils/flow.c:2273-2333 | an accepted tuple fills ip1 then ip2, wildcard exactly for a one-character address, and leaves the rest as it was |
| `FlowMatch.SetFamilyStores` | utils/flow.c:2300-2333 | the match variables an accepted tuple leaves, written out |
| `FlowMatch.FirstFromSpec` | utils/flow.c:2355-2407 | strchr finds the first occurrence from i or reports none |
| `FlowMatch.LastBeforeSpec` | utils/flow.c:2355-2407 | strrchr finds the last occurrence before n or reports none |
| `FlowMatch.TupleNoClosingBracket` | utils/flow.c:2355-2407 | '[' without ']' is malformed |
| `FlowMatch.TupleBracketForm` | utils/flow.c:2355-2407 | "[a]:p" is well formed exactly when ':' and at least one more character follow the last ']' |
| `FlowMatch.TupleTwoColons` | utils/flow.c:2355-2407 | without '[', two different colons make an IPv6 address without a port |
| `FlowMatch.TupleOneColon` | utils/flow.c:2355-2407 | without '[', one colon separates an IPv4 address and port |
| `FlowMatch.TupleNoColon` | utils/flow.c:2355-2407 | with neither, the tuple is an IPv4 address without a port |
| `FlowMatch.SetTupleAsWritten` | utils/flow.c:2348-2410 | the dispatch as written, which ignores the result of the portless IPv6 call |
| `FlowMatch.SetTupleOf` | utils/flow.c:2348-2410 | the checked dispatch returns 0 or -EINVAL, and a refused tuple leaves the match as it was |
| `FlowMatch.SetTupleAgrees` | utils/flow.c:2348-2410 | the two agree on every tuple except an unchecked one that flow_set_family refuses |
| `FlowMatch.UncheckedTupleIgnored` | utils/flow.c:2385-2390 | "12345::1" is reported accepted as written while the match stays empty, and refused when checked |
| `FlowMatch.ThirdTupleRejected` | utils/flow.c:2348-2410 | with every flow_set_family result checked, once both ends are set every further tuple is refused and changes nothing |
| `FlowMatch.ThirdTupleAsWritten` | utils/flow.c:2348-2410 | as written, once both ends are set a further tuple changes nothing, and it is reported accepted (0) exactly when it is the unchecked portless IPv6 form |
| `FlowMatch.SetProtoOf` | utils/flow.c:2459-2480 | flow_set_proto; stated by SetProtoResult, SetProtoIcmp6First and SetProtoRefuses |
| `FlowMatch.SetProtoResult` | utils/flow.c:2459-2480 | an accepted name sets only a nameable protocol; a refused one is -EINVAL and changes nothing |
| `FlowMatch.SetProtoIcmp6First` | utils/flow.c:2459-2480 | names starting with icmp6 give ICMPv6, "icmp" alone gives ICMP |
| `FlowMatch.SetProtoRefuses` | utils/flow.c:2459-2480 | the empty name and a name without a known prefix are refused |
| `FlowMatch.SetVrfOf` | utils/flow.c:2445-2456 | the empty string is refused; otherwise the vrf is set before errno is checked |
| `FlowMatch.SetVrfTwice` | utils/flow.c:2483-2506 | the repeated call on the same text changes nothing |
| `FlowMatch.ApplyTuples` | utils/flow.c:2413-2442 | applying tuples in order returns 0 or -EINVAL |
| `FlowMatch.ApplyTuplesAtMostTwo` | utils/flow.c:2413-2442 | after two tuples are set, further ones fail and the ends stay |
| `FlowMatch.ApplyTuplesAsWritten` | utils/flow.c:2413-2442 | the tuples applied in order with flow_set_tuple as written return 0 or -EINVAL |
| `FlowMatch.ApplyTuplesAgree` | utils/flow.c:2385-2442 | without an IPv6 tuple lacking a port, the tuples as written and as corrected give the same result and match |
| `FlowMatch.UncheckedTupleThenIpv4` | utils/flow.c:2385-2442 | "12345::1,10.1.1.3" sets 10.1.1.3 as the first end as written, and is refused with nothing set when checked |
| `FlowMatch.SetIpOf` | utils/flow.c:2413-2442 | flow_set_ip; stated by ApplyTuples and ApplyTuplesAtMostTwo, and SetIp is proved equal to it |
| `FlowMatch.ApplyClause` | utils/flow.c:2493-2500 | one clause of flow_set_match; SetClause is proved equal to it |
| `FlowMatch.ParseMatch` | utils/flow.c:2483-2506 | flow_set_match; stated by ParseMatchConsistent, and SetMatch is proved equal to it |
| `FlowMatch.ParseMatchConsistent` | utils/flow.c:2483-2506 | whatever the argument, the parsed match keeps the invariant that set ends precede free ones and share the family |
| `FlowMatch.TuplesMatch` | utils/flow.c:1300-1333 | the tuple test of flow_print_entry on the corrected destination test; stated by OneEndMatches, BothEndsMatch and BothEndsPaired, and related to the code as written by TuplesMatchAgrees |
| `FlowMatch.TuplesMatchAsWritten` | utils/flow.c:1300-1333 | the tuple test on flow_match_dest as written: defined whenever no end is a "*" address with a port, and undefined when a "*:port" first end fails the source test, which makes the dump memcmp NULL |
| `FlowMatch.TuplesMatchAgrees` | utils/flow.c:1300-1333 | wherever the test as written is defined, it gives the same verdict as the corrected TuplesMatch |
| `FlowMatch.OneEndMatches` | utils/flow.c:1300-1327 | with one end given, an entry matches when that end is its source or its destination |
| `FlowMatch.BothEndsMatch` | utils/flow.c:1300-1333 | with both ends, ip1 is tried as the source first; a match is ip1 source and ip2 destination, or ip1 destination and ip2 source |
| `FlowMatch.BothEndsPaired` | utils/flow.c:1300-1333 | a shown entry has one end as source and the other as destination |
| `FlowMatch.EmptyMatchShowsActive` | utils/flow.c:1277-1282 | with no match, every active non-evicted entry is shown, evicted ones too when asked |
| `FlowMatch.Selected` | utils/flow.c:1277-1333 | the filter of flow_print_entry: active, not evicted unless asked, vrf, protocol, and family plus tuples; stated by EmptyMatchShowsActive and BothEndsPaired, on the corrected TuplesMatch |
| `FlowMatch.MatchState.constructor` | utils/flow.c:99-102 | the match starts as the initial, empty match with the given converters |
| `FlowMatch.MatchState.SetFamily` | utils/flow.c:2268-2336 | the method returns SetFamilyOf's value and leaves its state |
| `FlowMatch.MatchState.FillEnd` | utils/flow.c:2318-2333 | the address and port go to ip1 while free, else to ip2 |
| `FlowMatch.MatchState.SetTuple` | utils/flow.c:2348-2410 | the method returns SetTupleOf's value and leaves its state |
| `FlowMatch.MatchState.SetProto` | utils/flow.c:2459-2480 | the method returns SetProtoOf's value and leaves its state |
| `FlowMatch.MatchState.SetVrf` | utils/flow.c:2445-2456 | the method returns SetVrfOf's value and leaves its state |
| `FlowMatch.MatchState.SetTuples` | utils/flow.c:2420-2440 | the loop leaves ApplyTuples' state |
| `FlowMatch.MatchState.SetIp` | utils/flow.c:2413-2442 | flow_set_ip leaves the state the tuples specify |
| `FlowMatch.MatchState.SetClause` | utils/flow.c:2493-2500 | one clause calls flow_set_proto, flow_set_vrf twice or flow_set_ip, and leaves the state ApplyClause gives |
| `FlowMatch.MatchState.SetMatch` | utils/flow.c:2483-2506 | flow_set_match leaves ParseMatch's state |
| `VifCli.GetIfTypeOfKeyword` | utils/vif.c:196-229 | each keyword followed by anything names its type, by prefix; "virtual-vlan" is tried before "virtual" |
| `VifCli.GetIfTypeRefuses` | utils/vif.c:196-229 | Usage exactly when no keyword starts the argument |
| `VifCli.GetIfType` | utils/vif.c:196-229 | vif_get_type; stated by GetIfTypeOfKeyword and GetIfTypeRefuses |
| `VifCli.GetIfTransportOfKeyword` | utils/vif.c:232-250 | eth, pmd, virtual and socket name their transports by prefix |
| `VifCli.GetIfTransportRefuses` | utils/vif.c:232-250 | Usage exactly when no transport keyword starts the argument |
| `VifCli.GetIfTransport` | utils/vif.c:232-250 | vif_get_transport; stated by GetIfTransportOfKeyword and GetIfTransportRefuses |
| `VifCli.IfFlags` | utils/vif.c:253-274 | the symbols of the set flags in table order, up to the first that would not fit in 64 bytes with its NUL |
| `VifCli.FlagStringFits` | utils/vif.c:253-274 | the flag string is shorter than its buffer |
| `VifCli.FlagStringStops` | utils/vif.c:253-274 | it holds the set flags' symbols in order, stopping at the first that would not fit |
| `VifCli.FlagStringComplete` | utils/vif.c:253-274 | when every set symbol fits, all are shown |
| `VifCli.IsNumber` | utils/vif.c:1246-1260 | 1 exactly when every character is a digit (so "" is a number); NULL gives 0 with EINVAL |
| `VifCli.AllDigitsConcat` | utils/vif.c:1246-1260 | appending digits to a number keeps it a number |
| `VifCli.SaferStrtoul` | utils/vif.c:1235-1243 | strtoul's value, or 0 with EINVAL for NULL |
| `VifCli.OptionsVerdict` | utils/vif.c:1459-1554 | the verdict of validate_options; stated by ValidateOptions, CountedOne, SockDirNotCounted, DeleteAlone, SetNeedsThree, AddNeeds and TypeNeeds |
| `VifCli.ValidateOptions` | utils/vif.c:1459-1554 | the verdict of the counted option flags under the listed rules |
| `VifCli.CountedOne` | utils/vif.c:1459-1554 | exactly one option counts when it is the only one besides sock-dir |
| `VifCli.SockDirNotCounted` | utils/vif.c:1459-1554 | sock-dir never changes the verdict |
| `VifCli.DeleteAlone` | utils/vif.c:1472-1532 | --delete must stand alone |
| `VifCli.SetNeedsThree` | utils/vif.c:1472-1532 | --set needs exactly three options including --vrf and --vlan |
| `VifCli.AddNeeds` | utils/vif.c:1472-1532 | --add needs --vrf, --mac and --type, plus --xconnect for host and --vif for monitoring |
| `VifCli.TypeNeeds` | utils/vif.c:1368-1374 | --type vhost needs --xconnect and --type monitoring needs --vif |
| `VifCli.Corrected` | utils/vif.c:56-58 | CORRECT_ERROR_CNT raises the current counter to at least the previous one |
| `VifCli.RateStatsDiff` | utils/vif.c:1558-1624 | error counters are corrected first, then every counter becomes its per-second rate over the elapsed milliseconds, with 64-bit wrap |
| `VifCli.ErrorRateNoWrap` | utils/vif.c:56-61 | a corrected error counter never wraps: its rate is the true increase, or 0 when it went down |
| `VifCli.DecreaseWraps` | utils/vif.c:60-61 | an uncorrected counter that went down wraps to a huge difference |
| `VifCli.Rate` | utils/vif.c:59-60 | COMPUTE_DIFFERENCE in 64-bit arithmetic; RateStatsDiff, ErrorRateNoWrap and DecreaseWraps state what it gives |
| `VifCli.TruncDiv` | utils/vif.c:1647 | C's division truncates toward zero |
| `VifCli.PageSize` | utils/vif.c:1647-1650 | a page is (rows - 9) / 3, capped at 32 |
| `VifCli.PageKey` | utils/vif.c:1690-1708 | 'q' quits, 'k' goes back a page but never below 0, 'j' goes forward, other keys do nothing |
| `VifCli.ForwardThenBack` | utils/vif.c:1694-1704 | a page forward then back returns to the same place |
| `VifCli.PciOf` | utils/vif.c:507-511 | every decoded field is within its range (domain, 8-bit bus, 5-bit device, 3-bit function) |
| `VifCli.PciRoundTrip` | utils/vif.c:507-511 | the four fields reassemble the index |
| `VifCli.PciIndexRoundTrip` | utils/vif.c:507-511 | any in-range address decodes back from its index |
| `VhostDev.FirstFree` | linux/vhost_dev.c:260-262 | a returned slot is free and at or after i |
| `VhostDev.FirstFreeSpec` | linux/vhost_dev.c:260-264 | the lowest free slot; none exactly when all are taken |
| `VhostDev.FirstOwnerSpec` | linux/vhost_dev.c:301-320 | the entry of the lowest slot holding the device; none exactly when no slot does |
| `VhostDev.FirstOwner` | linux/vhost_dev.c:301-320 | the entry of the first slot holding the device; stated by FirstOwnerSpec |
| `VhostDev.Detached` | linux/vhost_dev.c:366-375 | every slot holding the device is emptied and the others are kept |
| `VhostDev.Stored` | linux/vhost_dev.c:247-248 | strncpy keeps at most size - 1 characters |
| `VhostDev.Released` | linux/vhost_dev.c:541-547 | all devices released and the names of attached ones cleared |
| `VhostDev.Attached` | linux/vhost_dev.c:234-256 | each present bridge's device and name are taken; IFF_NOARP exactly when device 0 exists and is not Ethernet |
| `VhostDev.Attach` | linux/vhost_dev.c:234-256 | the bridge loop leaves Attached |
| `VhostDev.Release` | linux/vhost_dev.c:541-547 | the device loop leaves Released |
| `VhostDev.DetachedNotFound` | linux/vhost_dev.c:301-375 | after an entry detaches a device the lookup no longer returns it |
| `VhostDev.Vhost.constructor` | linux/vhost_dev.c:624-635 | the table is allocated with every slot empty and no interfaces |
| `VhostDev.Vhost.Setup` | linux/vhost_dev.c:519-521 | a new device has index -1, no devices, and the count is incremented with 32-bit wrap |
| `VhostDev.Vhost.ValidateResult` | linux/vhost_dev.c:564-571 | -ENOMEM exactly when the count has reached VHOST_MAX_INTERFACES |
| `VhostDev.Vhost.IfAdd` | linux/vhost_dev.c:224-275 | a host vif takes its bridges, and the lowest free slot unless it already has one; a full table leaves it slotless; other vifs only record the vif |
| `VhostDev.Vhost.TakeSlot` | linux/vhost_dev.c:257-271 | an entry with a slot keeps the table; otherwise it takes the lowest empty slot, if any |
| `VhostDev.Vhost.FindFree` | linux/vhost_dev.c:260-262 | the search returns FirstFree |
| `VhostDev.Vhost.Dellink` | linux/vhost_dev.c:535-553 | the slot is cleared, the index reset, all devices released and names cleared, the count lowered; BUG exactly when it was 0 |
| `VhostDev.Vhost.HasPhys` | linux/vhost_dev.c:308-314 | whether the entry holds the device |
| `VhostDev.Vhost.GetPrivForPhys` | linux/vhost_dev.c:301-320 | returns FirstOwner |
| `VhostDev.Vhost.DetachPhys` | linux/vhost_dev.c:358-379 | the found entry's slots holding the device are emptied; the names stay |
| `VrouterMod.RoundToPage` | linux/vrouter_mod.c:201-204 | aligned sizes are kept; others rise to the next multiple of 4096, by less than a page; within a page of 2^32 the size wraps to 0 |
| `VrouterMod.Request` | linux/vrouter_mod.c:130-143 | none for size 0; otherwise the size plus the header when checks are on, reduced modulo 2^32, so a size within a header of 2^32 wraps to a request smaller than the size |
| `VrouterMod.Malloc` | linux/vrouter_mod.c:125-174 | NULL for size 0; otherwise NULL exactly when the kernel allocation of the request fails |
| `VrouterMod.Freed` | linux/vrouter_mod.c:177-194 | freeing NULL frees nothing, and a non-NULL address frees some block |
| `VrouterMod.FreeUndoesMalloc` | linux/vrouter_mod.c:125-194 | freeing what lh_malloc returned frees the block the kernel gave |
| `VrouterMod.UdpSrcPort` | linux/vrouter_mod.c:627-780 | 0 on any error exit, the flow entry's port when one exists, otherwise the hashed port |
| `VrouterMod.HashPortInRange` | linux/vrouter_mod.c:765-777 | hashed ports lie in [START, END] and the width guard never fires; a non-zero START keeps them away from the error value 0 |
| `VrouterMod.HashPort` | linux/vrouter_mod.c:765-777 | the hash-to-port step; stated by HashPortInRange |
| `VrouterMod.PerfqCheck` | linux/vrouter_mod.c:2591-2617 | 1 exactly when one of perfq1..3 is outside [0, vr_num_cpus), else 0 |
| `VrouterMod.TotalPrefix` | linux/vrouter_mod.c:2279-2287 | the size total of a prefix is at most the whole total |
| `VrouterMod.SplitPrefix` | linux/vrouter_mod.c:2279-2287 | the first n paths laid end to end are the first bytes of the buffer, as many as their sizes total |
| `VrouterMod.SplitConcat` | linux/vrouter_mod.c:2279-2287 | all paths laid end to end give back the buffer up to the total |
| `VrouterMod.Split` | linux/vrouter_mod.c:2279-2287 | the file paths cut by their sizes; stated by SplitPrefix and SplitConcat |
| `VrouterMod.Refused` | linux/vrouter_mod.c:2258-2272 | the -EINVAL checks of the request; HugePageConfig states that exactly these requests are refused |
| `VrouterMod.HugePageConfig` | linux/vrouter_mod.c:2250-2300 | -EINVAL for a missing list, mismatched counts, too many pages, a zero address or a size other than 1G/2M; otherwise the configurator's result on the split paths |
| `PyCommon.Swap32` | utils/pylib/common.py:17-27 | htonl on a little-endian host reverses the four bytes |
| `PyCommon.Swap32Involution` | utils/pylib/common.py:17-27 | swapping twice is the identity |
| `PyCommon.NtohllHtonll` | utils/pylib/common.py:17-27 | ntohll(htonll(x)) == x for every 64-bit x |
| `PyCommon.HtonllIsBigEndian` | utils/pylib/common.py:17-21 | htonll's little-endian bytes are x's reversed: network order |
| `PyCommon.HexChar` | utils/pylib/common.py:29-43 | the lower-case hex digit whose value is the input |
| `PyCommon.Drop` | utils/pylib/common.py:32 | the result holds no separator and is no longer than the text; text without one is kept |
| `PyCommon.Unhex` | utils/pylib/common.py:32-34 | a decoded result has one byte per two characters |
| `PyCommon.UnhexSpec` | utils/pylib/common.py:32-34 | succeeds exactly on an even number of hex digits; byte i is digits 2i and 2i+1 |
| `PyCommon.HexList` | utils/pylib/common.py:29-43 | vt_encap and vt_mac: the loop gives Unhex of the text without separators |
| `PyCommon.Pair` | utils/pylib/common.py:29-43 | two hex digits whose value is the byte |
| `PyCommon.HexListOfHex` | utils/pylib/common.py:29-43 | decoding the hex text of a byte list gives the list back, for any non-hex separator |
| `PyCommon.ParseInt` | utils/pylib/common.py:56 | int() refuses the empty string and gives the decimal value of a digit string |
| `PyCommon.SplitOn` | utils/pylib/common.py:53 | str.split gives at least one field and none holds the separator |
| `PyCommon.SplitJoin` | utils/pylib/common.py:53 | splitting joined fields gives them back |
| `PyCommon.Ipv4Bytes` | utils/pylib/common.py:50-57 | one int per '.'-separated field, in order; a bad field fails |
| `PyCommon.Decimal` | utils/pylib/common.py:50-57 | the decimal text of n, digits only |
| `PyCommon.Ipv4BytesOfDotted` | utils/pylib/common.py:50-57 | the dotted text of numbers gives back those numbers |
| `PyCommon.OifIds` | utils/pylib/common.py:75-85 | three ids, -1 where not given; more than three fields or a bad field fails |
| `PyCommon.OifId` | utils/pylib/common.py:75-85 | the loop returns OifIds |
| `PyCommon.EncapValid` | utils/pylib/common.py:87-94 | three entries; entry i is 1 exactly when id i is given and above -1; such an id past the third fails |
| `PyCommon.EncapValidOf` | utils/pylib/common.py:87-94 | the loop returns EncapValid |
| `PyCommon.EncapValidOfOifIds` | utils/pylib/common.py:75-94 | the encap-valid vector of vt_oif_id's result marks exactly the given non-negative ids |
| `PyCommon.EmptyOifIds` | utils/pylib/common.py:75-94 | "" gives [-1, -1, -1] and an all-zero encap-valid vector |

## Left out

- I/O, printing, netlink messages, terminal handling (`ioctl`, `usleep`, keyboard reads), `printk`/`vr_printf` and time are not modelled. `vr_print_pkt_drop_log` and `rate_stats` are modelled by what they compute, not by the text they print.
- Concurrency is not modelled: RCU, per-CPU state and the workqueues of the fragment assembler. Each operation is one sequential call.
- The functions whose code is not part of this model are parameters, so their behaviour is not modelled. These are `vr_ip6_transport_header_valid`, `vr_icmp6_error`, `vr_flow_fat_flow_lookup`, `vr_fill_flow_common`, `vr_incremental_diff`, `vr_fragment_get`/`del`/`add`, `vr_ip6_fragment_head`, `vr_inet6_ip_lookup`, `vr_flow_get_entry`, `vr_get_proxy_mac`, `vif_mac_request`, `vr_huge_pages_config`, `kmalloc`/`kzalloc`, `inet_pton`, `strtoul` and the hash of `lh_get_udp_src_port`.
- Constants whose values are not in the modelled files are parameters: `VR_IP6_FRAG_OFFSET_BITS`, `VR_IP6_MF`, `VR_ASSEMBLER_BUCKET_COUNT`, `VHOST_MAX_INTERFACES`, `VR_MAX_PHY_INF`, `VR_MUDP_PORT_RANGE_*`, `VR_MAX_HUGE_PAGE_CFG`, the 1G/2M sizes, `VR_MESSAGE_DUMP_INCOMPLETE`, the VIF flag values, `VR_PKT_DROPLOG_MAX_ALLOW_BUFSZ` and `VR_PKT_DROP_LOG_MAX`.
- PAGE_SIZE is fixed at 4096.
- Ip6Checksum.VrSum: for an odd length, the byte vr_sum reads past the buffer is taken as 0.
- Ip6Flow.FragmentPath: `f_received` is increased in unbounded arithmetic. The model requires a payload length of at least 8, so the unsigned subtraction cannot wrap.
- The flow-table engine, burst tokens, hold counts and eviction are only declared in `vr_flow.h`. They are not modelled beyond the entry and key types.
- The TCP state machine of the flow engine is not modelled.
- Packet allocation, cloning, `pkt_push` and freeing are modelled only by their outcome: a drop reason, or a success flag passed in.
- Ip6Flow.Parsable: the model requires every header the classification reads to lie inside the packet. The source relies on the callers' earlier length checks, and packets shorter than that are outside the model.
- VrouterMod.HugePageConfig: it requires `|filePathSz| >= n` and that the sizes add up to at most `|filePaths|`. lh_huge_page_config (linux/vrouter_mod.c:2279-2287) trusts the message for these and never checks them, so a message that breaks them is outside the model.
- VrouterMod.HugePageConfig: the -ENOMEM returns of failed `kzalloc` calls are not modelled. The counts are taken as the lengths of the lists.
- `vr_malloc_stats`, and the header's magic-number set and check in `lh_malloc`/`lh_free`, are not modelled. Only the address arithmetic is.
- FlowMatch.SetFamilyOf: the -ENOMEM of a failed `malloc` is not modelled.
- FlowMatch.SetFamilyOf: `inet_pton` is a parameter, so an address that passes the syntax check has whatever bytes the parameter gives.
- FlowMatch.SetProtoOf: `flow_set_proto` and `flow_set_vrf` read their argument up to its NUL. The model gives them the token as a sequence.
- PyCommon.ParseInt: Python's `int()` also accepts surrounding whitespace. The model accepts only an optional sign followed by digits.
- `vt_ipv4`, `vt_ipv6` and `vt_ipv6_bytes` depend on the `ipaddress` and `netaddr` libraries and are not modelled.
- `parse_long_opts` and the option parsing of `vif` and `flow` are not modelled. `validate_options` starts from the option flags.
- `vhost_attach_phys`, `vhost_tap_phys` and `vhost_del_tap_phys` change the kernel's rx handlers and are not modelled. A NULL `vhost_priv_db` before `vhost_init` is not modelled: the table exists once the object is built.
- VrUtil.ExtractToken: the model works on one buffer holding a NUL-terminated string; the address the source returns is an index into it.
- FlowMatch.ApplyTuples: it is built on the corrected `SetTupleOf` of the Findings row. So on a list such as "12345::1,1.2.3.4" it returns -EINVAL, where the source goes on and sets the IPv4 end. `ApplyTuplesAsWritten` gives the source's behaviour on tuple lists, and `ApplyTuplesAgree` and `UncheckedTupleThenIpv4` relate the two.
- FlowMatch.ApplyTuplesAtMostTwo: it is stated of the corrected `ApplyTuples`.
- FlowMatch.SetIpOf and FlowMatch.ParseMatch: they compose the corrected `ApplyTuples`. The as-written dispatch is not carried up to flow_set_ip and flow_set_match.
- FlowMatch.MatchState.SetTuple: proved equal to the corrected `SetTupleOf`, so a refused IPv6 tuple without a port is an error here.
- FlowMatch.MatchState.SetTuples: proved equal to the corrected `ApplyTuples`.
- FlowMatch.MatchState.SetIp: proved equal to the corrected composition of `SetIpOf`.
- FlowMatch.TuplesMatch: it is built on the corrected `FlowCli.MatchDest`, so a "*:port" end is compared on its port alone where flow_match_dest as written memcmps the NULL address, which is undefined. `TuplesMatchAsWritten` is the test as written, and `TuplesMatchAgrees` shows that the two agree wherever the source is defined.
- FlowMatch.OneEndMatches: it is stated of the corrected `TuplesMatch`, so of `FlowCli.MatchDest`; the source is undefined for a "*" end with a port that fails the source test.
- FlowMatch.BothEndsMatch: it is stated of the corrected `TuplesMatch`, so of `FlowCli.MatchDest`; the source is undefined when it reaches the destination test with a "*" end and a port.
- FlowMatch.BothEndsPaired: it is stated through `Selected` on the corrected `TuplesMatch`; where the source reaches the undefined destination test, no verdict of the source is modelled.
- FlowMatch.Selected: it uses the corrected `TuplesMatch`; the undefined destination test of the source is modelled only by `TuplesMatchAsWritten`.
- FlowMatch.ThirdTupleRejected: it is stated of the checked `SetTupleOf`. As written a portless IPv6 tuple is reported accepted even after both ends are set; `ThirdTupleAsWritten` states that behaviour.
- FlowMatch.ApplyClause: its tuple clauses (flow_set_ip) use the corrected `ApplyTuples`, not the tuple dispatch as written.
- FlowMatch.StringAt: a bare "proto" or "vrf" as the last clause makes flow_set_proto and flow_set_vrf read one past the string's NUL, outside the argument. The model reads that as the empty string.
- FlowMatch.MatchState.SetClause: proved equal to the corrected `ApplyClause`, whose tuple clauses use the corrected `ApplyTuples`.
- FlowMatch.MatchState.SetMatch: proved equal to the corrected composition of `ParseMatch`.
- Ip6Nat.NatFits: the model requires the headers the NAT code dereferences without a check, including the ICMPv6 header and, for an error, the quoted header. A truncated packet, on which the source would read past the buffer, is outside the model.
- Ip6Flow.KeyFor: which addresses `vr_flow_fat_flow_lookup` writes into its copies is a parameter. The model only says that the key takes whatever it leaves there.

## Findings

| source | as written | input that shows it | evidently intended | confidence | as-written member | corrected member |
|---|---|---|---|---|---|---|
| utils/flow.c:445-459 | `flow_match_dest` compares `addr` with memcmp even when the match address is the NULL of a "*" wildcard given with a port; `flow_match_source` handles that case | `flow --match *:80` on an entry whose source port is not 80 | with a NULL address the destination test compares the port alone, as the source test does | not executed | `FlowCli.MatchDestAsWritten` (with `FlowCli.MatchDestNullAddress`) | `FlowCli.MatchDest` (with `FlowCli.MatchDestAgrees` and `FlowCli.WildcardMatchesOnPort`) |
| utils/vr_util.c:775-800 | `vr_print_pkt_drop_log` declares its own `static bool vr_header_include`, which hides the file-scope flag that `vr_print_pkt_drop_log_data` sets. The reset at the end of a full walk tests the local one, which is never set, so the file-scope flag is never cleared | two calls that each walk a two-slot log with VR_PKT_DROP_LOG_MAX = 2 and both slots in use | the header is printed again after every walk that ends at VR_PKT_DROP_LOG_MAX | not executed | `VrUtil.DropLogPrinter.PrintDropLog` (with `VrUtil.AsWrittenHeaderOnce` and `VrUtil.ResetReprintsHeader`) | `VrUtil.DropLogPrinter.PrintDropLogIntended` (with `VrUtil.CorrectedHeaderAfterFullWalk`) |
| utils/flow.c:2385-2390 | for a tuple with two colons and no '[', `flow_set_tuple` ignores the result of `flow_set_family` and reports success | `flow --match 12345::1` | a refused IPv6 address makes the tuple an error, as on the other branches | not executed | `FlowMatch.SetTupleAsWritten` (with `FlowMatch.UncheckedTupleIgnored`) | `FlowMatch.SetTupleOf` (with `FlowMatch.SetTupleAgrees`) |
