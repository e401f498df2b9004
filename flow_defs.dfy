// The flow-table definitions of include/vr_flow.h: action and result codes,
// the fe_flags bits and their mask macros, the key-parameter bits, the
// fat-flow mask bits, the packed flow key and the hold-queue bound.

module FlowDefs {
  import opened Base

  // Flow actions (fr_action / fe_action).
  const ACTION_DROP: u16 := 0x0
  const ACTION_HOLD: u16 := 0x1
  const ACTION_FORWARD: u16 := 0x2
  const ACTION_NAT: u16 := 0x3

  /** flow_result_t, in declaration order. */
  datatype FlowResult = Held | Forward | Drop | Trap | Consumed | EvictDrop

  // fe_flags bits.
  const FLAG_ACTIVE: bv16 := 0x0001
  const FLAG_SNAT: bv16 := 0x0002
  const FLAG_SPAT: bv16 := 0x0004
  const FLAG_DNAT: bv16 := 0x0008
  const FLAG_DPAT: bv16 := 0x0010
  const FLAG_TRAP_ECMP: bv16 := 0x0020
  const FLAG_DELETE_MARKED: bv16 := 0x0040
  const FLAG_BGP_SERVICE: bv16 := 0x0080
  const FLAG_MODIFIED: bv16 := 0x0100
  const FLAG_NEW_FLOW: bv16 := 0x0200
  const FLAG_EVICT_CANDIDATE: bv16 := 0x0400
  const FLAG_EVICTED: bv16 := 0x0800
  const FLAG_RFLOW_VALID: bv16 := 0x1000
  const FLAG_MIRROR: bv16 := 0x2000
  const FLAG_VRFT: bv16 := 0x4000
  const FLAG_LINK_LOCAL: bv16 := 0x8000

  const EXT_FLAG_FORCE_EVICT: bv16 := 0x0001
  const EXT_FLAG_MOCK_SRC_UDP: bv16 := 0x0002

  /** Some bit of `f` is set in `flags`. */
  predicate Has(flags: bv16, f: bv16)
  {
    flags & f != 0
  }

  /** VR_FLOW_FLAG_DP_FLAGS: the flags owned by the datapath. */
  const DP_FLAGS: bv16 := FLAG_EVICT_CANDIDATE | FLAG_EVICTED | FLAG_NEW_FLOW | FLAG_MODIFIED

  /** VR_FLOW_FLAG_NAT_MASK. */
  const NAT_MASK: bv16 := FLAG_SNAT | FLAG_SPAT | FLAG_DNAT | FLAG_DPAT

  /** VR_FLOW_FLAG_DP_BITS(fe): the datapath part of fe_flags. */
  function DpBits(flags: bv16): bv16
  {
    flags & DP_FLAGS
  }

  /** VR_FLOW_FLAG_MASK(flag): fe_flags without the datapath part. */
  function FlagMask(flags: bv16): bv16
  {
    flags & !DP_FLAGS
  }

  /** The two macros split the flags into disjoint halves whose union is the whole. */
  lemma DpBitsPartition(flags: bv16)
    ensures DpBits(flags) & FlagMask(flags) == 0
    ensures DpBits(flags) | FlagMask(flags) == flags
  {
  }

  /** DP_BITS keeps exactly, and FLAG_MASK removes exactly, the four datapath flags. */
  lemma DpBitsExactly(flags: bv16, bit: bv16)
    requires bit in {FLAG_EVICT_CANDIDATE, FLAG_EVICTED, FLAG_NEW_FLOW, FLAG_MODIFIED}
    ensures DpBits(flags) & bit == flags & bit
    ensures FlagMask(flags) & bit == 0
  {
  }

  lemma FlagMaskKeepsOthers(flags: bv16, bit: bv16)
    requires bit in {FLAG_ACTIVE, FLAG_SNAT, FLAG_SPAT, FLAG_DNAT, FLAG_DPAT, FLAG_TRAP_ECMP,
                     FLAG_DELETE_MARKED, FLAG_BGP_SERVICE, FLAG_RFLOW_VALID, FLAG_MIRROR,
                     FLAG_VRFT, FLAG_LINK_LOCAL}
    ensures FlagMask(flags) & bit == flags & bit
    ensures DpBits(flags) & bit == 0
  {
  }

  lemma NatMaskFacts()
    ensures NAT_MASK == 0x1e
    ensures NAT_MASK & FLAG_ACTIVE == 0
    ensures NAT_MASK & DP_FLAGS == 0
  {
  }

  // Key-parameter bits (valid_fkey_params).
  const KEY_NONE: bv8 := 0x00
  const KEY_PROTO: bv8 := 0x01
  const KEY_SRC_IP: bv8 := 0x02
  const KEY_SRC_PORT: bv8 := 0x04
  const KEY_DST_IP: bv8 := 0x08
  const KEY_DST_PORT: bv8 := 0x10
  const KEY_ALL: bv8 := 0x1F

  lemma KeyAllIsUnionOfBits()
    ensures KEY_ALL == KEY_PROTO | KEY_SRC_IP | KEY_SRC_PORT | KEY_DST_IP | KEY_DST_PORT
  {
  }

  // Fat-flow mask bits, as returned by the fat-flow lookup.
  const FAT_FLOW_NO_MASK: bv16 := 0x0
  const FAT_FLOW_SRC_PORT_MASK: bv16 := 0x1
  const FAT_FLOW_DST_PORT_MASK: bv16 := 0x2
  const FAT_FLOW_SRC_IP_MASK: bv16 := 0x4
  const FAT_FLOW_DST_IP_MASK: bv16 := 0x8
  const FAT_FLOW_MAX_MASK: nat := 0x9

  /**
   * The values taken by `i` in `for (i = 1; i < VR_FAT_FLOW_MAX_MASK; i <<= 1)`,
   * starting from `i`.
   */
  function FatFlowMaskIteration(i: nat): (r: seq<nat>)
    requires i > 0
    decreases FAT_FLOW_MAX_MASK - i
  {
    if i < FAT_FLOW_MAX_MASK then [i] + FatFlowMaskIteration(2 * i) else []
  }

  lemma FatFlowMaskIterationVisits()
    ensures FatFlowMaskIteration(1) == [1, 2, 4, 8]
  {
  }

  // Packet types (vp_type); their numeric values are not part of this model.
  datatype PacketType = VpArp | VpIp | VpIp6 | VpIpOIp | VpIp6OIp | VpAgent | VpPbb | VpOther

  // Address families as on Linux.
  const AF_INET: byte := 2
  const AF_INET6: byte := 10

  const IP6_ADDRESS_LEN: nat := 16
  const IP4_ADDRESS_LEN: nat := 4

  /** VR_FLOW_FAMILY(type). */
  function FlowFamily(t: PacketType): byte
  {
    if t == VpIp6 then AF_INET6 else AF_INET
  }

  /**
   * A flow key: the fields shared by struct vr_inet_flow and struct
   * vr_inet6_flow.  `sport`, `dport` and `nhId` hold the 16- and 32-bit
   * values as the datapath stores them (ports stay in network byte order).
   */
  datatype FlowKey = FlowKey(family: byte, proto: byte, unused: u16, sport: u16, dport: u16,
                             nhId: u32, sip: seq<byte>, dip: seq<byte>)

  /** An IPv4 (4-byte) or IPv6 (16-byte) key. */
  predicate WellFormedKey(k: FlowKey)
  {
    (|k.sip| == IP4_ADDRESS_LEN || |k.sip| == IP6_ADDRESS_LEN) && |k.dip| == |k.sip|
  }

  /** Offset of the first address byte in the packed layout. */
  const KEY_ADDR_OFFSET: nat := 12

  /** The packed bytes of a key (vr_inet_flow / vr_inet6_flow, little-endian host). */
  function KeyBytes(k: FlowKey): (r: seq<byte>)
    requires WellFormedKey(k)
    ensures |r| == KEY_ADDR_OFFSET + 2 * |k.sip|
    ensures r[0] == k.family && r[1] == k.proto
    ensures Load16(r, 2) == k.unused && Load16(r, 4) == k.sport && Load16(r, 6) == k.dport
    ensures Load32(r, 8) == k.nhId
    ensures r[KEY_ADDR_OFFSET..KEY_ADDR_OFFSET + |k.sip|] == k.sip
    ensures r[KEY_ADDR_OFFSET + |k.sip|..] == k.dip
  {
    var r := [k.family, k.proto] + LE16(k.unused) + LE16(k.sport) + LE16(k.dport) + LE32(k.nhId)
             + k.sip + k.dip;
    assert r[2..4] == LE16(k.unused) && r[4..6] == LE16(k.sport) && r[6..8] == LE16(k.dport);
    assert r[8..12] == LE32(k.nhId);
    r
  }

  /** Reads a packed key of the given address length back from bytes. */
  function ParseKey(b: seq<byte>, addrLen: nat): (r: Option<FlowKey>)
    ensures r.Some? <==> |b| == KEY_ADDR_OFFSET + 2 * addrLen && (addrLen == 4 || addrLen == 16)
  {
    if |b| != KEY_ADDR_OFFSET + 2 * addrLen || (addrLen != 4 && addrLen != 16) then None
    else Some(FlowKey(b[0], b[1], Load16(b, 2), Load16(b, 4), Load16(b, 6), Load32(b, 8),
                      b[KEY_ADDR_OFFSET..KEY_ADDR_OFFSET + addrLen], b[KEY_ADDR_OFFSET + addrLen..]))
  }

  /** Serialise then parse is the identity. */
  lemma {:induction false} ParseKeyBytes(k: FlowKey)
    requires WellFormedKey(k)
    ensures ParseKey(KeyBytes(k), |k.sip|) == Some(k)
  {
  }

  /** Parse then serialise gives back the bytes. */
  lemma {:induction false} KeyBytesOfParse(b: seq<byte>, addrLen: nat)
    requires ParseKey(b, addrLen).Some?
    ensures WellFormedKey(ParseKey(b, addrLen).value)
    ensures KeyBytes(ParseKey(b, addrLen).value) == b
  {
    var k := ParseKey(b, addrLen).value;
    var r := KeyBytes(k);
    LE16OfLoad16(b, 2);
    LE16OfLoad16(b, 4);
    LE16OfLoad16(b, 6);
    LE32OfLoad32(b, 8);
    LE16OfLoad16(r, 2);
    LE16OfLoad16(r, 4);
    LE16OfLoad16(r, 6);
    LE32OfLoad32(r, 8);
    assert r[..2] == b[..2];
    assert r[2..4] == b[2..4] && r[4..6] == b[4..6] && r[6..8] == b[6..8];
    assert r[8..12] == b[8..12];
    assert r == r[..2] + r[2..4] + r[4..6] + r[6..8] + r[8..12] + r[12..12 + addrLen] + r[12 + addrLen..];
    assert b == b[..2] + b[2..4] + b[4..6] + b[6..8] + b[8..12] + b[12..12 + addrLen] + b[12 + addrLen..];
  }

  /** sizeof(struct vr_inet_flow) and sizeof(struct vr_inet6_flow). */
  const INET_KEY_SIZE: nat := 20
  const INET6_KEY_SIZE: nat := 44

  /** VR_FLOW_HASH_SIZE(type). */
  function HashSize(t: PacketType): nat
  {
    if t == VpIp6 then INET6_KEY_SIZE else INET_KEY_SIZE
  }

  /** The hash covers exactly the packed key of the packet's family. */
  lemma HashSizeIsKeySize(t: PacketType, k: FlowKey)
    requires WellFormedKey(k)
    requires |k.sip| == (if t == VpIp6 then IP6_ADDRESS_LEN else IP4_ADDRESS_LEN)
    ensures |KeyBytes(k)| == HashSize(t)
  {
  }

  /** Source and destination viewed through ip_addr[] of struct vr_common_flow. */
  function CommonSource(b: seq<byte>, len: nat): seq<byte>
    requires KEY_ADDR_OFFSET + 2 * len <= |b|
  {
    b[KEY_ADDR_OFFSET..KEY_ADDR_OFFSET + len]
  }

  function CommonDest(b: seq<byte>, len: nat): seq<byte>
    requires KEY_ADDR_OFFSET + 2 * len <= |b|
  {
    b[KEY_ADDR_OFFSET + len..KEY_ADDR_OFFSET + 2 * len]
  }

  lemma CommonViewOfKey(k: FlowKey)
    requires WellFormedKey(k)
    ensures CommonSource(KeyBytes(k), |k.sip|) == k.sip
    ensures CommonDest(KeyBytes(k), |k.sip|) == k.dip
  {
  }

  /** sizeof(struct vr_flow): the 44-byte key union plus the key length byte. */
  const VR_FLOW_SIZE: nat := INET6_KEY_SIZE + 1

  /** VR_FLOW_KEY_PAD for a structure of the given size. */
  function KeyPad(size: nat): (p: nat)
    ensures p < 8 && (size + p) % 8 == 0
  {
    (8 - size % 8) % 8
  }

  lemma KeyPadOfFlow()
    ensures KeyPad(VR_FLOW_SIZE) == 3
  {
  }

  /** VR_MAX_FLOW_QUEUE_ENTRIES. */
  const MAX_FLOW_QUEUE_ENTRIES: nat := 3

  /**
   * struct vr_flow_queue: a cursor, an entry count and a fixed array of
   * packet nodes; the node contents are left abstract.
   */
  datatype FlowQueue<Node> = FlowQueue(index: u32, entries: u32, pnodes: seq<Node>)

  predicate ValidQueue<Node>(q: FlowQueue<Node>)
  {
    |q.pnodes| == MAX_FLOW_QUEUE_ENTRIES
  }

  /** The packet nodes a queue can be holding: at most the first three. */
  function HeldNodes<Node>(q: FlowQueue<Node>): (r: seq<Node>)
    requires ValidQueue(q)
    ensures |r| <= MAX_FLOW_QUEUE_ENTRIES
    ensures |r| == if q.entries < MAX_FLOW_QUEUE_ENTRIES then q.entries else MAX_FLOW_QUEUE_ENTRIES
    ensures r == q.pnodes[..|r|]
  {
    if q.entries < MAX_FLOW_QUEUE_ENTRIES then q.pnodes[..q.entries] else q.pnodes
  }
}
