// The IPv6 flow classifier of dp-core/vr_proto_ip6.c: how a packet's bytes
// become the arguments of vr_inet6_fill_flow (ports per protocol, reverse
// direction, fat-flow masking), the byte accounting on a fragment entry, and
// the decisions of vr_inet6_get_flow_key and vr_inet6_flow_lookup.
//
// The packet is a byte sequence `s` with the outermost IPv6 header at `nh`;
// `off` is the header being classified (it differs from `nh` only for the
// header embedded in an ICMPv6 error).  Collaborators whose code is not part
// of this model are fields of `Env`.

module Ip6Flow {
  import opened Base
  import opened Drops
  import opened FlowDefs
  import opened Ip6Layout

  /** VR_IP6_MF and VR_IP6_FRAG_OFFSET_BITS (their values are not part of this model). */
  datatype FragConsts = FragConsts(mf: bv16, offsetBits: nat)

  /** The fields vr_fill_flow_common writes into a key. */
  datatype CommonFields = CommonFields(family: byte, proto: byte, unused: u16, sport: u16,
                                       dport: u16, nhId: u32)

  /** An IPv6 address: 16 bytes. */
  type Addr16 = a: seq<byte> | |a| == 16 witness seq(16, i => 0)

  /**
   * What vr_flow_fat_flow_lookup gives back: the fat-flow mask, and the
   * copies of the source and destination addresses it was handed, which it
   * may rewrite (a prefix-aggregated fat flow masks them).
   */
  datatype FatFlowLookup = FatFlowLookup(mask: bv16, src: Addr16, dst: Addr16)

  /**
   * The collaborators of the classifier:
   *   transportValid  vr_ip6_transport_header_valid(header at offset)
   *   icmp6Error      vr_icmp6_error(ICMPv6 header at offset)
   *   fatFlow         vr_flow_fat_flow_lookup(proto, sport, dport, src, dst): its mask and
   *                   the two address buffers as it leaves them
   *   nexthop         vr_inet_flow_nexthop(pkt, vlan)
   *   fillCommon      vr_fill_flow_common(nh_id, proto, sport, dport, family, params)
   *   fragmentHead    vr_ip6_fragment_head(header at offset)
   *   fragmentAdd     vr_v6_fragment_add(header at offset, sport, dport): its return value
   */
  datatype Env = Env(
    transportValid: (seq<byte>, nat) -> bool,
    icmp6Error: (seq<byte>, nat) -> bool,
    fatFlow: (byte, u16, u16, Addr16, Addr16) -> FatFlowLookup,
    nexthop: u32,
    fillCommon: (u32, byte, u16, u16, byte, bv8) -> CommonFields,
    fragmentHead: (seq<byte>, nat) -> bool,
    fragmentAdd: (seq<byte>, nat, u16, u16) -> int,
    frag: FragConsts)

  // ---------------------------------------------------------------------
  // Fat-flow masking

  /** One turn of the mask loop: the case selected by `mask & i`. */
  function ClearFor(mask: bv16, p: bv8, i: bv16): bv8
  {
    var m := mask & i;
    if m == FAT_FLOW_SRC_PORT_MASK then p & !KEY_SRC_PORT
    else if m == FAT_FLOW_DST_PORT_MASK then p & !KEY_DST_PORT
    else if m == FAT_FLOW_SRC_IP_MASK then p & !KEY_SRC_IP
    else if m == FAT_FLOW_DST_IP_MASK then p & !KEY_DST_IP
    else p
  }

  /** The key parameters after the loop turns for 1, 2, ... below `i` (a power of two up to 16). */
  function TurnsBelow(mask: bv16, p: bv8, i: bv16): bv8
  {
    if i == 1 then p
    else if i == 2 then ClearFor(mask, p, 1)
    else if i == 4 then ClearFor(mask, ClearFor(mask, p, 1), 2)
    else if i == 8 then ClearFor(mask, ClearFor(mask, ClearFor(mask, p, 1), 2), 4)
    else FatFlowCleared(mask, p)
  }

  /** The key parameters once the whole mask loop has run. */
  function FatFlowCleared(mask: bv16, p: bv8): bv8
  {
    ClearFor(mask, ClearFor(mask, ClearFor(mask, ClearFor(mask, p, 1), 2), 4), 8)
  }

  const FAT_FLOW_KEY_BITS: bv8 := KEY_SRC_PORT | KEY_DST_PORT | KEY_SRC_IP | KEY_DST_IP

  /** The key bits the mask asks to clear. */
  function ClearedKeyBits(mask: bv16): bv8
  {
    (if mask & FAT_FLOW_SRC_PORT_MASK != 0 then KEY_SRC_PORT else 0) |
    (if mask & FAT_FLOW_DST_PORT_MASK != 0 then KEY_DST_PORT else 0) |
    (if mask & FAT_FLOW_SRC_IP_MASK != 0 then KEY_SRC_IP else 0) |
    (if mask & FAT_FLOW_DST_IP_MASK != 0 then KEY_DST_IP else 0)
  }

  /** What the turn for mask bit `i` keeps of the key parameters: all but `key` when the mask has `i`. */
  function Keep(mask: bv16, i: bv16, key: bv8): bv8
  {
    if mask & i != 0 then !key else 0xFF
  }

  /** Each turn of the loop clears its own key bit, if the mask has that bit. */
  lemma ClearForTurn(mask: bv16, p: bv8, i: bv16, key: bv8)
    requires (i == 1 && key == KEY_SRC_PORT) || (i == 2 && key == KEY_DST_PORT) ||
             (i == 4 && key == KEY_SRC_IP) || (i == 8 && key == KEY_DST_IP)
    ensures ClearFor(mask, p, i) == p & Keep(mask, i, key)
  {
  }

  /** The loop clears exactly the key bits ClearedKeyBits names. */
  lemma {:induction false} FatFlowClearedIsMask(mask: bv16, p: bv8)
    ensures FatFlowCleared(mask, p) == p & !ClearedKeyBits(mask)
  {
    var k1, k2, k4, k8 := Keep(mask, 1, KEY_SRC_PORT), Keep(mask, 2, KEY_DST_PORT),
                          Keep(mask, 4, KEY_SRC_IP), Keep(mask, 8, KEY_DST_IP);
    var p1 := ClearFor(mask, p, 1);
    var p2 := ClearFor(mask, p1, 2);
    var p4 := ClearFor(mask, p2, 4);
    ClearForTurn(mask, p, 1, KEY_SRC_PORT);
    ClearForTurn(mask, p1, 2, KEY_DST_PORT);
    ClearForTurn(mask, p2, 4, KEY_SRC_IP);
    ClearForTurn(mask, p4, 8, KEY_DST_IP);
    ClearedKeyBitsSplit(mask);
    AndAssoc(p, k1, k2, k4, k8);
  }

  lemma ClearedKeyBitsSplit(mask: bv16)
    ensures !ClearedKeyBits(mask) ==
      Keep(mask, 1, KEY_SRC_PORT) & Keep(mask, 2, KEY_DST_PORT) & Keep(mask, 4, KEY_SRC_IP) & Keep(mask, 8, KEY_DST_IP)
  {
  }

  lemma AndAssoc(p: bv8, a: bv8, b: bv8, c: bv8, d: bv8)
    ensures (((p & a) & b) & c) & d == p & (a & b & c & d)
  {
  }

  /**
   * The loop clears exactly the key bits whose fat-flow mask bit is set, only
   * among SRC_PORT, DST_PORT, SRC_IP and DST_IP; PROTO and every other bit
   * are kept, and nothing is ever set.
   */
  lemma {:induction false} FatFlowClearedBits(mask: bv16, p: bv8)
    ensures FatFlowCleared(mask, p) & !FAT_FLOW_KEY_BITS == p & !FAT_FLOW_KEY_BITS
    ensures FatFlowCleared(mask, p) & KEY_PROTO == p & KEY_PROTO
    ensures FatFlowCleared(mask, p) & !p == 0
    ensures (FatFlowCleared(mask, p) & KEY_SRC_PORT == 0) <==>
            (p & KEY_SRC_PORT == 0 || mask & FAT_FLOW_SRC_PORT_MASK != 0)
    ensures (FatFlowCleared(mask, p) & KEY_DST_PORT == 0) <==>
            (p & KEY_DST_PORT == 0 || mask & FAT_FLOW_DST_PORT_MASK != 0)
    ensures (FatFlowCleared(mask, p) & KEY_SRC_IP == 0) <==>
            (p & KEY_SRC_IP == 0 || mask & FAT_FLOW_SRC_IP_MASK != 0)
    ensures (FatFlowCleared(mask, p) & KEY_DST_IP == 0) <==>
            (p & KEY_DST_IP == 0 || mask & FAT_FLOW_DST_IP_MASK != 0)
  {
    FatFlowClearedIsMask(mask, p);
  }

  /** Applying the same mask a second time changes nothing. */
  lemma {:induction false} FatFlowIdempotent(mask: bv16, p: bv8)
    ensures FatFlowCleared(mask, FatFlowCleared(mask, p)) == FatFlowCleared(mask, p)
  {
    FatFlowClearedIsMask(mask, p);
    FatFlowClearedIsMask(mask, FatFlowCleared(mask, p));
  }

  /** The `for (i = 1; i < VR_FAT_FLOW_MAX_MASK; i = i << 1)` loop of vr_inet6_proto_flow. */
  method ClearFatFlowBits(mask: bv16, p: bv8) returns (r: bv8)
    ensures r == FatFlowCleared(mask, p)
  {
    r := p;
    var i: bv16 := 1;
    ghost var left: nat := 4;
    while i < FAT_FLOW_MAX_MASK as bv16
      invariant (i == 1 && left == 4) || (i == 2 && left == 3) || (i == 4 && left == 2) ||
                (i == 8 && left == 1) || (i == 16 && left == 0)
      invariant r == TurnsBelow(mask, p, i)
      decreases left
    {
      var m := mask & i;
      if m == FAT_FLOW_SRC_PORT_MASK {
        r := r & !KEY_SRC_PORT;
      } else if m == FAT_FLOW_DST_PORT_MASK {
        r := r & !KEY_DST_PORT;
      } else if m == FAT_FLOW_SRC_IP_MASK {
        r := r & !KEY_SRC_IP;
      } else if m == FAT_FLOW_DST_IP_MASK {
        r := r & !KEY_DST_IP;
      }
      i := i << 1;
      left := left - 1;
    }
  }

  // ---------------------------------------------------------------------
  // vr_inet6_fill_flow

  /** The arguments a classification passes to vr_inet6_fill_flow. */
  datatype FillArgs = FillArgs(nhId: u32, sip: seq<byte>, dip: seq<byte>, proto: byte,
                               sport: u16, dport: u16, params: bv8)

  predicate ValidArgs(a: FillArgs)
  {
    |a.sip| == IP6_ADDRESS_LEN && |a.dip| == IP6_ADDRESS_LEN
  }

  /**
   * vr_inet6_fill_flow: the key is zeroed, the parameters are cut to
   * VR_FLOW_KEY_ALL, the common part is filled, and an address is copied only
   * when its key bit is set.
   */
  function FillFlow(env: Env, a: FillArgs): (k: FlowKey)
    requires ValidArgs(a)
    ensures WellFormedKey(k) && |k.sip| == IP6_ADDRESS_LEN
  {
    var p := a.params & KEY_ALL;
    var c := env.fillCommon(a.nhId, a.proto, a.sport, a.dport, AF_INET6, p);
    FlowKey(c.family, c.proto, c.unused, c.sport, c.dport, c.nhId,
            if p & KEY_SRC_IP != 0 then a.sip else Zeros(IP6_ADDRESS_LEN),
            if p & KEY_DST_IP != 0 then a.dip else Zeros(IP6_ADDRESS_LEN))
  }

  /**
   * In the packed key, the source bytes 12..28 are the packet's source when
   * KEY_SRC_IP survives the masking and all zero otherwise; likewise the
   * destination bytes 28..44.
   */
  lemma {:induction false} FillFlowAddresses(env: Env, a: FillArgs)
    requires ValidArgs(a)
    ensures |KeyBytes(FillFlow(env, a))| == INET6_KEY_SIZE
    ensures a.params & KEY_SRC_IP != 0 ==> KeyBytes(FillFlow(env, a))[12..28] == a.sip
    ensures a.params & KEY_SRC_IP == 0 ==> AllZero(KeyBytes(FillFlow(env, a))[12..28])
    ensures a.params & KEY_DST_IP != 0 ==> KeyBytes(FillFlow(env, a))[28..44] == a.dip
    ensures a.params & KEY_DST_IP == 0 ==> AllZero(KeyBytes(FillFlow(env, a))[28..44])
  {
    var k := FillFlow(env, a);
    var b := KeyBytes(k);
    assert b[12..28] == k.sip;
    assert b[28..] == k.dip;
    assert b[28..44] == b[28..];
    assert (a.params & KEY_ALL) & KEY_SRC_IP == a.params & KEY_SRC_IP;
    assert (a.params & KEY_ALL) & KEY_DST_IP == a.params & KEY_DST_IP;
  }

  // ---------------------------------------------------------------------
  // Where the transport header is

  datatype L4 = L4(proto: byte, at: nat)

  /** The header and, when `ip6_nxt` is the fragment header, its 8 bytes are present. */
  predicate L4Readable(s: seq<byte>, off: nat)
  {
    HasIp6Header(s, off) &&
    (NextHeader(s, off) == PROTO_FRAG ==> off + IP6_HDR_LEN + FRAG_HDR_LEN <= |s|)
  }

  /** The upper-layer protocol and the start of its header, skipping one fragment header. */
  function Transport(s: seq<byte>, off: nat): (r: L4)
    requires L4Readable(s, off)
    ensures off + IP6_HDR_LEN <= r.at <= |s|
    ensures NextHeader(s, off) != PROTO_FRAG ==> r == L4(NextHeader(s, off), off + IP6_HDR_LEN)
    ensures NextHeader(s, off) == PROTO_FRAG ==>
              r == L4(s[off + IP6_HDR_LEN + FRAG_NXT_OFF], off + IP6_HDR_LEN + FRAG_HDR_LEN)
  {
    if NextHeader(s, off) == PROTO_FRAG then
      L4(s[off + IP6_HDR_LEN + FRAG_NXT_OFF], off + IP6_HDR_LEN + FRAG_HDR_LEN)
    else L4(NextHeader(s, off), off + IP6_HDR_LEN)
  }

  predicate IsPortProto(p: byte)
  {
    p == PROTO_TCP || p == PROTO_UDP || p == PROTO_SCTP
  }

  /**
   * Every byte the classification of the header at `off` reads is inside the
   * packet, and a fragment carries at least its 8-byte fragment header.
   */
  predicate Parsable(env: Env, s: seq<byte>, nh: nat, off: nat)
    decreases |s| - off
  {
    L4Readable(s, off) &&
    if env.transportValid(s, off) then
      var l4 := Transport(s, off);
      (l4.proto == PROTO_ICMP6 ==>
         l4.at + ICMP_HDR_LEN <= |s| &&
         (env.icmp6Error(s, l4.at) && off == nh ==> Parsable(env, s, nh, l4.at + ICMP_HDR_LEN))) &&
      (IsPortProto(l4.proto) ==> l4.at + 4 <= |s|)
    else
      off + IP6_HDR_LEN + FRAG_HDR_LEN <= |s| && PayloadLen(s, off) >= FRAG_HDR_LEN as u16
  }

  // ---------------------------------------------------------------------
  // Fragment accounting

  /** The fields of a fragment-table entry that the classifier uses. */
  datatype FragState = FragState(sport: u16, dport: u16, received: nat, expected: nat)

  predicate FragReadable(s: seq<byte>, off: nat)
  {
    off + IP6_HDR_LEN + FRAG_HDR_LEN <= |s| && PayloadLen(s, off) >= FRAG_HDR_LEN as u16
  }

  /** ntohs(ip6_frag_offset). */
  function FragField(s: seq<byte>, off: nat): u16
    requires off + IP6_HDR_LEN + FRAG_HDR_LEN <= |s|
  {
    Net16(s, off + IP6_HDR_LEN + FRAG_OFFSET_OFF)
  }

  function Pow2(n: nat): (r: nat)
    ensures r > 0
  {
    if n == 0 then 1 else 2 * Pow2(n - 1)
  }

  /**
   * vr_ip6_fragment_tail as written: `offset` is the comparison
   * `frag > VR_IP6_FRAG_OFFSET_BITS`, not a shift.
   */
  predicate FragmentTail(s: seq<byte>, off: nat, k: FragConsts)
    requires off + IP6_HDR_LEN + FRAG_HDR_LEN <= |s|
  {
    NextHeader(s, off) == PROTO_FRAG &&
    (FragField(s, off) as bv16) & k.mf == 0 &&
    FragField(s, off) > k.offsetBits
  }

  /** Bytes of fragment payload one fragment carries: ip6_plen minus the fragment header. */
  function FragmentBytes(s: seq<byte>, off: nat): nat
    requires FragReadable(s, off)
  {
    PayloadLen(s, off) - FRAG_HDR_LEN
  }

  /** The expected total that a tail fragment announces. */
  function TailExpected(s: seq<byte>, off: nat, k: FragConsts): nat
    requires FragReadable(s, off)
  {
    (FragField(s, off) / Pow2(k.offsetBits)) * 8 + FragmentBytes(s, off)
  }

  /** The new received/expected counts of the entry after one fragment. */
  function FragAccount(f: FragState, s: seq<byte>, off: nat, k: FragConsts): FragState
    requires FragReadable(s, off)
  {
    f.(received := f.received + FragmentBytes(s, off),
       expected := if FragmentTail(s, off, k) then TailExpected(s, off, k) else f.expected)
  }

  /** A fragment-table entry (struct vr_fragment) as the classifier sees it. */
  class Fragment {
    const sport: u16
    const dport: u16
    var received: nat
    var expected: nat

    constructor (sport: u16, dport: u16, received: nat, expected: nat)
      ensures this.sport == sport && this.dport == dport
      ensures this.received == received && this.expected == expected
    {
      this.sport := sport;
      this.dport := dport;
      this.received := received;
      this.expected := expected;
    }

    function State(): FragState
      reads this
    {
      FragState(sport, dport, received, expected)
    }
  }

  /** The entry vr_fragment_get returned, or None for a NULL result. */
  function FragView(frag: Fragment?): Option<FragState>
    reads frag
  {
    if frag == null then None else Some(frag.State())
  }

  /** A sequence of fragments of one datagram, each with its IPv6 header at 0. */
  function AccountAll(f: FragState, ps: seq<seq<byte>>, k: FragConsts): FragState
    requires forall i :: 0 <= i < |ps| ==> FragReadable(ps[i], 0)
    decreases |ps|
  {
    if ps == [] then f else AccountAll(FragAccount(f, ps[0], 0, k), ps[1..], k)
  }

  function BytesOf(ps: seq<seq<byte>>): nat
    requires forall i :: 0 <= i < |ps| ==> FragReadable(ps[i], 0)
    decreases |ps|
  {
    if ps == [] then 0 else FragmentBytes(ps[0], 0) + BytesOf(ps[1..])
  }

  /**
   * After any sequence of fragments, the received count has grown by exactly
   * the fragment payload bytes they carry, whatever their order; the ports
   * never change.
   */
  lemma {:induction false} AccountAllReceived(f: FragState, ps: seq<seq<byte>>, k: FragConsts)
    requires forall i :: 0 <= i < |ps| ==> FragReadable(ps[i], 0)
    ensures AccountAll(f, ps, k).received == f.received + BytesOf(ps)
    ensures AccountAll(f, ps, k).sport == f.sport && AccountAll(f, ps, k).dport == f.dport
    decreases |ps|
  {
    if ps != [] {
      AccountAllReceived(FragAccount(f, ps[0], 0, k), ps[1..], k);
    }
  }

  /** Two fragments counted in either order leave the same received count. */
  lemma {:induction false} ReceivedOrderIndependent(f: FragState, p: seq<byte>, q: seq<byte>, k: FragConsts)
    requires FragReadable(p, 0) && FragReadable(q, 0)
    ensures AccountAll(f, [p, q], k).received == AccountAll(f, [q, p], k).received
  {
    AccountAllReceived(f, [p, q], k);
    AccountAllReceived(f, [q, p], k);
    assert [p, q][1..] == [q] && [q, p][1..] == [p];
    assert BytesOf([q]) == FragmentBytes(q, 0) + BytesOf([]);
    assert BytesOf([p]) == FragmentBytes(p, 0) + BytesOf([]);
  }

  /**
   * Once the tail fragment has been counted, later non-tail fragments keep
   * the expected total it announced.
   */
  lemma {:induction false} TailExpectedSticks(f: FragState, ps: seq<seq<byte>>, k: FragConsts)
    requires forall i :: 0 <= i < |ps| ==> FragReadable(ps[i], 0) && !FragmentTail(ps[i], 0, k)
    ensures AccountAll(f, ps, k).expected == f.expected
    decreases |ps|
  {
    if ps != [] {
      TailExpectedSticks(FragAccount(f, ps[0], 0, k), ps[1..], k);
    }
  }

  // ---------------------------------------------------------------------
  // vr_inet6_form_flow and its two paths

  /** What a classification produced. */
  datatype FormOutcome =
    | Built(args: FillArgs)        // vr_inet6_fill_flow was called with these arguments
    | FlowSet                      // VP_FLAG_FLOW_SET was set; no key was built
    | Failed(reason: DropReason)   // a negative return, -reason

  datatype FormResult = FormResult(out: FormOutcome, frag: Option<FragState>, deleted: bool)

  /**
   * The fill arguments for the given ports, reversed when `forward` is false.
   * With fat-flow masking the key takes the addresses the lookup left in its
   * copies; without it, the packet's own.
   */
  function KeyFor(env: Env, s: seq<byte>, off: nat, params: bv8, forward: bool,
                  proto: byte, sport: u16, dport: u16, fatFlow: bool): FillArgs
    requires HasIp6Header(s, off)
  {
    var sp := if forward then sport else dport;
    var dp := if forward then dport else sport;
    var src := if forward then Src(s, off) else Dst(s, off);
    var dst := if forward then Dst(s, off) else Src(s, off);
    if fatFlow then
      var l := env.fatFlow(proto, sp, dp, src, dst);
      FillArgs(env.nexthop, l.src, l.dst, proto, sp, dp, FatFlowCleared(l.mask, params) & KEY_ALL)
    else
      FillArgs(env.nexthop, src, dst, proto, sp, dp, params)
  }

  const ECHO_DPORT: u16 := 0x8100   // ntohs(VR_ICMP6_TYPE_ECHO_REPLY) on a little-endian host

  /** vr_inet6_form_flow: the full-header path when the transport header is valid, else the fragment path. */
  function FormSpec(env: Env, s: seq<byte>, nh: nat, off: nat, params: bv8, forward: bool,
                    frag: Option<FragState>): FormResult
    requires Parsable(env, s, nh, off)
    decreases |s| - off, 1
  {
    if env.transportValid(s, off) then ProtoSpec(env, s, nh, off, params, forward, frag)
    else FragmentSpec(env, s, off, params, forward, frag)
  }

  /** vr_inet6_proto_flow. */
  function ProtoSpec(env: Env, s: seq<byte>, nh: nat, off: nat, params: bv8, forward: bool,
                     frag: Option<FragState>): FormResult
    requires Parsable(env, s, nh, off) && env.transportValid(s, off)
    decreases |s| - off, 0
  {
    var l4 := Transport(s, off);
    var t := l4.at;
    if l4.proto == PROTO_ICMP6 then
      if env.icmp6Error(s, t) then
        if off == nh then FormSpec(env, s, nh, t + ICMP_HDR_LEN, params, false, frag)
        else FormResult(Failed(IcmpError), frag, false)
      else if s[t] == ICMP6_ECHO_REQUEST || s[t] == ICMP6_ECHO_REPLY then
        FormResult(Built(KeyFor(env, s, off, params, forward, l4.proto,
                                Load16(s, t + ICMP_EID_OFF), ECHO_DPORT, true)), frag, false)
      else if s[t] == ICMP6_NEIGH_SOL || s[t] == ICMP6_NEIGH_AD then
        FormResult(FlowSet, frag, false)
      else
        FormResult(Built(KeyFor(env, s, off, params, forward, l4.proto, 0, s[t], true)), frag, false)
    else if IsPortProto(l4.proto) then
      FormResult(Built(KeyFor(env, s, off, params, forward, l4.proto,
                              Load16(s, t), Load16(s, t + 2), true)), frag, false)
    else
      FormResult(Built(KeyFor(env, s, off, params, forward, l4.proto, 0, 0, true)), frag, false)
  }

  /** vr_inet6_fragment_flow: ports from the fragment entry, no fat-flow masking. */
  function FragmentSpec(env: Env, s: seq<byte>, off: nat, params: bv8, forward: bool,
                        frag: Option<FragState>): FormResult
    requires FragReadable(s, off)
  {
    if frag.None? then FormResult(Failed(NoFragEntry), None, false)
    else
      var f := FragAccount(frag.value, s, off, env.frag);
      FormResult(Built(KeyFor(env, s, off, params, forward, s[off + IP6_HDR_LEN + FRAG_NXT_OFF],
                              f.sport, f.dport, false)),
                 Some(f), f.received == f.expected)
  }

  // Lemmas about the classification.

  /** Every key the classification builds has 16-byte addresses. */
  lemma {:induction false} FormSpecArgsValid(env: Env, s: seq<byte>, nh: nat, off: nat, params: bv8,
                                              forward: bool, frag: Option<FragState>)
    requires Parsable(env, s, nh, off)
    ensures FormSpec(env, s, nh, off, params, forward, frag).out.Built? ==>
              ValidArgs(FormSpec(env, s, nh, off, params, forward, frag).out.args)
    decreases |s| - off
  {
    if env.transportValid(s, off) {
      var l4 := Transport(s, off);
      if l4.proto == PROTO_ICMP6 && env.icmp6Error(s, l4.at) && off == nh {
        FormSpecArgsValid(env, s, nh, l4.at + ICMP_HDR_LEN, params, false, frag);
      }
    }
  }

  /** The header holds an ICMPv6 error on the full-header path. */
  predicate IcmpErrorAt(env: Env, s: seq<byte>, off: nat)
    requires L4Readable(s, off)
  {
    env.transportValid(s, off) && Transport(s, off).proto == PROTO_ICMP6 &&
    Transport(s, off).at + ICMP_HDR_LEN <= |s| && env.icmp6Error(s, Transport(s, off).at)
  }

  /**
   * Port derivation on the full-header path, in the forward direction:
   * TCP/UDP/SCTP take the first two 16-bit words, an echo takes the
   * identifier and the fixed echo-reply port, NS/NA set FLOW_SET and build no
   * key, other ICMPv6 messages give 0 and the type, other protocols 0 and 0.
   */
  lemma {:induction false} ProtoPorts(env: Env, s: seq<byte>, nh: nat, off: nat, params: bv8,
                                      frag: Option<FragState>)
    requires Parsable(env, s, nh, off) && env.transportValid(s, off) && !IcmpErrorAt(env, s, off)
    ensures var r := FormSpec(env, s, nh, off, params, true, frag);
            var l4 := Transport(s, off);
            r.frag == frag && !r.deleted &&
            (IsPortProto(l4.proto) ==>
               r.out.Built? && r.out.args.sport == Load16(s, l4.at) && r.out.args.dport == Load16(s, l4.at + 2)) &&
            (l4.proto == PROTO_ICMP6 && (s[l4.at] == ICMP6_ECHO_REQUEST || s[l4.at] == ICMP6_ECHO_REPLY) ==>
               r.out.Built? && r.out.args.sport == Load16(s, l4.at + ICMP_EID_OFF) && r.out.args.dport == 0x8100) &&
            (l4.proto == PROTO_ICMP6 && (s[l4.at] == ICMP6_NEIGH_SOL || s[l4.at] == ICMP6_NEIGH_AD) ==>
               r.out == FlowSet) &&
            (l4.proto == PROTO_ICMP6 && s[l4.at] !in {ICMP6_ECHO_REQUEST, ICMP6_ECHO_REPLY, ICMP6_NEIGH_SOL, ICMP6_NEIGH_AD} ==>
               r.out.Built? && r.out.args.sport == 0 && r.out.args.dport == s[l4.at] as u16) &&
            (l4.proto != PROTO_ICMP6 && !IsPortProto(l4.proto) ==>
               r.out.Built? && r.out.args.sport == 0 && r.out.args.dport == 0) &&
            (r.out.Built? ==>
               var l := env.fatFlow(l4.proto, r.out.args.sport, r.out.args.dport, Src(s, off), Dst(s, off));
               r.out.args.proto == l4.proto && r.out.args.nhId == env.nexthop &&
               r.out.args.sip == l.src && r.out.args.dip == l.dst)
  {
  }

  /** The fat-flow lookup hands back the addresses it was given, whatever the ports. */
  ghost predicate KeepsAddresses(env: Env)
  {
    forall proto: byte, sp: u16, dp: u16, src: Addr16, dst: Addr16 ::
      env.fatFlow(proto, sp, dp, src, dst).src == src && env.fatFlow(proto, sp, dp, src, dst).dst == dst
  }

  /**
   * Reverse direction: with `forward` false the ports are exchanged, on the
   * full-header path and on the fragment path alike (an ICMPv6 error is the
   * exception, see IcmpErrorIgnoresDirection). The addresses are exchanged
   * before the fat-flow lookup sees them, so on the full-header path the key
   * holds what the lookup makes of the swapped pair; on the fragment path, or
   * when the lookup leaves the addresses alone, they are the forward ones
   * swapped.
   */
  lemma {:induction false} ReverseSwaps(env: Env, s: seq<byte>, nh: nat, off: nat, params: bv8,
                                        frag: Option<FragState>)
    requires Parsable(env, s, nh, off) && !IcmpErrorAt(env, s, off)
    ensures var a := FormSpec(env, s, nh, off, params, true, frag);
            var b := FormSpec(env, s, nh, off, params, false, frag);
            a.out.Built? == b.out.Built? && a.frag == b.frag && a.deleted == b.deleted &&
            (a.out.Built? ==>
               b.out.args.sport == a.out.args.dport && b.out.args.dport == a.out.args.sport &&
               b.out.args.proto == a.out.args.proto && b.out.args.nhId == a.out.args.nhId &&
               (env.transportValid(s, off) ==>
                  var l := env.fatFlow(b.out.args.proto, b.out.args.sport, b.out.args.dport, Dst(s, off), Src(s, off));
                  b.out.args.sip == l.src && b.out.args.dip == l.dst) &&
               (!env.transportValid(s, off) || KeepsAddresses(env) ==>
                  b.out.args.sip == a.out.args.dip && b.out.args.dip == a.out.args.sip))
  {
  }

  /**
   * An ICMPv6 error in the outermost header is classified on the embedded
   * header, always in the reverse direction; in an embedded header it is
   * refused with VP_DROP_ICMP_ERROR.
   */
  lemma {:induction false} IcmpErrorIgnoresDirection(env: Env, s: seq<byte>, nh: nat, off: nat,
                                                     params: bv8, forward: bool, frag: Option<FragState>)
    requires Parsable(env, s, nh, off) && IcmpErrorAt(env, s, off)
    ensures off == nh ==>
              FormSpec(env, s, nh, off, params, forward, frag) ==
              FormSpec(env, s, nh, Transport(s, off).at + ICMP_HDR_LEN, params, false, frag)
    ensures off != nh ==> FormSpec(env, s, nh, off, params, forward, frag) == FormResult(Failed(IcmpError), frag, false)
  {
  }

  /** Key parameters that are a subset of KEY_ALL and of `params`, with PROTO as `params` has it. */
  predicate MaskedParams(q: bv8, params: bv8)
  {
    q & !KEY_ALL == 0 && q & KEY_PROTO == params & KEY_PROTO && q & !params == 0
  }

  /**
   * A key built with fat-flow masking carries masked parameters and the
   * addresses the lookup left in its copies of the (oriented) packet addresses.
   */
  lemma KeyForMasked(env: Env, s: seq<byte>, off: nat, params: bv8, forward: bool,
                     proto: byte, sport: u16, dport: u16)
    requires HasIp6Header(s, off)
    ensures MaskedParams(KeyFor(env, s, off, params, forward, proto, sport, dport, true).params, params)
    ensures var a := KeyFor(env, s, off, params, forward, proto, sport, dport, true);
            var l := env.fatFlow(proto, a.sport, a.dport, if forward then Src(s, off) else Dst(s, off),
                                 if forward then Dst(s, off) else Src(s, off));
            a.sip == l.src && a.dip == l.dst
  {
    var sp := if forward then sport else dport;
    var dp := if forward then dport else sport;
    var src := if forward then Src(s, off) else Dst(s, off);
    var dst := if forward then Dst(s, off) else Src(s, off);
    FatFlowClearedBits(env.fatFlow(proto, sp, dp, src, dst).mask, params);
  }

  /** Fat-flow masking on the full-header path never clears PROTO and yields a subset of KEY_ALL. */
  lemma {:induction false} ProtoParamsMasked(env: Env, s: seq<byte>, nh: nat, off: nat, params: bv8,
                                             forward: bool, frag: Option<FragState>)
    requires Parsable(env, s, nh, off) && env.transportValid(s, off) && !IcmpErrorAt(env, s, off)
    ensures var r := FormSpec(env, s, nh, off, params, forward, frag);
            r.out.Built? ==> MaskedParams(r.out.args.params, params)
  {
    var l4 := Transport(s, off);
    var t := l4.at;
    var r := ProtoSpec(env, s, nh, off, params, forward, frag);
    assert FormSpec(env, s, nh, off, params, forward, frag) == r;
    if l4.proto == PROTO_ICMP6 {
      if s[t] == ICMP6_ECHO_REQUEST || s[t] == ICMP6_ECHO_REPLY {
        KeyForMasked(env, s, off, params, forward, l4.proto, Load16(s, t + ICMP_EID_OFF), ECHO_DPORT);
      } else {
        KeyForMasked(env, s, off, params, forward, l4.proto, 0, s[t]);
      }
    } else if IsPortProto(l4.proto) {
      KeyForMasked(env, s, off, params, forward, l4.proto, Load16(s, t), Load16(s, t + 2));
    } else {
      KeyForMasked(env, s, off, params, forward, l4.proto, 0, 0);
    }
  }

  /**
   * Fragment path: a missing entry gives -VP_DROP_NO_FRAG_ENTRY and changes
   * nothing; otherwise the entry's counts advance as FragAccount says, it is
   * deleted exactly when they meet, the key takes the entry's ports and the
   * fragment header's next protocol, and the parameters are not masked.
   */
  lemma {:induction false} FragmentPath(env: Env, s: seq<byte>, nh: nat, off: nat, params: bv8,
                                        frag: Option<FragState>)
    requires Parsable(env, s, nh, off) && !env.transportValid(s, off)
    ensures var r := FormSpec(env, s, nh, off, params, true, frag);
            (frag.None? ==> r == FormResult(Failed(NoFragEntry), None, false)) &&
            (frag.Some? ==>
               var f := FragAccount(frag.value, s, off, env.frag);
               r.frag == Some(f) &&
               f.received == frag.value.received + PayloadLen(s, off) - 8 &&
               (FragmentTail(s, off, env.frag) ==> f.expected == TailExpected(s, off, env.frag)) &&
               (!FragmentTail(s, off, env.frag) ==> f.expected == frag.value.expected) &&
               (r.deleted <==> f.received == f.expected) &&
               r.out.Built? && r.out.args.sport == frag.value.sport && r.out.args.dport == frag.value.dport &&
               r.out.args.proto == s[off + IP6_HDR_LEN] && r.out.args.params == params)
  {
  }

  // ---------------------------------------------------------------------
  // The classification as the datapath runs it

  /** The arguments passed to vr_inet6_fill_flow, with the fat-flow loop run as a loop. */
  method KeyForMethod(env: Env, s: seq<byte>, off: nat, params: bv8, forward: bool,
                      proto: byte, sport: u16, dport: u16, fatFlow: bool) returns (a: FillArgs)
    requires HasIp6Header(s, off)
    ensures a == KeyFor(env, s, off, params, forward, proto, sport, dport, fatFlow)
  {
    var sp, dp, src, dst := sport, dport, Src(s, off), Dst(s, off);
    if !forward {
      sp, dp := dp, sp;
      src, dst := dst, src;
    }
    var p := params;
    if fatFlow {
      var l := env.fatFlow(proto, sp, dp, src, dst);
      src, dst := l.src, l.dst;
      p := ClearFatFlowBits(l.mask, params);
      p := p & KEY_ALL;
    }
    a := FillArgs(env.nexthop, src, dst, proto, sp, dp, p);
  }

  /** vr_inet6_fragment_flow on the entry `frag` (NULL when vr_fragment_get found none). */
  method FragmentFlow(env: Env, s: seq<byte>, off: nat, params: bv8, forward: bool, frag: Fragment?)
    returns (out: FormOutcome, deleted: bool)
    requires FragReadable(s, off)
    modifies frag
    ensures var r := FragmentSpec(env, s, off, params, forward, old(FragView(frag)));
            out == r.out && deleted == r.deleted && FragView(frag) == r.frag
  {
    if frag == null {
      return Failed(NoFragEntry), false;
    }
    frag.received := frag.received + (PayloadLen(s, off) - FRAG_HDR_LEN);
    if FragmentTail(s, off, env.frag) {
      frag.expected := TailExpected(s, off, env.frag);
    }
    deleted := frag.received == frag.expected;
    var a := KeyForMethod(env, s, off, params, forward, s[off + IP6_HDR_LEN + FRAG_NXT_OFF],
                          frag.sport, frag.dport, false);
    out := Built(a);
  }

  /** vr_inet6_form_flow. */
  method FormFlow(env: Env, s: seq<byte>, nh: nat, off: nat, params: bv8, forward: bool, frag: Fragment?)
    returns (out: FormOutcome, deleted: bool)
    requires Parsable(env, s, nh, off)
    modifies frag
    ensures var r := FormSpec(env, s, nh, off, params, forward, old(FragView(frag)));
            out == r.out && deleted == r.deleted && FragView(frag) == r.frag
    decreases |s| - off, 1
  {
    if env.transportValid(s, off) {
      out, deleted := ProtoFlow(env, s, nh, off, params, forward, frag);
    } else {
      out, deleted := FragmentFlow(env, s, off, params, forward, frag);
    }
  }

  /** vr_inet6_proto_flow. */
  method ProtoFlow(env: Env, s: seq<byte>, nh: nat, off: nat, params: bv8, forward: bool, frag: Fragment?)
    returns (out: FormOutcome, deleted: bool)
    requires Parsable(env, s, nh, off) && env.transportValid(s, off)
    modifies frag
    ensures var r := ProtoSpec(env, s, nh, off, params, forward, old(FragView(frag)));
            out == r.out && deleted == r.deleted && FragView(frag) == r.frag
    decreases |s| - off, 0
  {
    var l4 := Transport(s, off);
    var t := l4.at;
    var sport: u16, dport: u16;
    if l4.proto == PROTO_ICMP6 {
      if env.icmp6Error(s, t) {
        if off == nh {
          out, deleted := FormFlow(env, s, nh, t + ICMP_HDR_LEN, params, false, frag);
        } else {
          out, deleted := Failed(IcmpError), false;
        }
        return;
      } else if s[t] == ICMP6_ECHO_REQUEST || s[t] == ICMP6_ECHO_REPLY {
        sport, dport := Load16(s, t + ICMP_EID_OFF), ECHO_DPORT;
      } else if s[t] == ICMP6_NEIGH_SOL || s[t] == ICMP6_NEIGH_AD {
        return FlowSet, false;
      } else {
        sport, dport := 0, s[t];
      }
    } else if IsPortProto(l4.proto) {
      sport, dport := Load16(s, t), Load16(s, t + 2);
    } else {
      sport, dport := 0, 0;
    }
    var a := KeyForMethod(env, s, off, params, forward, l4.proto, sport, dport, true);
    out, deleted := Built(a), false;
  }

  // ---------------------------------------------------------------------
  // vr_inet6_get_flow_key and vr_inet6_flow_lookup

  /** A return value: non-negative, or the negated drop reason. */
  datatype Status = Ok(value: nat) | Err(reason: DropReason)

  /**
   * vr_inet6_get_flow_key: classify the outermost header in the forward
   * direction; on success a fragment head is registered with its key's ports,
   * and a failure there becomes -VP_DROP_NO_MEMORY.  `prior` is what the key
   * buffer held before (it is left as is when no key is built).
   */
  datatype KeyResult = KeyResult(status: Status, key: FlowKey, flowSet: bool)

  function GetFlowKeySpec(env: Env, s: seq<byte>, nh: nat, params: bv8, frag: Option<FragState>,
                          prior: FlowKey): KeyResult
    requires Parsable(env, s, nh, nh)
  {
    var r := FormSpec(env, s, nh, nh, params, true, frag);
    FormSpecArgsValid(env, s, nh, nh, params, true, frag);
    var key := if r.out.Built? then FillFlow(env, r.out.args) else prior;
    if r.out.Failed? then KeyResult(Err(r.out.reason), key, false)
    else if env.fragmentHead(s, nh) then
      var added := env.fragmentAdd(s, nh, key.sport, key.dport);
      if added < 0 then KeyResult(Err(NoMemory), key, r.out.FlowSet?)
      else KeyResult(Ok(added), key, r.out.FlowSet?)
    else KeyResult(Ok(0), key, r.out.FlowSet?)
  }

  /** A failed classification is returned as is; no fragment is registered after it. */
  lemma {:induction false} GetFlowKeyFailures(env: Env, s: seq<byte>, nh: nat, params: bv8,
                                              frag: Option<FragState>, prior: FlowKey)
    requires Parsable(env, s, nh, nh)
    ensures var r := FormSpec(env, s, nh, nh, params, true, frag);
            var k := GetFlowKeySpec(env, s, nh, params, frag, prior);
            (r.out.Failed? ==> k.status == Err(r.out.reason) && k.key == prior) &&
            (k.status.Err? && k.status.reason != NoMemory ==> r.out.Failed?) &&
            (r.out.Built? ==> ValidArgs(r.out.args) && k.key == FillFlow(env, r.out.args)) &&
            (k.status.Err? && k.status.reason == NoMemory && !r.out.Failed? ==>
               env.fragmentHead(s, nh) && env.fragmentAdd(s, nh, k.key.sport, k.key.dport) < 0) &&
            (!r.out.Failed? && env.fragmentHead(s, nh) && env.fragmentAdd(s, nh, k.key.sport, k.key.dport) < 0 ==>
               k.status == Err(NoMemory))
  {
    FormSpecArgsValid(env, s, nh, nh, params, true, frag);
  }

  /**
   * The status of vr_inet6_get_flow_key once the classification succeeded:
   * 0 for a packet that is not a fragment head; for a head, what
   * vr_v6_fragment_add returns, or -VP_DROP_NO_MEMORY exactly when that is
   * negative.  The key is the one built, or the old buffer when FLOW_SET
   * was set instead.
   */
  lemma GetFlowKeyStatus(env: Env, s: seq<byte>, nh: nat, params: bv8,
                         frag: Option<FragState>, prior: FlowKey)
    requires Parsable(env, s, nh, nh)
    ensures var r := FormSpec(env, s, nh, nh, params, true, frag);
            var k := GetFlowKeySpec(env, s, nh, params, frag, prior);
            !r.out.Failed? ==>
              (k.flowSet <==> r.out.FlowSet?) &&
              (r.out.FlowSet? ==> k.key == prior) &&
              (!env.fragmentHead(s, nh) ==> k.status == Ok(0)) &&
              (env.fragmentHead(s, nh) && env.fragmentAdd(s, nh, k.key.sport, k.key.dport) < 0 ==>
                 k.status == Err(NoMemory)) &&
              (env.fragmentHead(s, nh) && env.fragmentAdd(s, nh, k.key.sport, k.key.dport) >= 0 ==>
                 k.status == Ok(env.fragmentAdd(s, nh, k.key.sport, k.key.dport)))
  {
    FormSpecArgsValid(env, s, nh, nh, params, true, frag);
  }

  /** What vr_inet6_flow_lookup did with the packet besides its return value. */
  datatype LookupAction = NoAction | ToAssembler | FreedMisc | CloneToAssembler

  /**
   * Its return: a flow_result_t, or -VP_DROP_NO_MEMORY returned through
   * that type when registering a fragment head fails.
   */
  datatype LookupRet = Result(result: FlowResult) | NoMemoryCode

  datatype LookupInput = LookupInput(
    flowSet: bool,            // VP_FLAG_FLOW_SET on entry
    policyEnabled: bool,      // VIF_FLAG_POLICY_ENABLED on the interface
    flowGet: bool,            // VP_FLAG_FLOW_GET
    fmdKey: Option<FlowKey>,  // the key of fmd_fe, when there is one
    assembler: bool,          // vr_enqueue_to_assembler is set
    cloned: bool,             // vr_pclone succeeded
    flowLookup: FlowKey -> FlowResult) // vr_flow_lookup on the key

  /** vr_inet6_flow_lookup; the packet's header is at `nh`. */
  function FlowLookupSpec(env: Env, s: seq<byte>, nh: nat, i: LookupInput, frag: Option<FragState>,
                          prior: FlowKey): (LookupRet, LookupAction)
    requires Parsable(env, s, nh, nh)
  {
    if i.flowSet then (Result(Forward), NoAction)
    else if !(i.policyEnabled || i.flowGet) then (Result(Forward), NoAction)
    else
      var r := FormSpec(env, s, nh, nh, KEY_ALL, true, frag);
      FormSpecArgsValid(env, s, nh, nh, KEY_ALL, true, frag);
      if i.fmdKey.None? && r.out.Failed? then
        (Result(Consumed), if !env.transportValid(s, nh) && i.assembler then ToAssembler else FreedMisc)
      else if i.fmdKey.None? && r.out.FlowSet? then (Result(Forward), NoAction)
      else
        var key := if i.fmdKey.Some? then i.fmdKey.value else FillFlow(env, r.out.args);
        if env.fragmentHead(s, nh) then
          if env.fragmentAdd(s, nh, key.sport, key.dport) < 0 then (NoMemoryCode, NoAction)
          else (Result(i.flowLookup(key)), if i.assembler && i.cloned then CloneToAssembler else NoAction)
        else (Result(i.flowLookup(key)), NoAction)
  }

  /**
   * The decisions of vr_inet6_flow_lookup: a packet already through a lookup,
   * or on an interface without policy and without a FLOW_GET request, is
   * forwarded untouched; a failed classification consumes the packet, which
   * goes to the assembler only for a fragment when an assembler exists and is
   * freed with VP_DROP_MISC otherwise; the flow lookup runs only on a built
   * key or the entry's own key.
   */
  lemma {:induction false} FlowLookupDecisions(env: Env, s: seq<byte>, nh: nat, i: LookupInput,
                                               frag: Option<FragState>, prior: FlowKey)
    requires Parsable(env, s, nh, nh)
    ensures var (ret, act) := FlowLookupSpec(env, s, nh, i, frag, prior);
            var r := FormSpec(env, s, nh, nh, KEY_ALL, true, frag);
            (i.flowSet || !(i.policyEnabled || i.flowGet) ==> ret == Result(Forward) && act == NoAction) &&
            (!i.flowSet && (i.policyEnabled || i.flowGet) && i.fmdKey.None? && r.out.Failed? ==>
               ret == Result(Consumed) &&
               (act == ToAssembler <==> !env.transportValid(s, nh) && i.assembler) &&
               (act == FreedMisc <==> !(!env.transportValid(s, nh) && i.assembler))) &&
            (act == CloneToAssembler ==> env.fragmentHead(s, nh) && i.assembler && i.cloned) &&
            (ret == NoMemoryCode ==> env.fragmentHead(s, nh) && act == NoAction) &&
            (!i.flowSet && (i.policyEnabled || i.flowGet) && LookupKey(env, s, nh, i, frag).Some? &&
             env.fragmentHead(s, nh) &&
             env.fragmentAdd(s, nh, LookupKey(env, s, nh, i, frag).value.sport, LookupKey(env, s, nh, i, frag).value.dport) < 0 ==>
               ret == NoMemoryCode) &&
            (ret.Result? && ret.result != Forward && ret.result != Consumed ==>
               i.fmdKey.Some? || r.out.Built?)
  {
  }

  /** The key vr_flow_lookup is given: the entry's own, or the one the classification built (None when it built none). */
  function LookupKey(env: Env, s: seq<byte>, nh: nat, i: LookupInput, frag: Option<FragState>): Option<FlowKey>
    requires Parsable(env, s, nh, nh)
  {
    if i.fmdKey.Some? then i.fmdKey
    else
      var r := FormSpec(env, s, nh, nh, KEY_ALL, true, frag);
      FormSpecArgsValid(env, s, nh, nh, KEY_ALL, true, frag);
      if r.out.Built? then Some(FillFlow(env, r.out.args)) else None
  }

  /**
   * The normal path of vr_inet6_flow_lookup: a classification that sets
   * FLOW_SET instead of building a key forwards the packet; with a key, a
   * fragment head whose registration fails gives -VP_DROP_NO_MEMORY, and
   * otherwise the result is vr_flow_lookup on that key, with a clone sent to
   * the assembler exactly for a registered head when an assembler exists and
   * the clone succeeded.
   */
  lemma FlowLookupResults(env: Env, s: seq<byte>, nh: nat, i: LookupInput,
                          frag: Option<FragState>, prior: FlowKey)
    requires Parsable(env, s, nh, nh)
    ensures var (ret, act) := FlowLookupSpec(env, s, nh, i, frag, prior);
            var r := FormSpec(env, s, nh, nh, KEY_ALL, true, frag);
            var lookup := !i.flowSet && (i.policyEnabled || i.flowGet);
            (lookup && i.fmdKey.None? && r.out.FlowSet? ==> ret == Result(Forward) && act == NoAction) &&
            (lookup && i.fmdKey.None? ==> (LookupKey(env, s, nh, i, frag).Some? <==> r.out.Built?)) &&
            (lookup && LookupKey(env, s, nh, i, frag).Some? ==>
               var key := LookupKey(env, s, nh, i, frag).value;
               var failed := env.fragmentHead(s, nh) && env.fragmentAdd(s, nh, key.sport, key.dport) < 0;
               (failed ==> ret == NoMemoryCode && act == NoAction) &&
               (!failed ==> ret == Result(i.flowLookup(key)) &&
                            (act == CloneToAssembler <==> env.fragmentHead(s, nh) && i.assembler && i.cloned) &&
                            (act != CloneToAssembler ==> act == NoAction)))
  {
  }

  // ---------------------------------------------------------------------
  // vr_inet6_fill_flow_from_req / vr_inet6_fill_rflow_from_req

  /** The address words of a flow request (fr_flow_sip_u/l, fr_flow_dip_u/l). */
  datatype ReqAddrs = ReqAddrs(sipU: u64, sipL: u64, dipU: u64, dipL: u64)

  /** The 32 address bytes the four 64-bit stores leave in flow6_sip and flow6_dip. */
  function AddrBytesOfReq(r: ReqAddrs): (b: seq<byte>)
    ensures |b| == 32
  {
    LE64(r.sipU) + LE64(r.sipL) + LE64(r.dipU) + LE64(r.dipL)
  }

  /** vr_inet6_fill_flow_from_req: key with every parameter and the request's addresses. */
  function FillFromReq(env: Env, nhId: u32, proto: byte, sport: u16, dport: u16, r: ReqAddrs): (k: FlowKey)
    ensures WellFormedKey(k) && |k.sip| == IP6_ADDRESS_LEN
  {
    var c := env.fillCommon(nhId, proto, sport, dport, AF_INET6, KEY_ALL);
    var b := AddrBytesOfReq(r);
    FlowKey(c.family, c.proto, c.unused, c.sport, c.dport, c.nhId, b[..16], b[16..])
  }

  /** The request words a CLI builds from a key's addresses (64-bit loads, as fill_flow_req does). */
  function ReqOfKeyAddrs(sip: seq<byte>, dip: seq<byte>): ReqAddrs
    requires |sip| == 16 && |dip| == 16
  {
    ReqAddrs(Load64(sip, 0), Load64(sip, 8), Load64(dip, 0), Load64(dip, 8))
  }

  /**
   * Building the request words from a key's addresses and filling a key from
   * them gives back the same addresses: the agent and the datapath agree on
   * the byte order.
   */
  lemma {:induction false} FillFromReqRoundTrip(env: Env, nhId: u32, proto: byte, sport: u16, dport: u16,
                                                sip: seq<byte>, dip: seq<byte>)
    requires |sip| == 16 && |dip| == 16
    ensures FillFromReq(env, nhId, proto, sport, dport, ReqOfKeyAddrs(sip, dip)).sip == sip
    ensures FillFromReq(env, nhId, proto, sport, dport, ReqOfKeyAddrs(sip, dip)).dip == dip
  {
    var hs, hd := LE64(Load64(sip, 0)) + LE64(Load64(sip, 8)), LE64(Load64(dip, 0)) + LE64(Load64(dip, 8));
    AddressRoundTrip(sip);
    AddressRoundTrip(dip);
    var b := AddrBytesOfReq(ReqOfKeyAddrs(sip, dip));
    assert b == hs + hd;
    assert b[..16] == hs && b[16..] == hd;
  }

  /** Two 64-bit loads of an address, stored back, give the address. */
  lemma AddressRoundTrip(a: seq<byte>)
    requires |a| == 16
    ensures LE64(Load64(a, 0)) + LE64(Load64(a, 8)) == a
  {
    LE64OfLoad64(a, 0);
    LE64OfLoad64(a, 8);
    assert a == a[0..8] + a[8..16];
  }

  // ---------------------------------------------------------------------
  // Classifiers

  /** vr_inet6_flow_is_fat_flow: a TCP/UDP/SCTP key with a zero port. */
  predicate IsFatFlow(k: FlowKey): (r: bool)
    ensures !IsPortProto(k.proto) ==> !r
    ensures k.sport != 0 && k.dport != 0 ==> !r
    ensures IsPortProto(k.proto) && k.sport == 0 ==> r
    ensures IsPortProto(k.proto) && k.dport == 0 ==> r
  {
    (k.sport == 0 || k.dport == 0) && IsPortProto(k.proto)
  }

  /** l4_pkt_type_t results of vr_ip6_well_known_packet. */
  datatype L4Type = Unknown | RouterSolicitation | NeighbourSolicitation | NeighbourAdvertisement | DhcpRequest

  /**
   * vr_ip6_well_known_packet on the bytes at pkt_data (the IPv6 header at 0).
   * `isLinkLocal` is vr_v6_prefix_is_ll; `dhcp6SrcPort` is
   * htons(VR_DHCP6_SRC_PORT) as stored in memory.
   */
  function WellKnownPacket(s: seq<byte>, isIp6: bool, multicast: bool,
                           isLinkLocal: seq<byte> -> bool, dhcp6SrcPort: u16): (r: L4Type)
    requires HasIp6Header(s, 0) && IP6_HDR_LEN + 2 <= |s|
    ensures r != Unknown ==> isIp6 && multicast && !isLinkLocal(Dst(s, 0)) && s[24] == 0xFF && s[25] == 0x02
    ensures r in {RouterSolicitation, NeighbourSolicitation, NeighbourAdvertisement} ==>
              NextHeader(s, 0) == PROTO_ICMP6
    ensures r == DhcpRequest <==>
              isIp6 && multicast && !isLinkLocal(Dst(s, 0)) && s[24] == 0xFF && s[25] == 0x02 &&
              NextHeader(s, 0) == PROTO_UDP && Load16(s, IP6_HDR_LEN) == dhcp6SrcPort
  {
    if !isIp6 || !multicast then Unknown
    else if isLinkLocal(Dst(s, 0)) then Unknown
    else if s[IP6_DST_OFF] == 0xFF && s[IP6_DST_OFF + 1] == 0x02 then
      if NextHeader(s, 0) == PROTO_ICMP6 && s[IP6_HDR_LEN] == ICMP6_ROUTER_SOL then RouterSolicitation
      else if NextHeader(s, 0) == PROTO_ICMP6 && s[IP6_HDR_LEN] == ICMP6_NEIGH_SOL then NeighbourSolicitation
      else if NextHeader(s, 0) == PROTO_ICMP6 && s[IP6_HDR_LEN] == ICMP6_NEIGH_AD then NeighbourAdvertisement
      else if NextHeader(s, 0) == PROTO_UDP && Load16(s, IP6_HDR_LEN) == dhcp6SrcPort then DhcpRequest
      else Unknown
    else Unknown
  }

  /** The three ND types are recognised exactly by the ICMPv6 type after the header. */
  lemma {:induction false} WellKnownNeighbourTypes(s: seq<byte>, isLinkLocal: seq<byte> -> bool, dhcp6SrcPort: u16)
    requires HasIp6Header(s, 0) && IP6_HDR_LEN + 2 <= |s|
    requires !isLinkLocal(Dst(s, 0)) && s[24] == 0xFF && s[25] == 0x02 && NextHeader(s, 0) == PROTO_ICMP6
    ensures WellKnownPacket(s, true, true, isLinkLocal, dhcp6SrcPort) == RouterSolicitation <==> s[40] == 133
    ensures WellKnownPacket(s, true, true, isLinkLocal, dhcp6SrcPort) == NeighbourSolicitation <==> s[40] == 135
    ensures WellKnownPacket(s, true, true, isLinkLocal, dhcp6SrcPort) == NeighbourAdvertisement <==> s[40] == 136
  {
  }
}
