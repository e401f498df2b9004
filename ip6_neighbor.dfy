// Neighbour discovery in dp-core/vr_proto_ip6.c: recognising duplicate
// address detection (section 5.4 of RFC 4862), the proxy-or-flood decision on
// a Neighbor Solicitation, the dispatch of solicitations and advertisements,
// and the in-place rewrite of a solicitation into the Neighbor Advertisement
// that answers it (sections 4.3, 4.4 and 4.6.1 of RFC 4861).

module Ip6Neighbor {
  import opened Base
  import opened Drops
  import opened Ip6Layout
  import opened Ip6Checksum

  /** mac_response_t. */
  datatype MacResponse = MrDrop | MrProxy | MrFlood | MrNotMe | MrTrapX | MrXconnect | MrMirror

  /**
   * vr_icmp6_pkt_dad: the packet's IPv6 header (at `nh`, or absent) has
   * version 6 and an unspecified source, and the packet is no longer than an
   * ICMPv6 header plus a target address (so it carries no source link-layer
   * address option).  `isNull` is vr_v6_prefix_null.
   */
  function IsDad(s: seq<byte>, nh: Option<nat>, pktLen: nat, isNull: seq<byte> -> bool): (r: bool)
    requires nh.Some? ==> HasIp6Header(s, nh.value)
    ensures r <==> nh.Some? && Version(s, nh.value) == 6 && isNull(Src(s, nh.value)) &&
                   pktLen <= ICMP_HDR_LEN + 16
  {
    if nh.None? || Version(s, nh.value) != 6 then false
    else if !isNull(Src(s, nh.value)) then false
    else if pktLen > ICMP_HDR_LEN + 16 then false
    else true
  }

  /** The all-zero address is what a DAD probe carries as its source. */
  lemma DadNeedsZeroSource(s: seq<byte>, nh: nat, pktLen: nat)
    requires HasIp6Header(s, nh)
    ensures IsDad(s, Some(nh), pktLen, AllZero) ==> AllZero(Src(s, nh)) && s[nh] / 16 == 6
    ensures pktLen > 24 ==> !IsDad(s, Some(nh), pktLen, AllZero)
  {
  }

  /**
   * What vm_neighbor_request sees: whether the frame is VLAN tagged, whether
   * it is a DAD probe, the interface's VIF_FLAG_MAC_PROXY, the ARP-proxy flag
   * of the route to the target, and what vr_get_proxy_mac would answer.
   */
  datatype SolicitInput = SolicitInput(vlanTagged: bool, dad: bool, macProxy: bool,
                                       routeArpProxy: bool, proxyMac: MacResponse)

  /** vm_neighbor_request. */
  function NeighborRequest(i: SolicitInput): (r: MacResponse)
    ensures i.vlanTagged ==> r == MrFlood
    ensures !i.vlanTagged && i.dad ==> r == MrNotMe
    ensures !i.vlanTagged && !i.dad && (i.macProxy || i.routeArpProxy) ==> r == i.proxyMac
    ensures !i.vlanTagged && !i.dad && !i.macProxy && !i.routeArpProxy ==> r == MrFlood
  {
    if i.vlanTagged then MrFlood
    else if i.dad then MrNotMe
    else if i.macProxy || i.routeArpProxy then i.proxyMac
    else MrFlood
  }

  /** A proxy answer can only come from the proxy-MAC lookup, never from a DAD probe. */
  lemma ProxyOnlyWhenAsked(i: SolicitInput)
    requires NeighborRequest(i) == MrProxy
    ensures !i.vlanTagged && !i.dad && (i.macProxy || i.routeArpProxy) && i.proxyMac == MrProxy
  {
  }

  // ---------------------------------------------------------------------
  // Dispatch

  /** What was done with the packet. */
  datatype NdAction =
    | Untouched           // returned unhandled (pushed back when it had been pulled)
    | Freed(reason: DropReason)
    | Proxied             // vr_neighbor_proxy
    | Xconnected          // vif_xconnect
    | TrappedClone        // vr_trap of a clone, the original handled as well
    | TrappedOriginal     // vr_trap of the packet itself
    | XconnectAndTrapClone

  datatype NdResult = NdResult(handled: bool, action: NdAction)

  /** What vr_neighbor_reply sees of the interface and the forwarding metadata. */
  datatype ReplyInput = ReplyInput(xconnectOrHost: bool, fabric: bool, hasLabel: bool,
                                   sameVrf: bool, cowOk: bool)

  /** vr_neighbor_reply. */
  function NeighborReply(i: ReplyInput): (r: NdResult)
    ensures i.xconnectOrHost ==> r == NdResult(true, Xconnected)
    ensures !i.xconnectOrHost && !i.fabric ==> r == NdResult(true, Freed(InvalidIf))
    ensures !r.handled <==> !i.xconnectOrHost && i.fabric && (i.hasLabel || !i.sameVrf)
  {
    if i.xconnectOrHost then NdResult(true, Xconnected)
    else if i.fabric then
      if i.hasLabel || !i.sameVrf then NdResult(false, Untouched)
      else if i.cowOk then NdResult(true, XconnectAndTrapClone)
      else NdResult(true, TrappedOriginal)
    else NdResult(true, Freed(InvalidIf))
  }

  /**
   * What vr_neighbor_input sees: vp_len, the IPv6 next header, the ICMPv6
   * type, the interface's vif_mac_request answer and whether a clone could be
   * made.
   */
  datatype SolicitPacket = SolicitPacket(len: nat, nxt: byte, icmpType: byte,
                                         macRequest: MacResponse, cloneOk: bool)

  /** vr_neighbor_input. */
  function NeighborInput(p: SolicitPacket): (r: NdResult)
    ensures p.len < IP6_HDR_LEN ==> r == NdResult(true, Freed(InvalidPacket))
    ensures r.action == Proxied ==>
              p.len >= IP6_HDR_LEN + ICMP_HDR_LEN && p.nxt == PROTO_ICMP6 &&
              p.icmpType == ICMP6_NEIGH_SOL && p.macRequest == MrProxy
    ensures p.len >= IP6_HDR_LEN && (p.nxt != PROTO_ICMP6 ||
              (p.len >= IP6_HDR_LEN + ICMP_HDR_LEN && p.icmpType != ICMP6_NEIGH_SOL)) ==>
              r == NdResult(false, Untouched)
    ensures !r.handled ==> r.action == Untouched || r.action == TrappedClone
  {
    if p.len < IP6_HDR_LEN then NdResult(true, Freed(InvalidPacket))
    else if p.nxt != PROTO_ICMP6 then NdResult(false, Untouched)
    else if p.len < IP6_HDR_LEN + ICMP_HDR_LEN then NdResult(true, Freed(InvalidPacket))
    else if p.icmpType != ICMP6_NEIGH_SOL then NdResult(false, Untouched)
    else match p.macRequest
      case MrProxy => NdResult(true, Proxied)
      case MrXconnect => NdResult(true, Xconnected)
      case MrTrapX => if p.cloneOk then NdResult(true, XconnectAndTrapClone)
                      else NdResult(true, TrappedOriginal)
      case MrMirror => NdResult(false, if p.cloneOk then TrappedClone else Untouched)
      case MrDrop => NdResult(true, Freed(InvalidArp))
      case _ => NdResult(false, Untouched)
  }

  /** A DAD probe on an untagged frame is never answered by proxy: it is bridged. */
  lemma DadIsBridged(i: SolicitInput, p: SolicitPacket)
    requires !i.vlanTagged && i.dad && p.macRequest == NeighborRequest(i)
    ensures NeighborInput(p).action != Proxied
    ensures p.len >= IP6_HDR_LEN + ICMP_HDR_LEN ==> !NeighborInput(p).handled
  {
  }

  /** vr_ipv6_nd_input: which handler the ICMPv6 type selects. */
  datatype NdHandler = ToNeighborInput | ToNeighborReply | NotHandled

  function NdInput(icmpType: byte): (r: NdHandler)
    ensures r == ToNeighborInput <==> icmpType == ICMP6_NEIGH_SOL
    ensures r == ToNeighborReply <==> icmpType == ICMP6_NEIGH_AD
  {
    if icmpType == ICMP6_NEIGH_SOL then ToNeighborInput
    else if icmpType == ICMP6_NEIGH_AD then ToNeighborReply
    else NotHandled
  }

  // ---------------------------------------------------------------------
  // vr_neighbor_proxy

  /** Neighbor Advertisement flags in host order before htons (section 4.4 of RFC 4861). */
  const NA_FLAG_ROUTER: u16 := 0x8000
  const NA_FLAG_SOLICITED: u16 := 0x4000

  /** TARGET_LINK_LAYER_ADDRESS_OPTION (section 4.6.1 of RFC 4861). */
  const TLLA_OPTION: byte := 2
  /** (sizeof(struct vr_neighbor_option) + VR_ETHER_ALEN) / 8 with a 2-byte option header. */
  const TLLA_LENGTH: byte := 1

  const ETH_PROTO_IP6_HI: byte := 0x86
  const ETH_PROTO_IP6_LO: byte := 0xDD

  /** Offsets from the ICMPv6 header: target address and the option after it. */
  const ND_TARGET_OFF: nat := 8
  const ND_OPTION_OFF: nat := 24
  const ND_OPTION_END: nat := 32

  /** The headers pushed in front of the ICMPv6 message. */
  const PUSH_LEN: nat := 54

  function AdvFlags(myMac: bool): u16
  {
    NA_FLAG_SOLICITED + (if myMac then NA_FLAG_ROUTER else 0)
  }

  /**
   * The packet buffer `s` with pkt_data at `data` (the ICMPv6 header of a
   * solicitation, the IPv6 and Ethernet headers before it): the option the
   * rewrite touches is inside, and when the push can succeed the ICMPv6
   * message the checksum covers is too.
   */
  predicate ProxyFits(s: seq<byte>, data: nat)
  {
    data + ND_OPTION_END <= |s| &&
    (data >= PUSH_LEN ==> data + PayloadLen(s, data - IP6_HDR_LEN) <= |s|)
  }

  /** The Ethernet and IPv6 header rewrites of vr_neighbor_proxy, in order. */
  function HeaderRewrite(s: seq<byte>, data: nat, dmac: seq<byte>): (r: seq<byte>)
    requires data >= PUSH_LEN && data + ND_OPTION_END <= |s| && |dmac| == ETH_ALEN
    ensures |r| == |s|
  {
    AddressSwap(EthRewrite(s, data, dmac), data)
  }

  /** The Ethernet header: destination from the source link-layer option, source `dmac`, type IPv6. */
  function EthRewrite(s: seq<byte>, data: nat, dmac: seq<byte>): (r: seq<byte>)
    requires data >= PUSH_LEN && data + ND_OPTION_END <= |s| && |dmac| == ETH_ALEN
    ensures |r| == |s|
  {
    var eth := data - PUSH_LEN;
    var nopt := data + ND_OPTION_OFF;
    var s1 := Write(s, eth, s[nopt + 2..nopt + 8]);
    var s2 := Write(s1, eth + ETH_ALEN, dmac);
    s2[eth + 12 := ETH_PROTO_IP6_HI][eth + 13 := ETH_PROTO_IP6_LO]
  }

  /** The IPv6 addresses: the old source becomes the destination and the target the source. */
  function AddressSwap(s: seq<byte>, data: nat): (r: seq<byte>)
    requires data >= PUSH_LEN && data + ND_OPTION_END <= |s|
    ensures |r| == |s|
  {
    var ip6 := data - IP6_HDR_LEN;
    var s4 := Write(s, ip6 + IP6_DST_OFF, s[ip6 + IP6_SRC_OFF..ip6 + IP6_DST_OFF]);
    Write(s4, ip6 + IP6_SRC_OFF, s4[data + ND_TARGET_OFF..data + ND_OPTION_OFF])
  }

  /** The ICMPv6 rewrites of vr_neighbor_proxy, in order, before the checksum. */
  function IcmpRewrite(s: seq<byte>, data: nat, dmac: seq<byte>, myMac: bool): (r: seq<byte>)
    requires data + ND_OPTION_END <= |s| && |dmac| == ETH_ALEN
    ensures |r| == |s|
  {
    var nopt := data + ND_OPTION_OFF;
    var f := AdvFlags(myMac);
    var s1 := s[data := ICMP6_NEIGH_AD];
    var s2 := s1[data + ICMP_EID_OFF := f / 256][data + ICMP_EID_OFF + 1 := f % 256];
    var s3 := s2[nopt := TLLA_OPTION][nopt + 1 := TLLA_LENGTH];
    Write(s3, nopt + 2, dmac)
  }

  /** Every header rewrite of vr_neighbor_proxy, before the checksum. */
  function ProxyFields(s: seq<byte>, data: nat, dmac: seq<byte>, myMac: bool): (r: seq<byte>)
    requires ProxyFits(s, data) && data >= PUSH_LEN && |dmac| == ETH_ALEN
    ensures |r| == |s|
  {
    IcmpRewrite(HeaderRewrite(s, data, dmac), data, dmac, myMac)
  }

  /** The packet vr_neighbor_proxy leaves: the rewritten headers with the complemented checksum stored. */
  function ProxyReply(s: seq<byte>, data: nat, dmac: seq<byte>, myMac: bool): (r: seq<byte>)
    requires ProxyFits(s, data) && data >= PUSH_LEN && |dmac| == ETH_ALEN
    ensures |r| == |s|
  {
    var t := ProxyFields(s, data, dmac, myMac);
    ProxyFieldsKeepPlen(s, data, dmac, myMac);
    StoreIcmp6Checksum(t, data - IP6_HDR_LEN, data)
  }

  /** The rewritten headers `h` and fields `t` still hold a complete ICMPv6 message. */
  lemma ProxyFieldsPresent(s: seq<byte>, data: nat, dmac: seq<byte>, myMac: bool, h: seq<byte>, t: seq<byte>)
    requires ProxyFits(s, data) && data >= PUSH_LEN && |dmac| == ETH_ALEN
    requires h == HeaderRewrite(s, data, dmac) && t == IcmpRewrite(h, data, dmac, myMac)
    ensures Icmp6Present(t, data - IP6_HDR_LEN, data)
  {
    ProxyFieldsKeepPlen(s, data, dmac, myMac);
  }

  /** Storing the checksum over the rewritten fields `t` gives the reply. */
  lemma ProxyReplyStores(s: seq<byte>, data: nat, dmac: seq<byte>, myMac: bool, t: seq<byte>, r: seq<byte>)
    requires ProxyFits(s, data) && data >= PUSH_LEN && |dmac| == ETH_ALEN
    requires t == ProxyFields(s, data, dmac, myMac) && Icmp6Present(t, data - IP6_HDR_LEN, data)
    requires r == StoreIcmp6Checksum(t, data - IP6_HDR_LEN, data)
    ensures r == ProxyReply(s, data, dmac, myMac)
  {
  }

  /** The Ethernet rewrite writes the 14 header bytes and nothing else. */
  lemma EthRewriteSays(s: seq<byte>, data: nat, dmac: seq<byte>)
    requires data >= PUSH_LEN && data + ND_OPTION_END <= |s| && |dmac| == ETH_ALEN
    ensures var r := EthRewrite(s, data, dmac);
            var eth := data - PUSH_LEN;
            SameBelow(s, r, eth) && SameAbove(s, r, eth + ETH_HDR_LEN) &&
            r[eth..eth + 6] == s[data + 26..data + 32] && r[eth + 6..eth + 12] == dmac &&
            r[eth + 12] == 0x86 && r[eth + 13] == 0xDD
  {
    var eth := data - PUSH_LEN;
    var nopt := data + ND_OPTION_OFF;
    var s1 := Write(s, eth, s[nopt + 2..nopt + 8]);
    var s2 := Write(s1, eth + ETH_ALEN, dmac);
    var r := EthRewrite(s, data, dmac);
    assert r[..eth + 12] == s2[..eth + 12];
    assert r[eth + 14..] == s2[eth + 14..];
    assert s2[..eth + 6] == s1[..eth + 6];
    assert s2[..eth] == s1[..eth][..eth];
    assert r[..eth] == r[..eth + 12][..eth];
    assert r[eth..eth + 6] == r[..eth + 12][eth..eth + 6] && s2[eth..eth + 6] == s2[..eth + 6][eth..eth + 6];
    assert r[eth + 6..eth + 12] == r[..eth + 12][eth + 6..eth + 12] && s2[eth + 6..eth + 12] == s2[..eth + 12][eth + 6..eth + 12];
    assert s2[eth + 14..] == s1[eth + 12..][2..];
  }

  /** The address swap writes the two IPv6 addresses and nothing else. */
  lemma AddressSwapSays(s: seq<byte>, data: nat)
    requires data >= PUSH_LEN && data + ND_OPTION_END <= |s|
    ensures var r := AddressSwap(s, data);
            var ip6 := data - IP6_HDR_LEN;
            SameBelow(s, r, ip6 + IP6_SRC_OFF) && SameAbove(s, r, data) &&
            r[ip6 + 8..ip6 + 24] == s[data + 8..data + 24] && r[ip6 + 24..data] == s[ip6 + 8..ip6 + 24]
  {
    var ip6 := data - IP6_HDR_LEN;
    var s4 := Write(s, ip6 + IP6_DST_OFF, s[ip6 + IP6_SRC_OFF..ip6 + IP6_DST_OFF]);
    WriteAbove(s, ip6 + IP6_DST_OFF, s[ip6 + IP6_SRC_OFF..ip6 + IP6_DST_OFF], ip6 + IP6_SRC_OFF);
    WriteBelow(s, ip6 + IP6_DST_OFF, s[ip6 + IP6_SRC_OFF..ip6 + IP6_DST_OFF], data);
    SameAboveSlice(s, s4, data, data + 8, data + 24);
    var r := AddressSwap(s, data);
    WriteAbove(s4, ip6 + IP6_SRC_OFF, s4[data + ND_TARGET_OFF..data + ND_OPTION_OFF], ip6 + IP6_SRC_OFF);
    WriteBelow(s4, ip6 + IP6_SRC_OFF, s4[data + ND_TARGET_OFF..data + ND_OPTION_OFF], ip6 + IP6_DST_OFF);
    SameBelowTrans(s, s4, r, ip6 + IP6_SRC_OFF, ip6 + IP6_SRC_OFF, ip6 + IP6_SRC_OFF);
    SameAboveTrans(s, s4, r, data, ip6 + IP6_DST_OFF, data);
    SameAboveSlice(s4, r, ip6 + IP6_DST_OFF, ip6 + IP6_DST_OFF, data);
  }

  /** The Ethernet and IPv6 rewrites land where the advertisement needs them and nowhere else. */
  lemma {:induction false} HeaderRewriteSays(s: seq<byte>, data: nat, dmac: seq<byte>)
    requires data >= PUSH_LEN && data + ND_OPTION_END <= |s| && |dmac| == ETH_ALEN
    ensures var r := HeaderRewrite(s, data, dmac);
            var eth := data - PUSH_LEN;
            var ip6 := data - IP6_HDR_LEN;
            SameBelow(s, r, eth) && SameAbove(s, r, data) &&
            r[eth..eth + 6] == s[data + 26..data + 32] && r[eth + 6..eth + 12] == dmac &&
            r[eth + 12] == 0x86 && r[eth + 13] == 0xDD &&
            r[ip6..ip6 + 8] == s[ip6..ip6 + 8] &&
            r[ip6 + 8..ip6 + 24] == s[data + 8..data + 24] && r[ip6 + 24..data] == s[ip6 + 8..ip6 + 24]
  {
    var eth := data - PUSH_LEN;
    var ip6 := data - IP6_HDR_LEN;
    var e := EthRewrite(s, data, dmac);
    EthRewriteSays(s, data, dmac);
    var r := AddressSwap(e, data);
    AddressSwapSays(e, data);
    SameBelowTrans(s, e, r, eth, ip6 + IP6_SRC_OFF, eth);
    SameAboveTrans(s, e, r, ip6, data, data);
    SameBelowSlice(e, r, ip6 + IP6_SRC_OFF, eth, eth + 6);
    SameBelowSlice(e, r, ip6 + IP6_SRC_OFF, eth + 6, eth + 12);
    SameBelowAt(e, r, ip6 + IP6_SRC_OFF, eth + 12);
    SameBelowAt(e, r, ip6 + IP6_SRC_OFF, eth + 13);
    SameBelowSlice(e, r, ip6 + IP6_SRC_OFF, ip6, ip6 + 8);
    SameAboveSlice(s, e, ip6, ip6, ip6 + 8);
    SameAboveSlice(s, e, ip6, data + 8, data + 24);
    SameAboveSlice(s, e, ip6, ip6 + 8, ip6 + 24);
  }

  /** The ICMPv6 rewrites turn the message into an advertisement and touch nothing outside it. */
  lemma {:induction false} IcmpRewriteSays(s: seq<byte>, data: nat, dmac: seq<byte>, myMac: bool)
    requires data + ND_OPTION_END <= |s| && |dmac| == ETH_ALEN
    ensures var r := IcmpRewrite(s, data, dmac, myMac);
            SameBelow(s, r, data) && SameAbove(s, r, data + ND_OPTION_END) &&
            r[data] == ICMP6_NEIGH_AD && r[data + 1..data + 4] == s[data + 1..data + 4] &&
            Net16(r, data + 4) == AdvFlags(myMac) && r[data + 6..data + 24] == s[data + 6..data + 24] &&
            r[data + 24] == TLLA_OPTION && r[data + 25] == TLLA_LENGTH && r[data + 26..data + 32] == dmac
  {
    var nopt := data + ND_OPTION_OFF;
    var f := AdvFlags(myMac);
    var s1 := s[data := ICMP6_NEIGH_AD];
    var s2 := s1[data + ICMP_EID_OFF := f / 256][data + ICMP_EID_OFF + 1 := f % 256];
    var s3 := s2[nopt := TLLA_OPTION][nopt + 1 := TLLA_LENGTH];
    var r := Write(s3, nopt + 2, dmac);
    assert r == IcmpRewrite(s, data, dmac, myMac);
    assert r[..nopt + 2] == s3[..nopt + 2];
    assert r[data + 32..] == s3[data + 32..];
  }

  lemma ProxyFieldsKeepPlen(s: seq<byte>, data: nat, dmac: seq<byte>, myMac: bool)
    requires ProxyFits(s, data) && data >= PUSH_LEN && |dmac| == ETH_ALEN
    ensures PayloadLen(ProxyFields(s, data, dmac, myMac), data - IP6_HDR_LEN) ==
            PayloadLen(s, data - IP6_HDR_LEN)
    ensures Icmp6Present(ProxyFields(s, data, dmac, myMac), data - IP6_HDR_LEN, data)
  {
    var h := HeaderRewrite(s, data, dmac);
    var ip6 := data - IP6_HDR_LEN;
    HeaderRewriteSays(s, data, dmac);
    IcmpRewriteSays(h, data, dmac, myMac);
    var r := ProxyFields(s, data, dmac, myMac);
    SameBelowAt(h, r, data, ip6 + 4);
    SameBelowAt(h, r, data, ip6 + 5);
    assert h[ip6 + 4] == h[ip6..ip6 + 8][4] && s[ip6 + 4] == s[ip6..ip6 + 8][4];
    assert h[ip6 + 5] == h[ip6..ip6 + 8][5] && s[ip6 + 5] == s[ip6..ip6 + 8][5];
  }

  /**
   * The advertisement: the Ethernet destination is the solicitation's source
   * link-layer address and the source is `dmac`; the IPv6 destination is the
   * old source and the new source is the target; the type is NA with the
   * Solicited (and, for our own MAC, Router) flag; the option is a target
   * link-layer address option of length 1 holding `dmac`; the target address
   * and the IPv6 header's first 8 bytes are unchanged, and so is everything
   * before the Ethernet header and after the option.
   */
  lemma {:induction false} ProxyFieldsSay(s: seq<byte>, data: nat, dmac: seq<byte>, myMac: bool)
    requires ProxyFits(s, data) && data >= PUSH_LEN && |dmac| == ETH_ALEN
    ensures var r := ProxyFields(s, data, dmac, myMac);
            var eth := data - PUSH_LEN;
            var ip6 := data - IP6_HDR_LEN;
            r[eth..eth + 6] == s[data + 26..data + 32] && r[eth + 6..eth + 12] == dmac &&
            r[eth + 12] == 0x86 && r[eth + 13] == 0xDD &&
            r[ip6..ip6 + 8] == s[ip6..ip6 + 8] &&
            Dst(r, ip6) == Src(s, ip6) && Src(r, ip6) == s[data + 8..data + 24] &&
            SameBelow(s, r, eth)
    ensures var r := ProxyFields(s, data, dmac, myMac);
            r[data] == ICMP6_NEIGH_AD && r[data + 1] == s[data + 1] &&
            Net16(r, data + 4) == AdvFlags(myMac) && r[data + 6..data + 24] == s[data + 6..data + 24] &&
            r[data + 24] == TLLA_OPTION && r[data + 25] == TLLA_LENGTH && r[data + 26..data + 32] == dmac &&
            SameAbove(s, r, data + ND_OPTION_END)
  {
    var h := HeaderRewrite(s, data, dmac);
    HeaderRewriteSays(s, data, dmac);
    IcmpRewriteSays(h, data, dmac, myMac);
    ProxyHeadersSay(s, data, dmac, h, ProxyFields(s, data, dmac, myMac));
    ProxyIcmpSays(s, data, dmac, myMac, h, ProxyFields(s, data, dmac, myMac));
  }

  /** The Ethernet and IPv6 part of ProxyFieldsSay, from the two rewrites' own contracts. */
  lemma ProxyHeadersSay(s: seq<byte>, data: nat, dmac: seq<byte>, h: seq<byte>, r: seq<byte>)
    requires data >= PUSH_LEN && data + ND_OPTION_END <= |s| && |dmac| == ETH_ALEN && |h| == |s|
    requires var eth := data - PUSH_LEN;
             var ip6 := data - IP6_HDR_LEN;
             SameBelow(s, h, eth) && SameAbove(s, h, data) &&
             h[eth..eth + 6] == s[data + 26..data + 32] && h[eth + 6..eth + 12] == dmac &&
             h[eth + 12] == 0x86 && h[eth + 13] == 0xDD &&
             h[ip6..ip6 + 8] == s[ip6..ip6 + 8] &&
             h[ip6 + 8..ip6 + 24] == s[data + 8..data + 24] && h[ip6 + 24..data] == s[ip6 + 8..ip6 + 24]
    requires SameBelow(h, r, data)
    ensures var eth := data - PUSH_LEN;
            var ip6 := data - IP6_HDR_LEN;
            r[eth..eth + 6] == s[data + 26..data + 32] && r[eth + 6..eth + 12] == dmac &&
            r[eth + 12] == 0x86 && r[eth + 13] == 0xDD &&
            r[ip6..ip6 + 8] == s[ip6..ip6 + 8] &&
            Dst(r, ip6) == Src(s, ip6) && Src(r, ip6) == s[data + 8..data + 24] &&
            SameBelow(s, r, eth)
  {
    var eth := data - PUSH_LEN;
    var ip6 := data - IP6_HDR_LEN;
    SameBelowSlice(h, r, data, eth, eth + 6);
    SameBelowSlice(h, r, data, eth + 6, eth + 12);
    SameBelowAt(h, r, data, eth + 12);
    SameBelowAt(h, r, data, eth + 13);
    SameBelowSlice(h, r, data, ip6, ip6 + 8);
    SameBelowSlice(h, r, data, ip6 + 8, ip6 + 24);
    SameBelowSlice(h, r, data, ip6 + 24, data);
    SameBelowTrans(s, h, r, eth, data, eth);
  }

  /** The ICMPv6 part of ProxyFieldsSay, from the two rewrites' own contracts. */
  lemma ProxyIcmpSays(s: seq<byte>, data: nat, dmac: seq<byte>, myMac: bool, h: seq<byte>, r: seq<byte>)
    requires data >= PUSH_LEN && data + ND_OPTION_END <= |s| && |dmac| == ETH_ALEN && |r| == |s|
    requires SameAbove(s, h, data)
    requires r[data] == ICMP6_NEIGH_AD && r[data + 1..data + 4] == h[data + 1..data + 4] &&
             Net16(r, data + 4) == AdvFlags(myMac) && r[data + 6..data + 24] == h[data + 6..data + 24] &&
             r[data + 24] == TLLA_OPTION && r[data + 25] == TLLA_LENGTH && r[data + 26..data + 32] == dmac &&
             SameAbove(h, r, data + ND_OPTION_END)
    ensures r[data] == ICMP6_NEIGH_AD && r[data + 1] == s[data + 1] &&
            Net16(r, data + 4) == AdvFlags(myMac) && r[data + 6..data + 24] == s[data + 6..data + 24] &&
            r[data + 24] == TLLA_OPTION && r[data + 25] == TLLA_LENGTH && r[data + 26..data + 32] == dmac &&
            SameAbove(s, r, data + ND_OPTION_END)
  {
    assert r[data + 1] == r[data + 1..data + 4][0] && h[data + 1] == h[data + 1..data + 4][0];
    SameAboveAt(s, h, data, data + 1);
    SameAboveSlice(s, h, data, data + 6, data + 24);
    SameAboveTrans(s, h, r, data, data + ND_OPTION_END, data + ND_OPTION_END);
  }

  /**
   * After the header rewrites vr_neighbor_proxy stores the complement of the
   * ICMPv6 checksum, so the advertisement verifies (section 2.3 of RFC 4443);
   * StoreIcmp6Checksum's own contract says it changes only the two checksum
   * bytes.
   */
  lemma ProxyReplyVerifies(s: seq<byte>, data: nat, dmac: seq<byte>, myMac: bool)
    requires ProxyFits(s, data) && data >= PUSH_LEN && |dmac| == ETH_ALEN
    requires PayloadLen(s, data - IP6_HDR_LEN) >= 4
    ensures Icmp6Present(ProxyReply(s, data, dmac, myMac), data - IP6_HDR_LEN, data)
    ensures Icmp6Sum(ProxyReply(s, data, dmac, myMac), data - IP6_HDR_LEN, data) == 0xffff
  {
    ProxyFieldsKeepPlen(s, data, dmac, myMac);
    StoredChecksumVerifies(ProxyFields(s, data, dmac, myMac), data - IP6_HDR_LEN, data);
  }

  /**
   * vr_neighbor_proxy on the packet buffer `a`: fails (and the packet is
   * freed with VP_DROP_PUSH, nothing written) when the 54 header bytes cannot
   * be pushed; otherwise rewrites the solicitation into the advertisement.
   */
  method NeighborProxy(a: array<byte>, data: nat, dmac: seq<byte>, myMac: bool) returns (drop: Option<DropReason>)
    requires ProxyFits(a[..], data) && |dmac| == ETH_ALEN
    modifies a
    ensures drop == (if data < PUSH_LEN then Some(Push) else None)
    ensures a[..] == if data < PUSH_LEN then old(a[..]) else ProxyReply(old(a[..]), data, dmac, myMac)
  {
    if data < PUSH_LEN {
      return Some(Push);
    }
    ProxyInPlace(a, data, dmac, myMac);
    drop := None;
  }

  /** The rewrite of vr_neighbor_proxy once the headers have been pushed. */
  method ProxyInPlace(a: array<byte>, data: nat, dmac: seq<byte>, myMac: bool)
    requires ProxyFits(a[..], data) && data >= PUSH_LEN && |dmac| == ETH_ALEN
    modifies a
    ensures a[..] == ProxyReply(old(a[..]), data, dmac, myMac)
  {
    ghost var s := a[..];
    var ip6 := data - IP6_HDR_LEN;
    RewriteHeaders(a, data, dmac);
    ghost var h := a[..];
    RewriteIcmp(a, data, dmac, myMac);
    ghost var t := a[..];
    ProxyFieldsPresent(s, data, dmac, myMac, h, t);
    StoreIcmp6ChecksumInPlace(a, ip6, data);
    ProxyReplyStores(s, data, dmac, myMac, t, a[..]);
  }

  /** The Ethernet and IPv6 header writes of vr_neighbor_proxy. */
  method RewriteHeaders(a: array<byte>, data: nat, dmac: seq<byte>)
    requires data >= PUSH_LEN && data + ND_OPTION_END <= a.Length && |dmac| == ETH_ALEN
    modifies a
    ensures a[..] == HeaderRewrite(old(a[..]), data, dmac)
  {
    var eth := data - PUSH_LEN;
    var ip6 := data - IP6_HDR_LEN;
    var nopt := data + ND_OPTION_OFF;
    CopyIn(a, eth, a[nopt + 2..nopt + 8]);
    CopyIn(a, eth + ETH_ALEN, dmac);
    a[eth + 12] := ETH_PROTO_IP6_HI;
    a[eth + 13] := ETH_PROTO_IP6_LO;
    CopyIn(a, ip6 + IP6_DST_OFF, a[ip6 + IP6_SRC_OFF..ip6 + IP6_DST_OFF]);
    CopyIn(a, ip6 + IP6_SRC_OFF, a[data + ND_TARGET_OFF..data + ND_OPTION_OFF]);
  }

  /** The ICMPv6 header and option writes of vr_neighbor_proxy. */
  method RewriteIcmp(a: array<byte>, data: nat, dmac: seq<byte>, myMac: bool)
    requires data + ND_OPTION_END <= a.Length && |dmac| == ETH_ALEN
    modifies a
    ensures a[..] == IcmpRewrite(old(a[..]), data, dmac, myMac)
  {
    var nopt := data + ND_OPTION_OFF;
    a[data] := ICMP6_NEIGH_AD;
    var flags := NA_FLAG_SOLICITED;
    if myMac {
      flags := flags + NA_FLAG_ROUTER;
    }
    a[data + ICMP_EID_OFF] := flags / 256;
    a[data + ICMP_EID_OFF + 1] := flags % 256;
    a[nopt] := TLLA_OPTION;
    a[nopt + 1] := TLLA_LENGTH;
    CopyIn(a, nopt + 2, dmac);
  }
}
