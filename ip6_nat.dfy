// vr_inet6_flow_nat in dp-core/vr_proto_ip6.c: the in-place IPv6 address
// and port translation of a packet that hit a NAT flow.  The reverse flow's
// key supplies the new addresses and ports; the TCP/UDP checksum is patched
// incrementally (RFC 1624) and an ICMPv6 checksum is recomputed
// (section 2.3 of RFC 4443).

module Ip6Nat {
  import opened Base
  import opened Drops
  import opened FlowDefs
  import opened Ip6Layout
  import opened Ip6Checksum

  /** A next hop as vr_inet6_flow_nat looks at it: its VRF and NH_FLAG_ROUTE_LOOKUP. */
  datatype Nexthop = Nexthop(id: u32, vrf: u32, routeLookup: bool)

  /**
   * The collaborators: vr_icmp_error on the ICMPv6 header at an offset,
   * vr_ip6_transport_header_valid on the IPv6 header at an offset (consulted
   * on the packet as it is at the time of the call), vr_incremental_diff
   * (old value, new value, accumulated increment) and vr_inet6_ip_lookup.
   */
  datatype NatEnv = NatEnv(
    icmpError: (seq<byte>, nat) -> bool,
    transportValid: (seq<byte>, nat) -> bool,
    diff: (u32, u32, u32) -> u32,
    routeLookup: (u32, seq<byte>) -> Option<Nexthop>)

  /**
   * What the function reads besides the packet: fe_flags, fe_rflow and
   * fe_key of the flow entry; what vr_flow_get_entry returns for fe_rflow;
   * VP_FLAG_CSUM_PARTIAL and vr_pkt_is_diag; pkt->vp_nh and fmd_dvrf.
   */
  datatype NatInput = NatInput(flags: bv16, rflow: int, key: FlowKey, rfe: Option<FlowKey>,
                               partial: bool, diag: bool, vpNh: Option<Nexthop>, dvrf: u32)

  /** The packet bytes after the call, the return value, the drop reason and the new vp_nh. */
  datatype NatOut = NatOut(result: FlowResult, drop: Option<DropReason>, pkt: seq<byte>,
                           nexthop: Option<Nexthop>)

  /** The reverse flow's key has IPv6-sized addresses. */
  predicate Ip6Key(k: FlowKey)
  {
    |k.sip| == IP6_ADDRESS_LEN && |k.dip| == IP6_ADDRESS_LEN
  }

  /** vr_ip6_transport_header_valid never vouches for a header whose ports lie outside the packet. */
  ghost predicate TransportBounded(env: NatEnv)
  {
    forall t: seq<byte>, n: nat :: env.transportValid(t, n) ==> n + IP6_HDR_LEN + 4 <= |t|
  }

  /** Offset of the IPv6 header quoted in an ICMPv6 error (`icmph + 1`). */
  function Inner(nh: nat): nat
  {
    nh + IP6_HDR_LEN + ICMP_HDR_LEN
  }

  /**
   * The headers the function dereferences without checking are in the
   * packet: the IPv6 header, the TCP/UDP checksum, and for ICMPv6 the
   * message the checksum covers and, for an error, the quoted IPv6 header
   * and its ports.
   */
  predicate NatFits(env: NatEnv, s: seq<byte>, nh: nat)
  {
    L4ChecksumPresent(s, nh) &&
    (NextHeader(s, nh) == PROTO_ICMP6 ==>
       Icmp6Present(s, nh, nh + IP6_HDR_LEN) && nh + IP6_HDR_LEN + ICMP_HDR_LEN <= |s| &&
       (env.icmpError(s, nh + IP6_HDR_LEN) ==> Inner(nh) + IP6_HDR_LEN + 4 <= |s|))
  }

  ghost predicate NatRequires(env: NatEnv, i: NatInput, s: seq<byte>, nh: Option<nat>)
  {
    TransportBounded(env) && (i.rfe.Some? ==> Ip6Key(i.rfe.value)) &&
    (nh.Some? ==> NatFits(env, s, nh.value))
  }

  /** The three fail-closed checks, all made before any byte is written. */
  predicate NatProceeds(i: NatInput, nh: Option<nat>)
  {
    i.rflow >= 0 && i.rfe.Some? && nh.Some?
  }

  // ---------------------------------------------------------------------
  // The steps, in the order the function takes them

  /**
   * An ICMPv6 error quotes the packet it answers, whose addresses and ports
   * are those of the reverse direction: SNAT rewrites the quoted
   * destination, DNAT the quoted source, SPAT the quoted destination port
   * and DPAT the quoted source port.
   */
  function QuotedNat(env: NatEnv, flags: bv16, rk: FlowKey, s: seq<byte>, nh: nat): (r: seq<byte>)
    requires NatFits(env, s, nh) && Ip6Key(rk)
    ensures |r| == |s|
  {
    if NextHeader(s, nh) != PROTO_ICMP6 || !env.icmpError(s, nh + IP6_HDR_LEN) then s
    else QuotedWrites(Has(flags, FLAG_SNAT), Has(flags, FLAG_DNAT), Has(flags, FLAG_SPAT), Has(flags, FLAG_DPAT),
                      rk, s, Inner(nh))
  }

  /** The four conditional writes into the quoted header at `q`. */
  function QuotedWrites(snat: bool, dnat: bool, spat: bool, dpat: bool, rk: FlowKey, s: seq<byte>, q: nat): (r: seq<byte>)
    requires q + IP6_HDR_LEN + 4 <= |s| && Ip6Key(rk)
    ensures |r| == |s|
  {
    var s1 := WriteIf(snat, s, q + IP6_DST_OFF, rk.dip);
    var s2 := WriteIf(dnat, s1, q + IP6_SRC_OFF, rk.sip);
    var s3 := WriteIf(spat, s2, q + IP6_HDR_LEN + 2, LE16(rk.dport));
    WriteIf(dpat, s3, q + IP6_HDR_LEN, LE16(rk.sport))
  }

  /** A memcpy made only when the flag checked before it is set. */
  function WriteIf(c: bool, s: seq<byte>, at: nat, b: seq<byte>): (r: seq<byte>)
    requires at + |b| <= |s|
    ensures |r| == |s|
  {
    if c then Write(s, at, b) else s
  }

  /**
   * The loop `for (i = 0; i < 16; i += 4) vr_incremental_diff(old word,
   * new word, &inc)` over the first `n` 32-bit words, read in host order.
   */
  function AddrDiff(diff: (u32, u32, u32) -> u32, acc: u32, was: seq<byte>, now: seq<byte>, n: nat): u32
    requires |was| == IP6_ADDRESS_LEN && |now| == IP6_ADDRESS_LEN && n <= 4
  {
    if n == 0 then acc
    else diff(Load32(was, 4 * (n - 1)), Load32(now, 4 * (n - 1)), AddrDiff(diff, acc, was, now, n - 1))
  }

  /** The packet and the two accumulated checksum increments. */
  datatype NatState = NatState(pkt: seq<byte>, ipInc: u32, portInc: u32)

  /** SNAT, applied only when the packet's source is still the flow key's source. */
  function SourceNat(env: NatEnv, i: NatInput, rk: FlowKey, st: NatState, nh: nat): (r: NatState)
    requires HasIp6Header(st.pkt, nh) && Ip6Key(rk)
    ensures |r.pkt| == |st.pkt|
  {
    if Has(i.flags, FLAG_SNAT) && Src(st.pkt, nh) == i.key.sip then
      NatState(Write(st.pkt, nh + IP6_SRC_OFF, rk.dip),
               AddrDiff(env.diff, st.ipInc, Src(st.pkt, nh), rk.dip, 4), st.portInc)
    else st
  }

  /** DNAT: the destination becomes the reverse flow's source. */
  function DestNat(env: NatEnv, i: NatInput, rk: FlowKey, st: NatState, nh: nat): (r: NatState)
    requires HasIp6Header(st.pkt, nh) && Ip6Key(rk)
    ensures |r.pkt| == |st.pkt|
  {
    if Has(i.flags, FLAG_DNAT) then
      NatState(Write(st.pkt, nh + IP6_DST_OFF, rk.sip),
               AddrDiff(env.diff, st.ipInc, Dst(st.pkt, nh), rk.sip, 4), st.portInc)
    else st
  }

  /** SPAT and DPAT on the transport ports, when the transport header is valid. */
  function PortNat(env: NatEnv, i: NatInput, rk: FlowKey, st: NatState, nh: nat): (r: NatState)
    requires HasIp6Header(st.pkt, nh) && TransportBounded(env)
    ensures |r.pkt| == |st.pkt|
  {
    if !env.transportValid(st.pkt, nh) then st
    else
      var sp := nh + IP6_HDR_LEN;
      var st1 := if Has(i.flags, FLAG_SPAT) then
                   NatState(Write(st.pkt, sp, LE16(rk.dport)), st.ipInc,
                            env.diff(Load16(st.pkt, sp), rk.dport, st.portInc))
                 else st;
      if Has(i.flags, FLAG_DPAT) then
        NatState(Write(st1.pkt, sp + 2, LE16(rk.sport)), st1.ipInc,
                 env.diff(Load16(st1.pkt, sp + 2), rk.sport, st1.portInc))
      else st1
  }

  /** The packet once the quoted header and the addresses are rewritten. */
  function Addressed(env: NatEnv, i: NatInput, rk: FlowKey, s: seq<byte>, nh: nat): (r: NatState)
    requires NatFits(env, s, nh) && Ip6Key(rk)
    ensures |r.pkt| == |s| && r.portInc == 0
  {
    var q := QuotedNat(env, i.flags, rk, s, nh);
    DestNat(env, i, rk, SourceNat(env, i, rk, NatState(q, 0, 0), nh), nh)
  }

  /** The packet once the addresses and ports are rewritten and before any checksum changes. */
  function Rewritten(env: NatEnv, i: NatInput, rk: FlowKey, s: seq<byte>, nh: nat): (r: NatState)
    requires NatFits(env, s, nh) && Ip6Key(rk) && TransportBounded(env)
    ensures |r.pkt| == |s|
  {
    PortNat(env, i, rk, Addressed(env, i, rk, s, nh), nh)
  }

  /** Whether the ICMPv6 checksum is recomputed. */
  predicate RedoIcmpChecksum(i: NatInput, s: seq<byte>, nh: nat)
    requires HasIp6Header(s, nh)
  {
    NextHeader(s, nh) == PROTO_ICMP6 && (Has(i.flags, FLAG_DNAT) || Has(i.flags, FLAG_SNAT))
  }

  /** The next hop after the VRF-translation relookup on the new destination. */
  function NatNexthop(env: NatEnv, i: NatInput, dst: seq<byte>): Option<Nexthop>
  {
    if Has(i.flags, FLAG_VRFT) && i.vpNh.Some? &&
       (i.vpNh.value.vrf != i.dvrf || i.vpNh.value.routeLookup)
    then env.routeLookup(i.dvrf, dst)
    else i.vpNh
  }

  /** vr_inet6_flow_nat on the packet `s` with its network header at `nh` (None when there is none). */
  function FlowNat(env: NatEnv, i: NatInput, s: seq<byte>, nh: Option<nat>): (o: NatOut)
    requires NatRequires(env, i, s, nh)
    ensures |o.pkt| == |s|
    ensures o.result == Consumed <==> !NatProceeds(i, nh)
    ensures o.result != Consumed ==> o.result == Forward && o.drop.None?
    ensures !NatProceeds(i, nh) ==> o.drop == Some(FlowNatNoRflow) && o.pkt == s && o.nexthop == i.vpNh
  {
    if !NatProceeds(i, nh) then NatOut(Consumed, Some(FlowNatNoRflow), s, i.vpNh)
    else
      var n := nh.value;
      var rk := i.rfe.value;
      var r := Translated(env, i, rk, s, n);
      NatOut(Forward, None, r, NatNexthop(env, i, Dst(r, n)))
  }

  /** A call that passes the fail-closed checks returns the translated packet. */
  lemma FlowNatTranslates(env: NatEnv, i: NatInput, s: seq<byte>, nh: Option<nat>)
    requires NatRequires(env, i, s, nh) && NatProceeds(i, nh)
    ensures FlowNat(env, i, s, nh).pkt == Translated(env, i, i.rfe.value, s, nh.value)
  {
  }

  /** The packet bytes after every rewrite of a call that passed the fail-closed checks. */
  function Translated(env: NatEnv, i: NatInput, rk: FlowKey, s: seq<byte>, n: nat): (r: seq<byte>)
    requires NatFits(env, s, n) && Ip6Key(rk) && TransportBounded(env)
    ensures |r| == |s|
  {
    var st := Rewritten(env, i, rk, s, n);
    RewritesKeepHeader(env, i, rk, s, n);
    ChecksumsRedone(env, i, st, n)
  }

  /** The packet after the TCP/UDP checksum patch (skipped for diagnostic packets) and the ICMPv6 recomputation. */
  function ChecksumsRedone(env: NatEnv, i: NatInput, st: NatState, nh: nat): (r: seq<byte>)
    requires L4ChecksumPresent(st.pkt, nh)
    requires NextHeader(st.pkt, nh) == PROTO_ICMP6 ==> Icmp6Present(st.pkt, nh, nh + IP6_HDR_LEN)
    ensures |r| == |st.pkt|
  {
    var tv := env.transportValid(st.pkt, nh);
    var s1 := if i.diag then st.pkt else UpdateCsum(st.pkt, nh, st.ipInc, st.portInc, i.partial, tv);
    UpdateKeepsHeader(st.pkt, nh, st.ipInc, st.portInc, i.partial, tv);
    if RedoIcmpChecksum(i, s1, nh) then StoreIcmp6Checksum(s1, nh, nh + IP6_HDR_LEN) else s1
  }

  // ---------------------------------------------------------------------
  // Frames of the steps

  lemma {:induction false} QuotedNatFrame(env: NatEnv, flags: bv16, rk: FlowKey, s: seq<byte>, nh: nat)
    requires NatFits(env, s, nh) && Ip6Key(rk)
    ensures SameBelow(s, QuotedNat(env, flags, rk, s, nh), nh + IP6_HDR_LEN)
  {
    var k := nh + IP6_HDR_LEN;
    if NextHeader(s, nh) == PROTO_ICMP6 && env.icmpError(s, nh + IP6_HDR_LEN) {
      var q := Inner(nh);
      var snat, dnat, spat, dpat := Has(flags, FLAG_SNAT), Has(flags, FLAG_DNAT), Has(flags, FLAG_SPAT), Has(flags, FLAG_DPAT);
      var s1 := WriteIf(snat, s, q + IP6_DST_OFF, rk.dip);
      WriteIfAbove(snat, s, q + IP6_DST_OFF, rk.dip, k);
      var s2 := WriteIf(dnat, s1, q + IP6_SRC_OFF, rk.sip);
      WriteIfAbove(dnat, s1, q + IP6_SRC_OFF, rk.sip, k);
      var s3 := WriteIf(spat, s2, q + IP6_HDR_LEN + 2, LE16(rk.dport));
      WriteIfAbove(spat, s2, q + IP6_HDR_LEN + 2, LE16(rk.dport), k);
      WriteIfAbove(dpat, s3, q + IP6_HDR_LEN, LE16(rk.sport), k);
      SameBelowTrans(s, s1, s2, k, k, k);
      SameBelowTrans(s, s2, s3, k, k, k);
      SameBelowTrans(s, s3, QuotedWrites(snat, dnat, spat, dpat, rk, s, q), k, k, k);
    }
  }

  lemma WriteIfAbove(c: bool, s: seq<byte>, at: nat, b: seq<byte>, k: nat)
    requires at + |b| <= |s| && k <= at
    ensures SameBelow(s, WriteIf(c, s, at, b), k)
  {
    if c { WriteAbove(s, at, b, k); }
  }

  lemma WriteIfBelow(c: bool, s: seq<byte>, at: nat, b: seq<byte>, k: nat)
    requires at + |b| <= k <= |s|
    ensures SameAbove(s, WriteIf(c, s, at, b), k)
  {
    if c { WriteBelow(s, at, b, k); }
  }

  /** The port rewrite writes nothing before the transport header. */
  lemma {:induction false} PortNatFrame(env: NatEnv, i: NatInput, rk: FlowKey, st: NatState, nh: nat)
    requires HasIp6Header(st.pkt, nh) && TransportBounded(env)
    ensures SameBelow(st.pkt, PortNat(env, i, rk, st, nh).pkt, nh + IP6_HDR_LEN)
  {
    if env.transportValid(st.pkt, nh) {
      var sp := nh + IP6_HDR_LEN;
      var p1 := if Has(i.flags, FLAG_SPAT) then Write(st.pkt, sp, LE16(rk.dport)) else st.pkt;
      assert p1[..sp] == st.pkt[..sp];
      var p2 := if Has(i.flags, FLAG_DPAT) then Write(p1, sp + 2, LE16(rk.sport)) else p1;
      assert p2[..sp] == p1[..sp];
    }
  }

  /** The address rewrites keep the first 8 bytes of the IPv6 header and everything after it. */
  lemma {:induction false} AddressNatFrame(env: NatEnv, i: NatInput, rk: FlowKey, s: seq<byte>, nh: nat)
    requires HasIp6Header(s, nh) && Ip6Key(rk)
    ensures var st2 := DestNat(env, i, rk, SourceNat(env, i, rk, NatState(s, 0, 0), nh), nh);
            SameBelow(s, st2.pkt, nh + IP6_SRC_OFF) && st2.pkt[nh + IP6_HDR_LEN..] == s[nh + IP6_HDR_LEN..]
  {
    var st1 := SourceNat(env, i, rk, NatState(s, 0, 0), nh);
    assert st1.pkt[..nh + IP6_SRC_OFF] == s[..nh + IP6_SRC_OFF];
    assert st1.pkt[nh + IP6_DST_OFF..] == s[nh + IP6_DST_OFF..];
    var st2 := DestNat(env, i, rk, st1, nh);
    assert st2.pkt[..nh + IP6_DST_OFF] == st1.pkt[..nh + IP6_DST_OFF];
    assert st2.pkt[..nh + IP6_SRC_OFF] == st1.pkt[..nh + IP6_DST_OFF][..nh + IP6_SRC_OFF];
    assert st2.pkt[nh + IP6_HDR_LEN..] == st1.pkt[nh + IP6_HDR_LEN..] by {
      assert st1.pkt[nh + IP6_HDR_LEN..] == st1.pkt[nh + IP6_DST_OFF..][16..];
    }
  }

  /** Agreeing on the first 8 header bytes means the same payload length and next header. */
  lemma SameFixedHeader(s: seq<byte>, t: seq<byte>, nh: nat)
    requires HasIp6Header(s, nh) && SameBelow(s, t, nh + IP6_SRC_OFF)
    ensures HasIp6Header(t, nh) && NextHeader(t, nh) == NextHeader(s, nh) &&
            PayloadLen(t, nh) == PayloadLen(s, nh)
  {
    var k := nh + IP6_SRC_OFF;
    assert t[nh + IP6_PLEN_OFF] == t[..k][nh + IP6_PLEN_OFF];
    assert t[nh + IP6_PLEN_OFF + 1] == t[..k][nh + IP6_PLEN_OFF + 1];
    assert t[nh + IP6_NXT_OFF] == t[..k][nh + IP6_NXT_OFF];
  }

  /** After the address and port rewrites the packet still fits and has the same first 8 header bytes. */
  lemma {:induction false} RewritesKeepHeader(env: NatEnv, i: NatInput, rk: FlowKey, s: seq<byte>, nh: nat)
    requires NatFits(env, s, nh) && Ip6Key(rk) && TransportBounded(env)
    ensures var r := Rewritten(env, i, rk, s, nh).pkt;
            SameBelow(s, r, nh + IP6_SRC_OFF) && L4ChecksumPresent(r, nh) &&
            NextHeader(r, nh) == NextHeader(s, nh) && PayloadLen(r, nh) == PayloadLen(s, nh) &&
            (NextHeader(s, nh) == PROTO_ICMP6 ==> Icmp6Present(r, nh, nh + IP6_HDR_LEN))
  {
    var q := QuotedNat(env, i.flags, rk, s, nh);
    QuotedNatFrame(env, i.flags, rk, s, nh);
    AddressNatFrame(env, i, rk, q, nh);
    var st2 := Addressed(env, i, rk, s, nh);
    PortNatFrame(env, i, rk, st2, nh);
    var r := Rewritten(env, i, rk, s, nh).pkt;
    SameBelowTrans(s, q, st2.pkt, nh + IP6_HDR_LEN, nh + IP6_SRC_OFF, nh + IP6_SRC_OFF);
    SameBelowTrans(s, st2.pkt, r, nh + IP6_SRC_OFF, nh + IP6_HDR_LEN, nh + IP6_SRC_OFF);
    SameFixedHeader(s, r, nh);
  }

  /** vr_ip6_update_csum writes nothing before the transport checksum field. */
  lemma UpdateKeepsHeader(s: seq<byte>, nh: nat, ipInc: u32, portInc: u32, partial: bool, tv: bool)
    requires L4ChecksumPresent(s, nh)
    ensures var r := UpdateCsum(s, nh, ipInc, portInc, partial, tv);
            if L4ChecksumOffset(s, nh).Some? then SameBelow(s, r, nh + IP6_HDR_LEN + 4) else r == s
  {
    var r := UpdateCsum(s, nh, ipInc, portInc, partial, tv);
    UpdateCsumTouchesOnlyChecksum(s, nh, ipInc, portInc, partial, tv);
    if L4ChecksumOffset(s, nh).Some? {
      var k := nh + IP6_HDR_LEN + 4;
      assert forall j :: 0 <= j < k ==> r[..k][j] == s[..k][j];
    }
  }

  /** The checksum steps write nothing before the transport header, and for ICMPv6 only the checksum field. */
  lemma ChecksumsFrame(env: NatEnv, i: NatInput, st: NatState, nh: nat)
    requires L4ChecksumPresent(st.pkt, nh)
    requires NextHeader(st.pkt, nh) == PROTO_ICMP6 ==> Icmp6Present(st.pkt, nh, nh + IP6_HDR_LEN)
    ensures var r := ChecksumsRedone(env, i, st, nh);
            SameBelow(st.pkt, r, nh + IP6_HDR_LEN) &&
            (NextHeader(st.pkt, nh) == PROTO_ICMP6 && nh + IP6_HDR_LEN + 4 <= |st.pkt| ==>
               SameAbove(st.pkt, r, nh + IP6_HDR_LEN + 4)) &&
            (NextHeader(st.pkt, nh) != PROTO_ICMP6 ==>
               if L4ChecksumOffset(st.pkt, nh).Some? then SameBelow(st.pkt, r, nh + IP6_HDR_LEN + 4)
               else r == st.pkt)
  {
    var tv := env.transportValid(st.pkt, nh);
    var s1 := if i.diag then st.pkt else UpdateCsum(st.pkt, nh, st.ipInc, st.portInc, i.partial, tv);
    UpdateKeepsHeader(st.pkt, nh, st.ipInc, st.portInc, i.partial, tv);
    var r := ChecksumsRedone(env, i, st, nh);
    if L4ChecksumOffset(st.pkt, nh).Some? {
      SameBelowTrans(st.pkt, s1, s1, nh + IP6_HDR_LEN + 4, nh + IP6_HDR_LEN + 4, nh + IP6_HDR_LEN);
    }
    if RedoIcmpChecksum(i, s1, nh) {
      var k := nh + IP6_HDR_LEN + ICMP_CSUM_OFF;
      assert r[..k] == s1[..k];
      assert r[..nh + IP6_HDR_LEN] == r[..k][..nh + IP6_HDR_LEN];
      assert r[k + 2..] == s1[k + 2..];
    }
  }

  /** Where the two address rewrites land. */
  lemma {:induction false} AddressNatSays(env: NatEnv, i: NatInput, rk: FlowKey, q: seq<byte>, nh: nat)
    requires HasIp6Header(q, nh) && Ip6Key(rk)
    ensures var st2 := DestNat(env, i, rk, SourceNat(env, i, rk, NatState(q, 0, 0), nh), nh);
            Src(st2.pkt, nh) == (if Has(i.flags, FLAG_SNAT) && Src(q, nh) == i.key.sip then rk.dip else Src(q, nh)) &&
            Dst(st2.pkt, nh) == (if Has(i.flags, FLAG_DNAT) then rk.sip else Dst(q, nh))
  {
    var st1 := SourceNat(env, i, rk, NatState(q, 0, 0), nh);
    SourceNatAddresses(env, i, rk, NatState(q, 0, 0), nh);
    DestNatAddresses(env, i, rk, st1, nh);
  }

  lemma SourceNatAddresses(env: NatEnv, i: NatInput, rk: FlowKey, st: NatState, nh: nat)
    requires HasIp6Header(st.pkt, nh) && Ip6Key(rk)
    ensures var r := SourceNat(env, i, rk, st, nh).pkt;
            HasIp6Header(r, nh) &&
            Src(r, nh) == (if Has(i.flags, FLAG_SNAT) && Src(st.pkt, nh) == i.key.sip then rk.dip else Src(st.pkt, nh)) &&
            Dst(r, nh) == Dst(st.pkt, nh)
  {
    var r := SourceNat(env, i, rk, st, nh).pkt;
    var p := nh + IP6_DST_OFF;
    if Has(i.flags, FLAG_SNAT) && Src(st.pkt, nh) == i.key.sip {
      assert r[p..] == st.pkt[p..];
      assert Dst(r, nh) == r[p..][..16];
      assert Dst(st.pkt, nh) == st.pkt[p..][..16];
    }
  }

  lemma DestNatAddresses(env: NatEnv, i: NatInput, rk: FlowKey, st: NatState, nh: nat)
    requires HasIp6Header(st.pkt, nh) && Ip6Key(rk)
    ensures var r := DestNat(env, i, rk, st, nh).pkt;
            HasIp6Header(r, nh) &&
            Src(r, nh) == Src(st.pkt, nh) &&
            Dst(r, nh) == (if Has(i.flags, FLAG_DNAT) then rk.sip else Dst(st.pkt, nh))
  {
    var r := DestNat(env, i, rk, st, nh).pkt;
    var p := nh + IP6_DST_OFF;
    if Has(i.flags, FLAG_DNAT) {
      assert r[..p] == st.pkt[..p];
      assert Src(r, nh) == r[..p][nh + IP6_SRC_OFF..];
      assert Src(st.pkt, nh) == st.pkt[..p][nh + IP6_SRC_OFF..];
    }
  }

  /** The addresses once the rewrites (before the checksum steps) are done. */
  lemma {:induction false} RewrittenAddresses(env: NatEnv, i: NatInput, rk: FlowKey, s: seq<byte>, n: nat)
    requires NatFits(env, s, n) && Ip6Key(rk) && TransportBounded(env)
    ensures var r := Rewritten(env, i, rk, s, n).pkt;
            Src(r, n) == (if Has(i.flags, FLAG_SNAT) && Src(s, n) == i.key.sip then rk.dip else Src(s, n)) &&
            Dst(r, n) == (if Has(i.flags, FLAG_DNAT) then rk.sip else Dst(s, n))
  {
    var q := QuotedNat(env, i.flags, rk, s, n);
    QuotedNatFrame(env, i.flags, rk, s, n);
    AddressesCarried(s, q, n);
    var st2 := Addressed(env, i, rk, s, n);
    AddressNatSays(env, i, rk, q, n);
    PortNatFrame(env, i, rk, st2, n);
    AddressesCarried(st2.pkt, Rewritten(env, i, rk, s, n).pkt, n);
  }

  /** A rewrite that keeps the fixed header keeps both addresses. */
  lemma AddressesCarried(a: seq<byte>, b: seq<byte>, n: nat)
    requires SameBelow(a, b, n + IP6_HDR_LEN)
    ensures HasIp6Header(a, n) && HasIp6Header(b, n)
    ensures Src(b, n) == Src(a, n) && Dst(b, n) == Dst(a, n)
  {
    SameBelowSlice(a, b, n + IP6_HDR_LEN, n + IP6_SRC_OFF, n + IP6_DST_OFF);
    SameBelowSlice(a, b, n + IP6_HDR_LEN, n + IP6_DST_OFF, n + IP6_HDR_LEN);
  }

  /**
   * The addresses after vr_inet6_flow_nat: SNAT puts the reverse flow's
   * destination in the source, but only when the source was the flow key's
   * source; DNAT puts the reverse flow's source in the destination; nothing
   * before the IPv6 source address changes; and the VRF-translation relookup
   * is made on the new destination.
   */
  lemma {:induction false} NatAddresses(env: NatEnv, i: NatInput, s: seq<byte>, nh: Option<nat>)
    requires NatRequires(env, i, s, nh) && NatProceeds(i, nh)
    ensures var o := FlowNat(env, i, s, nh);
            var n := nh.value;
            var rk := i.rfe.value;
            HasIp6Header(o.pkt, n) &&
            o.pkt[..n + IP6_SRC_OFF] == s[..n + IP6_SRC_OFF] &&
            Src(o.pkt, n) == (if Has(i.flags, FLAG_SNAT) && Src(s, n) == i.key.sip then rk.dip else Src(s, n)) &&
            Dst(o.pkt, n) == (if Has(i.flags, FLAG_DNAT) then rk.sip else Dst(s, n)) &&
            o.nexthop == NatNexthop(env, i, if Has(i.flags, FLAG_DNAT) then rk.sip else Dst(s, n))
  {
    var n := nh.value;
    var rk := i.rfe.value;
    var st := Rewritten(env, i, rk, s, n);
    RewrittenAddresses(env, i, rk, s, n);
    RewritesKeepHeader(env, i, rk, s, n);
    var r := ChecksumsRedone(env, i, st, n);
    ChecksumsFrame(env, i, st, n);
    SameBelowSlice(st.pkt, r, n + IP6_HDR_LEN, n + IP6_SRC_OFF, n + IP6_DST_OFF);
    SameBelowSlice(st.pkt, r, n + IP6_HDR_LEN, n + IP6_DST_OFF, n + IP6_HDR_LEN);
    SameBelowTrans(s, st.pkt, r, n + IP6_SRC_OFF, n + IP6_HDR_LEN, n + IP6_SRC_OFF);
  }

  /** With a valid transport header, SPAT and DPAT set the two ports and nothing after them. */
  lemma {:induction false} PortNatSays(env: NatEnv, i: NatInput, rk: FlowKey, st: NatState, nh: nat)
    requires HasIp6Header(st.pkt, nh) && TransportBounded(env) && env.transportValid(st.pkt, nh)
    ensures var r := PortNat(env, i, rk, st, nh).pkt;
            var sp := nh + IP6_HDR_LEN;
            Load16(r, sp) == (if Has(i.flags, FLAG_SPAT) then rk.dport else Load16(st.pkt, sp)) &&
            Load16(r, sp + 2) == (if Has(i.flags, FLAG_DPAT) then rk.sport else Load16(st.pkt, sp + 2))
  {
    var sp := nh + IP6_HDR_LEN;
    var p1 := if Has(i.flags, FLAG_SPAT) then Write(st.pkt, sp, LE16(rk.dport)) else st.pkt;
    if Has(i.flags, FLAG_SPAT) {
      Load16OfWrite(st.pkt, sp, rk.dport);
      WriteBelow(st.pkt, sp, LE16(rk.dport), sp + 2);
      SameAboveSlice(st.pkt, p1, sp + 2, sp + 2, sp + 4);
      Load16OfSlice(st.pkt, p1, sp + 2);
    }
    var r := PortNat(env, i, rk, st, nh).pkt;
    if Has(i.flags, FLAG_DPAT) {
      Load16OfWrite(p1, sp + 2, rk.sport);
      WriteAbove(p1, sp + 2, LE16(rk.sport), sp + 2);
      SameBelowSlice(p1, r, sp + 2, sp, sp + 2);
      Load16OfSlice(p1, r, sp);
    }
  }

  /** The port rewrite keeps everything after the two ports. */
  lemma {:induction false} PortNatAbove(env: NatEnv, i: NatInput, rk: FlowKey, st: NatState, nh: nat)
    requires HasIp6Header(st.pkt, nh) && TransportBounded(env) && nh + IP6_HDR_LEN + 4 <= |st.pkt|
    ensures SameAbove(st.pkt, PortNat(env, i, rk, st, nh).pkt, nh + IP6_HDR_LEN + 4)
  {
    if env.transportValid(st.pkt, nh) {
      var sp := nh + IP6_HDR_LEN;
      var p1 := if Has(i.flags, FLAG_SPAT) then Write(st.pkt, sp, LE16(rk.dport)) else st.pkt;
      if Has(i.flags, FLAG_SPAT) { WriteBelow(st.pkt, sp, LE16(rk.dport), sp + 4); }
      if Has(i.flags, FLAG_DPAT) { WriteBelow(p1, sp + 2, LE16(rk.sport), sp + 4); }
    }
  }

  /**
   * The transport ports of a packet that is not ICMPv6: when
   * vr_ip6_transport_header_valid accepts the packet (after the address
   * rewrite), SPAT sets the source port to the reverse flow's destination
   * port and DPAT the destination port to the reverse flow's source port;
   * otherwise the ports are left as they were.
   */
  lemma {:induction false} NatPorts(env: NatEnv, i: NatInput, s: seq<byte>, nh: Option<nat>)
    requires NatRequires(env, i, s, nh) && NatProceeds(i, nh)
    requires NextHeader(s, nh.value) != PROTO_ICMP6
    ensures var o := FlowNat(env, i, s, nh);
            var n := nh.value;
            var rk := i.rfe.value;
            var sp := n + IP6_HDR_LEN;
            var mid := Addressed(env, i, rk, s, n).pkt;
            (env.transportValid(mid, n) ==>
               sp + 4 <= |s| &&
               Load16(o.pkt, sp) == (if Has(i.flags, FLAG_SPAT) then rk.dport else Load16(s, sp)) &&
               Load16(o.pkt, sp + 2) == (if Has(i.flags, FLAG_DPAT) then rk.sport else Load16(s, sp + 2))) &&
            (!env.transportValid(mid, n) && sp + 4 <= |s| ==> o.pkt[sp..sp + 4] == s[sp..sp + 4])
  {
    TranslatedPorts(env, i, i.rfe.value, s, nh.value);
  }

  lemma {:induction false} TranslatedPorts(env: NatEnv, i: NatInput, rk: FlowKey, s: seq<byte>, n: nat)
    requires NatFits(env, s, n) && Ip6Key(rk) && TransportBounded(env)
    requires NextHeader(s, n) != PROTO_ICMP6
    ensures var o := Translated(env, i, rk, s, n);
            var sp := n + IP6_HDR_LEN;
            var mid := Addressed(env, i, rk, s, n).pkt;
            (env.transportValid(mid, n) ==>
               sp + 4 <= |s| &&
               Load16(o, sp) == (if Has(i.flags, FLAG_SPAT) then rk.dport else Load16(s, sp)) &&
               Load16(o, sp + 2) == (if Has(i.flags, FLAG_DPAT) then rk.sport else Load16(s, sp + 2))) &&
            (!env.transportValid(mid, n) && sp + 4 <= |s| ==> o[sp..sp + 4] == s[sp..sp + 4])
  {
    var sp := n + IP6_HDR_LEN;
    var st2 := Addressed(env, i, rk, s, n);
    var st := Rewritten(env, i, rk, s, n);
    RewritesKeepHeader(env, i, rk, s, n);
    if sp + 4 <= |s| {
      AddressedKeepsPorts(env, i, rk, s, n);
      ChecksumsKeepPorts(env, i, st, n);
      PortNatPorts(env, i, rk, st2, n);
    }
  }

  /** Away from ICMPv6 the quoted-header and address steps leave the transport ports alone. */
  lemma {:induction false} AddressedKeepsPorts(env: NatEnv, i: NatInput, rk: FlowKey, s: seq<byte>, n: nat)
    requires NatFits(env, s, n) && Ip6Key(rk)
    requires NextHeader(s, n) != PROTO_ICMP6 && n + IP6_HDR_LEN + 4 <= |s|
    ensures var r := Addressed(env, i, rk, s, n).pkt;
            var sp := n + IP6_HDR_LEN;
            r[sp..sp + 4] == s[sp..sp + 4] && Load16(r, sp) == Load16(s, sp) && Load16(r, sp + 2) == Load16(s, sp + 2)
  {
    var sp := n + IP6_HDR_LEN;
    assert QuotedNat(env, i.flags, rk, s, n) == s;
    AddressNatFrame(env, i, rk, s, n);
    var r := Addressed(env, i, rk, s, n).pkt;
    assert SameAbove(s, r, sp);
    SameAboveSlice(s, r, sp, sp, sp + 2);
    SameAboveSlice(s, r, sp, sp + 2, sp + 4);
    SameAboveSlice(s, r, sp, sp, sp + 4);
    Load16OfSlice(s, r, sp);
    Load16OfSlice(s, r, sp + 2);
  }

  /** Away from ICMPv6 the checksum steps leave the transport ports alone. */
  lemma {:induction false} ChecksumsKeepPorts(env: NatEnv, i: NatInput, st: NatState, n: nat)
    requires L4ChecksumPresent(st.pkt, n)
    requires NextHeader(st.pkt, n) != PROTO_ICMP6 && n + IP6_HDR_LEN + 4 <= |st.pkt|
    ensures var r := ChecksumsRedone(env, i, st, n);
            var sp := n + IP6_HDR_LEN;
            r[sp..sp + 4] == st.pkt[sp..sp + 4] &&
            Load16(r, sp) == Load16(st.pkt, sp) && Load16(r, sp + 2) == Load16(st.pkt, sp + 2)
  {
    var sp := n + IP6_HDR_LEN;
    var r := ChecksumsRedone(env, i, st, n);
    ChecksumsFrame(env, i, st, n);
    if L4ChecksumOffset(st.pkt, n).Some? {
      SameBelowSlice(st.pkt, r, sp + 4, sp, sp + 2);
      SameBelowSlice(st.pkt, r, sp + 4, sp + 2, sp + 4);
      SameBelowSlice(st.pkt, r, sp + 4, sp, sp + 4);
    }
    Load16OfSlice(st.pkt, r, sp);
    Load16OfSlice(st.pkt, r, sp + 2);
  }

  /** The ports after PortNat: set as SPAT and DPAT say when the transport header is valid, else untouched. */
  lemma {:induction false} PortNatPorts(env: NatEnv, i: NatInput, rk: FlowKey, st: NatState, n: nat)
    requires HasIp6Header(st.pkt, n) && TransportBounded(env)
    ensures var r := PortNat(env, i, rk, st, n).pkt;
            var sp := n + IP6_HDR_LEN;
            (env.transportValid(st.pkt, n) ==>
               Load16(r, sp) == (if Has(i.flags, FLAG_SPAT) then rk.dport else Load16(st.pkt, sp)) &&
               Load16(r, sp + 2) == (if Has(i.flags, FLAG_DPAT) then rk.sport else Load16(st.pkt, sp + 2))) &&
            (!env.transportValid(st.pkt, n) ==> r == st.pkt)
  {
    if env.transportValid(st.pkt, n) {
      PortNatSays(env, i, rk, st, n);
    }
  }

  /** The four rewrites of the header an ICMPv6 error quotes land in four separate fields. */
  lemma {:induction false} QuotedWritesSay(snat: bool, dnat: bool, spat: bool, dpat: bool, rk: FlowKey, s: seq<byte>, q: nat)
    requires q + IP6_HDR_LEN + 4 <= |s| && Ip6Key(rk)
    ensures var r := QuotedWrites(snat, dnat, spat, dpat, rk, s, q);
            r[q + IP6_SRC_OFF..q + IP6_DST_OFF] == (if dnat then rk.sip else s[q + IP6_SRC_OFF..q + IP6_DST_OFF]) &&
            r[q + IP6_DST_OFF..q + IP6_HDR_LEN] == (if snat then rk.dip else s[q + IP6_DST_OFF..q + IP6_HDR_LEN]) &&
            Load16(r, q + IP6_HDR_LEN) == (if dpat then rk.sport else Load16(s, q + IP6_HDR_LEN)) &&
            Load16(r, q + IP6_HDR_LEN + 2) == (if spat then rk.dport else Load16(s, q + IP6_HDR_LEN + 2))
  {
    var a, b, c, e := q + IP6_SRC_OFF, q + IP6_DST_OFF, q + IP6_HDR_LEN, q + IP6_HDR_LEN + 2;
    var s1 := WriteIf(snat, s, b, rk.dip);
    var s2 := WriteIf(dnat, s1, a, rk.sip);
    var s3 := WriteIf(spat, s2, e, LE16(rk.dport));
    var r := WriteIf(dpat, s3, c, LE16(rk.sport));
    assert r == QuotedWrites(snat, dnat, spat, dpat, rk, s, q);
    QuotedSourceSays(snat, dnat, spat, dpat, rk, s, q, s1, s2, s3, r);
    QuotedDestSays(snat, dnat, spat, dpat, rk, s, q, s1, s2, s3, r);
    QuotedSportSays(snat, dnat, spat, dpat, rk, s, q, s1, s2, s3, r);
    QuotedDportSays(snat, dnat, spat, dpat, rk, s, q, s1, s2, s3, r);
  }

  /** The four intermediate packets of QuotedWrites. */
  predicate QuotedSteps(snat: bool, dnat: bool, spat: bool, dpat: bool, rk: FlowKey, s: seq<byte>, q: nat,
                        s1: seq<byte>, s2: seq<byte>, s3: seq<byte>, r: seq<byte>)
    requires q + IP6_HDR_LEN + 4 <= |s| && Ip6Key(rk)
  {
    s1 == WriteIf(snat, s, q + IP6_DST_OFF, rk.dip) &&
    s2 == WriteIf(dnat, s1, q + IP6_SRC_OFF, rk.sip) &&
    s3 == WriteIf(spat, s2, q + IP6_HDR_LEN + 2, LE16(rk.dport)) &&
    r == WriteIf(dpat, s3, q + IP6_HDR_LEN, LE16(rk.sport))
  }

  /** Only the DNAT write lands on the quoted source. */
  lemma QuotedSourceSays(snat: bool, dnat: bool, spat: bool, dpat: bool, rk: FlowKey, s: seq<byte>, q: nat,
                         s1: seq<byte>, s2: seq<byte>, s3: seq<byte>, r: seq<byte>)
    requires q + IP6_HDR_LEN + 4 <= |s| && Ip6Key(rk)
    requires QuotedSteps(snat, dnat, spat, dpat, rk, s, q, s1, s2, s3, r)
    ensures r[q + IP6_SRC_OFF..q + IP6_DST_OFF] == (if dnat then rk.sip else s[q + IP6_SRC_OFF..q + IP6_DST_OFF])
  {
    var a, b, c, e := q + IP6_SRC_OFF, q + IP6_DST_OFF, q + IP6_HDR_LEN, q + IP6_HDR_LEN + 2;
    WriteIfBelow(snat, s, b, rk.dip, c);
    WriteIfAbove(snat, s, b, rk.dip, b);
    SameBelowSlice(s, s1, b, a, b);
    WriteIfSays(dnat, s1, a, rk.sip);
    WriteIfAbove(spat, s2, e, LE16(rk.dport), e);
    SameBelowSlice(s2, s3, e, a, b);
    WriteIfAbove(dpat, s3, c, LE16(rk.sport), c);
    SameBelowSlice(s3, r, c, a, b);
  }

  /** Only the SNAT write lands on the quoted destination. */
  lemma QuotedDestSays(snat: bool, dnat: bool, spat: bool, dpat: bool, rk: FlowKey, s: seq<byte>, q: nat,
                       s1: seq<byte>, s2: seq<byte>, s3: seq<byte>, r: seq<byte>)
    requires q + IP6_HDR_LEN + 4 <= |s| && Ip6Key(rk)
    requires QuotedSteps(snat, dnat, spat, dpat, rk, s, q, s1, s2, s3, r)
    ensures r[q + IP6_DST_OFF..q + IP6_HDR_LEN] == (if snat then rk.dip else s[q + IP6_DST_OFF..q + IP6_HDR_LEN])
  {
    var a, b, c, e := q + IP6_SRC_OFF, q + IP6_DST_OFF, q + IP6_HDR_LEN, q + IP6_HDR_LEN + 2;
    WriteIfSays(snat, s, b, rk.dip);
    WriteIfBelow(dnat, s1, a, rk.sip, b);
    SameAboveSlice(s1, s2, b, b, c);
    WriteIfAbove(spat, s2, e, LE16(rk.dport), e);
    SameBelowSlice(s2, s3, e, b, c);
    WriteIfAbove(dpat, s3, c, LE16(rk.sport), c);
    SameBelowSlice(s3, r, c, b, c);
  }

  /** Only the DPAT write lands on the quoted source port. */
  lemma QuotedSportSays(snat: bool, dnat: bool, spat: bool, dpat: bool, rk: FlowKey, s: seq<byte>, q: nat,
                        s1: seq<byte>, s2: seq<byte>, s3: seq<byte>, r: seq<byte>)
    requires q + IP6_HDR_LEN + 4 <= |s| && Ip6Key(rk)
    requires QuotedSteps(snat, dnat, spat, dpat, rk, s, q, s1, s2, s3, r)
    ensures Load16(r, q + IP6_HDR_LEN) == (if dpat then rk.sport else Load16(s, q + IP6_HDR_LEN))
  {
    var a, b, c, e := q + IP6_SRC_OFF, q + IP6_DST_OFF, q + IP6_HDR_LEN, q + IP6_HDR_LEN + 2;
    WriteIfBelow(snat, s, b, rk.dip, c);
    SameAboveSlice(s, s1, c, c, e);
    Load16OfSlice(s, s1, c);
    WriteIfBelow(dnat, s1, a, rk.sip, b);
    SameAboveSlice(s1, s2, b, c, e);
    Load16OfSlice(s1, s2, c);
    WriteIfAbove(spat, s2, e, LE16(rk.dport), e);
    SameBelowSlice(s2, s3, e, c, e);
    Load16OfSlice(s2, s3, c);
    WriteIfSays(dpat, s3, c, LE16(rk.sport));
    Load16OfLE16(rk.sport);
  }

  /** Only the SPAT write lands on the quoted destination port. */
  lemma QuotedDportSays(snat: bool, dnat: bool, spat: bool, dpat: bool, rk: FlowKey, s: seq<byte>, q: nat,
                        s1: seq<byte>, s2: seq<byte>, s3: seq<byte>, r: seq<byte>)
    requires q + IP6_HDR_LEN + 4 <= |s| && Ip6Key(rk)
    requires QuotedSteps(snat, dnat, spat, dpat, rk, s, q, s1, s2, s3, r)
    ensures Load16(r, q + IP6_HDR_LEN + 2) == (if spat then rk.dport else Load16(s, q + IP6_HDR_LEN + 2))
  {
    var a, b, c, e := q + IP6_SRC_OFF, q + IP6_DST_OFF, q + IP6_HDR_LEN, q + IP6_HDR_LEN + 2;
    WriteIfBelow(snat, s, b, rk.dip, c);
    SameAboveSlice(s, s1, c, e, e + 2);
    Load16OfSlice(s, s1, e);
    WriteIfBelow(dnat, s1, a, rk.sip, b);
    SameAboveSlice(s1, s2, b, e, e + 2);
    Load16OfSlice(s1, s2, e);
    WriteIfSays(spat, s2, e, LE16(rk.dport));
    Load16OfLE16(rk.dport);
    WriteIfBelow(dpat, s3, c, LE16(rk.sport), e);
    SameAboveSlice(s3, r, e, e, e + 2);
    Load16OfSlice(s3, r, e);
  }

  /** What a conditional write leaves in the bytes it writes. */
  lemma WriteIfSays(c: bool, s: seq<byte>, at: nat, b: seq<byte>)
    requires at + |b| <= |s|
    ensures WriteIf(c, s, at, b)[at..at + |b|] == if c then b else s[at..at + |b|]
    ensures |b| == 2 ==> Load16(WriteIf(c, s, at, b), at) == if c then Load16(b, 0) else Load16(s, at)
  {
    var r := WriteIf(c, s, at, b);
    if |b| == 2 {
      assert r[at] == r[at..at + 2][0] && r[at + 1] == r[at..at + 2][1];
    }
  }

  /**
   * An ICMPv6 error's quoted header after vr_inet6_flow_nat: its addresses
   * and ports are those of the reverse direction, so SNAT rewrites the
   * quoted destination with the reverse flow's destination, DNAT the quoted
   * source with the reverse flow's source, SPAT the quoted destination port
   * and DPAT the quoted source port; no later step writes there.
   */
  lemma {:induction false} NatQuoted(env: NatEnv, i: NatInput, s: seq<byte>, nh: Option<nat>)
    requires NatRequires(env, i, s, nh) && NatProceeds(i, nh)
    requires NextHeader(s, nh.value) == PROTO_ICMP6 && env.icmpError(s, nh.value + IP6_HDR_LEN)
    ensures QuotedReversed(i.flags, i.rfe.value, s, FlowNat(env, i, s, nh).pkt, Inner(nh.value))
  {
    FlowNatTranslates(env, i, s, nh);
    TranslatedQuoted(env, i, i.rfe.value, s, nh.value);
  }

  /**
   * The header quoted at `q` in `r` carries the reverse direction's
   * addresses and ports as the flags of the flow say, relative to `s`.
   */
  predicate QuotedReversed(flags: bv16, rk: FlowKey, s: seq<byte>, r: seq<byte>, q: nat)
  {
    |r| == |s| && q + IP6_HDR_LEN + 4 <= |s| &&
    r[q + IP6_SRC_OFF..q + IP6_DST_OFF] ==
      (if Has(flags, FLAG_DNAT) then rk.sip else s[q + IP6_SRC_OFF..q + IP6_DST_OFF]) &&
    r[q + IP6_DST_OFF..q + IP6_HDR_LEN] ==
      (if Has(flags, FLAG_SNAT) then rk.dip else s[q + IP6_DST_OFF..q + IP6_HDR_LEN]) &&
    Load16(r, q + IP6_HDR_LEN) == (if Has(flags, FLAG_DPAT) then rk.sport else Load16(s, q + IP6_HDR_LEN)) &&
    Load16(r, q + IP6_HDR_LEN + 2) == (if Has(flags, FLAG_SPAT) then rk.dport else Load16(s, q + IP6_HDR_LEN + 2))
  }

  lemma {:induction false} TranslatedQuoted(env: NatEnv, i: NatInput, rk: FlowKey, s: seq<byte>, n: nat)
    requires NatFits(env, s, n) && Ip6Key(rk) && TransportBounded(env)
    requires NextHeader(s, n) == PROTO_ICMP6 && env.icmpError(s, n + IP6_HDR_LEN)
    ensures QuotedReversed(i.flags, rk, s, Translated(env, i, rk, s, n), Inner(n))
  {
    var q := Inner(n);
    var k := n + IP6_HDR_LEN + 4;
    var qs := QuotedNat(env, i.flags, rk, s, n);
    QuotedWritesSay(Has(i.flags, FLAG_SNAT), Has(i.flags, FLAG_DNAT), Has(i.flags, FLAG_SPAT),
                    Has(i.flags, FLAG_DPAT), rk, s, q);
    var st2 := Addressed(env, i, rk, s, n);
    AddressNatFrame(env, i, rk, qs, n);
    assert SameAbove(qs, st2.pkt, n + IP6_HDR_LEN);
    var st := Rewritten(env, i, rk, s, n);
    PortNatAbove(env, i, rk, st2, n);
    RewritesKeepHeader(env, i, rk, s, n);
    var r := ChecksumsRedone(env, i, st, n);
    ChecksumsFrame(env, i, st, n);
    SameAboveTrans(qs, st2.pkt, st.pkt, n + IP6_HDR_LEN, k, k);
    SameAboveTrans(qs, st.pkt, r, k, k, k);
    SameAboveSlice(qs, r, k, q + IP6_SRC_OFF, q + IP6_DST_OFF);
    SameAboveSlice(qs, r, k, q + IP6_DST_OFF, q + IP6_HDR_LEN);
    SameAboveSlice(qs, r, k, q + IP6_HDR_LEN, q + IP6_HDR_LEN + 2);
    SameAboveSlice(qs, r, k, q + IP6_HDR_LEN + 2, q + IP6_HDR_LEN + 4);
    Load16OfSlice(qs, r, q + IP6_HDR_LEN);
    Load16OfSlice(qs, r, q + IP6_HDR_LEN + 2);
  }

  /**
   * When the ICMPv6 checksum is recomputed (ICMPv6 with SNAT or DNAT), the
   * translated message verifies (section 2.3 of RFC 4443).
   */
  lemma {:induction false} NatIcmpChecksum(env: NatEnv, i: NatInput, s: seq<byte>, nh: Option<nat>)
    requires NatRequires(env, i, s, nh) && NatProceeds(i, nh)
    requires RedoIcmpChecksum(i, s, nh.value) && PayloadLen(s, nh.value) >= 4
    ensures Icmp6Present(FlowNat(env, i, s, nh).pkt, nh.value, nh.value + IP6_HDR_LEN)
    ensures Icmp6Sum(FlowNat(env, i, s, nh).pkt, nh.value, nh.value + IP6_HDR_LEN) == 0xffff
  {
    var n := nh.value;
    var rk := i.rfe.value;
    var st := Rewritten(env, i, rk, s, n);
    RewritesKeepHeader(env, i, rk, s, n);
    assert L4ChecksumOffset(st.pkt, n).None?;
    assert ChecksumsRedone(env, i, st, n) == StoreIcmp6Checksum(st.pkt, n, n + IP6_HDR_LEN);
    StoredChecksumVerifies(st.pkt, n, n + IP6_HDR_LEN);
  }

  // ---------------------------------------------------------------------
  // The function as it runs: in place on the packet buffer

  /**
   * vr_inet6_flow_nat on the packet buffer `a`: the three fail-closed checks
   * first, then the quoted-header, address and port rewrites, the checksum
   * steps and the VRF-translation relookup, leaving exactly what FlowNat
   * describes.
   */
  method FlowNatInPlace(env: NatEnv, i: NatInput, a: array<byte>, nh: Option<nat>)
    returns (result: FlowResult, drop: Option<DropReason>, nexthop: Option<Nexthop>)
    requires NatRequires(env, i, a[..], nh)
    modifies a
    ensures var o := FlowNat(env, i, old(a[..]), nh);
            a[..] == o.pkt && result == o.result && drop == o.drop && nexthop == o.nexthop
  {
    if i.rflow < 0 || i.rfe.None? || nh.None? {
      return Consumed, Some(FlowNatNoRflow), i.vpNh;
    }
    var n := nh.value;
    var rk := i.rfe.value;
    ghost var s := a[..];
    QuotedNatInPlace(env, i.flags, rk, a, n);
    ghost var q := a[..];
    var ipInc := SourceNatInPlace(env, i, rk, a, n);
    ghost var st1 := NatState(a[..], ipInc, 0);
    ipInc := DestNatInPlace(env, i, rk, a, n, ipInc);
    ghost var st2 := NatState(a[..], ipInc, 0);
    var portInc := PortNatInPlace(env, i, rk, a, n, ipInc);
    ghost var st := NatState(a[..], ipInc, portInc);
    RewrittenSteps(env, i, rk, s, n, q, st1, st2, st);
    RewritesKeepHeader(env, i, rk, s, n);
    ChecksumsInPlace(env, i, a, n, ipInc, portInc);
    TranslatedSteps(env, i, rk, s, n, st, a[..]);
    FlowNatTranslates(env, i, s, nh);
    nexthop := NatNexthop(env, i, a[n + IP6_DST_OFF..n + IP6_HDR_LEN]);
    result, drop := Forward, None;
  }

  /** The rewrite steps, taken one after the other, give Rewritten. */
  lemma RewrittenSteps(env: NatEnv, i: NatInput, rk: FlowKey, s: seq<byte>, n: nat,
                       q: seq<byte>, st1: NatState, st2: NatState, st: NatState)
    requires NatFits(env, s, n) && Ip6Key(rk) && TransportBounded(env)
    requires q == QuotedNat(env, i.flags, rk, s, n)
    requires st1 == SourceNat(env, i, rk, NatState(q, 0, 0), n)
    requires st2 == DestNat(env, i, rk, st1, n)
    requires st == PortNat(env, i, rk, st2, n)
    ensures st == Rewritten(env, i, rk, s, n)
  {
  }

  /** The checksum steps over Rewritten give Translated. */
  lemma TranslatedSteps(env: NatEnv, i: NatInput, rk: FlowKey, s: seq<byte>, n: nat, st: NatState, r: seq<byte>)
    requires NatFits(env, s, n) && Ip6Key(rk) && TransportBounded(env)
    requires st == Rewritten(env, i, rk, s, n)
    requires L4ChecksumPresent(st.pkt, n)
    requires NextHeader(st.pkt, n) == PROTO_ICMP6 ==> Icmp6Present(st.pkt, n, n + IP6_HDR_LEN)
    requires r == ChecksumsRedone(env, i, st, n)
    ensures r == Translated(env, i, rk, s, n)
  {
  }

  /** A memcpy made only when `c` holds. */
  method WriteIfInPlace(c: bool, a: array<byte>, at: nat, b: seq<byte>)
    requires at + |b| <= a.Length
    modifies a
    ensures a[..] == WriteIf(c, old(a[..]), at, b)
  {
    if c {
      CopyIn(a, at, b);
    }
  }

  /** The rewrites of the header quoted in an ICMPv6 error. */
  method QuotedNatInPlace(env: NatEnv, flags: bv16, rk: FlowKey, a: array<byte>, nh: nat)
    requires NatFits(env, a[..], nh) && Ip6Key(rk)
    modifies a
    ensures a[..] == QuotedNat(env, flags, rk, old(a[..]), nh)
  {
    if a[nh + IP6_NXT_OFF] == PROTO_ICMP6 && env.icmpError(a[..], nh + IP6_HDR_LEN) {
      var q := Inner(nh);
      ghost var s := a[..];
      WriteIfInPlace(Has(flags, FLAG_SNAT), a, q + IP6_DST_OFF, rk.dip);
      ghost var s1 := a[..];
      WriteIfInPlace(Has(flags, FLAG_DNAT), a, q + IP6_SRC_OFF, rk.sip);
      ghost var s2 := a[..];
      WriteIfInPlace(Has(flags, FLAG_SPAT), a, q + IP6_HDR_LEN + 2, LE16(rk.dport));
      ghost var s3 := a[..];
      WriteIfInPlace(Has(flags, FLAG_DPAT), a, q + IP6_HDR_LEN, LE16(rk.sport));
      QuotedWritesSteps(Has(flags, FLAG_SNAT), Has(flags, FLAG_DNAT), Has(flags, FLAG_SPAT), Has(flags, FLAG_DPAT),
                        rk, s, q, s1, s2, s3, a[..]);
    }
  }

  /** The four conditional writes, taken one after the other, give QuotedWrites. */
  lemma QuotedWritesSteps(snat: bool, dnat: bool, spat: bool, dpat: bool, rk: FlowKey, s: seq<byte>, q: nat,
                          s1: seq<byte>, s2: seq<byte>, s3: seq<byte>, r: seq<byte>)
    requires q + IP6_HDR_LEN + 4 <= |s| && Ip6Key(rk)
    requires QuotedSteps(snat, dnat, spat, dpat, rk, s, q, s1, s2, s3, r)
    ensures r == QuotedWrites(snat, dnat, spat, dpat, rk, s, q)
  {
  }

  /** The vr_incremental_diff loop over the four 32-bit words of an address about to be overwritten. */
  method AddrDiffLoop(diff: (u32, u32, u32) -> u32, acc: u32, was: seq<byte>, now: seq<byte>) returns (inc: u32)
    requires |was| == IP6_ADDRESS_LEN && |now| == IP6_ADDRESS_LEN
    ensures inc == AddrDiff(diff, acc, was, now, 4)
  {
    inc := acc;
    var k: nat := 0;
    while k < 4
      invariant k <= 4 && inc == AddrDiff(diff, acc, was, now, k)
    {
      inc := diff(Load32(was, 4 * k), Load32(now, 4 * k), inc);
      k := k + 1;
    }
  }

  /** SNAT on the buffer: returns the IP increment (starting from 0). */
  method SourceNatInPlace(env: NatEnv, i: NatInput, rk: FlowKey, a: array<byte>, nh: nat) returns (ipInc: u32)
    requires HasIp6Header(a[..], nh) && Ip6Key(rk)
    modifies a
    ensures NatState(a[..], ipInc, 0) == SourceNat(env, i, rk, NatState(old(a[..]), 0, 0), nh)
  {
    ipInc := 0;
    if Has(i.flags, FLAG_SNAT) && a[nh + IP6_SRC_OFF..nh + IP6_DST_OFF] == i.key.sip {
      ipInc := AddrDiffLoop(env.diff, ipInc, a[nh + IP6_SRC_OFF..nh + IP6_DST_OFF], rk.dip);
      CopyIn(a, nh + IP6_SRC_OFF, rk.dip);
    }
  }

  /** DNAT on the buffer: continues the IP increment `ipInc`. */
  method DestNatInPlace(env: NatEnv, i: NatInput, rk: FlowKey, a: array<byte>, nh: nat, ipInc: u32)
    returns (inc: u32)
    requires HasIp6Header(a[..], nh) && Ip6Key(rk)
    modifies a
    ensures NatState(a[..], inc, 0) == DestNat(env, i, rk, NatState(old(a[..]), ipInc, 0), nh)
  {
    inc := ipInc;
    if Has(i.flags, FLAG_DNAT) {
      inc := AddrDiffLoop(env.diff, inc, a[nh + IP6_DST_OFF..nh + IP6_HDR_LEN], rk.sip);
      CopyIn(a, nh + IP6_DST_OFF, rk.sip);
    }
  }

  /** SPAT and DPAT on the buffer: returns the port increment (starting from 0). */
  method PortNatInPlace(env: NatEnv, i: NatInput, rk: FlowKey, a: array<byte>, nh: nat, ipInc: u32)
    returns (portInc: u32)
    requires HasIp6Header(a[..], nh) && TransportBounded(env)
    modifies a
    ensures NatState(a[..], ipInc, portInc) == PortNat(env, i, rk, NatState(old(a[..]), ipInc, 0), nh)
  {
    portInc := 0;
    if env.transportValid(a[..], nh) {
      var sp := nh + IP6_HDR_LEN;
      if Has(i.flags, FLAG_SPAT) {
        portInc := env.diff(Load16(a[..], sp), rk.dport, portInc);
        CopyIn(a, sp, LE16(rk.dport));
      }
      if Has(i.flags, FLAG_DPAT) {
        portInc := env.diff(Load16(a[..], sp + 2), rk.sport, portInc);
        CopyIn(a, sp + 2, LE16(rk.sport));
      }
    }
  }

  /** vr_ip6_update_csum (unless the packet is diagnostic), then the ICMPv6 checksum when it is recomputed. */
  method ChecksumsInPlace(env: NatEnv, i: NatInput, a: array<byte>, nh: nat, ipInc: u32, portInc: u32)
    requires L4ChecksumPresent(a[..], nh)
    requires NextHeader(a[..], nh) == PROTO_ICMP6 ==> Icmp6Present(a[..], nh, nh + IP6_HDR_LEN)
    modifies a
    ensures a[..] == ChecksumsRedone(env, i, NatState(old(a[..]), ipInc, portInc), nh)
  {
    ghost var s := a[..];
    var tv := env.transportValid(a[..], nh);
    if !i.diag {
      UpdateCsumInPlace(a, nh, ipInc, portInc, i.partial, tv);
    }
    ghost var s1 := a[..];
    UpdatedKeepsNext(s, nh, ipInc, portInc, i.partial, tv, i.diag, s1);
    if a[nh + IP6_NXT_OFF] == PROTO_ICMP6 && (Has(i.flags, FLAG_DNAT) || Has(i.flags, FLAG_SNAT)) {
      StoreIcmp6ChecksumInPlace(a, nh, nh + IP6_HDR_LEN);
    }
    ChecksumsRedoneOf(env, i, NatState(s, ipInc, portInc), nh, s1, a[..]);
  }

  /** The TCP/UDP checksum step keeps the next header, and leaves an ICMPv6 packet as it was. */
  lemma UpdatedKeepsNext(s: seq<byte>, nh: nat, ipInc: u32, portInc: u32, partial: bool, tv: bool, diag: bool,
                         s1: seq<byte>)
    requires L4ChecksumPresent(s, nh)
    requires s1 == if diag then s else UpdateCsum(s, nh, ipInc, portInc, partial, tv)
    ensures HasIp6Header(s1, nh) && NextHeader(s1, nh) == NextHeader(s, nh)
    ensures NextHeader(s, nh) == PROTO_ICMP6 ==> s1 == s
  {
    UpdateKeepsHeader(s, nh, ipInc, portInc, partial, tv);
    if L4ChecksumOffset(s, nh).Some? {
      SameBelowAt(s, s1, nh + IP6_HDR_LEN + 4, nh + IP6_NXT_OFF);
    }
  }

  /** The two checksum steps, taken one after the other, give ChecksumsRedone. */
  lemma ChecksumsRedoneOf(env: NatEnv, i: NatInput, st: NatState, nh: nat, s1: seq<byte>, r: seq<byte>)
    requires L4ChecksumPresent(st.pkt, nh)
    requires NextHeader(st.pkt, nh) == PROTO_ICMP6 ==> Icmp6Present(st.pkt, nh, nh + IP6_HDR_LEN)
    requires s1 == if i.diag then st.pkt
                   else UpdateCsum(st.pkt, nh, st.ipInc, st.portInc, i.partial, env.transportValid(st.pkt, nh))
    requires HasIp6Header(s1, nh) && NextHeader(s1, nh) == NextHeader(st.pkt, nh)
    requires NextHeader(st.pkt, nh) == PROTO_ICMP6 ==> s1 == st.pkt
    requires r == if RedoIcmpChecksum(i, s1, nh) then StoreIcmp6Checksum(s1, nh, nh + IP6_HDR_LEN) else s1
    ensures r == ChecksumsRedone(env, i, st, nh)
  {
  }
}
