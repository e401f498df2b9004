// The flow table view of the `flow` command-line tool (utils/flow.c): the
// bounded entry lookup, the set request built from an entry, the
// source/destination match predicates of the table dump, the flow drop-reason
// names, the line-wrap helper and the copy of the hold statistics out of the
// table header.  The netlink messaging around them is not part of this model.

module FlowCli {
  import opened Base
  import opened FlowDefs

  const EINVAL: int := 22

  /** VR_IP_ADDR_SIZE(type): the address length of an entry of this type. */
  function AddrSize(t: PacketType): (n: nat)
    ensures n == IP4_ADDRESS_LEN || n == IP6_ADDRESS_LEN
  {
    if t == VpIp6 then IP6_ADDRESS_LEN else IP4_ADDRESS_LEN
  }

  /** The fields of a struct vr_flow_entry the tool reads. */
  datatype FlowEntry = FlowEntry(flags: bv16, fType: PacketType, key: FlowKey, genId: byte)

  predicate IsIpType(t: PacketType)
  {
    t == VpIp || t == VpIp6
  }

  /** An IP entry's key holds two addresses of its type's length. */
  predicate EntryOk(e: FlowEntry)
  {
    IsIpType(e.fType) ==> |e.key.sip| == AddrSize(e.fType) && |e.key.dip| == AddrSize(e.fType)
  }

  predicate TableOk(entries: seq<FlowEntry>)
  {
    forall i | 0 <= i < |entries| :: EntryOk(entries[i])
  }

  /** flow_get: the entry at `index`, or nothing (NULL) past ft_num_entries. */
  function FlowGet(entries: seq<FlowEntry>, index: nat): (r: Option<FlowEntry>)
    ensures r.None? <==> index >= |entries|
    ensures r.Some? ==> r.value == entries[index]
  {
    if index >= |entries| then None else Some(entries[index])
  }

  // ---------------------------------------------------------------------
  // fill_flow_req

  /** fr_op: the zeroed value of a fresh request, or FLOW_OP_FLOW_SET. */
  datatype FlowOp = ZeroOp | FlowSet

  /**
   * The fields of a vr_flow_req that fill_flow_req sets.  The addresses are
   * the raw 64-bit (IPv6) or 32-bit (IPv4) words copied out of the key.
   */
  datatype FlowReq = FlowReq(op: FlowOp, index: nat, family: byte, flags: bv16, extFlags: bv16,
                             sipU: u64, sipL: u64, dipU: u64, dipL: u64,
                             proto: byte, sport: u16, dport: u16, nhId: u32, genId: byte,
                             action: u16, mirId: int)

  /** The request after memset(req, 0, sizeof(*req)). */
  const ZERO_REQ: FlowReq := FlowReq(ZeroOp, 0, 0, 0, 0, 0, 0, 0, 0, 0, 0, 0, 0, 0, 0, 0)

  /** The actions fill_flow_req builds a request for: drop, forward, invalidate and evict. */
  predicate KnownAction(action: char)
  {
    action == 'd' || action == 'f' || action == 'i' || action == 'e'
  }

  /** When fill_flow_req returns 0. */
  predicate FillSucceeds(entries: seq<FlowEntry>, index: nat, action: char)
  {
    index < |entries| && IsIpType(entries[index].fType) && KnownAction(action) &&
    !(action == 'i' && Has(entries[index].flags, FLAG_EVICTED))
  }

  /** The request names the entry: its index, family, key fields, addresses and generation. */
  predicate CarriesEntry(req: FlowReq, index: nat, e: FlowEntry)
    requires EntryOk(e) && IsIpType(e.fType)
  {
    req.op == FlowSet && req.index == index && req.family == FlowFamily(e.fType) &&
    req.proto == e.key.proto && req.sport == e.key.sport && req.dport == e.key.dport &&
    req.nhId == e.key.nhId && req.genId == e.genId &&
    if e.fType == VpIp then
      req.sipL < 0x1_0000_0000 && req.dipL < 0x1_0000_0000 &&
      LE32(req.sipL) == e.key.sip && LE32(req.dipL) == e.key.dip
    else
      LE64(req.sipU) + LE64(req.sipL) == e.key.sip && LE64(req.dipU) + LE64(req.dipL) == e.key.dip
  }

  /** What each action asks of the datapath, on top of the mirror flag. */
  predicate ActionApplied(req: FlowReq, action: char)
  {
    var rest := req.flags & !FLAG_MIRROR;
    match action
    case 'd' => req.action == ACTION_DROP && rest == FLAG_ACTIVE && req.extFlags == 0
    case 'f' => req.action == ACTION_FORWARD && rest == FLAG_ACTIVE && req.extFlags == 0
    case 'i' => req.action == ACTION_DROP && rest == 0 && req.extFlags == 0
    case 'e' => req.action == 0 && rest == FLAG_ACTIVE && req.extFlags == EXT_FLAG_FORCE_EVICT
    case _ => false
  }

  /**
   * fill_flow_req: the set request for the entry at `index` and the value it
   * returns.  'g' only displays the entry (flow_get_entry, not part of this
   * model) and fails like an unknown action; `mirror` is the global mirror
   * index.
   */
  method FillFlowReq(entries: seq<FlowEntry>, index: nat, action: char, mirror: int) returns (ret: int, req: FlowReq)
    requires TableOk(entries)
    ensures ret == 0 || ret == -1
    ensures ret == 0 <==> FillSucceeds(entries, index, action)
    ensures ret == 0 ==> CarriesEntry(req, index, entries[index]) && ActionApplied(req, action)
    ensures ret == 0 ==> (Has(req.flags, FLAG_MIRROR) <==> mirror >= 0) && (mirror >= 0 ==> req.mirId == mirror)
  {
    req := ZERO_REQ;
    var fe := FlowGet(entries, index);
    if fe.None? {
      return -1, req;
    }
    var e := fe.value;
    if action == 'g' {
      return -1, req;
    }
    if e.fType != VpIp && e.fType != VpIp6 {
      return -1, req;
    }
    assert EntryOk(e);
    var keyed := FillKey(index, e);
    var ok, acted := FillAction(keyed, e, action);
    if !ok {
      return -1, acted;
    }
    req := FillMirror(acted, mirror);
    KeepsEntry(keyed, acted, index, e);
    KeepsEntry(acted, req, index, e);
    KeepsAction(acted, req, action);
    ret := 0;
  }

  lemma KeepsAction(a: FlowReq, b: FlowReq, action: char)
    requires ActionApplied(a, action)
    requires b.flags & !FLAG_MIRROR == a.flags & !FLAG_MIRROR && b.action == a.action && b.extFlags == a.extFlags
    ensures ActionApplied(b, action)
  {
  }

  /** The two requests agree on everything but the flags, the action and the mirror index. */
  predicate SameKey(a: FlowReq, b: FlowReq)
  {
    a.op == b.op && a.index == b.index && a.family == b.family &&
    a.sipU == b.sipU && a.sipL == b.sipL && a.dipU == b.dipU && a.dipL == b.dipL &&
    a.proto == b.proto && a.sport == b.sport && a.dport == b.dport && a.nhId == b.nhId && a.genId == b.genId
  }

  lemma KeepsEntry(a: FlowReq, b: FlowReq, index: nat, e: FlowEntry)
    requires EntryOk(e) && IsIpType(e.fType) && CarriesEntry(a, index, e) && SameKey(a, b)
    ensures CarriesEntry(b, index, e)
  {
  }

  /** The first half of fill_flow_req: operation, index, family, the ACTIVE flag and the key fields of the entry. */
  method FillKey(index: nat, e: FlowEntry) returns (req: FlowReq)
    requires EntryOk(e) && IsIpType(e.fType)
    ensures CarriesEntry(req, index, e)
    ensures req.flags == FLAG_ACTIVE && req.extFlags == 0 && req.action == 0
  {
    req := ZERO_REQ.(op := FlowSet, index := index, family := FlowFamily(e.fType), flags := FLAG_ACTIVE);
    if e.fType == VpIp {
      req := req.(sipL := Load32(e.key.sip, 0), dipL := Load32(e.key.dip, 0));
      LE32OfLoad32(e.key.sip, 0);
      LE32OfLoad32(e.key.dip, 0);
    } else {
      req := req.(sipU := Load64(e.key.sip, 0), sipL := Load64(e.key.sip, 8),
                  dipU := Load64(e.key.dip, 0), dipL := Load64(e.key.dip, 8));
      AddressWords(e.key.sip);
      AddressWords(e.key.dip);
    }
    req := req.(proto := e.key.proto, sport := e.key.sport, dport := e.key.dport, nhId := e.key.nhId,
                genId := e.genId);
  }

  /** The action switch of fill_flow_req; false for an invalidate of an evicted entry and for an unknown action. */
  method FillAction(req0: FlowReq, e: FlowEntry, action: char) returns (ok: bool, req: FlowReq)
    requires req0.flags == FLAG_ACTIVE && req0.extFlags == 0 && req0.action == 0
    ensures ok <==> KnownAction(action) && !(action == 'i' && Has(e.flags, FLAG_EVICTED))
    ensures ok ==> ActionApplied(req, action) && !Has(req.flags, FLAG_MIRROR)
    ensures SameKey(req0, req)
  {
    req := req0;
    ok := true;
    if action == 'd' {
      req := req.(action := ACTION_DROP);
    } else if action == 'f' {
      req := req.(action := ACTION_FORWARD);
    } else if action == 'i' {
      if Has(e.flags, FLAG_EVICTED) {
        return false, req;
      }
      req := req.(flags := FLAG_ACTIVE ^ FLAG_ACTIVE, action := ACTION_DROP);
    } else if action == 'e' {
      req := req.(extFlags := EXT_FLAG_FORCE_EVICT);
    } else {
      ok := false;
    }
  }

  /** The mirror step of fill_flow_req: MIRROR and the mirror index when `mirror` is set, MIRROR cleared otherwise. */
  method FillMirror(req0: FlowReq, mirror: int) returns (req: FlowReq)
    ensures Has(req.flags, FLAG_MIRROR) <==> mirror >= 0
    ensures req.flags & !FLAG_MIRROR == req0.flags & !FLAG_MIRROR
    ensures mirror >= 0 ==> req.mirId == mirror
    ensures req.extFlags == req0.extFlags && req.action == req0.action && SameKey(req0, req)
  {
    if mirror >= 0 {
      req := req0.(mirId := mirror, flags := req0.flags | FLAG_MIRROR);
    } else {
      req := req0.(flags := req0.flags & !FLAG_MIRROR);
    }
  }

  /** The two 64-bit halves of a 16-byte address store back into its bytes. */
  lemma AddressWords(a: seq<byte>)
    requires |a| == 16
    ensures LE64(Load64(a, 0)) + LE64(Load64(a, 8)) == a
  {
    LE64OfLoad64(a, 0);
    LE64OfLoad64(a, 8);
    assert a == a[0..8] + a[8..16];
  }

  /** An invalidate request ('i') never carries the active flag, and every other request does. */
  lemma OnlyInvalidateDeactivates(req: FlowReq, action: char)
    requires ActionApplied(req, action)
    ensures Has(req.flags, FLAG_ACTIVE) <==> action != 'i'
  {
    assert (req.flags & !FLAG_MIRROR) & FLAG_ACTIVE == req.flags & FLAG_ACTIVE;
  }

  // ---------------------------------------------------------------------
  // Match predicates of the table dump

  /** The common key view: fe_key.flow_ip, the source then the destination address. */
  function FlowIp(k: FlowKey): seq<byte>
  {
    k.sip + k.dip
  }

  /** The `n` bytes of flow_ip from `off` equal `addr` (the memcmp). */
  predicate IpWindowIs(k: FlowKey, off: nat, n: nat, addr: seq<byte>)
  {
    off + n <= |FlowIp(k)| && |addr| == n && FlowIp(k)[off..off + n] == addr
  }

  /** The port test: no port given (negative), or ntohs of the key's port. */
  predicate PortMatches(keyPort: u16, port: int)
  {
    port < 0 || Swap16(keyPort) == port
  }

  /**
   * flow_match_source: `addr` is the match address (None for "*", a NULL
   * address), `port` the match port (-1 when none), `n` match_family_size.
   */
  predicate MatchSource(e: FlowEntry, addr: Option<seq<byte>>, port: int, n: nat)
  {
    if addr.None? && port < 0 then false
    else if addr.None? || IpWindowIs(e.key, 0, n, addr.value) then PortMatches(e.key.sport, port)
    else false
  }

  /**
   * flow_match_dest as written: None when it would compare through the NULL
   * address of a "*" given with a port.
   */
  function MatchDestAsWritten(e: FlowEntry, addr: Option<seq<byte>>, port: int, n: nat): (r: Option<bool>)
    ensures r.None? <==> addr.None? && port >= 0
  {
    if addr.None? && port < 0 then Some(false)
    else if addr.None? then None
    else Some(IpWindowIs(e.key, AddrSize(e.fType), n, addr.value) && PortMatches(e.key.dport, port))
  }

  /** flow_match_dest with the NULL address handled as flow_match_source handles it: the port alone decides. */
  predicate MatchDest(e: FlowEntry, addr: Option<seq<byte>>, port: int, n: nat)
  {
    if addr.None? && port < 0 then false
    else if addr.None? || IpWindowIs(e.key, AddrSize(e.fType), n, addr.value) then PortMatches(e.key.dport, port)
    else false
  }

  /** Neither predicate matches when neither an address nor a port is given. */
  lemma MatchNeedsAddressOrPort(e: FlowEntry, n: nat)
    ensures !MatchSource(e, None, -1, n) && !MatchDest(e, None, -1, n)
  {
  }

  /** With a "*" address, the source and destination tests are the port tests alone. */
  lemma WildcardMatchesOnPort(e: FlowEntry, port: int, n: nat)
    requires port >= 0
    ensures MatchSource(e, None, port, n) <==> Swap16(e.key.sport) == port
    ensures MatchDest(e, None, port, n) <==> Swap16(e.key.dport) == port
  {
  }

  /** On an IP entry of the match family, the tests compare the key's own source and destination addresses. */
  lemma MatchComparesKeyAddresses(e: FlowEntry, a: seq<byte>, port: int)
    requires EntryOk(e) && IsIpType(e.fType)
    ensures MatchSource(e, Some(a), port, AddrSize(e.fType)) <==> a == e.key.sip && PortMatches(e.key.sport, port)
    ensures MatchDest(e, Some(a), port, AddrSize(e.fType)) <==> a == e.key.dip && PortMatches(e.key.dport, port)
  {
    var n := AddrSize(e.fType);
    assert FlowIp(e.key)[0..n] == e.key.sip;
    assert FlowIp(e.key)[n..n + n] == e.key.dip;
  }

  /** The corrected destination test agrees with the source as written wherever the source defines a value. */
  lemma MatchDestAgrees(e: FlowEntry, addr: Option<seq<byte>>, port: int, n: nat)
    requires MatchDestAsWritten(e, addr, port, n).Some?
    ensures MatchDestAsWritten(e, addr, port, n) == Some(MatchDest(e, addr, port, n))
  {
  }

  /** "--match *:80": after the source test fails, flow_match_dest is called with the NULL address and port 80. */
  lemma MatchDestNullAddress(e: FlowEntry, n: nat)
    requires Swap16(e.key.sport) != 80
    ensures !MatchSource(e, None, 80, n)
    ensures MatchDestAsWritten(e, None, 80, n).None?
  {
  }

  // ---------------------------------------------------------------------
  // Names and output helpers

  /** flow_get_drop_reason: the short name of a flow drop code, NULL for a code past VR_FLOW_DR_REVERSE_OUT_FWAAS_POLICY. */
  function FlowDropReason(code: byte): (r: Option<seq<char>>)
    ensures r.None? <==> code > 0x22
    ensures r.Some? ==> |r.value| > 0
  {
    match code
    case 0x00 => Some("Unknown")
    case 0x01 => Some("IntfErr")
    case 0x02 => Some("Ipv4Dis")
    case 0x03 => Some("VrfErr")
    case 0x04 => Some("NoSrcRt")
    case 0x05 => Some("NoDstRt")
    case 0x06 => Some("Audit")
    case 0x07 => Some("VrfChange")
    case 0x08 => Some("NoRevFlow")
    case 0x09 => Some("RevFlowChng")
    case 0x0a => Some("NatChng")
    case 0x0b => Some("FlowLim")
    case 0x0c => Some("LinkSrcNatErr")
    case 0x0d => Some("VrouterInstallFail")
    case 0x0e => Some("InvalidL2Flow")
    case 0x0f => Some("TSNFlow")
    case 0x10 => Some("NoMirrorentry")
    case 0x11 => Some("SameFlowRflowKey")
    case 0x12 => Some("NoFipPortMap")
    case 0x13 => Some("NoSrcRtRpfNh")
    case 0x14 => Some("FatFlowNatConflict")
    case 0x15 => Some("Policy")
    case 0x16 => Some("OutPolicy")
    case 0x17 => Some("SG")
    case 0x18 => Some("OutSG")
    case 0x19 => Some("RevSG")
    case 0x1a => Some("RevOutSG")
    case 0x1b => Some("FwPolicy")
    case 0x1c => Some("OutFwPolicy")
    case 0x1d => Some("RevFwPolicy")
    case 0x1e => Some("RevOutFwPolicy")
    case 0x1f => Some("FWAASPolicy")
    case 0x20 => Some("OutFWAASPolicy")
    case 0x21 => Some("RevFWAASPolicy")
    case 0x22 => Some("RevOutFWAASPolicy")
    case _ => None
  }

  /** print_new_line_if_required: the new column count and whether a newline is printed. */
  function NewLineIfRequired(printed: int, maxPrint: int): (r: (int, bool))
    ensures r.1 <==> printed >= maxPrint
    ensures r.1 ==> r.0 == 0
    ensures !r.1 ==> r.0 == printed && r.0 < maxPrint
  {
    if printed >= maxPrint then (0, true) else (printed, false)
  }

  /** Columns never reach the limit after the call, when the limit is positive. */
  lemma NewLineKeepsBelow(printed: int, maxPrint: int)
    requires maxPrint > 0
    ensures NewLineIfRequired(printed, maxPrint).0 < maxPrint
  {
  }

  // ---------------------------------------------------------------------
  // Hold statistics (flow_table_map)

  /** The length of ft_hold_stat. */
  const HOLD_STAT_LEN: nat := 128

  /** The tool's copy of the table header's per-cpu hold counters. */
  class FlowTable {
    const holdStat: array<u32>
    var holdStatCount: nat

    ghost predicate Valid()
      reads this
    {
      holdStat.Length == HOLD_STAT_LEN && holdStatCount <= HOLD_STAT_LEN
    }

    constructor ()
      ensures Valid() && fresh(holdStat) && holdStatCount == 0
    {
      holdStat := new u32[HOLD_STAT_LEN];
      holdStatCount := 0;
    }

    /**
     * The hold-stat copy of flow_table_map: `src` is ftable_hold_stat (None
     * for NULL), its length ftable_hold_stat_size.  At most 128
     * counters are kept; with none, the counters are cleared.
     */
    method CopyHoldStats(src: Option<seq<u32>>)
      requires Valid()
      modifies this, holdStat
      ensures Valid()
      ensures src.None? || |src.value| == 0 ==> holdStatCount == 0 && holdStat[..] == seq(HOLD_STAT_LEN, _ => 0)
      ensures src.Some? && |src.value| > 0 ==>
                holdStatCount == if |src.value| < HOLD_STAT_LEN then |src.value| else HOLD_STAT_LEN
      ensures src.Some? && |src.value| > 0 ==>
                holdStat[..holdStatCount] == src.value[..holdStatCount] &&
                holdStat[holdStatCount..] == old(holdStat[..])[holdStatCount..]
    {
      if src.Some? && |src.value| > 0 {
        var s := src.value;
        holdStatCount := |s|;
        var i := 0;
        while i < |s|
          invariant i <= |s| && i <= HOLD_STAT_LEN
          invariant holdStatCount == |s|
          invariant forall k | 0 <= k < i :: holdStat[k] == s[k]
          invariant forall k | i <= k < HOLD_STAT_LEN :: holdStat[k] == old(holdStat[k])
        {
          if i == HOLD_STAT_LEN {
            holdStatCount := i;
            break;
          }
          holdStat[i] := s[i];
          i := i + 1;
        }
        assert i == holdStatCount;
        assert holdStat[..holdStatCount] == s[..holdStatCount];
        assert holdStat[holdStatCount..] == old(holdStat[..])[holdStatCount..];
      } else {
        holdStatCount := 0;
        var i := 0;
        while i < HOLD_STAT_LEN
          modifies holdStat
          invariant i <= HOLD_STAT_LEN
          invariant forall k | 0 <= k < i :: holdStat[k] == 0
        {
          holdStat[i] := 0;
          i := i + 1;
        }
        assert holdStat[..] == seq(HOLD_STAT_LEN, _ => 0);
      }
    }
  }
}
