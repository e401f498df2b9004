// The `--match` option of the `flow` tool (utils/flow.c): the match string is
// a list of '&'-separated clauses, "proto=<name>", "vrf=<number>" or one or
// two address[:port] tuples separated by ',' or '&'.  Each tuple fills the
// next free end of the match; the table dump then keeps the entries the match
// selects.  inet_pton, strtoul and the errno it leaves are parameters.

module FlowMatch {
  import opened Base
  import opened FlowDefs
  import opened VrUtil
  import opened FlowCli

  const PROTO_ICMP: int := 1
  const PROTO_TCP: int := 6
  const PROTO_UDP: int := 17
  const PROTO_ICMP6: int := 58
  const PROTO_SCTP: int := 132

  /**
   * The match variables: the family and its address size (0 until a tuple
   * is given), the two ends' ports, the protocol and the vrf (-1 when not
   * given), the two addresses (None for "*", a NULL address) and whether
   * each end was given.
   */
  datatype Match = Match(family: nat, familySize: nat, port1: int, port2: int, proto: int, vrf: int,
                         ip1: Option<seq<byte>>, ip2: Option<seq<byte>>, ip1Set: bool, ip2Set: bool)

  const INITIAL: Match := Match(0, 0, -1, -1, -1, -1, None, None, false, false)

  /** The library calls the parser relies on: inet_pton into a 16-byte buffer, strtoul with base 0, and the errno strtoul leaves. */
  datatype Conv = Conv(pton: (nat, seq<char>) -> seq<byte>, strtoul: seq<char> -> u64, errnoOf: seq<char> -> nat)

  /** The conversion of strtoul's unsigned long into the int32_t match variables, keeping the low 32 bits. */
  function ToInt32(v: u64): (r: int)
    ensures -0x8000_0000 <= r < 0x8000_0000 && (v - r) % 0x1_0000_0000 == 0
    ensures v < 0x8000_0000 ==> r == v
  {
    var w := v % 0x1_0000_0000;
    if w >= 0x8000_0000 then w - 0x1_0000_0000 else w
  }

  /** The first `n` bytes written by inet_pton (zero where it wrote fewer). */
  function Fit(b: seq<byte>, n: nat): (r: seq<byte>)
    ensures |r| == n && forall k | 0 <= k < n :: r[k] == if k < |b| then b[k] else 0
  {
    if |b| >= n then b[..n] else b + Zeros(n - |b|)
  }

  /** mem_size: the address length of the family. */
  function FamilySize(family: nat): (n: nat)
    ensures n == IP4_ADDRESS_LEN || n == IP6_ADDRESS_LEN
  {
    if family == AF_INET as nat then IP4_ADDRESS_LEN else IP6_ADDRESS_LEN
  }

  /** The family is inet or inet6 and the address passes that family's syntax check. */
  predicate AddressSyntax(family: nat, addr: seq<char>)
  {
    (family == AF_INET as nat && Ipv4Syntax(addr)) || (family == AF_INET6 as nat && Ipv6Syntax(addr))
  }

  /** The port of an end: strtoul of the port text unless there is none or it starts with '*'. */
  function PortOf(current: int, port: Option<seq<char>>, c: Conv): (p: int)
    ensures port.None? || (|port.value| > 0 && port.value[0] == '*') ==> p == current
    ensures port.Some? && port.value == "*" ==> p == current
  {
    if port.Some? && !(|port.value| > 0 && port.value[0] == '*') then ToInt32(c.strtoul(port.value)) else current
  }

  /**
   * What the match variables always satisfy: the family is set together
   * with the first end and is inet or inet6, its size is that family's, a
   * second end only follows a first, an end not given has no address and no
   * port, and each address given has the family's size.
   */
  predicate Consistent(m: Match)
  {
    (m.family == 0 <==> !m.ip1Set) &&
    (m.ip2Set ==> m.ip1Set) &&
    (m.family != 0 ==> (m.family == AF_INET as nat || m.family == AF_INET6 as nat) && m.familySize == FamilySize(m.family)) &&
    (m.ip1.Some? ==> |m.ip1.value| == m.familySize) &&
    (m.ip2.Some? ==> |m.ip2.value| == m.familySize) &&
    (!m.ip1Set ==> m.ip1.None? && m.port1 == -1) &&
    (!m.ip2Set ==> m.ip2.None? && m.port2 == -1)
  }

  lemma InitialConsistent()
    ensures Consistent(INITIAL)
  {
  }

  // ---------------------------------------------------------------------
  // flow_set_family

  /**
   * flow_set_family: the return value and the match variables afterwards.
   * A one-character address is the wildcard (no address).  The -ENOMEM
   * return of a failed malloc is not part of this model.
   */
  function SetFamilyOf(m: Match, c: Conv, family: nat, addr: seq<char>, port: Option<seq<char>>): (r: (int, Match))
    ensures r.0 == 0 || r.0 == -EINVAL
    ensures r.0 != 0 ==> r.1 == m
  {
    if m.ip1Set && m.ip2Set then (-EINVAL, m)
    else if !AddressSyntax(family, addr) then (-EINVAL, m)
    else if m.family != 0 && m.family != family then (-EINVAL, m)
    else
      var size := FamilySize(family);
      var m1 := if m.family == 0 then m.(family := family, familySize := size) else m;
      var mem := if |addr| != 1 then Some(Fit(c.pton(family, addr), size)) else None;
      if !m1.ip1Set then (0, m1.(ip1 := mem, port1 := PortOf(m1.port1, port, c), ip1Set := true))
      else (0, m1.(ip2 := mem, port2 := PortOf(m1.port2, port, c), ip2Set := true))
  }

  /** A tuple is accepted exactly when an end is free, its address passes the family's check and the family agrees with the match so far. */
  lemma SetFamilyAccepts(m: Match, c: Conv, family: nat, addr: seq<char>, port: Option<seq<char>>)
    ensures SetFamilyOf(m, c, family, addr, port).0 == 0 <==>
            !(m.ip1Set && m.ip2Set) && AddressSyntax(family, addr) && (m.family == 0 || m.family == family)
  {
  }

  /** Once both ends are given, a third tuple is refused and changes nothing. */
  lemma SetFamilyRejectsThird(m: Match, c: Conv, family: nat, addr: seq<char>, port: Option<seq<char>>)
    requires m.ip1Set && m.ip2Set
    ensures SetFamilyOf(m, c, family, addr, port) == (-EINVAL, m)
  {
  }

  /** A tuple of the other family is refused and changes nothing: v4 and v6 are never mixed. */
  lemma SetFamilyRejectsMix(m: Match, c: Conv, family: nat, addr: seq<char>, port: Option<seq<char>>)
    requires m.family != 0 && m.family != family
    ensures SetFamilyOf(m, c, family, addr, port) == (-EINVAL, m)
  {
  }

  /**
   * An accepted tuple fills the first free end, ip1 then ip2, with the
   * wildcard exactly for a one-character address, and leaves the other end,
   * the protocol and the vrf as they were.
   */
  lemma SetFamilyFillsFirstFree(m: Match, c: Conv, family: nat, addr: seq<char>, port: Option<seq<char>>)
    requires SetFamilyOf(m, c, family, addr, port).0 == 0
    ensures var r := SetFamilyOf(m, c, family, addr, port).1;
            r.family == family && r.proto == m.proto && r.vrf == m.vrf &&
            if !m.ip1Set then
              r.ip1Set && (r.ip1.None? <==> |addr| == 1) && r.port1 == PortOf(m.port1, port, c) &&
              r.ip2Set == m.ip2Set && r.ip2 == m.ip2 && r.port2 == m.port2
            else
              r.ip2Set && (r.ip2.None? <==> |addr| == 1) && r.port2 == PortOf(m.port2, port, c) &&
              r.ip1Set && r.ip1 == m.ip1 && r.port1 == m.port1
  {
  }

  /** The match variables an accepted tuple leaves, written out. */
  lemma SetFamilyStores(m: Match, c: Conv, family: nat, addr: seq<char>, port: Option<seq<char>>, m1: Match, mem: Option<seq<byte>>)
    requires !(m.ip1Set && m.ip2Set) && AddressSyntax(family, addr) && (m.family == 0 || m.family == family)
    requires m1 == if m.family == 0 then m.(family := family, familySize := FamilySize(family)) else m
    requires mem == if |addr| != 1 then Some(Fit(c.pton(family, addr), FamilySize(family))) else None
    ensures SetFamilyOf(m, c, family, addr, port) ==
            if !m.ip1Set then (0, m1.(ip1 := mem, port1 := PortOf(m1.port1, port, c), ip1Set := true))
            else (0, m1.(ip2 := mem, port2 := PortOf(m1.port2, port, c), ip2Set := true))
  {
  }

  lemma SetFamilyConsistent(m: Match, c: Conv, family: nat, addr: seq<char>, port: Option<seq<char>>)
    requires Consistent(m)
    ensures Consistent(SetFamilyOf(m, c, family, addr, port).1)
  {
  }

  // ---------------------------------------------------------------------
  // flow_set_tuple

  /** strchr from `i` in a string without its NUL: the first position of `c`. */
  function FirstFrom(s: seq<char>, c: char, i: nat): (r: Option<nat>)
    requires i <= |s|
    ensures r.Some? ==> i <= r.value < |s|
    decreases |s| - i
  {
    if i == |s| then None else if s[i] == c then Some(i) else FirstFrom(s, c, i + 1)
  }

  /** strrchr in the first `n` characters: the last position of `c`. */
  function LastBefore(s: seq<char>, c: char, n: nat): (r: Option<nat>)
    requires n <= |s|
    ensures r.Some? ==> r.value < n
  {
    if n == 0 then None else if s[n - 1] == c then Some(n - 1) else LastBefore(s, c, n - 1)
  }

  /** FirstFrom finds the first occurrence from `i` on, or says there is none. */
  lemma {:induction false} FirstFromSpec(s: seq<char>, c: char, i: nat)
    requires i <= |s|
    ensures var r := FirstFrom(s, c, i);
            (r.None? <==> forall k | i <= k < |s| :: s[k] != c) &&
            (r.Some? ==> i <= r.value < |s| && s[r.value] == c && forall k | i <= k < r.value :: s[k] != c)
    decreases |s| - i
  {
    if i < |s| && s[i] != c {
      FirstFromSpec(s, c, i + 1);
    }
  }

  /** LastBefore finds the last occurrence before `n`, or says there is none. */
  lemma {:induction false} LastBeforeSpec(s: seq<char>, c: char, n: nat)
    requires n <= |s|
    ensures var r := LastBefore(s, c, n);
            (r.None? <==> forall k | 0 <= k < n :: s[k] != c) &&
            (r.Some? ==> r.value < n && s[r.value] == c && forall k | r.value < k < n :: s[k] != c)
  {
    if n > 0 && s[n - 1] != c {
      LastBeforeSpec(s, c, n - 1);
    }
  }

  /**
   * The call flow_set_tuple makes: none (a malformed tuple), or
   * flow_set_family with the family, the address text, the port text, and
   * whether its result is checked.
   */
  datatype TupleCall = BadTuple | Call(family: nat, addr: seq<char>, port: Option<seq<char>>, checked: bool)

  /**
   * The dispatch of flow_set_tuple on the tuple text `s`.  With a '[' the
   * last ']' must be followed by ':' and at least one more character; the
   * address lies between the first character and the ']'.  Otherwise two
   * different colons mean IPv6 without a port (whose result the source does
   * not check), a single colon IPv4 with a port, no colon IPv4 alone.
   */
  function TupleDispatch(s: seq<char>): (t: TupleCall)
  {
    if FirstFrom(s, '[', 0).Some? then
      match LastBefore(s, ']', |s|)
      case None => BadTuple
      case Some(b) =>
        if |s| - (b + 1) < 2 || s[b + 1] != ':' then BadTuple
        else Call(AF_INET6 as nat, if b == 0 then s[1..] else s[1..b], Some(s[b + 2..]), true)
    else
      match FirstFrom(s, ':', 0)
      case None => Call(AF_INET as nat, s, None, true)
      case Some(f) =>
        if LastBefore(s, ':', |s|) != Some(f) then Call(AF_INET6 as nat, s, None, false)
        else Call(AF_INET as nat, s[..f], Some(s[f + 1..]), true)
  }

  /** A '[' with no ']' is malformed. */
  lemma TupleNoClosingBracket(s: seq<char>, i: nat)
    requires i < |s| && s[i] == '[' && forall k | 0 <= k < |s| :: s[k] != ']'
    ensures TupleDispatch(s) == BadTuple
  {
    FirstFromSpec(s, '[', 0);
    LastBeforeSpec(s, ']', |s|);
  }

  /** The bracketed form "[a]:p": well formed exactly when ':' and at least one character follow the last ']'. */
  lemma TupleBracketForm(s: seq<char>, i: nat, b: nat)
    requires i < |s| && s[i] == '['
    requires 0 < b < |s| && s[b] == ']' && forall k | b < k < |s| :: s[k] != ']'
    ensures TupleDispatch(s) != BadTuple <==> b + 2 < |s| && s[b + 1] == ':'
    ensures b + 2 < |s| && s[b + 1] == ':' ==> TupleDispatch(s) == Call(AF_INET6 as nat, s[1..b], Some(s[b + 2..]), true)
  {
    FirstFromSpec(s, '[', 0);
    LastBeforeSpec(s, ']', |s|);
    assert LastBefore(s, ']', |s|) == Some(b);
  }

  /** Without a '[', two colons at different positions make an IPv6 address without a port. */
  lemma TupleTwoColons(s: seq<char>, i: nat, j: nat)
    requires i < j < |s| && s[i] == ':' && s[j] == ':'
    requires forall k | 0 <= k < |s| :: s[k] != '['
    ensures TupleDispatch(s) == Call(AF_INET6 as nat, s, None, false)
  {
    FirstFromSpec(s, '[', 0);
    FirstFromSpec(s, ':', 0);
    LastBeforeSpec(s, ':', |s|);
    var f := FirstFrom(s, ':', 0);
    var l := LastBefore(s, ':', |s|);
    assert f.Some? && f.value <= i;
    assert l.Some? && l.value >= j;
  }

  /** Without a '[', a single colon separates an IPv4 address from its port. */
  lemma TupleOneColon(s: seq<char>, f: nat)
    requires f < |s| && s[f] == ':' && forall k | 0 <= k < |s| && k != f :: s[k] != ':'
    requires forall k | 0 <= k < |s| :: s[k] != '['
    ensures TupleDispatch(s) == Call(AF_INET as nat, s[..f], Some(s[f + 1..]), true)
  {
    FirstFromSpec(s, '[', 0);
    FirstFromSpec(s, ':', 0);
    LastBeforeSpec(s, ':', |s|);
    assert FirstFrom(s, ':', 0) == Some(f);
    assert LastBefore(s, ':', |s|) == Some(f);
  }

  /** With neither '[' nor ':', the whole tuple is an IPv4 address without a port. */
  lemma TupleNoColon(s: seq<char>)
    requires forall k | 0 <= k < |s| :: s[k] != '[' && s[k] != ':'
    ensures TupleDispatch(s) == Call(AF_INET as nat, s, None, true)
  {
    FirstFromSpec(s, '[', 0);
    FirstFromSpec(s, ':', 0);
  }

  /** flow_set_tuple as written: the result of the IPv6 call without a port is ignored. */
  function SetTupleAsWritten(m: Match, c: Conv, s: seq<char>): (r: (int, Match))
    ensures TupleDispatch(s).Call? && !TupleDispatch(s).checked ==> r.0 == 0
  {
    match TupleDispatch(s)
    case BadTuple => (-EINVAL, m)
    case Call(family, addr, port, checked) =>
      var x := SetFamilyOf(m, c, family, addr, port);
      (if checked then x.0 else 0, x.1)
  }

  /** flow_set_tuple with every flow_set_family result checked: the definition the parser uses. */
  function SetTupleOf(m: Match, c: Conv, s: seq<char>): (r: (int, Match))
    ensures r.0 == 0 || r.0 == -EINVAL
    ensures r.0 != 0 ==> r.1 == m
  {
    match TupleDispatch(s)
    case BadTuple => (-EINVAL, m)
    case Call(family, addr, port, _) => SetFamilyOf(m, c, family, addr, port)
  }

  /** The two agree on every tuple but an unchecked one that flow_set_family refuses. */
  lemma SetTupleAgrees(m: Match, c: Conv, s: seq<char>)
    ensures SetTupleAsWritten(m, c, s) != SetTupleOf(m, c, s) <==>
            TupleDispatch(s).Call? && !TupleDispatch(s).checked && SetTupleOf(m, c, s).0 != 0
  {
  }

  /**
   * "12345::1" has two colons and a group of five digits: flow_set_family
   * refuses it, but the tuple is reported as accepted and the match stays
   * empty; with the result checked it is an error.
   */
  lemma UncheckedTupleIgnored(c: Conv)
    ensures SetTupleAsWritten(INITIAL, c, "12345::1") == (0, INITIAL)
    ensures SetTupleOf(INITIAL, c, "12345::1") == (-EINVAL, INITIAL)
  {
    var s := "12345::1";
    TupleTwoColons(s, 5, 6);
    assert AlnumRun(s, 5) == 5;
    assert !Ipv6CharOk(s, 4);
    assert !AddressSyntax(AF_INET6 as nat, s);
  }

  /** Once both ends are given, the checked dispatch refuses every further tuple and changes nothing. */
  lemma ThirdTupleRejected(m: Match, c: Conv, s: seq<char>)
    requires m.ip1Set && m.ip2Set
    ensures SetTupleOf(m, c, s) == (-EINVAL, m)
  {
  }

  /**
   * As written, a further tuple once both ends are given still changes
   * nothing, but it is reported as accepted exactly when it is a portless
   * IPv6 tuple, whose flow_set_family result is not checked.
   */
  lemma ThirdTupleAsWritten(m: Match, c: Conv, s: seq<char>)
    requires m.ip1Set && m.ip2Set
    ensures SetTupleAsWritten(m, c, s).1 == m
    ensures SetTupleAsWritten(m, c, s).0 == 0 <==> TupleDispatch(s).Call? && !TupleDispatch(s).checked
  {
  }

  lemma SetTupleConsistent(m: Match, c: Conv, s: seq<char>)
    requires Consistent(m)
    ensures Consistent(SetTupleOf(m, c, s).1)
  {
    match TupleDispatch(s)
    case BadTuple =>
    case Call(family, addr, port, _) => SetFamilyConsistent(m, c, family, addr, port);
  }

  // ---------------------------------------------------------------------
  // flow_set_proto and flow_set_vrf

  /** flow_set_proto: the first of tcp, udp, icmp6, icmp, sctp that prefixes the name. */
  function SetProtoOf(m: Match, s: seq<char>): (r: (int, Match))
    ensures r.0 == 0 || r.0 == -EINVAL
  {
    if |s| == 0 then (-EINVAL, m)
    else if IsPrefix("tcp", s) then (0, m.(proto := PROTO_TCP))
    else if IsPrefix("udp", s) then (0, m.(proto := PROTO_UDP))
    else if IsPrefix("icmp6", s) then (0, m.(proto := PROTO_ICMP6))
    else if IsPrefix("icmp", s) then (0, m.(proto := PROTO_ICMP))
    else if IsPrefix("sctp", s) then (0, m.(proto := PROTO_SCTP))
    else (-EINVAL, m)
  }

  /** An accepted name sets only the protocol, to one the tool can name; a refused one changes nothing. */
  lemma SetProtoResult(m: Match, s: seq<char>)
    ensures var r := SetProtoOf(m, s);
            if r.0 == 0 then
              r.1 == m.(proto := r.1.proto) && r.1.proto in {PROTO_ICMP, PROTO_TCP, PROTO_UDP, PROTO_ICMP6, PROTO_SCTP} &&
              ProtoString(r.1.proto as u16) != "UNKNOWN"
            else r.1 == m
  {
    var r := SetProtoOf(m, s);
    if r.0 == 0 {
      var n := ProtoString(r.1.proto as u16);
    }
  }

  /** "icmp6" is tried before "icmp": a name starting with icmp6 is ICMPv6, "icmp" alone is ICMP. */
  lemma SetProtoIcmp6First(m: Match, s: seq<char>)
    ensures IsPrefix("icmp6", s) ==> SetProtoOf(m, s) == (0, m.(proto := PROTO_ICMP6))
    ensures s == "icmp" ==> SetProtoOf(m, s) == (0, m.(proto := PROTO_ICMP))
  {
    if IsPrefix("icmp6", s) || s == "icmp" {
      assert s[0] == 'i' && s[1] == 'c';
      assert !IsPrefix("tcp", s) && !IsPrefix("udp", s);
      if s == "icmp" {
        assert !IsPrefix("icmp6", s);
        assert IsPrefix("icmp", s);
      } else {
        assert IsPrefix("icmp6", s);
      }
    }
  }

  /** The empty name and a name with none of the five prefixes are refused. */
  lemma SetProtoRefuses(m: Match, s: seq<char>)
    ensures SetProtoOf(m, s).0 != 0 <==>
            |s| == 0 || !(IsPrefix("tcp", s) || IsPrefix("udp", s) || IsPrefix("icmp", s) || IsPrefix("sctp", s))
  {
    if IsPrefix("icmp6", s) {
      assert s[..4] == s[..5][..4];
      assert IsPrefix("icmp", s);
    }
  }

  /**
   * flow_set_vrf: the empty string is refused; otherwise the vrf is set
   * from strtoul before errno is looked at, so an error still sets it.
   */
  function SetVrfOf(m: Match, c: Conv, s: seq<char>): (r: (int, Match))
    ensures |s| == 0 ==> r == (-EINVAL, m)
    ensures |s| > 0 ==> r.1 == m.(vrf := ToInt32(c.strtoul(s))) && (r.0 == 0 <==> c.errnoOf(s) == 0) && r.0 <= 0
  {
    if |s| == 0 then (-EINVAL, m)
    else
      var m1 := m.(vrf := ToInt32(c.strtoul(s)));
      if c.errnoOf(s) != 0 then (-(c.errnoOf(s) as int), m1) else (0, m1)
  }

  /** flow_set_match calls flow_set_vrf twice on the same text: the second call changes nothing. */
  lemma SetVrfTwice(m: Match, c: Conv, s: seq<char>)
    ensures SetVrfOf(SetVrfOf(m, c, s).1, c, s) == SetVrfOf(m, c, s)
  {
  }

  // ---------------------------------------------------------------------
  // flow_set_ip and flow_set_match
  //
  // Both loops take a token out of the argument, act on it at once, and go
  // on one past the token's NUL while nothing failed and the argument is not
  // used up.  What a token does never changes the argument past the token,
  // so each loop is the list of tokens it takes followed by their actions in
  // order, stopping at the first failure.

  /** The string that starts at `i` of the buffer; reading past the buffer is taken as the empty string. */
  function StringAt(buf: seq<char>, i: nat): seq<char>
  {
    if i < |buf| && Terminated(buf, i) then buf[i..End(buf, i)] else []
  }

  /**
   * The tuples flow_set_ip takes from `rest`, the part of the argument not
   * yet consumed, which ends `length - consumed` characters on: a
   * ','-separated token, or else a '&'-separated one.
   */
  function IpTokens(rest: seq<char>, consumed: nat, length: nat): seq<seq<char>>
    requires consumed <= length && Terminated(rest, 0) && End(rest, 0) == length - consumed
    decreases length - consumed
  {
    var sep := if ExtractToken(rest, ',').0.Some? then ',' else '&';
    var x := ExtractToken(rest, sep);
    if x.0.None? then []
    else
      RestAfterToken(rest, sep);
      var st := x.0.value;
      var e := End(x.1, st);
      [x.1[st..e]] + (if consumed + e + 1 < length then IpTokens(x.1[e + 1..], consumed + e + 1, length) else [])
  }

  /** Setting the tuples in order, stopping at the first one refused. */
  function ApplyTuples(m: Match, c: Conv, toks: seq<seq<char>>): (r: (int, Match))
    ensures r.0 == 0 || r.0 == -EINVAL
    decreases |toks|
  {
    if |toks| == 0 then (0, m)
    else
      var y := SetTupleOf(m, c, toks[0]);
      if y.0 != 0 then y else ApplyTuples(y.1, c, toks[1..])
  }

  /** Setting the tuples in order with flow_set_tuple as written, stopping at the first one refused. */
  function ApplyTuplesAsWritten(m: Match, c: Conv, toks: seq<seq<char>>): (r: (int, Match))
    ensures r.0 == 0 || r.0 == -EINVAL
    decreases |toks|
  {
    if |toks| == 0 then (0, m)
    else
      var y := SetTupleAsWritten(m, c, toks[0]);
      if y.0 != 0 then y else ApplyTuplesAsWritten(y.1, c, toks[1..])
  }

  /** Where no tuple is an IPv6 one without a port, the tuples as written and as corrected give the same result. */
  lemma {:induction false} ApplyTuplesAgree(m: Match, c: Conv, toks: seq<seq<char>>)
    requires forall i | 0 <= i < |toks| :: TupleDispatch(toks[i]).Call? ==> TupleDispatch(toks[i]).checked
    ensures ApplyTuplesAsWritten(m, c, toks) == ApplyTuples(m, c, toks)
    decreases |toks|
  {
    if |toks| > 0 {
      SetTupleAgrees(m, c, toks[0]);
      var y := SetTupleOf(m, c, toks[0]);
      assert forall i | 0 <= i < |toks[1..]| :: toks[1..][i] == toks[i + 1];
      ApplyTuplesAgree(y.1, c, toks[1..]);
    }
  }

  /** The match after "10.1.1.3" is set on an empty one. */
  function FirstIpv4End(c: Conv): Match
  {
    INITIAL.(family := AF_INET as nat, familySize := IP4_ADDRESS_LEN,
             ip1 := Some(Fit(c.pton(AF_INET as nat, "10.1.1.3"), IP4_ADDRESS_LEN)), ip1Set := true)
  }

  /** "10.1.1.3" on an empty match becomes the first end, without a port. */
  lemma Ipv4TupleFirstEnd(c: Conv)
    ensures SetTupleAsWritten(INITIAL, c, "10.1.1.3") == (0, FirstIpv4End(c))
  {
    Ipv4Examples();
    TupleNoColon("10.1.1.3");
    assert AddressSyntax(AF_INET as nat, "10.1.1.3");
    assert SetFamilyOf(INITIAL, c, AF_INET as nat, "10.1.1.3", None) == (0, FirstIpv4End(c));
  }

  /**
   * "12345::1,10.1.1.3": as written the refused IPv6 tuple is skipped and
   * the IPv4 one becomes the first end; with every result checked the whole
   * list is refused and nothing is set.
   */
  lemma UncheckedTupleThenIpv4(c: Conv)
    ensures ApplyTuplesAsWritten(INITIAL, c, ["12345::1", "10.1.1.3"]) == (0, FirstIpv4End(c))
    ensures ApplyTuples(INITIAL, c, ["12345::1", "10.1.1.3"]) == (-EINVAL, INITIAL)
  {
    var toks := ["12345::1", "10.1.1.3"];
    UncheckedTupleIgnored(c);
    Ipv4TupleFirstEnd(c);
    assert toks[0] == "12345::1" && toks[1..] == ["10.1.1.3"];
    assert ApplyTuplesAsWritten(INITIAL, c, toks) == ApplyTuplesAsWritten(INITIAL, c, ["10.1.1.3"]);
    assert ["10.1.1.3"][0] == "10.1.1.3" && ["10.1.1.3"][1..] == [];
    assert ApplyTuplesAsWritten(INITIAL, c, ["10.1.1.3"]) == ApplyTuplesAsWritten(FirstIpv4End(c), c, []);
  }

  /** flow_set_ip on the string at 0 of `s`. */
  function SetIpOf(m: Match, c: Conv, s: seq<char>): (int, Match)
    requires Terminated(s, 0)
  {
    ApplyTuples(m, c, IpTokens(s, 0, End(s, 0)))
  }

  /** A clause of flow_set_match: the text after "proto=" or "vrf=", or the tuples of anything else. */
  datatype Clause = ProtoClause(name: seq<char>) | VrfClause(number: seq<char>) | IpClause(tuples: seq<seq<char>>)

  /**
   * The clauses flow_set_match takes from `rest`, '&'-separated.  The text
   * after "proto" or "vrf" is read from one character past the keyword.
   */
  function Clauses(rest: seq<char>, consumed: nat, length: nat): seq<Clause>
    requires consumed <= length && Terminated(rest, 0) && End(rest, 0) == length - consumed
    decreases length - consumed
  {
    var x := ExtractToken(rest, '&');
    if x.0.None? then []
    else
      RestAfterToken(rest, '&');
      var st := x.0.value;
      var e := End(x.1, st);
      [ClauseAt(x.1, st)] + (if consumed + e + 1 < length then Clauses(x.1[e + 1..], consumed + e + 1, length) else [])
  }

  /** The clause of the token at `st` of `buf`. */
  function ClauseAt(buf: seq<char>, st: nat): Clause
    requires Terminated(buf, st)
  {
    var tok := buf[st..End(buf, st)];
    CopiedString(buf, st);
    if IsPrefix("proto", tok) then ProtoClause(StringAt(buf, st + 6))
    else if IsPrefix("vrf", tok) then VrfClause(StringAt(buf, st + 4))
    else IpClause(IpTokens(tok + [NUL], 0, |tok|))
  }

  /** What one clause does; flow_set_vrf is called twice and the second result returned. */
  function ApplyClause(m: Match, c: Conv, cl: Clause): (int, Match)
  {
    match cl
    case ProtoClause(name) => SetProtoOf(m, name)
    case VrfClause(number) => SetVrfOf(SetVrfOf(m, c, number).1, c, number)
    case IpClause(tuples) => ApplyTuples(m, c, tuples)
  }

  /** The clauses in order, stopping at the first that fails. */
  function ApplyClauses(m: Match, c: Conv, cls: seq<Clause>): (int, Match)
    decreases |cls|
  {
    if |cls| == 0 then (0, m)
    else
      var y := ApplyClause(m, c, cls[0]);
      if y.0 != 0 then y else ApplyClauses(y.1, c, cls[1..])
  }

  /** flow_set_match on the string at 0 of `s`. */
  function ParseMatch(m: Match, c: Conv, s: seq<char>): (int, Match)
    requires Terminated(s, 0)
  {
    ApplyClauses(m, c, Clauses(s, 0, End(s, 0)))
  }

  lemma {:induction false} ApplyTuplesConsistent(m: Match, c: Conv, toks: seq<seq<char>>)
    requires Consistent(m)
    ensures Consistent(ApplyTuples(m, c, toks).1)
    decreases |toks|
  {
    if |toks| > 0 {
      SetTupleConsistent(m, c, toks[0]);
      ApplyTuplesConsistent(SetTupleOf(m, c, toks[0]).1, c, toks[1..]);
    }
  }

  /** After two tuples are set, any further tuple fails and the match keeps its two ends. */
  lemma {:induction false} ApplyTuplesAtMostTwo(m: Match, c: Conv, toks: seq<seq<char>>)
    requires m.ip1Set && m.ip2Set && |toks| > 0
    ensures ApplyTuples(m, c, toks) == (-EINVAL, m)
  {
    ThirdTupleRejected(m, c, toks[0]);
  }

  lemma {:induction false} ApplyClausesConsistent(m: Match, c: Conv, cls: seq<Clause>)
    requires Consistent(m)
    ensures Consistent(ApplyClauses(m, c, cls).1)
    decreases |cls|
  {
    if |cls| > 0 {
      ApplyClauseConsistent(m, c, cls[0]);
      ApplyClausesConsistent(ApplyClause(m, c, cls[0]).1, c, cls[1..]);
    }
  }

  lemma ApplyClauseConsistent(m: Match, c: Conv, cl: Clause)
    requires Consistent(m)
    ensures Consistent(ApplyClause(m, c, cl).1)
  {
    match cl
    case ProtoClause(name) =>
      var r := SetProtoOf(m, name).1;
      assert r == m || r == m.(proto := r.proto);
    case VrfClause(number) =>
      var r := SetVrfOf(SetVrfOf(m, c, number).1, c, number).1;
      assert r == m || r == m.(vrf := r.vrf);
    case IpClause(tuples) =>
      ApplyTuplesConsistent(m, c, tuples);
  }

  /** Whatever the argument, the parsed match keeps the invariant. */
  lemma ParseMatchConsistent(c: Conv, s: seq<char>)
    requires Terminated(s, 0)
    ensures Consistent(ParseMatch(INITIAL, c, s).1)
  {
    ApplyClausesConsistent(INITIAL, c, Clauses(s, 0, End(s, 0)));
  }

  // ---------------------------------------------------------------------
  // The table dump's use of the match

  /**
   * The address test of the table dump: try ip1 as the source and else as
   * the destination, then ip2 for the end ip1 did not match; with both ends
   * given, each must match a different end.  The destination test is the
   * corrected one (FlowCli.MatchDest).
   */
  predicate TuplesMatch(m: Match, e: FlowEntry)
  {
    var s1 := m.ip1Set && MatchSource(e, m.ip1, m.port1, m.familySize);
    var d1 := m.ip1Set && !s1 && MatchDest(e, m.ip1, m.port1, m.familySize);
    var s2 := if !m.ip2Set then s1 else if s1 then s1 else MatchSource(e, m.ip2, m.port2, m.familySize);
    var d2 := if !m.ip2Set then d1
              else if s1 then MatchDest(e, m.ip2, m.port2, m.familySize)
              else if d1 then d1
              else !s2 && MatchDest(e, m.ip2, m.port2, m.familySize);
    var rejected := m.ip2Set && ((s1 && !d2) || (!s1 && d1 && !s2));
    !rejected && (s2 || d2) && (!(m.ip1Set && m.ip2Set) || (s2 && d2))
  }

  /**
   * The address test of the table dump as written, on flow_match_dest as
   * written: None when the dump reaches flow_match_dest with the NULL
   * address of a "*:port" end, the memcmp the source does not guard.
   * It is defined whenever no end is a wildcard address with a port, and
   * wherever it is defined it agrees with TuplesMatch (TuplesMatchAgrees).
   */
  function TuplesMatchAsWritten(m: Match, e: FlowEntry): (r: Option<bool>)
    ensures (m.ip1Set ==> m.ip1.Some? || m.port1 < 0) && (m.ip2Set ==> m.ip2.Some? || m.port2 < 0) ==> r.Some?
    ensures m.ip1Set && m.ip1.None? && m.port1 >= 0 && !MatchSource(e, m.ip1, m.port1, m.familySize) ==> r.None?
  {
    var n := m.familySize;
    var s1 := m.ip1Set && MatchSource(e, m.ip1, m.port1, n);
    var d1 := if m.ip1Set && !s1 then MatchDestAsWritten(e, m.ip1, m.port1, n) else Some(false);
    if d1.None? then None
    else if !m.ip2Set then Some(s1 || d1.value)
    else if s1 then MatchDestAsWritten(e, m.ip2, m.port2, n)
    else if d1.value then Some(MatchSource(e, m.ip2, m.port2, n))
    else if MatchSource(e, m.ip2, m.port2, n) then Some(!m.ip1Set)
    else
      var d2 := MatchDestAsWritten(e, m.ip2, m.port2, n);
      if d2.None? then None else Some(!m.ip1Set && d2.value)
  }

  /** Wherever the dump as written is defined, the corrected address test gives the same verdict. */
  lemma TuplesMatchAgrees(m: Match, e: FlowEntry)
    ensures TuplesMatchAsWritten(m, e).Some? ==> TuplesMatchAsWritten(m, e).value == TuplesMatch(m, e)
  {
  }

  /** Whether the table dump shows the entry `e`, whose vrf is `feVrf`. */
  predicate Selected(m: Match, e: FlowEntry, feVrf: int, showEvicted: bool)
  {
    Has(e.flags, FLAG_ACTIVE) &&
    (!Has(e.flags, FLAG_EVICTED) || showEvicted) &&
    (m.vrf < 0 || feVrf == m.vrf) &&
    (m.proto < 0 || e.key.proto as int == m.proto) &&
    (m.family == 0 || (m.family == FlowFamily(e.fType) as nat && TuplesMatch(m, e)))
  }

  /** With one end given, an entry matches when that end is its source or its destination. */
  lemma OneEndMatches(m: Match, e: FlowEntry)
    requires m.ip1Set && !m.ip2Set
    ensures TuplesMatch(m, e) <==>
            MatchSource(e, m.ip1, m.port1, m.familySize) || MatchDest(e, m.ip1, m.port1, m.familySize)
  {
  }

  /**
   * With both ends given, ip1 is tried as the source first: an entry
   * matches when ip1 is its source and ip2 its destination, or when ip1 is
   * not its source but its destination and ip2 its source.
   */
  lemma BothEndsMatch(m: Match, e: FlowEntry)
    requires m.ip1Set && m.ip2Set
    ensures TuplesMatch(m, e) <==>
            (MatchSource(e, m.ip1, m.port1, m.familySize) && MatchDest(e, m.ip2, m.port2, m.familySize)) ||
            (!MatchSource(e, m.ip1, m.port1, m.familySize) && MatchDest(e, m.ip1, m.port1, m.familySize) &&
             MatchSource(e, m.ip2, m.port2, m.familySize))
  {
  }

  /** So with both ends given, a shown entry has one end as its source and the other as its destination. */
  lemma BothEndsPaired(m: Match, e: FlowEntry, feVrf: int, showEvicted: bool)
    requires m.ip1Set && m.ip2Set && m.family != 0 && Selected(m, e, feVrf, showEvicted)
    ensures (MatchSource(e, m.ip1, m.port1, m.familySize) && MatchDest(e, m.ip2, m.port2, m.familySize)) ||
            (MatchDest(e, m.ip1, m.port1, m.familySize) && MatchSource(e, m.ip2, m.port2, m.familySize))
  {
    BothEndsMatch(m, e);
  }

  /** With nothing given, the dump shows every active entry that is not evicted (or evicted entries too when asked). */
  lemma EmptyMatchShowsActive(e: FlowEntry, feVrf: int, showEvicted: bool)
    ensures Selected(INITIAL, e, feVrf, showEvicted) <==>
            Has(e.flags, FLAG_ACTIVE) && (!Has(e.flags, FLAG_EVICTED) || showEvicted)
  {
  }

  // ---------------------------------------------------------------------
  // The match variables

  /** The match variables as the tool keeps them, updated by the parser in place. */
  class MatchState {
    var family: nat
    var familySize: nat
    var port1: int
    var port2: int
    var proto: int
    var vrf: int
    var ip1: Option<seq<byte>>
    var ip2: Option<seq<byte>>
    var ip1Set: bool
    var ip2Set: bool
    const conv: Conv

    function Snapshot(): Match
      reads this
    {
      Match(family, familySize, port1, port2, proto, vrf, ip1, ip2, ip1Set, ip2Set)
    }

    constructor (conv: Conv)
      ensures Snapshot() == INITIAL && this.conv == conv
    {
      this.conv := conv;
      family, familySize := 0, 0;
      port1, port2, proto, vrf := -1, -1, -1, -1;
      ip1, ip2 := None, None;
      ip1Set, ip2Set := false, false;
    }

    /** flow_set_family. */
    method SetFamily(fam: nat, addr: seq<char>, port: Option<seq<char>>) returns (ret: int)
      modifies this
      ensures (ret, Snapshot()) == SetFamilyOf(old(Snapshot()), conv, fam, addr, port)
    {
      if ip1Set && ip2Set {
        return -EINVAL;
      }
      var size: nat;
      var ok: bool;
      if fam == AF_INET as nat {
        size := IP4_ADDRESS_LEN;
        ok := ValidIpv4Address(addr);
      } else if fam == AF_INET6 as nat {
        size := IP6_ADDRESS_LEN;
        ok := ValidIpv6Address(addr);
      } else {
        return -EINVAL;
      }
      if !ok {
        return -EINVAL;
      }
      if family != 0 && family != fam {
        return -EINVAL;
      }
      assert AddressSyntax(fam, addr) && size == FamilySize(fam);
      if family == 0 {
        family, familySize := fam, size;
      }
      var mem: Option<seq<byte>> := None;
      if |addr| != 1 {
        mem := Some(Fit(conv.pton(fam, addr), size));
      }
      SetFamilyStores(old(Snapshot()), conv, fam, addr, port, Snapshot(), mem);
      FillEnd(mem, port);
      return 0;
    }

    /** The end of flow_set_family: the address and port go to ip1 while it is free, else to ip2. */
    method FillEnd(mem: Option<seq<byte>>, port: Option<seq<char>>)
      modifies this
      ensures Snapshot() == if !old(ip1Set) then old(Snapshot()).(ip1 := mem, port1 := PortOf(old(port1), port, conv), ip1Set := true)
                            else old(Snapshot()).(ip2 := mem, port2 := PortOf(old(port2), port, conv), ip2Set := true)
    {
      var setPort := port.Some? && !(|port.value| > 0 && port.value[0] == '*');
      if !ip1Set {
        ip1 := mem;
        if setPort {
          port1 := ToInt32(conv.strtoul(port.value));
        }
        ip1Set := true;
      } else {
        ip2 := mem;
        if setPort {
          port2 := ToInt32(conv.strtoul(port.value));
        }
        ip2Set := true;
      }
    }

    /** flow_set_tuple, with every flow_set_family result checked. */
    method SetTuple(s: seq<char>) returns (ret: int)
      modifies this
      ensures (ret, Snapshot()) == SetTupleOf(old(Snapshot()), conv, s)
    {
      var call := TupleDispatch(s);
      if call.BadTuple? {
        return -EINVAL;
      }
      ret := SetFamily(call.family, call.addr, call.port);
      if ret != 0 {
        ret := -EINVAL;
      }
    }

    /** flow_set_proto. */
    method SetProto(s: seq<char>) returns (ret: int)
      modifies this
      ensures (ret, Snapshot()) == SetProtoOf(old(Snapshot()), s)
    {
      if |s| == 0 {
        return -EINVAL;
      }
      if IsPrefix("tcp", s) {
        proto := PROTO_TCP;
      } else if IsPrefix("udp", s) {
        proto := PROTO_UDP;
      } else if IsPrefix("icmp6", s) {
        proto := PROTO_ICMP6;
      } else if IsPrefix("icmp", s) {
        proto := PROTO_ICMP;
      } else if IsPrefix("sctp", s) {
        proto := PROTO_SCTP;
      } else {
        return -EINVAL;
      }
      return 0;
    }

    /** flow_set_vrf. */
    method SetVrf(s: seq<char>) returns (ret: int)
      modifies this
      ensures (ret, Snapshot()) == SetVrfOf(old(Snapshot()), conv, s)
    {
      if |s| == 0 {
        return -EINVAL;
      }
      vrf := ToInt32(conv.strtoul(s));
      var errno := conv.errnoOf(s);
      if errno != 0 {
        return -(errno as int);
      }
      return 0;
    }

    /** The loop of flow_set_ip over the tuples it takes, stopping at the first refused. */
    method SetTuples(toks: seq<seq<char>>) returns (ret: int)
      modifies this
      ensures (ret, Snapshot()) == ApplyTuples(old(Snapshot()), conv, toks)
    {
      var i := 0;
      while i < |toks|
        invariant i <= |toks|
        invariant ApplyTuples(Snapshot(), conv, toks[i..]) == ApplyTuples(old(Snapshot()), conv, toks)
      {
        assert toks[i..][1..] == toks[i + 1..];
        ret := SetTuple(toks[i]);
        if ret != 0 {
          return;
        }
        i := i + 1;
      }
      return 0;
    }

    /** flow_set_ip on the string at 0 of `s`. */
    method SetIp(s: seq<char>) returns (ret: int)
      requires Terminated(s, 0)
      modifies this
      ensures (ret, Snapshot()) == SetIpOf(old(Snapshot()), conv, s)
    {
      ret := SetTuples(IpTokens(s, 0, End(s, 0)));
    }

    /** One clause of flow_set_match. */
    method SetClause(cl: Clause) returns (ret: int)
      modifies this
      ensures (ret, Snapshot()) == ApplyClause(old(Snapshot()), conv, cl)
    {
      match cl {
        case ProtoClause(name) =>
          ret := SetProto(name);
        case VrfClause(number) =>
          ret := SetVrf(number);
          ret := SetVrf(number);
        case IpClause(tuples) =>
          ret := SetTuples(tuples);
      }
    }

    /** flow_set_match on the string at 0 of `s`. */
    method SetMatch(s: seq<char>) returns (ret: int)
      requires Terminated(s, 0)
      modifies this
      ensures (ret, Snapshot()) == ParseMatch(old(Snapshot()), conv, s)
    {
      var cls := Clauses(s, 0, End(s, 0));
      var i := 0;
      while i < |cls|
        invariant i <= |cls|
        invariant ApplyClauses(Snapshot(), conv, cls[i..]) == ApplyClauses(old(Snapshot()), conv, cls)
      {
        assert cls[i..][1..] == cls[i + 1..];
        ret := SetClause(cls[i]);
        if ret != 0 {
          return;
        }
        i := i + 1;
      }
      return 0;
    }
  }
}
