// The argument handling of the `vif` command-line tool (utils/vif.c): the
// interface-type and transport keywords, the flag-symbol string of the
// listing, the number check and the NULL-safe strtoul, the option-combination
// check, the error-counter correction and rate arithmetic of the rate view,
// its paging keys and the PCI address shown for a physical interface.  The
// numeric values of VIF_TYPE_*, VIF_TRANSPORT_* and VIF_FLAG_* are not in the
// files of this model: the types and transports are datatypes, the flag bits
// a parameter.

module VifCli {
  import opened Base
  import opened VrUtil

  // ---------------------------------------------------------------------
  // vr_get_if_type and vr_get_if_transport

  /** The interface types the --type option names. */
  datatype IfType = Host | Agent | Physical | VirtualVlan | Virtual | XenLlHost | Gateway | Stats | Monitoring

  /** The keyword of each type (the *_TYPE_STRING macros). */
  function TypeKeyword(t: IfType): seq<char>
  {
    match t
    case Host => "vhost"
    case Agent => "agent"
    case Physical => "physical"
    case VirtualVlan => "virtual-vlan"
    case Virtual => "virtual"
    case XenLlHost => "xenll"
    case Gateway => "gateway"
    case Stats => "stats"
    case Monitoring => "monitoring"
  }

  /** vr_get_if_type: the first keyword, in the tool's order, that starts the argument; None where the tool exits through Usage. */
  function GetIfType(s: seq<char>): Option<IfType>
  {
    if IsPrefix("vhost", s) then Some(Host)
    else if IsPrefix("agent", s) then Some(Agent)
    else if IsPrefix("physical", s) then Some(Physical)
    else if IsPrefix("virtual-vlan", s) then Some(VirtualVlan)
    else if IsPrefix("virtual", s) then Some(Virtual)
    else if IsPrefix("xenll", s) then Some(XenLlHost)
    else if IsPrefix("gateway", s) then Some(Gateway)
    else if IsPrefix("stats", s) then Some(Stats)
    else if IsPrefix("monitoring", s) then Some(Monitoring)
    else None
  }

  lemma PrefixAt(p: seq<char>, s: seq<char>, k: nat)
    requires IsPrefix(p, s) && k < |p|
    ensures s[k] == p[k]
  {
    assert s[..|p|][k] == s[k];
  }

  lemma KeywordStarts(t: IfType, rest: seq<char>)
    ensures IsPrefix(TypeKeyword(t), TypeKeyword(t) + rest)
  {
    assert (TypeKeyword(t) + rest)[..|TypeKeyword(t)|] == TypeKeyword(t);
  }

  /**
   * Every keyword, followed by anything, names its type: prefix matching
   * accepts "vhost0" as vhost.  The one exception is ordering: "virtual"
   * followed by "-vlan" is the virtual-vlan keyword, tried first.
   */
  lemma GetIfTypeOfKeyword(t: IfType, rest: seq<char>)
    requires t == Virtual ==> !IsPrefix("-vlan", rest)
    ensures GetIfType(TypeKeyword(t) + rest) == Some(t)
  {
    var s := TypeKeyword(t) + rest;
    KeywordStarts(t, rest);
    assert s[0] == TypeKeyword(t)[0] && s[1] == TypeKeyword(t)[1];
    if t == Virtual {
      VlanAfterVirtual(rest);
    }
  }

  lemma VlanAfterVirtual(rest: seq<char>)
    ensures IsPrefix("virtual-vlan", "virtual" + rest) ==> IsPrefix("-vlan", rest)
  {
    var s := "virtual" + rest;
    if IsPrefix("virtual-vlan", s) {
      assert s[..12] == "virtual" + rest[..5];
      assert rest[..5] == s[..12][7..];
      assert "virtual-vlan"[7..] == "-vlan";
    }
  }

  /** Usage is the answer exactly when no keyword starts the argument. */
  lemma GetIfTypeRefuses(s: seq<char>)
    ensures GetIfType(s).None? <==> forall t: IfType :: !IsPrefix(TypeKeyword(t), s)
  {
    if GetIfType(s).None? {
      forall t: IfType ensures !IsPrefix(TypeKeyword(t), s) {
      }
    } else {
      assert IsPrefix(TypeKeyword(GetIfType(s).value), s);
    }
  }

  /** The transports the --transport option names. */
  datatype Transport = Eth | Pmd | VirtualTransport | Socket

  function TransportKeyword(t: Transport): seq<char>
  {
    match t
    case Eth => "eth"
    case Pmd => "pmd"
    case VirtualTransport => "virtual"
    case Socket => "socket"
  }

  /** vr_get_if_transport: the first of eth, pmd, virtual, socket that starts the argument; None where the tool exits through Usage. */
  function GetIfTransport(s: seq<char>): Option<Transport>
  {
    if IsPrefix("eth", s) then Some(Eth)
    else if IsPrefix("pmd", s) then Some(Pmd)
    else if IsPrefix("virtual", s) then Some(VirtualTransport)
    else if IsPrefix("socket", s) then Some(Socket)
    else None
  }

  /** Every transport keyword, followed by anything, names its transport, and nothing else is accepted. */
  lemma GetIfTransportOfKeyword(t: Transport, rest: seq<char>)
    ensures GetIfTransport(TransportKeyword(t) + rest) == Some(t)
  {
    var s := TransportKeyword(t) + rest;
    assert s[..|TransportKeyword(t)|] == TransportKeyword(t);
    assert s[0] == TransportKeyword(t)[0];
  }

  lemma GetIfTransportRefuses(s: seq<char>)
    ensures GetIfTransport(s).None? <==> forall t: Transport :: !IsPrefix(TransportKeyword(t), s)
  {
    if GetIfTransport(s).Some? {
      assert IsPrefix(TransportKeyword(GetIfTransport(s).value), s);
    }
  }

  // ---------------------------------------------------------------------
  // vr_if_flags

  /** The symbols of flag_metadata, in table order. */
  const FLAG_SYMBOLS: seq<seq<char>> :=
    ["P", "X", "S", "Mr", "Mt", "Tc", "L3", "L2", "D", "Vp", "Pr", "Vnt", "Mnp", "Dpdk", "Rfl",
     "Mon", "Uuf", "Vof", "Df", "L", "Proxy", "Er", "Mn", "HbsL", "HbsR", "Ig", "Ml"]

  /** sizeof(flag_string). */
  const FLAG_STRING_SIZE: nat := 64

  /** The VIF_FLAG_* bit of each table entry. */
  predicate FlagSet(flags: bv32, bits: seq<bv32>, k: nat)
    requires k < |bits|
  {
    flags & bits[k] != 0
  }

  /** The symbols of the set flags among the first `n` table entries, joined in table order. */
  function SetSymbols(flags: bv32, bits: seq<bv32>, n: nat): seq<char>
    requires |bits| == |FLAG_SYMBOLS| && n <= |bits|
  {
    if n == 0 then []
    else SetSymbols(flags, bits, n - 1) + (if FlagSet(flags, bits, n - 1) then FLAG_SYMBOLS[n - 1] else [])
  }

  /** Entry `k` is set and its symbol does not fit after those of the set flags before it. */
  predicate Overflows(flags: bv32, bits: seq<bv32>, k: nat)
    requires |bits| == |FLAG_SYMBOLS| && k < |bits|
  {
    FlagSet(flags, bits, k) && |SetSymbols(flags, bits, k)| + |FLAG_SYMBOLS[k]| >= FLAG_STRING_SIZE
  }

  /** The first entry from `j` on whose symbol does not fit, or the table size. */
  function Stop(flags: bv32, bits: seq<bv32>, j: nat): (n: nat)
    requires |bits| == |FLAG_SYMBOLS| && j <= |bits|
    ensures j <= n <= |bits|
    decreases |bits| - j
  {
    if j == |bits| then j
    else if Overflows(flags, bits, j) then j
    else Stop(flags, bits, j + 1)
  }

  lemma {:induction false} StopSpec(flags: bv32, bits: seq<bv32>, j: nat)
    requires |bits| == |FLAG_SYMBOLS| && j <= |bits|
    ensures var n := Stop(flags, bits, j);
            (forall k | j <= k < n :: !Overflows(flags, bits, k)) &&
            (n == |bits| || Overflows(flags, bits, n))
    decreases |bits| - j
  {
    if j < |bits| && !Overflows(flags, bits, j) {
      StopSpec(flags, bits, j + 1);
      StopNext(flags, bits, j);
    }
  }

  /** While no symbol overflowed, the joined symbols stay shorter than the buffer. */
  lemma {:induction false} SymbolsFit(flags: bv32, bits: seq<bv32>, n: nat)
    requires |bits| == |FLAG_SYMBOLS| && n <= |bits|
    requires forall k | 0 <= k < n :: !Overflows(flags, bits, k)
    ensures |SetSymbols(flags, bits, n)| < FLAG_STRING_SIZE
  {
    if n > 0 {
      SymbolsFit(flags, bits, n - 1);
      assert !Overflows(flags, bits, n - 1);
    }
  }

  /**
   * vr_if_flags: the symbols of the set flags in table order, up to the
   * first that would not fit in the 64-byte buffer with its NUL.
   */
  method IfFlags(flags: bv32, bits: seq<bv32>) returns (s: seq<char>)
    requires |bits| == |FLAG_SYMBOLS|
    ensures s == SetSymbols(flags, bits, Stop(flags, bits, 0))
  {
    s := [];
    var allLen := 0;
    var i := 0;
    while i < |bits|
      invariant i <= |bits|
      invariant Stop(flags, bits, i) == Stop(flags, bits, 0)
      invariant s == SetSymbols(flags, bits, i) && allLen == |s|
    {
      var symbol := FLAG_SYMBOLS[i];
      if flags & bits[i] != 0 {
        if allLen + |symbol| < FLAG_STRING_SIZE {
          s := s + symbol;
          allLen := allLen + |symbol|;
        } else {
          StopHere(flags, bits, i);
          break;
        }
      }
      StopNext(flags, bits, i);
      i := i + 1;
    }
  }

  lemma StopHere(flags: bv32, bits: seq<bv32>, i: nat)
    requires |bits| == |FLAG_SYMBOLS| && i < |bits| && Overflows(flags, bits, i)
    ensures Stop(flags, bits, i) == i
  {
  }

  lemma StopNext(flags: bv32, bits: seq<bv32>, i: nat)
    requires |bits| == |FLAG_SYMBOLS| && i < |bits| && !Overflows(flags, bits, i)
    ensures Stop(flags, bits, i) == Stop(flags, bits, i + 1)
  {
  }

  /** The flag string is always shorter than its 64-byte buffer. */
  lemma FlagStringFits(flags: bv32, bits: seq<bv32>)
    requires |bits| == |FLAG_SYMBOLS|
    ensures |SetSymbols(flags, bits, Stop(flags, bits, 0))| < FLAG_STRING_SIZE
  {
    StopSpec(flags, bits, 0);
    SymbolsFit(flags, bits, Stop(flags, bits, 0));
  }

  /** It holds the symbols of the set flags in table order, stopping at the first symbol that would not fit. */
  lemma FlagStringStops(flags: bv32, bits: seq<bv32>)
    requires |bits| == |FLAG_SYMBOLS|
    ensures var n := Stop(flags, bits, 0);
            (n == |bits| || (FlagSet(flags, bits, n) &&
                             |SetSymbols(flags, bits, Stop(flags, bits, 0))| + |FLAG_SYMBOLS[n]| >= FLAG_STRING_SIZE)) &&
            forall k | 0 <= k < n :: FlagSet(flags, bits, k) ==> |SetSymbols(flags, bits, k)| + |FLAG_SYMBOLS[k]| < FLAG_STRING_SIZE
  {
    StopSpec(flags, bits, 0);
    var n := Stop(flags, bits, 0);
    forall k | 0 <= k < n
      ensures FlagSet(flags, bits, k) ==> |SetSymbols(flags, bits, k)| + |FLAG_SYMBOLS[k]| < FLAG_STRING_SIZE
    {
      assert !Overflows(flags, bits, k);
    }
  }

  /** When all the set flags' symbols fit, every one of them is shown. */
  lemma {:induction false} FlagStringComplete(flags: bv32, bits: seq<bv32>)
    requires |bits| == |FLAG_SYMBOLS|
    requires |SetSymbols(flags, bits, |bits|)| < FLAG_STRING_SIZE
    ensures Stop(flags, bits, 0) == |bits|
  {
    StopSpec(flags, bits, 0);
    var n := Stop(flags, bits, 0);
    if n < |bits| {
      SymbolsGrow(flags, bits, n + 1, |bits|);
    }
  }

  lemma {:induction false} SymbolsGrow(flags: bv32, bits: seq<bv32>, m: nat, n: nat)
    requires |bits| == |FLAG_SYMBOLS| && m <= n <= |bits|
    ensures |SetSymbols(flags, bits, m)| <= |SetSymbols(flags, bits, n)|
    decreases n - m
  {
    if m < n {
      SymbolsGrow(flags, bits, m, n - 1);
    }
  }

  // ---------------------------------------------------------------------
  // is_number and safer_strtoul

  predicate AllDigits(s: seq<char>)
  {
    forall k | 0 <= k < |s| :: IsDigit(s[k])
  }

  /**
   * is_number: 1 exactly when every character is a decimal digit (so the
   * empty string is a number), 0 otherwise; a NULL string gives 0 and sets
   * errno to EINVAL (`einval`).
   */
  method IsNumber(s: Option<seq<char>>) returns (r: int, einval: bool)
    ensures einval <==> s.None?
    ensures r == 1 <==> s.Some? && AllDigits(s.value)
    ensures r == 0 || r == 1
  {
    if s.None? {
      return 0, true;
    }
    var str := s.value;
    var i := 0;
    while i < |str|
      invariant i <= |str| && AllDigits(str[..i])
    {
      if !IsDigit(str[i]) {
        assert !AllDigits(str);
        return 0, false;
      }
      assert str[..i + 1] == str[..i] + [str[i]];
      i := i + 1;
    }
    assert str[..i] == str;
    return 1, false;
  }

  /** A string of digits stays one when more digits follow: the check looks at each character alone. */
  lemma AllDigitsConcat(a: seq<char>, b: seq<char>)
    ensures AllDigits(a + b) <==> AllDigits(a) && AllDigits(b)
  {
    if AllDigits(a + b) {
      assert forall k | 0 <= k < |a| :: (a + b)[k] == a[k];
      assert forall k | 0 <= k < |b| :: (a + b)[|a| + k] == b[k];
    }
  }

  /** safer_strtoul: strtoul on the string, or 0 with errno set to EINVAL for a NULL string. */
  function SaferStrtoul(s: Option<seq<char>>, strtoul: seq<char> -> u64): (r: (u64, bool))
    ensures r.1 <==> s.None?
    ensures s.None? ==> r.0 == 0
    ensures s.Some? ==> r.0 == strtoul(s.value)
  {
    if s.None? then (0, true) else (strtoul(s.value), false)
  }

  // ---------------------------------------------------------------------
  // validate_options

  // The positions of the options in long_options (enum if_opt_index).
  const ADD_OPT: nat := 0
  const CREATE_OPT: nat := 1
  const GET_OPT: nat := 2
  const RATE_OPT: nat := 3
  const DROP_OPT: nat := 4
  const LIST_OPT: nat := 5
  const VRF_OPT: nat := 6
  const MAC_OPT: nat := 7
  const DELETE_OPT: nat := 8
  const POLICY_OPT: nat := 9
  const PMD_OPT: nat := 10
  const PCI_OPT: nat := 11
  const KINDEX_OPT: nat := 12
  const TYPE_OPT: nat := 13
  const TRANSPORT_OPT: nat := 14
  const SET_OPT: nat := 15
  const VLAN_OPT: nat := 16
  const XCONNECT_OPT: nat := 17
  const VIF_OPT: nat := 18
  const DHCP_OPT: nat := 19
  const VHOST_PHYS_OPT: nat := 20
  const HELP_OPT: nat := 21
  const VINDEX_OPT: nat := 22
  const CORE_OPT: nat := 23
  const SOCK_DIR_OPT: nat := 24
  const CLEAR_STATS_OPT: nat := 25
  /** MAX_OPT_INDEX: the closing entry of long_options has no flag and adds nothing. */
  const MAX_OPT: nat := 26

  /** How many of the flags are set. */
  function Count(f: seq<bool>): nat
  {
    if |f| == 0 then 0 else Count(f[..|f| - 1]) + (if f[|f| - 1] then 1 else 0)
  }

  /** validate_options' outcome: the tool exits through Usage, or goes on; with --pmd or --pci the kernel index is the PMD index. */
  datatype Verdict = Usage | Proceed(usePmdIndex: bool)

  /** validate_options on the option flags, with need_xconnect_if and need_vif_id as --type left them. */
  function OptionsVerdict(f: seq<bool>, needXconnect: bool, needVifId: bool): Verdict
    requires |f| == MAX_OPT
  {
    var sum := Counted(f);
    var proceed := Proceed(f[PMD_OPT] || f[PCI_OPT]);
    if sum == 0 || f[HELP_OPT] then Usage
    else if f[CREATE_OPT] then
      (if sum > 1 && (sum != 2 || !f[MAC_OPT]) then Usage else proceed)
    else if f[GET_OPT] then
      (if sum > 1 && sum != 3 && sum != 4 && !f[KINDEX_OPT] && !f[CORE_OPT] && !f[RATE_OPT] && !f[DROP_OPT]
       then Usage else proceed)
    else if f[DELETE_OPT] then
      (if sum > 1 then Usage else proceed)
    else if f[LIST_OPT] then
      (if f[DROP_OPT] then Usage
       else if !f[CORE_OPT] then (if f[RATE_OPT] && sum <= 2 then proceed else if sum > 1 then Usage else proceed)
       else if f[RATE_OPT] && sum <= 3 then proceed
       else if sum != 2 then Usage else proceed)
    else if f[ADD_OPT] then
      (if !f[VRF_OPT] || !f[MAC_OPT] || !f[TYPE_OPT] || (needXconnect && !f[XCONNECT_OPT]) || (needVifId && !f[VIF_OPT])
       then Usage else proceed)
    else if f[SET_OPT] then
      (if sum != 3 || !f[VRF_OPT] || !f[VLAN_OPT] then Usage else proceed)
    else if f[CORE_OPT] && f[CLEAR_STATS_OPT] then proceed
    else if f[CORE_OPT] || f[RATE_OPT] then Usage
    else proceed
  }

  /** validate_options: the flags are summed over long_options, then the combination is checked. */
  method ValidateOptions(f: seq<bool>, needXconnect: bool, needVifId: bool) returns (v: Verdict)
    requires |f| == MAX_OPT
    ensures v == OptionsVerdict(f, needXconnect, needVifId)
  {
    var sumOpt := 0;
    var i := 0;
    while i < MAX_OPT
      invariant i <= MAX_OPT && sumOpt == Count(f[..i])
    {
      assert f[..i + 1][..i] == f[..i];
      if f[i] {
        sumOpt := sumOpt + 1;
      }
      i := i + 1;
    }
    assert f[..i] == f;
    if f[SOCK_DIR_OPT] {
      sumOpt := sumOpt - 1;
    }
    var proceed := Proceed(f[PMD_OPT] || f[PCI_OPT]);
    if sumOpt == 0 || f[HELP_OPT] {
      return Usage;
    }
    if f[CREATE_OPT] {
      return if sumOpt > 1 && (sumOpt != 2 || !f[MAC_OPT]) then Usage else proceed;
    }
    if f[GET_OPT] {
      if sumOpt > 1 && sumOpt != 3 && sumOpt != 4 && !f[KINDEX_OPT] && !f[CORE_OPT] && !f[RATE_OPT] && !f[DROP_OPT] {
        return Usage;
      }
      return proceed;
    }
    if f[DELETE_OPT] {
      return if sumOpt > 1 then Usage else proceed;
    }
    if f[LIST_OPT] {
      if f[DROP_OPT] {
        return Usage;
      }
      if !f[CORE_OPT] {
        if f[RATE_OPT] && !(sumOpt > 2) {
          return proceed;
        }
        return if sumOpt > 1 then Usage else proceed;
      }
      if f[RATE_OPT] && !(sumOpt > 3) {
        return proceed;
      }
      return if sumOpt != 2 then Usage else proceed;
    }
    if f[ADD_OPT] {
      if !f[VRF_OPT] || !f[MAC_OPT] || !f[TYPE_OPT] || (needXconnect && !f[XCONNECT_OPT]) || (needVifId && !f[VIF_OPT]) {
        return Usage;
      }
      return proceed;
    }
    if f[SET_OPT] {
      return if sumOpt != 3 || !f[VRF_OPT] || !f[VLAN_OPT] then Usage else proceed;
    }
    if f[CORE_OPT] && f[CLEAR_STATS_OPT] {
      return proceed;
    }
    if f[CORE_OPT] {
      return Usage;
    }
    if f[RATE_OPT] {
      return Usage;
    }
    return proceed;
  }

  /** Clearing one flag lowers the count by one exactly when it was set. */
  lemma {:induction false} CountClear(f: seq<bool>, i: nat)
    requires i < |f|
    ensures Count(f) == Count(f[i := false]) + (if f[i] then 1 else 0)
    decreases |f|
  {
    var n := |f| - 1;
    if i < n {
      assert f[i := false][..n] == f[..n][i := false];
      CountClear(f[..n], i);
    } else {
      assert f[i := false][..n] == f[..n];
    }
  }

  lemma {:induction false} CountNone(f: seq<bool>)
    requires forall k | 0 <= k < |f| :: !f[k]
    ensures Count(f) == 0
    decreases |f|
  {
    if |f| > 0 {
      CountNone(f[..|f| - 1]);
    }
  }

  /** The options other than sock-dir, as validate_options counts them. */
  function Counted(f: seq<bool>): nat
    requires |f| == MAX_OPT
  {
    CountClear(f, SOCK_DIR_OPT);
    Count(f) - (if f[SOCK_DIR_OPT] then 1 else 0)
  }

  /** Exactly one option counts when it is the only one set besides sock-dir; any second one makes two. */
  lemma CountedOne(f: seq<bool>, x: nat)
    requires |f| == MAX_OPT && x < MAX_OPT && x != SOCK_DIR_OPT && f[x]
    ensures Counted(f) == 1 <==> forall k | 0 <= k < MAX_OPT && k != x && k != SOCK_DIR_OPT :: !f[k]
    ensures Counted(f) >= 1
  {
    var g := f[x := false];
    var h := g[SOCK_DIR_OPT := false];
    CountClear(f, x);
    CountClear(g, SOCK_DIR_OPT);
    assert Count(f) == Count(h) + 1 + (if f[SOCK_DIR_OPT] then 1 else 0);
    if forall k | 0 <= k < MAX_OPT && k != x && k != SOCK_DIR_OPT :: !f[k] {
      CountNone(h);
    } else {
      var y :| 0 <= y < MAX_OPT && y != x && y != SOCK_DIR_OPT && f[y];
      CountClear(h, y);
    }
  }

  /** sock-dir is never counted: giving it or not leaves the verdict as it was. */
  lemma SockDirNotCounted(f: seq<bool>, needXconnect: bool, needVifId: bool)
    requires |f| == MAX_OPT
    ensures OptionsVerdict(f[SOCK_DIR_OPT := true], needXconnect, needVifId) ==
            OptionsVerdict(f[SOCK_DIR_OPT := false], needXconnect, needVifId)
  {
    var t, u := f[SOCK_DIR_OPT := true], f[SOCK_DIR_OPT := false];
    CountClear(t, SOCK_DIR_OPT);
    assert t[SOCK_DIR_OPT := false] == u;
    assert Counted(t) == Counted(u);
  }

  /** --delete must stand alone (besides sock-dir). */
  lemma DeleteAlone(f: seq<bool>, needXconnect: bool, needVifId: bool)
    requires |f| == MAX_OPT && f[DELETE_OPT] && !f[HELP_OPT] && !f[CREATE_OPT] && !f[GET_OPT]
    ensures OptionsVerdict(f, needXconnect, needVifId) != Usage <==>
            forall k | 0 <= k < MAX_OPT && k != DELETE_OPT && k != SOCK_DIR_OPT :: !f[k]
  {
    CountedOne(f, DELETE_OPT);
  }

  /** --set needs exactly three options, among them --vrf and --vlan. */
  lemma SetNeedsThree(f: seq<bool>, needXconnect: bool, needVifId: bool)
    requires |f| == MAX_OPT && f[SET_OPT] && !f[HELP_OPT]
    requires !f[CREATE_OPT] && !f[GET_OPT] && !f[DELETE_OPT] && !f[LIST_OPT] && !f[ADD_OPT]
    ensures OptionsVerdict(f, needXconnect, needVifId) != Usage <==> Counted(f) == 3 && f[VRF_OPT] && f[VLAN_OPT]
  {
    CountedOne(f, SET_OPT);
  }

  /** --add needs --vrf, --mac and --type, --xconnect for a host interface and --vif for a monitoring one. */
  lemma AddNeeds(f: seq<bool>, needXconnect: bool, needVifId: bool)
    requires |f| == MAX_OPT && f[ADD_OPT] && !f[HELP_OPT]
    requires !f[CREATE_OPT] && !f[GET_OPT] && !f[DELETE_OPT] && !f[LIST_OPT]
    ensures OptionsVerdict(f, needXconnect, needVifId) != Usage <==>
            f[VRF_OPT] && f[MAC_OPT] && f[TYPE_OPT] && (needXconnect ==> f[XCONNECT_OPT]) && (needVifId ==> f[VIF_OPT])
  {
    CountedOne(f, ADD_OPT);
  }

  /** --type vhost asks for an --xconnect interface and --type monitoring for a --vif id. */
  function TypeNeeds(t: IfType): (r: (bool, bool))
    ensures r.0 <==> t == Host
    ensures r.1 <==> t == Monitoring
  {
    (t == Host, t == Monitoring)
  }

  // ---------------------------------------------------------------------
  // rate_stats_diff: CORRECT_ERROR_CNT and COMPUTE_DIFFERENCE

  const U64_MOD: int := 0x1_0000_0000_0000_0000

  /** CORRECT_ERROR_CNT: an error counter below its previous value is raised to it. */
  function Corrected(cur: u64, prev: u64): (r: u64)
    ensures r >= prev && r >= cur && (r == cur || r == prev)
  {
    if cur < prev then prev else cur
  }

  /** COMPUTE_DIFFERENCE in uint64_t arithmetic: the subtraction and the product by 1000 wrap. */
  function Rate(cur: u64, prev: u64, diffMs: u64): (r: u64)
    requires diffMs > 0
  {
    (((cur - prev) % U64_MOD) * 1000 % U64_MOD) / diffMs
  }

  /**
   * rate_stats_diff on the counters of a request: `isError` marks the eight
   * error counters, which are corrected first; then every counter becomes
   * its rate per second over the `diffMs` milliseconds since the previous
   * sample.
   */
  method RateStatsDiff(req: array<u64>, prev: seq<u64>, isError: seq<bool>, diffMs: u64)
    requires req.Length == |prev| == |isError| && diffMs > 0
    modifies req
    ensures forall k | 0 <= k < req.Length ::
              req[k] == Rate(if isError[k] then Corrected(old(req[k]), prev[k]) else old(req[k]), prev[k], diffMs)
  {
    var i := 0;
    while i < req.Length
      invariant i <= req.Length
      invariant forall k | 0 <= k < i :: req[k] == if isError[k] then Corrected(old(req[k]), prev[k]) else old(req[k])
      invariant forall k | i <= k < req.Length :: req[k] == old(req[k])
    {
      if isError[i] && req[i] < prev[i] {
        req[i] := prev[i];
      }
      i := i + 1;
    }
    i := 0;
    while i < req.Length
      invariant i <= req.Length
      invariant forall k | 0 <= k < i ::
                  req[k] == Rate(if isError[k] then Corrected(old(req[k]), prev[k]) else old(req[k]), prev[k], diffMs)
      invariant forall k | i <= k < req.Length :: req[k] == if isError[k] then Corrected(old(req[k]), prev[k]) else old(req[k])
    {
      req[i] := Rate(req[i], prev[i], diffMs);
      i := i + 1;
    }
  }

  /** A corrected error counter never wraps: its rate is the true increase, and an error counter that went down has rate 0. */
  lemma ErrorRateNoWrap(cur: u64, prev: u64, diffMs: u64)
    requires diffMs > 0
    ensures var c := Corrected(cur, prev);
            Rate(c, prev, diffMs) == ((c - prev) * 1000 % U64_MOD) / diffMs
    ensures cur <= prev ==> Rate(Corrected(cur, prev), prev, diffMs) == 0
  {
    var c := Corrected(cur, prev);
    assert 0 <= c - prev < U64_MOD;
    ModSmall(c - prev, U64_MOD);
    if cur <= prev {
      assert c - prev == 0;
    }
  }

  lemma ModSmall(x: int, m: int)
    requires 0 <= x < m
    ensures x % m == x
  {
  }

  /** A counter that is not corrected and went down wraps to a huge difference. */
  lemma DecreaseWraps(cur: u64, prev: u64)
    requires cur < prev
    ensures (cur - prev) % U64_MOD == cur - prev + U64_MOD
  {
  }

  // ---------------------------------------------------------------------
  // rate_stats paging

  /** MAX_OUTPUT_IF and LISTING_NUM_OF_LINE. */
  const MAX_OUTPUT_IF: int := 32
  const LISTING_NUM_OF_LINE: int := 3

  /** C's int division, which truncates toward zero. */
  function TruncDiv(a: int, b: int): (q: int)
    requires b > 0
    ensures a >= 0 ==> q == a / b
    ensures a < 0 ==> q <= 0 && q * b >= a && q * b > a - b
  {
    if a >= 0 then a / b else -((-a) / b)
  }

  /** print_number_interface for a terminal of `rows` rows: a page, capped at 32; not positive means the terminal is too small. */
  function PageSize(rows: u16): (n: int)
    ensures n <= MAX_OUTPUT_IF
    ensures n > 0 <==> rows >= 12
    ensures rows >= 9 ==> n == if (rows - 9) / 3 > MAX_OUTPUT_IF then MAX_OUTPUT_IF else (rows - 9) / 3
  {
    var p := TruncDiv(rows as int - 9, LISTING_NUM_OF_LINE);
    if p > MAX_OUTPUT_IF then MAX_OUTPUT_IF else p
  }

  function ToLower(c: char): char
  {
    if 'A' <= c <= 'Z' then (c as int + 32) as char else c
  }

  /** One key of rate_stats: 'q' quits, 'k' goes back a page but never below 0, 'j' goes forward a page, any other key does nothing. */
  function PageKey(key: char, ignore: int, page: int): (r: (bool, int))
    ensures r.0 <==> ToLower(key) == 'q'
    ensures ToLower(key) == 'k' ==> r.1 >= 0 && (ignore - page > 0 ==> r.1 == ignore - page) && (ignore - page <= 0 ==> r.1 == 0)
    ensures ToLower(key) == 'j' ==> r.1 == ignore + page
    ensures ToLower(key) !in {'k', 'j'} ==> r.1 == ignore
  {
    match ToLower(key)
    case 'q' => (true, ignore)
    case 'k' => (false, if ignore - page <= 0 then 0 else ignore - page)
    case 'j' => (false, ignore + page)
    case _ => (false, ignore)
  }

  /** A page forward and then back returns to where the view was. */
  lemma ForwardThenBack(ignore: int, page: int)
    requires ignore >= 0 && page > 0
    ensures PageKey('k', PageKey('j', ignore, page).1, page).1 == ignore
  {
  }

  // ---------------------------------------------------------------------
  // The PCI address of list_get_print

  datatype Pci = Pci(domain: bv32, bus: bv32, device: bv32, func: bv32)

  /** A PCI address whose fields fit their widths (16, 8, 5 and 3 bits). */
  predicate PciOk(p: Pci)
  {
    p.domain < 0x1_0000 && p.bus < 0x100 && p.device < 0x20 && p.func < 8
  }

  /** The PCI address decoded from vifr_os_idx, a 32-bit int seen as its bits. */
  function PciOf(osIdx: bv32): (p: Pci)
    ensures PciOk(p)
  {
    Pci((osIdx >> 16) & 0xFFFF, (osIdx >> 8) & 0xFF, (osIdx >> 3) & 0x1F, osIdx & 0x7)
  }

  /** The os_idx that holds a PCI address in the layout the decode reads. */
  function PciIndex(p: Pci): bv32
  {
    (p.domain << 16) | (p.bus << 8) | (p.device << 3) | p.func
  }

  /** The four fields together are the whole index: decoding loses nothing. */
  lemma PciRoundTrip(osIdx: bv32)
    ensures PciIndex(PciOf(osIdx)) == osIdx
  {
  }

  /** Any address with fields in range is decoded back from its index. */
  lemma PciIndexRoundTrip(p: Pci)
    requires PciOk(p)
    ensures PciOf(PciIndex(p)) == p
  {
  }
}
