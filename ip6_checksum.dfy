// The ones'-complement sums of dp-core/vr_proto_ip6.c: vr_sum, the
// upper-layer pseudo-header sum, the ICMPv6 checksum and the incremental
// TCP/UDP checksum update used after NAT.
//
// Words are read in host (little-endian) order; section 2(B) of RFC 1071
// shows that the ones'-complement sum does not depend on the byte order.

module Ip6Checksum {
  import opened Base
  import opened Ip6Layout

  /**
   * The k-th 16-bit word of `s` as a host-order load.  When `s` has odd
   * length the last word's high byte lies past the buffer; it is taken
   * to be zero.
   */
  function Word(s: seq<byte>, k: nat): u16
    requires 2 * k < |s|
  {
    s[2 * k] as int + 256 * (if 2 * k + 1 < |s| then s[2 * k + 1] as int else 0)
  }

  /** Number of words vr_sum adds for a buffer of `length` bytes. */
  function NumWords(length: nat): nat
  {
    (length + 1) / 2
  }

  /** Plain sum of the first n words. */
  function WordSumUpTo(s: seq<byte>, n: nat): nat
    requires n <= NumWords(|s|)
  {
    if n == 0 then 0 else WordSumUpTo(s, n - 1) + Word(s, n - 1)
  }

  /** Plain sum of every word of `s`. */
  function WordSum(s: seq<byte>): nat
  {
    WordSumUpTo(s, NumWords(|s|))
  }

  lemma {:induction false} WordSumUpToBound(s: seq<byte>, n: nat)
    requires n <= NumWords(|s|)
    ensures WordSumUpTo(s, n) <= n * 0xffff
  {
    if n > 0 {
      WordSumUpToBound(s, n - 1);
    }
  }

  lemma ModStep(q: nat, r: nat)
    ensures (65536 * q + r) % 65535 == (q + r) % 65535
  {
    assert 65536 * q + r == (q + r) + 65535 * q;
  }

  /**
   * The end-around-carry fold: repeatedly add the high half to the low half
   * until the value fits in 16 bits.
   */
  function Fold(t: nat): (r: u16)
    ensures t < 65536 ==> r == t
    decreases t
  {
    if t < 65536 then t
    else Fold(t / 65536 + t % 65536)
  }

  /**
   * The fold is congruent to its input modulo 0xffff, which is what makes
   * it the ones'-complement sum, and is zero only for a zero input.
   */
  lemma {:induction false} FoldResidue(t: nat)
    ensures Fold(t) % 65535 == t % 65535
    ensures Fold(t) == 0 <==> t == 0
    decreases t
  {
    if t >= 65536 {
      ModStep(t / 65536, t % 65536);
      FoldResidue(t / 65536 + t % 65536);
    }
  }

  /** A folded value is either 0 or a non-zero residue; a multiple of 0xffff folds to 0xffff. */
  lemma FoldOfMultiple(t: nat)
    requires t > 0 && t % 65535 == 0
    ensures Fold(t) == 0xffff
  {
    FoldResidue(t);
  }

  /** vr_sum may add this many words before its 32-bit total could wrap. */
  const MAX_SUM_WORDS: nat := 65537

  /**
   * vr_sum: the ones'-complement sum of `length` bytes of `a` starting at
   * `start`.  Every caller passes at most a 16-bit payload length, so the
   * 32-bit accumulator cannot wrap.
   */
  method VrSum(a: array<byte>, start: nat, length: nat) returns (r: u16)
    requires start + length <= a.Length
    requires NumWords(length) <= MAX_SUM_WORDS
    ensures r == Fold(WordSum(a[start..start + length]))
  {
    ghost var s := a[start..start + length];
    var numWords := (length + 1) / 2;
    var total: nat := 0;
    var k := 0;
    while k < numWords
      invariant 0 <= k <= numWords
      invariant total == WordSumUpTo(s, k)
    {
      var hi: int := if 2 * k + 1 < length then a[start + 2 * k + 1] as int else 0;
      assert s[2 * k] == a[start + 2 * k];
      assert 2 * k + 1 < length ==> s[2 * k + 1] == a[start + 2 * k + 1];
      total := total + a[start + 2 * k] as int + 256 * hi;
      k := k + 1;
    }
    WordSumUpToBound(s, numWords);
    while total >= 65536
      invariant Fold(total) == Fold(WordSum(s))
      decreases total
    {
      total := total / 65536 + total % 65536;
    }
    r := total;
  }

  /** Word sums split at an even boundary. */
  lemma {:induction false} WordSumAppendUpTo(a: seq<byte>, b: seq<byte>, m: nat)
    requires |a| % 2 == 0 && m <= NumWords(|b|)
    ensures WordSumUpTo(a + b, |a| / 2 + m) == WordSum(a) + WordSumUpTo(b, m)
  {
    if m == 0 {
      WordSumPrefix(a, b, |a| / 2);
    } else {
      WordSumAppendUpTo(a, b, m - 1);
      assert (a + b)[2 * (|a| / 2 + m - 1)] == b[2 * (m - 1)];
    }
  }

  lemma {:induction false} WordSumPrefix(a: seq<byte>, b: seq<byte>, n: nat)
    requires |a| % 2 == 0 && n <= |a| / 2
    ensures WordSumUpTo(a + b, n) == WordSumUpTo(a, n)
  {
    if n > 0 {
      WordSumPrefix(a, b, n - 1);
      assert (a + b)[2 * (n - 1)] == a[2 * (n - 1)];
      assert (a + b)[2 * (n - 1) + 1] == a[2 * (n - 1) + 1];
    }
  }

  lemma WordSumAppend(a: seq<byte>, b: seq<byte>)
    requires |a| % 2 == 0
    ensures WordSum(a + b) == WordSum(a) + WordSum(b)
  {
    WordSumAppendUpTo(a, b, NumWords(|b|));
  }

  /**
   * struct vr_ip6_pseudo as vr_ip6_pseudo_header_sum fills it: source,
   * destination, the raw 16-bit ip6_plen, a zero 16-bit field and the
   * 32-bit (ip6_nxt << 24) stored in host order.  The structure is not part
   * of this model; these field widths give the 40 bytes the code sums.
   */
  function PseudoHeader(s: seq<byte>, nh: nat): (r: seq<byte>)
    requires HasIp6Header(s, nh)
    ensures |r| == 40
  {
    Src(s, nh) + Dst(s, nh) + [s[nh + IP6_PLEN_OFF], s[nh + IP6_PLEN_OFF + 1], 0, 0]
      + [0, 0, 0, NextHeader(s, nh)]
  }

  /**
   * The upper-layer pseudo-header of section 8.1 of RFC 8200: source,
   * destination, a 32-bit upper-layer length in network order, three zero
   * bytes and the next-header value.
   */
  function Rfc8200PseudoHeader(s: seq<byte>, nh: nat): (r: seq<byte>)
    requires HasIp6Header(s, nh)
    ensures |r| == 40
  {
    Src(s, nh) + Dst(s, nh) + [0, 0, s[nh + IP6_PLEN_OFF], s[nh + IP6_PLEN_OFF + 1]]
      + [0, 0, 0, NextHeader(s, nh)]
  }

  /**
   * Although the code stores the length in the first half of the 32-bit
   * length field, the words it sums are those of the RFC 8200 pseudo-header
   * with the payload length as upper-layer length.
   */
  lemma {:induction false} PseudoHeaderSumMatchesRfc8200(s: seq<byte>, nh: nat)
    requires HasIp6Header(s, nh)
    ensures WordSum(PseudoHeader(s, nh)) == WordSum(Rfc8200PseudoHeader(s, nh))
  {
    var addrs := Src(s, nh) + Dst(s, nh);
    var b4, b5, nx := s[nh + IP6_PLEN_OFF], s[nh + IP6_PLEN_OFF + 1], NextHeader(s, nh);
    var t1: seq<byte> := [b4, b5, 0, 0] + [0, 0, 0, nx];
    var t2: seq<byte> := [0, 0, b4, b5] + [0, 0, 0, nx];
    assert PseudoHeader(s, nh) == addrs + t1;
    assert Rfc8200PseudoHeader(s, nh) == addrs + t2;
    WordSumAppend(addrs, t1);
    WordSumAppend(addrs, t2);
    assert Word(t1, 0) == Word(t2, 1) && Word(t1, 1) == 0 == Word(t2, 0);
    assert Word(t1, 2) == 0 == Word(t2, 2) && Word(t1, 3) == Word(t2, 3);
    WordSumOfFour(t1);
    WordSumOfFour(t2);
  }

  lemma WordSumOfFour(t: seq<byte>)
    requires |t| == 8
    ensures WordSum(t) == Word(t, 0) + Word(t, 1) + Word(t, 2) + Word(t, 3)
  {
    assert WordSumUpTo(t, 1) == Word(t, 0);
    assert WordSumUpTo(t, 2) == Word(t, 0) + Word(t, 1);
    assert WordSumUpTo(t, 3) == Word(t, 0) + Word(t, 1) + Word(t, 2);
  }

  /** The 40 bytes vr_ip6_pseudo_header_sum fills in are the pseudo-header. */
  lemma PseudoHeaderBytes(s: seq<byte>, nh: nat, p: seq<byte>)
    requires HasIp6Header(s, nh) && |p| == 40
    requires forall i :: 0 <= i < 32 ==> p[i] == s[nh + IP6_SRC_OFF + i]
    requires p[32] == s[nh + IP6_PLEN_OFF] && p[33] == s[nh + IP6_PLEN_OFF + 1]
    requires p[34] == 0 && p[35] == 0 && p[36] == 0 && p[37] == 0 && p[38] == 0
    requires p[39] == s[nh + IP6_NXT_OFF]
    ensures p == PseudoHeader(s, nh)
  {
    var h := PseudoHeader(s, nh);
    forall i | 0 <= i < 40
      ensures p[i] == h[i]
    {
      if i < 16 {
        assert h[i] == Src(s, nh)[i];
      } else if i < 32 {
        assert h[i] == Dst(s, nh)[i - 16];
      }
    }
  }

  /** The value vr_ip6_pseudo_header_sum returns for the header at nh. */
  function PseudoSum(s: seq<byte>, nh: nat): u16
    requires HasIp6Header(s, nh)
  {
    Fold(WordSum(PseudoHeader(s, nh)))
  }

  /** vr_ip6_pseudo_header_sum: copy the pseudo-header into a local buffer and sum it. */
  method PseudoHeaderSum(a: array<byte>, nh: nat) returns (r: u16)
    requires nh + IP6_HDR_LEN <= a.Length
    ensures r == PseudoSum(a[..], nh)
    ensures r == Fold(WordSum(Rfc8200PseudoHeader(a[..], nh)))
  {
    var ph := new byte[40](i => 0);
    var k := 0;
    while k < 32
      invariant 0 <= k <= 32
      invariant forall i :: 0 <= i < k ==> ph[i] == a[nh + IP6_SRC_OFF + i]
    {
      ph[k] := a[nh + IP6_SRC_OFF + k];
      k := k + 1;
    }
    ph[32] := a[nh + IP6_PLEN_OFF];
    ph[33] := a[nh + IP6_PLEN_OFF + 1];
    ph[34] := 0;
    ph[35] := 0;
    ph[36] := 0;
    ph[37] := 0;
    ph[38] := 0;
    ph[39] := a[nh + IP6_NXT_OFF];
    PseudoHeaderBytes(a[..], nh, ph[..]);
    r := VrSum(ph, 0, 40);
    assert ph[0..40] == ph[..];
    PseudoHeaderSumMatchesRfc8200(a[..], nh);
  }

  /** The ICMPv6 header at icmp and its payload-length bytes are in the packet. */
  predicate Icmp6Present(s: seq<byte>, nh: nat, icmp: nat)
  {
    HasIp6Header(s, nh) && nh + IP6_HDR_LEN <= icmp && icmp + 4 <= |s|
    && icmp + PayloadLen(s, nh) <= |s|
  }

  /** The ICMPv6 message with its checksum field cleared. */
  function ClearChecksum(s: seq<byte>, icmp: nat): (r: seq<byte>)
    requires icmp + 4 <= |s|
    ensures |r| == |s|
  {
    s[icmp + ICMP_CSUM_OFF := 0][icmp + ICMP_CSUM_OFF + 1 := 0]
  }

  /** The sum over the pseudo-header and `plen` bytes of the message, as the packet stands. */
  function Icmp6Sum(s: seq<byte>, nh: nat, icmp: nat): u16
    requires Icmp6Present(s, nh, icmp)
  {
    Fold(PseudoSum(s, nh) as nat + Fold(WordSum(s[icmp..icmp + PayloadLen(s, nh)])))
  }

  /** What vr_icmp6_checksum returns: the sum with the checksum field taken as zero. */
  function Icmp6ChecksumOf(s: seq<byte>, nh: nat, icmp: nat): u16
    requires Icmp6Present(s, nh, icmp)
  {
    Icmp6Sum(ClearChecksum(s, icmp), nh, icmp)
  }

  /** Writing inside the ICMPv6 message leaves the IPv6 header, and so the pseudo-header sum, alone. */
  lemma ClearKeepsHeader(s: seq<byte>, nh: nat, icmp: nat, x: byte, y: byte)
    requires Icmp6Present(s, nh, icmp)
    ensures Icmp6Present(s[icmp + ICMP_CSUM_OFF := x][icmp + ICMP_CSUM_OFF + 1 := y], nh, icmp)
    ensures PayloadLen(s[icmp + ICMP_CSUM_OFF := x][icmp + ICMP_CSUM_OFF + 1 := y], nh)
            == PayloadLen(s, nh)
    ensures PseudoSum(s[icmp + ICMP_CSUM_OFF := x][icmp + ICMP_CSUM_OFF + 1 := y], nh)
            == PseudoSum(s, nh)
  {
    var t := s[icmp + ICMP_CSUM_OFF := x][icmp + ICMP_CSUM_OFF + 1 := y];
    assert PseudoHeader(t, nh) == PseudoHeader(s, nh);
  }

  /** The word sum of two stored 16-bit values is their plain sum. */
  lemma WordSumOfTwo(p: u16, c: u16)
    ensures WordSum(LE16(p) + LE16(c)) == p as nat + c as nat
  {
    var b := LE16(p) + LE16(c);
    assert Word(b, 0) == p && Word(b, 1) == c;
    assert WordSumUpTo(b, 1) == p;
  }

  /** `vr_sum(sum, sizeof(sum))` over the two-element array `uint16_t sum[2]`. */
  method SumOfTwo(p: u16, c: u16) returns (r: u16)
    ensures r == Fold(p as nat + c as nat)
  {
    var sum := new byte[4](i => 0);
    sum[0], sum[1] := p % 256, p / 256;
    sum[2], sum[3] := c % 256, c / 256;
    assert sum[0..4] == LE16(p) + LE16(c);
    r := VrSum(sum, 0, 4);
    WordSumOfTwo(p, c);
  }

  /**
   * vr_icmp6_checksum: clears icmp_csum in the packet, sums the pseudo
   * header and the ICMPv6 message, and adds the two 16-bit sums.
   */
  method Icmp6Checksum(a: array<byte>, nh: nat, icmp: nat) returns (r: u16)
    requires Icmp6Present(a[..], nh, icmp)
    modifies a
    ensures a[..] == ClearChecksum(old(a[..]), icmp)
    ensures r == Icmp6ChecksumOf(old(a[..]), nh, icmp)
  {
    ghost var s := a[..];
    var p := PseudoHeaderSum(a, nh);
    a[icmp + ICMP_CSUM_OFF] := 0;
    a[icmp + ICMP_CSUM_OFF + 1] := 0;
    assert a[..] == ClearChecksum(s, icmp);
    ClearKeepsHeader(s, nh, icmp, 0, 0);
    var plen := 256 * (a[nh + IP6_PLEN_OFF] as int) + a[nh + IP6_PLEN_OFF + 1] as int;
    assert plen == PayloadLen(a[..], nh);
    var c := VrSum(a, icmp, plen);
    r := SumOfTwo(p, c);
  }

  /** The old checksum bytes never influence what vr_icmp6_checksum returns. */
  lemma ChecksumIgnoresOldValue(s: seq<byte>, nh: nat, icmp: nat, x: byte, y: byte)
    requires Icmp6Present(s, nh, icmp)
    ensures Icmp6Present(s[icmp + ICMP_CSUM_OFF := x][icmp + ICMP_CSUM_OFF + 1 := y], nh, icmp)
    ensures Icmp6ChecksumOf(s[icmp + ICMP_CSUM_OFF := x][icmp + ICMP_CSUM_OFF + 1 := y], nh, icmp)
            == Icmp6ChecksumOf(s, nh, icmp)
  {
    var t := s[icmp + ICMP_CSUM_OFF := x][icmp + ICMP_CSUM_OFF + 1 := y];
    assert t[nh..nh + IP6_HDR_LEN] == s[nh..nh + IP6_HDR_LEN];
    assert PayloadLen(t, nh) == PayloadLen(s, nh);
    assert ClearChecksum(t, icmp) == ClearChecksum(s, icmp);
  }

  /** `s` with the complemented checksum stored, as `icmp_csum = ~vr_icmp6_checksum(...)` does. */
  function StoreIcmp6Checksum(s: seq<byte>, nh: nat, icmp: nat): (r: seq<byte>)
    requires Icmp6Present(s, nh, icmp)
    ensures |r| == |s|
  {
    StoreChecksumValue(s, icmp, 0xffff - Icmp6ChecksumOf(s, nh, icmp))
  }

  /** The 16-bit value `c`, in host order, in the ICMPv6 checksum field. */
  function StoreChecksumValue(s: seq<byte>, icmp: nat, c: u16): (r: seq<byte>)
    requires icmp + 4 <= |s|
    ensures |r| == |s|
    ensures r[..icmp + ICMP_CSUM_OFF] == s[..icmp + ICMP_CSUM_OFF]
    ensures r[icmp + 4..] == s[icmp + 4..]
  {
    s[icmp + ICMP_CSUM_OFF := (c % 256) as byte][icmp + ICMP_CSUM_OFF + 1 := (c / 256) as byte]
  }

  /** Storing the complement over the cleared checksum is the same as storing it over the old one. */
  lemma StoreOverCleared(s: seq<byte>, nh: nat, icmp: nat, c: u16)
    requires Icmp6Present(s, nh, icmp) && c == Icmp6ChecksumOf(s, nh, icmp)
    ensures ClearChecksum(s, icmp)[icmp + ICMP_CSUM_OFF := ((0xffff - c) % 256) as byte]
              [icmp + ICMP_CSUM_OFF + 1 := ((0xffff - c) / 256) as byte] == StoreIcmp6Checksum(s, nh, icmp)
  {
  }

  /** `icmph->icmp_csum = ~(vr_icmp6_checksum(ip6, icmph))`, in place. */
  method StoreIcmp6ChecksumInPlace(a: array<byte>, nh: nat, icmp: nat)
    requires Icmp6Present(a[..], nh, icmp)
    modifies a
    ensures a[..] == StoreIcmp6Checksum(old(a[..]), nh, icmp)
  {
    ghost var t: seq<byte> := a[..];
    var c := Icmp6Checksum(a, nh, icmp);
    ghost var z: seq<byte> := a[..];
    var csum: u16 := 0xffff - c;
    a[icmp + ICMP_CSUM_OFF] := (csum % 256) as byte;
    a[icmp + ICMP_CSUM_OFF + 1] := (csum / 256) as byte;
    assert a[..] == z[icmp + ICMP_CSUM_OFF := (csum % 256) as byte][icmp + ICMP_CSUM_OFF + 1 := (csum / 256) as byte];
    StoreOverCleared(t, nh, icmp, c);
  }

  /** Changing word k of a buffer from 0 to lo + 256 * hi adds that word to its word sum. */
  lemma {:induction false} WordSumSetWord(s: seq<byte>, k: nat, lo: byte, hi: byte, n: nat)
    requires 2 * k + 1 < |s| && s[2 * k] == 0 && s[2 * k + 1] == 0
    requires n <= NumWords(|s|)
    ensures WordSumUpTo(s[2 * k := lo][2 * k + 1 := hi], n)
            == WordSumUpTo(s, n) + (if k < n then lo as nat + 256 * (hi as nat) else 0)
  {
    var t := s[2 * k := lo][2 * k + 1 := hi];
    if n > 0 {
      WordSumSetWord(s, k, lo, hi, n - 1);
      if n - 1 == k {
        assert Word(t, k) == lo as nat + 256 * (hi as nat);
        assert Word(s, k) == 0;
      } else {
        assert Word(t, n - 1) == Word(s, n - 1);
      }
    }
  }

  /**
   * Section 2.3 of RFC 4443: once the complemented checksum is stored, the
   * same sum over the whole message (checksum included) is all ones, which
   * is what a receiver checks.
   */
  lemma StoredChecksumVerifies(s: seq<byte>, nh: nat, icmp: nat)
    requires Icmp6Present(s, nh, icmp)
    requires PayloadLen(s, nh) >= 4
    ensures Icmp6Present(StoreIcmp6Checksum(s, nh, icmp), nh, icmp)
    ensures Icmp6Sum(StoreIcmp6Checksum(s, nh, icmp), nh, icmp) == 0xffff
  {
    var z := ClearChecksum(s, icmp);
    ClearKeepsHeader(s, nh, icmp, 0, 0);
    StoreOverClearedValue(s, icmp, 0xffff - Icmp6Sum(z, nh, icmp));
    ClearedStoreVerifies(z, nh, icmp, 0xffff - Icmp6Sum(z, nh, icmp));
  }

  /** Over a cleared checksum field, storing the complemented sum `x` makes the message verify. */
  lemma ClearedStoreVerifies(z: seq<byte>, nh: nat, icmp: nat, x: u16)
    requires Icmp6Present(z, nh, icmp) && PayloadLen(z, nh) >= 4
    requires z[icmp + ICMP_CSUM_OFF] == 0 && z[icmp + ICMP_CSUM_OFF + 1] == 0
    requires x == 0xffff - Icmp6Sum(z, nh, icmp)
    ensures Icmp6Present(StoreChecksumValue(z, icmp, x), nh, icmp)
    ensures Icmp6Sum(StoreChecksumValue(z, icmp, x), nh, icmp) == 0xffff
  {
    var p := PseudoSum(z, nh);
    var w := WordSum(z[icmp..icmp + PayloadLen(z, nh)]);
    IcmpSumOfParts(z, nh, icmp, p, w);
    ComplementedSumFolds(p, w, Icmp6Sum(z, nh, icmp), x);
    var v := w + x as nat;
    assert Fold(p as nat + Fold(v)) == 0xffff;
    SumAfterStore(z, nh, icmp, x);
    IcmpSumOfParts(StoreChecksumValue(z, icmp, x), nh, icmp, p, v);
  }

  /** Storing over the cleared field or over the old one gives the same bytes. */
  lemma StoreOverClearedValue(s: seq<byte>, icmp: nat, x: u16)
    requires icmp + 4 <= |s|
    ensures StoreChecksumValue(ClearChecksum(s, icmp), icmp, x) == StoreChecksumValue(s, icmp, x)
  {
  }

  /** Storing `x` over a cleared checksum field adds `x` to the message's word sum. */
  lemma SumAfterStore(z: seq<byte>, nh: nat, icmp: nat, x: u16)
    requires Icmp6Present(z, nh, icmp) && PayloadLen(z, nh) >= 4
    requires z[icmp + ICMP_CSUM_OFF] == 0 && z[icmp + ICMP_CSUM_OFF + 1] == 0
    ensures var t := StoreChecksumValue(z, icmp, x);
            Icmp6Present(t, nh, icmp) && PayloadLen(t, nh) == PayloadLen(z, nh) && PseudoSum(t, nh) == PseudoSum(z, nh)
    ensures var t := StoreChecksumValue(z, icmp, x);
            WordSum(t[icmp..icmp + PayloadLen(z, nh)]) == WordSum(z[icmp..icmp + PayloadLen(z, nh)]) + x as nat
  {
    var lo: byte, hi: byte := (x % 256) as byte, (x / 256) as byte;
    assert lo as nat + 256 * (hi as nat) == x as nat;
    var t := StoreChecksumValue(z, icmp, x);
    assert t == z[icmp + ICMP_CSUM_OFF := lo][icmp + ICMP_CSUM_OFF + 1 := hi];
    ClearKeepsHeader(z, nh, icmp, lo, hi);
    var plen := PayloadLen(z, nh);
    var mz: seq<byte> := z[icmp..icmp + plen];
    var mt: seq<byte> := t[icmp..icmp + plen];
    assert mt == mz[2 := lo][3 := hi];
    StoredWordAdds(mz, lo, hi);
  }

  /** Icmp6Sum in terms of the pseudo-header sum `p` and the message's word sum `w`. */
  lemma IcmpSumOfParts(t: seq<byte>, nh: nat, icmp: nat, p: u16, w: nat)
    requires Icmp6Present(t, nh, icmp) && PseudoSum(t, nh) == p
    requires WordSum(t[icmp..icmp + PayloadLen(t, nh)]) == w
    ensures Icmp6Sum(t, nh, icmp) == Fold(p as nat + Fold(w))
  {
  }

  lemma StoredWordAdds(m: seq<byte>, lo: byte, hi: byte)
    requires |m| >= 4 && m[2] == 0 && m[3] == 0
    ensures WordSum(m[2 := lo][3 := hi]) == WordSum(m) + lo as nat + 256 * (hi as nat)
  {
    WordSumSetWord(m, 1, lo, hi, NumWords(|m|));
  }

  /** The arithmetic behind StoredChecksumVerifies. */
  lemma ComplementedSumFolds(p: u16, w: nat, r: u16, x: u16)
    requires r == Fold(p as nat + Fold(w)) && x == 0xffff - r
    ensures Fold(p as nat + Fold(w + x as nat)) == 0xffff
  {
    var fz := Fold(w);
    FoldResidue(w);
    FoldResidue(p as nat + fz);
    var ft := Fold(w + x as nat);
    FoldResidue(w + x as nat);
    ResidueArith(p, w, fz, r, x, ft);
    FoldOfMultiple(p as nat + ft);
  }

  /** The residues behind ComplementedSumFolds, with every fold named. */
  lemma ResidueArith(p: nat, w: nat, fz: nat, r: nat, x: nat, ft: nat)
    requires fz % 65535 == w % 65535 && (fz == 0 <==> w == 0)
    requires r % 65535 == (p + fz) % 65535 && (r == 0 <==> p + fz == 0)
    requires r <= 0xffff && x == 0xffff - r
    requires ft % 65535 == (w + x) % 65535 && (ft == 0 <==> w + x == 0)
    ensures (p + ft) % 65535 == 0 && p + ft != 0
  {
    ModAdd(p, p, ft, w + x);
    ModAdd(p, p, w, fz);
    ModAdd(p + w, p + fz, x, x);
    ModAdd(p + fz, r, x, x);
    assert r + x == 65535;
    if w + x == 0 {
      assert fz == 0;
      assert p != 0;
    }
  }

  lemma ModAdd(a: nat, a': nat, b: nat, b': nat)
    requires a % 65535 == a' % 65535 && b % 65535 == b' % 65535
    ensures (a + b) % 65535 == (a' + b') % 65535
  {
    var qa, qa', qb, qb' := a / 65535, a' / 65535, b / 65535, b' / 65535;
    assert a == 65535 * qa + a % 65535 && a' == 65535 * qa' + a' % 65535;
    assert b == 65535 * qb + b % 65535 && b' == 65535 * qb' + b' % 65535;
    assert a + b == 65535 * (qa + qb) + (a % 65535 + b % 65535);
    assert a' + b' == 65535 * (qa' + qb') + (a % 65535 + b % 65535);
  }

  lemma ModShift(x: nat, k: nat)
    ensures (x + 65535 * k) % 65535 == x % 65535
  {
  }

  /**
   * `x = (x & 0xffff) + (x >> 16); if (x >> 16) x = (x & 0xffff) + 1;` as
   * vr_ip6_update_csum applies it to each increment and to the new sum: a
   * 32-bit value comes out below 2^16 and congruent to itself modulo 0xffff.
   */
  function EndAroundCarry(x: u32): (r: u16)
    ensures r % 65535 == x % 65535
  {
    var once := x % 65536 + x / 65536;
    ModStep(x / 65536, x % 65536);
    if once / 65536 != 0 then
      assert once % 65536 + 1 == once - 65535;
      ModShift(once - 65535, 1);
      once % 65536 + 1
    else once
  }

  /**
   * The checksum arithmetic of vr_ip6_update_csum: start from the stored
   * value (complemented unless the checksum is partial), add the folded
   * address and port increments, fold once more with the end-around carry,
   * and store the result (complemented unless partial).  In ones'-complement
   * terms the new sum is the old one plus both increments (equation 3 of
   * RFC 1624, with the increments computed by vr_incremental_diff).
   */
  function UpdatedChecksum(stored: u16, partial: bool, ipInc: u32, portInc: u32): (r: u16)
    ensures var before := if partial then stored else 0xffff - stored;
            var after := if partial then r else 0xffff - r;
            after % 65535 == (before + ipInc + portInc) % 65535
  {
    var before: nat := if partial then stored else 0xffff - stored;
    var ip := EndAroundCarry(ipInc);
    var port := EndAroundCarry(portInc);
    var after := EndAroundCarry(before + ip + port);
    ModAdd(ip, ipInc, port, portInc);
    ModAdd(before, before, ip + port, ipInc + portInc);
    if partial then after else 0xffff - after
  }

  /** Position of the TCP or UDP checksum for the header at nh, if it has one. */
  function L4ChecksumOffset(s: seq<byte>, nh: nat): Option<nat>
    requires HasIp6Header(s, nh)
  {
    if NextHeader(s, nh) == PROTO_TCP then Some(nh + IP6_HDR_LEN + TCP_CSUM_OFF)
    else if NextHeader(s, nh) == PROTO_UDP then Some(nh + IP6_HDR_LEN + UDP_CSUM_OFF)
    else None
  }

  /** The TCP or UDP checksum field, when the header has one, is in the packet. */
  predicate L4ChecksumPresent(s: seq<byte>, nh: nat)
  {
    HasIp6Header(s, nh)
    && (L4ChecksumOffset(s, nh).Some? ==> L4ChecksumOffset(s, nh).value + 2 <= |s|)
  }

  /** The packet after vr_ip6_update_csum. */
  function UpdateCsum(s: seq<byte>, nh: nat, ipInc: u32, portInc: u32, partial: bool,
                      transportValid: bool): (r: seq<byte>)
    requires L4ChecksumPresent(s, nh)
    ensures |r| == |s|
  {
    match L4ChecksumOffset(s, nh)
    case None => s
    case Some(off) =>
      if NextHeader(s, nh) == PROTO_UDP && Load16(s, off) == 0 then s
      else if !transportValid then s
      else Write(s, off, LE16(UpdatedChecksum(Load16(s, off), partial, ipInc, portInc)))
  }

  /**
   * A zero UDP checksum (none computed) and any packet that is neither TCP
   * nor UDP are left untouched; otherwise only the two checksum bytes change.
   */
  lemma UpdateCsumTouchesOnlyChecksum(s: seq<byte>, nh: nat, ipInc: u32, portInc: u32,
                                      partial: bool, tv: bool)
    requires L4ChecksumPresent(s, nh)
    ensures L4ChecksumOffset(s, nh).None? ==> UpdateCsum(s, nh, ipInc, portInc, partial, tv) == s
    ensures NextHeader(s, nh) == PROTO_UDP && Load16(s, nh + IP6_HDR_LEN + UDP_CSUM_OFF) == 0
            ==> UpdateCsum(s, nh, ipInc, portInc, partial, tv) == s
    ensures forall i :: (0 <= i < |s| && (L4ChecksumOffset(s, nh).None? ||
                         !(L4ChecksumOffset(s, nh).value <= i < L4ChecksumOffset(s, nh).value + 2)))
                        ==> UpdateCsum(s, nh, ipInc, portInc, partial, tv)[i] == s[i]
  {
  }

  lemma WriteTwo(s: seq<byte>, off: nat, v: u16)
    requires off + 2 <= |s|
    ensures Write(s, off, LE16(v)) == s[off := v % 256][off + 1 := v / 256]
  {
  }

  /** vr_ip6_update_csum, in place. */
  method UpdateCsumInPlace(a: array<byte>, nh: nat, ipInc: u32, portInc: u32, partial: bool,
                           transportValid: bool)
    requires L4ChecksumPresent(a[..], nh)
    modifies a
    ensures a[..] == UpdateCsum(old(a[..]), nh, ipInc, portInc, partial, transportValid)
  {
    ghost var s := a[..];
    var off: nat;
    if a[nh + IP6_NXT_OFF] == PROTO_TCP {
      off := nh + IP6_HDR_LEN + TCP_CSUM_OFF;
    } else if a[nh + IP6_NXT_OFF] == PROTO_UDP {
      off := nh + IP6_HDR_LEN + UDP_CSUM_OFF;
      if a[off] as int + 256 * (a[off + 1] as int) == 0 {
        return;
      }
    } else {
      return;
    }
    assert L4ChecksumOffset(s, nh) == Some(off);
    if transportValid {
      var stored := a[off] as int + 256 * (a[off + 1] as int);
      assert stored == Load16(s, off);
      var c := UpdatedChecksum(stored, partial, ipInc, portInc);
      a[off], a[off + 1] := c % 256, c / 256;
      WriteTwo(s, off, c);
    }
  }
}
