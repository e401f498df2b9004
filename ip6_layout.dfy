// Byte layout of the headers that dp-core/vr_proto_ip6.c reads and writes:
// the 40-byte IPv6 header (section 3 of RFC 8200), the 8-byte fragment
// header (section 4.5 of RFC 8200), the ICMPv6 header (RFC 4443) and the
// TCP/UDP port and checksum positions.  The C structures themselves
// (struct vr_ip6, vr_ip6_frag, vr_icmp, vr_tcp, vr_udp) are not part of this
// model; the offsets below are those fixed by the standards.

module Ip6Layout {
  import opened Base

  const IP6_HDR_LEN: nat := 40
  const IP6_PLEN_OFF: nat := 4
  const IP6_NXT_OFF: nat := 6
  const IP6_SRC_OFF: nat := 8
  const IP6_DST_OFF: nat := 24

  const FRAG_HDR_LEN: nat := 8
  const FRAG_NXT_OFF: nat := 0
  const FRAG_OFFSET_OFF: nat := 2

  /** struct vr_icmp: type, code, checksum, identifier, sequence, then data. */
  const ICMP_HDR_LEN: nat := 8
  const ICMP_TYPE_OFF: nat := 0
  const ICMP_CSUM_OFF: nat := 2
  const ICMP_EID_OFF: nat := 4

  const TCP_CSUM_OFF: nat := 16
  const UDP_CSUM_OFF: nat := 6

  const ETH_HDR_LEN: nat := 14
  const ETH_ALEN: nat := 6

  // Protocol numbers.
  const PROTO_TCP: byte := 6
  const PROTO_UDP: byte := 17
  const PROTO_FRAG: byte := 44
  const PROTO_ICMP6: byte := 58
  const PROTO_SCTP: byte := 132

  // ICMPv6 message types (RFC 4443 section 4, RFC 4861 section 4).
  const ICMP6_ECHO_REQUEST: byte := 128
  const ICMP6_ECHO_REPLY: byte := 129
  const ICMP6_ROUTER_SOL: byte := 133
  const ICMP6_ROUTER_AD: byte := 134
  const ICMP6_NEIGH_SOL: byte := 135
  const ICMP6_NEIGH_AD: byte := 136
  const ICMP6_REDIRECT: byte := 137

  /** The IPv6 header at offset `nh` of packet bytes `s` is present. */
  predicate HasIp6Header(s: seq<byte>, nh: nat)
  {
    nh + IP6_HDR_LEN <= |s|
  }

  function Version(s: seq<byte>, nh: nat): nat
    requires HasIp6Header(s, nh)
  {
    s[nh] / 16
  }

  /** ntohs(ip6_plen). */
  function PayloadLen(s: seq<byte>, nh: nat): u16
    requires HasIp6Header(s, nh)
  {
    Net16(s, nh + IP6_PLEN_OFF)
  }

  function NextHeader(s: seq<byte>, nh: nat): byte
    requires HasIp6Header(s, nh)
  {
    s[nh + IP6_NXT_OFF]
  }

  function Src(s: seq<byte>, nh: nat): (r: seq<byte>)
    requires HasIp6Header(s, nh)
    ensures |r| == 16
  {
    s[nh + IP6_SRC_OFF..nh + IP6_DST_OFF]
  }

  function Dst(s: seq<byte>, nh: nat): (r: seq<byte>)
    requires HasIp6Header(s, nh)
    ensures |r| == 16
  {
    s[nh + IP6_DST_OFF..nh + IP6_HDR_LEN]
  }

  /** `s` with `b` written from position `at` on (a memcpy into the packet). */
  function Write(s: seq<byte>, at: nat, b: seq<byte>): (r: seq<byte>)
    requires at + |b| <= |s|
    ensures |r| == |s|
    ensures r[at..at + |b|] == b
    ensures r[..at] == s[..at] && r[at + |b|..] == s[at + |b|..]
  {
    s[..at] + b + s[at + |b|..]
  }

  /** memcpy of `b` into the packet at `at`, one byte at a time. */
  method CopyIn(a: array<byte>, at: nat, b: seq<byte>)
    requires at + |b| <= a.Length
    modifies a
    ensures a[..] == Write(old(a[..]), at, b)
  {
    var k := 0;
    while k < |b|
      invariant 0 <= k <= |b|
      invariant forall i :: 0 <= i < a.Length && !(at <= i < at + k) ==> a[i] == old(a[i])
      invariant forall i :: 0 <= i < k ==> a[at + i] == b[i]
    {
      a[at + k] := b[k];
      k := k + 1;
    }
    assert forall i :: 0 <= i < a.Length ==> a[..][i] == Write(old(a[..]), at, b)[i];
  }

  // ---------------------------------------------------------------------
  // Frames: what a sequence of writes leaves alone

  /** `t` agrees with `s` on the first `k` bytes and has the same length. */
  predicate SameBelow(s: seq<byte>, t: seq<byte>, k: nat)
  {
    |s| == |t| && k <= |s| && s[..k] == t[..k]
  }

  /** A write at or after `k` keeps the first `k` bytes. */
  lemma WriteAbove(s: seq<byte>, at: nat, b: seq<byte>, k: nat)
    requires at + |b| <= |s| && k <= at
    ensures SameBelow(s, Write(s, at, b), k)
  {
    assert Write(s, at, b)[..k] == Write(s, at, b)[..at][..k];
  }

  lemma SameBelowTrans(s: seq<byte>, t: seq<byte>, u: seq<byte>, k: nat, j: nat, m: nat)
    requires SameBelow(s, t, k) && SameBelow(t, u, j) && m <= k && m <= j
    ensures SameBelow(s, u, m)
  {
    assert s[..m] == s[..k][..m] && t[..m] == t[..k][..m] == t[..j][..m] && u[..m] == u[..j][..m];
  }

  /** `t` agrees with `s` from byte `k` on and has the same length. */
  predicate SameAbove(s: seq<byte>, t: seq<byte>, k: nat)
  {
    |s| == |t| && k <= |s| && s[k..] == t[k..]
  }

  lemma SameAboveTrans(s: seq<byte>, t: seq<byte>, u: seq<byte>, k: nat, j: nat, m: nat)
    requires SameAbove(s, t, k) && SameAbove(t, u, j) && k <= m && j <= m && m <= |s|
    ensures SameAbove(s, u, m)
  {
    assert s[m..] == s[k..][m - k..] && t[m..] == t[k..][m - k..] == t[j..][m - j..] && u[m..] == u[j..][m - j..];
  }

  lemma SameAboveSlice(s: seq<byte>, t: seq<byte>, k: nat, lo: nat, hi: nat)
    requires SameAbove(s, t, k) && k <= lo <= hi <= |s|
    ensures t[lo..hi] == s[lo..hi]
  {
    forall j | lo <= j < hi
      ensures t[j] == s[j]
    {
      SameAboveAt(s, t, k, j);
    }
    assert t[lo..hi] == s[lo..hi];
  }

  lemma SameBelowSlice(s: seq<byte>, t: seq<byte>, k: nat, lo: nat, hi: nat)
    requires SameBelow(s, t, k) && lo <= hi <= k
    ensures t[lo..hi] == s[lo..hi]
  {
    assert s[lo..hi] == s[..k][lo..hi] && t[lo..hi] == t[..k][lo..hi];
  }

  lemma Load16OfSlice(s: seq<byte>, t: seq<byte>, at: nat)
    requires at + 2 <= |s| && at + 2 <= |t| && t[at..at + 2] == s[at..at + 2]
    ensures Load16(t, at) == Load16(s, at)
  {
    assert t[at] == t[at..at + 2][0] && t[at + 1] == t[at..at + 2][1];
    assert s[at] == s[at..at + 2][0] && s[at + 1] == s[at..at + 2][1];
  }

  lemma Load16OfWrite(s: seq<byte>, at: nat, v: u16)
    requires at + 2 <= |s|
    ensures Load16(Write(s, at, LE16(v)), at) == v
  {
    var r := Write(s, at, LE16(v));
    assert r[at] == r[at..at + 2][0] && r[at + 1] == r[at..at + 2][1];
    Load16OfLE16(v);
  }

  /** A write that ends at or before `k` keeps everything from `k` on. */
  lemma WriteBelow(s: seq<byte>, at: nat, b: seq<byte>, k: nat)
    requires at + |b| <= k <= |s|
    ensures SameAbove(s, Write(s, at, b), k)
  {
    var r := Write(s, at, b);
    assert r[k..] == r[at + |b|..][k - (at + |b|)..];
    assert s[k..] == s[at + |b|..][k - (at + |b|)..];
  }

  lemma SameBelowAt(s: seq<byte>, t: seq<byte>, k: nat, j: nat)
    requires SameBelow(s, t, k) && j < k
    ensures t[j] == s[j]
  {
    assert t[j] == t[..k][j] && s[j] == s[..k][j];
  }

  lemma SameAboveAt(s: seq<byte>, t: seq<byte>, k: nat, j: nat)
    requires SameAbove(s, t, k) && k <= j < |s|
    ensures t[j] == s[j]
  {
    assert t[j] == t[k..][j - k] && s[j] == s[k..][j - k];
  }
}
