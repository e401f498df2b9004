// Machine-width integer types, an Option type and the byte-order helpers
// shared by every other module.  The host is taken to be little-endian
// (x86), which is what the datapath is built for: a 16-bit load of the wire
// bytes b0, b1 yields b0 + 256 * b1, and ntohs/htons swap the two bytes.

module Base {

  type byte = x: int | 0 <= x < 0x100
  type u16 = x: int | 0 <= x < 0x1_0000
  type u32 = x: int | 0 <= x < 0x1_0000_0000
  type u64 = x: int | 0 <= x < 0x1_0000_0000_0000_0000

  datatype Option<T> = None | Some(value: T)

  /** The two bytes a 16-bit store writes to memory on a little-endian host. */
  function LE16(x: u16): (r: seq<byte>)
    ensures |r| == 2 && r[0] as int + 256 * (r[1] as int) == x
  {
    [x % 256, x / 256]
  }

  /** A 16-bit load from memory on a little-endian host. */
  function Load16(s: seq<byte>, i: nat): (r: u16)
    requires i + 2 <= |s|
  {
    s[i] as int + 256 * (s[i + 1] as int)
  }

  /** ntohs of the 16 bits starting at s[i]: the value in network order. */
  function Net16(s: seq<byte>, i: nat): (r: u16)
    requires i + 2 <= |s|
  {
    256 * (s[i] as int) + s[i + 1]
  }

  /** htons/ntohs on a little-endian host: swap the two bytes. */
  function Swap16(x: u16): (r: u16)
  {
    (x % 256) * 256 + x / 256
  }

  lemma Swap16Involution(x: u16)
    ensures Swap16(Swap16(x)) == x
  {
    DivBy256(x, x / 256, x % 256);
    DivBy256(Swap16(x), x % 256, x / 256);
  }

  lemma LoadIsSwappedNet(s: seq<byte>, i: nat)
    requires i + 2 <= |s|
    ensures Load16(s, i) == Swap16(Net16(s, i))
  {
    DivBy256(Net16(s, i), s[i] as int, s[i + 1] as int);
  }

  /** The four bytes a 32-bit store writes on a little-endian host: the low half, then the high half. */
  function LE32(x: u32): (r: seq<byte>)
    ensures |r| == 4
    ensures r[0] as int + 256 * (r[1] as int) + 65536 * (r[2] as int + 256 * (r[3] as int)) == x
  {
    LE16(x % 65536) + LE16(x / 65536)
  }

  /** A 32-bit load from memory on a little-endian host. */
  function Load32(s: seq<byte>, i: nat): (r: u32)
    requires i + 4 <= |s|
  {
    Load16(s, i) + 65536 * Load16(s, i + 2)
  }

  lemma {:induction false} Load16OfLE16(x: u16)
    ensures Load16(LE16(x), 0) == x
  {
  }

  lemma {:induction false} LE16OfLoad16(s: seq<byte>, i: nat)
    requires i + 2 <= |s|
    ensures LE16(Load16(s, i)) == s[i..i + 2]
  {
    DivBy256(Load16(s, i), s[i + 1] as int, s[i] as int);
  }

  lemma {:induction false} Load32OfLE32(x: u32)
    ensures Load32(LE32(x), 0) == x
  {
  }

  lemma {:induction false} LE32OfLoad32(s: seq<byte>, i: nat)
    requires i + 4 <= |s|
    ensures LE32(Load32(s, i)) == s[i..i + 4]
  {
    DivBy65536(Load32(s, i), Load16(s, i + 2), Load16(s, i));
    LE16OfLoad16(s, i);
    LE16OfLoad16(s, i + 2);
    assert s[i..i + 4] == s[i..i + 2] + s[i + 2..i + 4];
  }

  lemma DivBy256(v: int, q: int, r: int)
    requires v == 256 * q + r && 0 <= r < 256
    ensures v / 256 == q && v % 256 == r
  {
  }

  lemma DivBy65536(v: int, q: int, r: int)
    requires v == 65536 * q + r && 0 <= r < 65536
    ensures v / 65536 == q && v % 65536 == r
  {
  }

  /** The eight bytes a 64-bit store writes on a little-endian host. */
  function LE64(x: u64): (r: seq<byte>)
    ensures |r| == 8
  {
    LE32(x % 0x1_0000_0000) + LE32(x / 0x1_0000_0000)
  }

  function Load64(s: seq<byte>, i: nat): (r: u64)
    requires i + 8 <= |s|
  {
    Load32(s, i) + 0x1_0000_0000 * Load32(s, i + 4)
  }

  lemma {:induction false} Load64OfLE64(x: u64)
    ensures Load64(LE64(x), 0) == x
  {
    var s := LE64(x);
    Load32OfLE32(x % 0x1_0000_0000);
    Load32OfLE32(x / 0x1_0000_0000);
    assert s[0..4] == LE32(x % 0x1_0000_0000);
    assert s[4..8] == LE32(x / 0x1_0000_0000);
    assert Load32(s, 0) == Load32(s[0..4], 0);
    assert Load32(s, 4) == Load32(s[4..8], 0);
  }

  lemma {:induction false} LE64OfLoad64(s: seq<byte>, i: nat)
    requires i + 8 <= |s|
    ensures LE64(Load64(s, i)) == s[i..i + 8]
  {
    var v := Load64(s, i);
    assert v % 0x1_0000_0000 == Load32(s, i);
    assert v / 0x1_0000_0000 == Load32(s, i + 4);
    LE32OfLoad32(s, i);
    LE32OfLoad32(s, i + 4);
    assert s[i..i + 8] == s[i..i + 4] + s[i + 4..i + 8];
  }

  /** True when every byte of s is zero. */
  predicate AllZero(s: seq<byte>)
  {
    forall i :: 0 <= i < |s| ==> s[i] == 0
  }

  function Zeros(n: nat): (r: seq<byte>)
    ensures |r| == n && AllZero(r)
  {
    seq(n, _ => 0)
  }
}
