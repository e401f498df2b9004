// The encoders of the Python test library (utils/pylib/common.py): the 64-bit
// byte-order swap built from two 32-bit ones, the decoding of hex strings
// into byte lists, the dotted-decimal split of an IPv4 address, the three
// outgoing-interface ids of a string, and the encap-valid vector derived
// from them.
//
// socket.htonl is a 32-bit byte swap (the host is little-endian).  Python's
// int() is taken on an optional sign followed by decimal digits; an
// exception (ValueError, IndexError, TypeError) is a result of None.

module PyCommon {
  import opened Base

  // ---------------------------------------------------------------------------
  // Byte order (htonll, ntohll)
  // ---------------------------------------------------------------------------

  const TWO32: nat := 0x1_0000_0000

  function Rev4(s: seq<byte>): (r: seq<byte>)
    requires |s| == 4
    ensures |r| == 4
  {
    [s[3], s[2], s[1], s[0]]
  }

  /** socket.htonl, and equally socket.ntohl, on a little-endian host: the four bytes in reverse order. */
  function Swap32(x: u32): (r: u32)
    ensures LE32(r) == Rev4(LE32(x))
  {
    LE32OfLoad32(Rev4(LE32(x)), 0);
    Load32(Rev4(LE32(x)), 0)
  }

  lemma Swap32Involution(x: u32)
    ensures Swap32(Swap32(x)) == x
  {
    assert Rev4(Rev4(LE32(x))) == LE32(x);
    Load32OfLE32(x);
  }

  /** htonll: the byte-swapped low half becomes the high half, and the byte-swapped high half the low half. */
  function Htonll(x: u64): u64
  {
    Swap32(x % TWO32) * TWO32 + Swap32(x / TWO32)
  }

  /** ntohll performs the same computation as htonll. */
  function Ntohll(x: u64): u64
  {
    Htonll(x)
  }

  lemma DivTwo32(v: int, q: int, r: int)
    requires v == q * TWO32 + r && 0 <= r < TWO32
    ensures v / TWO32 == q && v % TWO32 == r
  {
  }

  /** ntohll undoes htonll for every 64-bit value. */
  lemma NtohllHtonll(x: u64)
    ensures Ntohll(Htonll(x)) == x
  {
    var lo, hi := x % TWO32, x / TWO32;
    DivTwo32(Htonll(x), Swap32(lo), Swap32(hi));
    Swap32Involution(lo);
    Swap32Involution(hi);
  }

  /** htonll gives the network byte order: its little-endian bytes are those of x, reversed. */
  lemma HtonllIsBigEndian(x: u64)
    ensures var b := LE64(x); LE64(Htonll(x)) == [b[7], b[6], b[5], b[4], b[3], b[2], b[1], b[0]]
  {
    var lo, hi := x % TWO32, x / TWO32;
    DivTwo32(Htonll(x), Swap32(lo), Swap32(hi));
    DivTwo32(x, hi, lo);
  }

  // ---------------------------------------------------------------------------
  // Hex strings (vt_encap, vt_mac)
  // ---------------------------------------------------------------------------

  predicate HexDigit(c: char)
  {
    '0' <= c <= '9' || 'a' <= c <= 'f' || 'A' <= c <= 'F'
  }

  function HexVal(c: char): (v: nat)
    requires HexDigit(c)
    ensures v < 16
  {
    if '0' <= c <= '9' then c as int - '0' as int
    else if 'a' <= c <= 'f' then c as int - 'a' as int + 10
    else c as int - 'A' as int + 10
  }

  /** The lower-case hex digit of a value below 16. */
  function HexChar(v: nat): (c: char)
    requires v < 16
    ensures HexDigit(c) && HexVal(c) == v && c != ':' && c != ' '
  {
    if v < 10 then ('0' as int + v) as char else ('a' as int + v - 10) as char
  }

  /** s with every occurrence of c removed (str.replace(c, '')). */
  function Drop(s: seq<char>, c: char): (r: seq<char>)
    ensures c !in r && |r| <= |s|
    ensures c !in s ==> r == s
  {
    if |s| == 0 then []
    else if s[0] == c then Drop(s[1..], c)
    else [s[0]] + Drop(s[1..], c)
  }

  /** str.decode('hex') with each character then taken by ord: a byte per pair of hex digits; an odd length or a non-hex character is a TypeError. */
  function Unhex(t: seq<char>): (r: Option<seq<byte>>)
    ensures r.Some? ==> 2 * |r.value| == |t|
  {
    if |t| == 0 then Some([])
    else if |t| < 2 || !HexDigit(t[0]) || !HexDigit(t[1]) then None
    else match Unhex(t[2..])
         case None => None
         case Some(rest) => Some([16 * HexVal(t[0]) + HexVal(t[1])] + rest)
  }

  /** Unhex succeeds exactly on an even number of hex digits, and byte i is the value of digits 2i and 2i+1. */
  lemma UnhexSpec(t: seq<char>)
    ensures Unhex(t).None? <==> |t| % 2 == 1 || exists k | 0 <= k < |t| :: !HexDigit(t[k])
    ensures Unhex(t).Some? ==> forall i | 0 <= i < |t| / 2 ::
              HexDigit(t[2 * i]) && HexDigit(t[2 * i + 1]) &&
              Unhex(t).value[i] == 16 * HexVal(t[2 * i]) + HexVal(t[2 * i + 1])
  {
    UnhexFails(t);
    UnhexBytes(t);
  }

  lemma {:induction false} UnhexFails(t: seq<char>)
    ensures Unhex(t).None? <==> |t| % 2 == 1 || exists k | 0 <= k < |t| :: !HexDigit(t[k])
    decreases |t|
  {
    if |t| >= 2 {
      var rest := t[2..];
      UnhexFails(rest);
      if HexDigit(t[0]) && HexDigit(t[1]) && exists k | 0 <= k < |rest| :: !HexDigit(rest[k]) {
        var k :| 0 <= k < |rest| && !HexDigit(rest[k]);
        assert !HexDigit(t[k + 2]);
      }
      if HexDigit(t[0]) && HexDigit(t[1]) && exists k | 0 <= k < |t| :: !HexDigit(t[k]) {
        var k :| 0 <= k < |t| && !HexDigit(t[k]);
        assert !HexDigit(rest[k - 2]);
      }
    } else if |t| == 1 {
      assert |t| % 2 == 1;
    }
  }

  lemma {:induction false} UnhexBytes(t: seq<char>)
    ensures Unhex(t).Some? ==> forall i | 0 <= i < |t| / 2 ::
              HexDigit(t[2 * i]) && HexDigit(t[2 * i + 1]) &&
              Unhex(t).value[i] == 16 * HexVal(t[2 * i]) + HexVal(t[2 * i + 1])
    decreases |t|
  {
    if |t| >= 2 && Unhex(t).Some? {
      var rest := t[2..];
      UnhexBytes(rest);
      var v := Unhex(t).value;
      var w := Unhex(rest).value;
      assert v == [16 * HexVal(t[0]) + HexVal(t[1])] + w;
      forall i | 1 <= i < |t| / 2
        ensures HexDigit(t[2 * i]) && HexDigit(t[2 * i + 1]) && v[i] == 16 * HexVal(t[2 * i]) + HexVal(t[2 * i + 1])
      {
        assert v[i] == w[i - 1];
        assert t[2 * i] == rest[2 * (i - 1)] && t[2 * i + 1] == rest[2 * (i - 1) + 1];
      }
    }
  }

  /** Decoding one step of the string: the byte at the front then the rest, or the error. */
  function Prepend(b: seq<byte>, r: Option<seq<byte>>): Option<seq<byte>>
  {
    match r
    case None => None
    case Some(x) => Some(b + x)
  }

  lemma PrependAssoc(a: seq<byte>, b: seq<byte>, r: Option<seq<byte>>)
    ensures Prepend(a, Prepend(b, r)) == Prepend(a + b, r)
  {
    if r.Some? {
      assert a + (b + r.value) == (a + b) + r.value;
    }
  }

  lemma PrependNothing(r: Option<seq<byte>>)
    ensures Prepend([], r) == r
  {
    if r.Some? {
      assert [] + r.value == r.value;
    }
  }

  /**
   * vt_encap (sep ' ') and vt_mac (sep ':'): the separators are dropped,
   * then each pair of hex digits becomes one byte.
   */
  method HexList(s: seq<char>, sep: char) returns (r: Option<seq<byte>>)
    ensures r == Unhex(Drop(s, sep))
  {
    var t := Drop(s, sep);
    var out: seq<byte> := [];
    var i := 0;
    assert t[0..] == t;
    PrependNothing(Unhex(t));
    while i < |t|
      invariant i <= |t|
      invariant Unhex(t) == Prepend(out, Unhex(t[i..]))
      decreases |t| - i
    {
      if i + 1 == |t| || !HexDigit(t[i]) || !HexDigit(t[i + 1]) {
        return None;
      }
      var b := 16 * HexVal(t[i]) + HexVal(t[i + 1]);
      assert t[i..][2..] == t[i + 2..];
      assert Unhex(t[i..]) == Prepend([b], Unhex(t[i + 2..]));
      PrependAssoc(out, [b], Unhex(t[i + 2..]));
      out := out + [b];
      i := i + 2;
    }
    assert t[i..] == [];
    assert out + [] == out;
    return Some(out);
  }

  /** The two lower-case hex digits of a byte. */
  function Pair(x: byte): (r: seq<char>)
    ensures |r| == 2 && HexDigit(r[0]) && HexDigit(r[1]) && 16 * HexVal(r[0]) + HexVal(r[1]) == x
  {
    [HexChar(x / 16), HexChar(x % 16)]
  }

  /** The hex digits of each byte, joined with `sep`: the text of a MAC address for ':'. */
  function Hex(b: seq<byte>, sep: char): seq<char>
  {
    if |b| == 0 then []
    else if |b| == 1 then Pair(b[0])
    else Pair(b[0]) + [sep] + Hex(b[1..], sep)
  }

  lemma {:induction false} DropConcat(a: seq<char>, b: seq<char>, c: char)
    ensures Drop(a + b, c) == Drop(a, c) + Drop(b, c)
    decreases |a|
  {
    if |a| > 0 {
      DropConcat(a[1..], b, c);
      assert (a + b)[1..] == a[1..] + b;
    } else {
      assert a + b == b;
    }
  }

  lemma UnhexPair(x: byte, rest: seq<char>)
    ensures Unhex(Pair(x) + rest) == Prepend([x], Unhex(rest))
  {
    assert (Pair(x) + rest)[2..] == rest;
  }

  /** Decoding the hex text of a byte list gives the list back, whichever separator joins it. */
  lemma {:induction false} HexListOfHex(b: seq<byte>, sep: char)
    requires !HexDigit(sep)
    ensures Unhex(Drop(Hex(b, sep), sep)) == Some(b)
    decreases |b|
  {
    if |b| == 1 {
      assert sep !in Pair(b[0]);
      assert Drop(Hex(b, sep), sep) == Pair(b[0]) + [];
      UnhexPair(b[0], []);
      assert [b[0]] + [] == b;
    } else if |b| > 1 {
      HexListOfHex(b[1..], sep);
      var rest := Drop(Hex(b[1..], sep), sep);
      DropConcat(Pair(b[0]) + [sep], Hex(b[1..], sep), sep);
      DropConcat(Pair(b[0]), [sep], sep);
      assert Drop([sep], sep) == [];
      assert Drop(Hex(b, sep), sep) == Pair(b[0]) + rest;
      UnhexPair(b[0], rest);
      assert [b[0]] + b[1..] == b;
    }
  }

  // ---------------------------------------------------------------------------
  // Decimal fields (vt_ipv4_bytes)
  // ---------------------------------------------------------------------------

  predicate Digit(c: char)
  {
    '0' <= c <= '9'
  }

  predicate AllDigits(s: seq<char>)
  {
    forall k | 0 <= k < |s| :: Digit(s[k])
  }

  /** The value of a run of decimal digits. */
  function DigitsValue(s: seq<char>): nat
    requires AllDigits(s)
  {
    if |s| == 0 then 0 else DigitsValue(s[..|s| - 1]) * 10 + (s[|s| - 1] as int - '0' as int)
  }

  /** Python int() of a field: an optional sign, then one or more decimal digits. */
  function ParseInt(f: seq<char>): (r: Option<int>)
    ensures |f| == 0 ==> r.None?
    ensures AllDigits(f) && |f| > 0 ==> r == Some(DigitsValue(f))
  {
    if |f| > 0 && (f[0] == '-' || f[0] == '+') && |f| > 1 && AllDigits(f[1..]) then
      var v: int := DigitsValue(f[1..]);
      Some(if f[0] == '-' then -v else v)
    else if |f| > 0 && AllDigits(f) then Some(DigitsValue(f))
    else None
  }

  /** str.split(sep): the fields between separators, at least one. */
  function SplitOn(s: seq<char>, sep: char): (r: seq<seq<char>>)
    ensures |r| >= 1
    ensures forall i | 0 <= i < |r| :: sep !in r[i]
    decreases |s|
  {
    if |s| == 0 then [[]]
    else if s[0] == sep then [[]] + SplitOn(s[1..], sep)
    else var rest := SplitOn(s[1..], sep); [[s[0]] + rest[0]] + rest[1..]
  }

  /** The fields joined with `sep`, the inverse of str.split(sep). */
  function Join(fs: seq<seq<char>>, sep: char): seq<char>
    requires |fs| >= 1
  {
    if |fs| == 1 then fs[0] else fs[0] + [sep] + Join(fs[1..], sep)
  }

  lemma {:induction false} SplitField(f: seq<char>, sep: char, tail: seq<char>)
    requires sep !in f
    ensures SplitOn(f + [sep] + tail, sep) == [f] + SplitOn(tail, sep)
    ensures SplitOn(f, sep) == [f]
    decreases |f|
  {
    if |f| > 0 {
      SplitField(f[1..], sep, tail);
      assert (f + [sep] + tail)[1..] == f[1..] + [sep] + tail;
      assert [f[0]] + f[1..] == f;
    } else {
      assert f + [sep] + tail == [sep] + tail;
    }
  }

  /** Splitting joined fields gives the fields back when none holds the separator. */
  lemma {:induction false} SplitJoin(fs: seq<seq<char>>, sep: char)
    requires |fs| >= 1 && forall i | 0 <= i < |fs| :: sep !in fs[i]
    ensures SplitOn(Join(fs, sep), sep) == fs
    decreases |fs|
  {
    SplitField(fs[0], sep, []);
    if |fs| > 1 {
      SplitJoin(fs[1..], sep);
      SplitField(fs[0], sep, Join(fs[1..], sep));
      assert [fs[0]] + fs[1..] == fs;
    }
  }

  /** vt_ipv4_bytes: the int() of each '.'-separated field, in order; a field int() refuses makes it fail. */
  method Ipv4Bytes(s: seq<char>) returns (r: Option<seq<int>>)
    ensures var fs := SplitOn(s, '.');
            (r.None? <==> exists i | 0 <= i < |fs| :: ParseInt(fs[i]).None?) &&
            (r.Some? ==> |r.value| == |fs| && forall i | 0 <= i < |fs| :: ParseInt(fs[i]) == Some(r.value[i]))
  {
    var fs := SplitOn(s, '.');
    var dec: seq<int> := [];
    var i := 0;
    while i < |fs|
      invariant i <= |fs| && |dec| == i
      invariant forall k | 0 <= k < i :: ParseInt(fs[k]) == Some(dec[k])
    {
      var v := ParseInt(fs[i]);
      if v.None? {
        return None;
      }
      dec := dec + [v.value];
      i := i + 1;
    }
    return Some(dec);
  }

  /** The decimal text of n, without leading zeros. */
  function Decimal(n: nat): (r: seq<char>)
    ensures |r| > 0 && AllDigits(r) && '.' !in r
    decreases n
  {
    if n < 10 then [('0' as int + n) as char] else Decimal(n / 10) + [('0' as int + n % 10) as char]
  }

  lemma {:induction false} DecimalValue(n: nat)
    ensures DigitsValue(Decimal(n)) == n
    decreases n
  {
    if n >= 10 {
      DecimalValue(n / 10);
      assert Decimal(n)[..|Decimal(n)| - 1] == Decimal(n / 10);
    }
  }

  /** The dotted-decimal text of a list of numbers splits back into those numbers. */
  lemma Ipv4BytesOfDotted(b: seq<nat>)
    requires |b| >= 1
    ensures var fs := seq(|b|, i requires 0 <= i < |b| => Decimal(b[i]));
            SplitOn(Join(fs, '.'), '.') == fs &&
            forall i | 0 <= i < |b| :: ParseInt(fs[i]) == Some(b[i])
  {
    var fs := seq(|b|, i requires 0 <= i < |b| => Decimal(b[i]));
    SplitJoin(fs, '.');
    forall i | 0 <= i < |b|
      ensures ParseInt(fs[i]) == Some(b[i])
    {
      DecimalValue(b[i]);
    }
  }

  // ---------------------------------------------------------------------------
  // Outgoing-interface ids (vt_oif_id, vt_encap_valid)
  // ---------------------------------------------------------------------------

  /** The fields vt_oif_id reads: none for "", else the ','-separated fields. */
  function OifFields(s: seq<char>): seq<seq<char>>
  {
    if s == "" then [] else SplitOn(s, ',')
  }

  /** The result of vt_oif_id: three ids, -1 where not given; more than three fields is an IndexError, a field int() refuses a ValueError. */
  function OifIds(s: seq<char>): (r: Option<seq<int>>)
    ensures var fs := OifFields(s);
            (r.None? <==> |fs| > 3 || exists i | 0 <= i < |fs| :: ParseInt(fs[i]).None?) &&
            (r.Some? ==> |r.value| == 3 &&
                         forall i | 0 <= i < 3 :: r.value[i] == if i < |fs| then ParseInt(fs[i]).value else -1)
  {
    var fs := OifFields(s);
    if |fs| > 3 || exists i | 0 <= i < |fs| :: ParseInt(fs[i]).None? then None
    else Some(seq(3, i requires 0 <= i < 3 => if i < |fs| then ParseInt(fs[i]).value else -1))
  }

  /** vt_oif_id: starts from [-1, -1, -1] and stores field i at position i. */
  method OifId(s: seq<char>) returns (r: Option<seq<int>>)
    ensures r == OifIds(s)
  {
    var ids := [-1, -1, -1];
    var fs := if s != "" then SplitOn(s, ',') else [];
    var i := 0;
    while i < |fs|
      invariant i <= |fs| && i <= 3 && |ids| == 3
      invariant forall k | 0 <= k < i :: ParseInt(fs[k]).Some? && ids[k] == ParseInt(fs[k]).value
      invariant forall k | i <= k < 3 :: ids[k] == -1
    {
      var v := ParseInt(fs[i]);
      if v.None? || i >= 3 {
        return None;
      }
      ids := ids[i := v.value];
      i := i + 1;
    }
    assert ids == seq(3, k requires 0 <= k < 3 => if k < |fs| then ParseInt(fs[k]).value else -1);
    return Some(ids);
  }

  /** The result of vt_encap_valid: 1 where an id above -1 is given, else 0; an id above -1 past the third is an IndexError. */
  function EncapValid(ids: seq<int>): (r: Option<seq<int>>)
    ensures r.None? <==> exists i | 3 <= i < |ids| :: ids[i] > -1
    ensures r.Some? ==>
              |r.value| == 3 &&
              forall i | 0 <= i < 3 :: r.value[i] == if i < |ids| && ids[i] > -1 then 1 else 0
  {
    if exists i | 3 <= i < |ids| :: ids[i] > -1 then None
    else Some(seq(3, i requires 0 <= i < 3 => if i < |ids| && ids[i] > -1 then 1 else 0))
  }

  /** vt_encap_valid: starts from [0, 0, 0] and marks each id above -1. */
  method EncapValidOf(ids: seq<int>) returns (r: Option<seq<int>>)
    ensures r == EncapValid(ids)
  {
    var valid := [0, 0, 0];
    var i := 0;
    while i < |ids|
      invariant i <= |ids| && |valid| == 3
      invariant forall k | 3 <= k < i :: ids[k] <= -1
      invariant forall k | 0 <= k < 3 :: valid[k] == if k < i && ids[k] > -1 then 1 else 0
    {
      if ids[i] > -1 {
        if i >= 3 {
          return None;
        }
        valid := valid[i := 1];
      }
      i := i + 1;
    }
    assert valid == seq(3, k requires 0 <= k < 3 => if k < |ids| && ids[k] > -1 then 1 else 0);
    return Some(valid);
  }

  /** The encap-valid vector of vt_oif_id's result marks exactly the ids that were given and are not negative. */
  lemma EncapValidOfOifIds(s: seq<char>)
    requires OifIds(s).Some?
    ensures var fs := OifFields(s);
            EncapValid(OifIds(s).value) ==
              Some(seq(3, i requires 0 <= i < 3 => if i < |fs| && ParseInt(fs[i]).value >= 0 then 1 else 0))
  {
    var fs := OifFields(s);
    var ids := OifIds(s).value;
    assert EncapValid(ids).value == seq(3, i requires 0 <= i < 3 => if i < |fs| && ParseInt(fs[i]).value >= 0 then 1 else 0);
  }

  /** vt_oif_id of "" is [-1, -1, -1], and its encap-valid vector is all 0. */
  lemma EmptyOifIds()
    ensures OifIds("") == Some([-1, -1, -1])
    ensures EncapValid([-1, -1, -1]) == Some([0, 0, 0])
  {
    assert OifIds("").value == [-1, -1, -1];
    assert EncapValid([-1, -1, -1]).value == [0, 0, 0];
  }
}
