// The parsing and validation helpers shared by the admin command-line tools
// (utils/vr_util.c): the in-place token extractor, the syntactic IPv4, IPv6 and
// MAC address checks, prefix masking of an address, the next-hop and response
// helpers, the code-to-name tables and the bound on the drop-log walk.
//
// A C string the tools modify is a `char` array holding a NUL somewhere; a
// string they only read is the sequence of its characters before the NUL.

module VrUtil {
  import opened Base
  import opened Drops
  import opened FlowDefs

  const NUL: char := '\0'

  // ---------------------------------------------------------------------
  // C strings

  /** strncmp(s, p, strlen(p)) == 0: the string starts with `p`. */
  predicate IsPrefix(p: seq<char>, s: seq<char>)
  {
    |p| <= |s| && s[..|p|] == p
  }

  /** A NUL terminates the string that starts at `i`. */
  predicate Terminated(s: seq<char>, i: nat)
  {
    exists k :: i <= k < |s| && s[k] == NUL
  }

  /** The position of the NUL that ends the string at `i` (so strlen is End(s, i) - i). */
  function End(s: seq<char>, i: nat): (e: nat)
    requires Terminated(s, i)
    ensures i <= e < |s| && s[e] == NUL
    decreases |s| - i
  {
    if s[i] == NUL then i else End(s, i + 1)
  }

  lemma {:induction false} EndIsFirst(s: seq<char>, i: nat, k: nat)
    requires Terminated(s, i) && i <= k < End(s, i)
    ensures s[k] != NUL
    decreases |s| - i
  {
    if k > i {
      EndIsFirst(s, i + 1, k);
    }
  }

  /** A NUL at `e` with none before it from `i` on is the end of the string at `i`. */
  /** On a terminated string, strlen is the distance to its NUL. */
  lemma {:induction false} LenIsEnd(s: seq<char>, i: nat)
    requires Terminated(s, i)
    ensures i + Len(s, i) == End(s, i)
    decreases |s| - i
  {
    if s[i] != NUL {
      LenIsEnd(s, i + 1);
    }
  }

  lemma {:induction false} EndAt(s: seq<char>, i: nat, e: nat)
    requires i <= e < |s| && s[e] == NUL && forall k | i <= k < e :: s[k] != NUL
    ensures Terminated(s, i) && End(s, i) == e
    decreases e - i
  {
    if i < e {
      EndAt(s, i + 1, e);
    }
  }

  /** The first position from `i` on that is not a space. */
  function SkipSpaces(s: seq<char>, i: nat): (k: nat)
    requires Terminated(s, i)
    ensures i <= k <= End(s, i) && s[k] != ' '
    decreases |s| - i
  {
    if s[i] != ' ' then i else SkipSpaces(s, i + 1)
  }

  lemma {:induction false} SkippedAreSpaces(s: seq<char>, i: nat, j: nat)
    requires Terminated(s, i) && i <= j < SkipSpaces(s, i)
    ensures s[j] == ' '
    decreases |s| - i
  {
    if j > i {
      SkippedAreSpaces(s, i + 1, j);
    }
  }

  /** strchr from `i`: the first position holding `c` or the terminating NUL. */
  function FindChar(s: seq<char>, i: nat, c: char): (k: nat)
    requires Terminated(s, i)
    ensures i <= k <= End(s, i) && (s[k] == c || s[k] == NUL)
    decreases |s| - i
  {
    if s[i] == c || s[i] == NUL then i else FindChar(s, i + 1, c)
  }

  lemma {:induction false} BeforeFound(s: seq<char>, i: nat, c: char, j: nat)
    requires Terminated(s, i) && i <= j < FindChar(s, i, c)
    ensures s[j] != c && s[j] != NUL
    decreases |s| - i
  {
    if j > i {
      BeforeFound(s, i + 1, c, j);
    }
  }

  /** The trailing-space loop: from offset `l`, step back over spaces, stopping at offset 0. */
  function TrimBack(s: seq<char>, st: nat, l: nat): (r: nat)
    requires st + l < |s|
    ensures r <= l
    ensures r > 0 ==> s[st + r] != ' '
  {
    if l == 0 || s[st + l] != ' ' then l else TrimBack(s, st, l - 1)
  }

  lemma {:induction false} TrimBackSame(s: seq<char>, t: seq<char>, st: nat, l: nat)
    requires st + l < |s| && |t| == |s| && forall k | st <= k <= st + l :: t[k] == s[k]
    ensures TrimBack(t, st, l) == TrimBack(s, st, l)
    decreases l
  {
    if l > 0 && s[st + l] == ' ' {
      TrimBackSame(s, t, st, l - 1);
    }
  }

  // ---------------------------------------------------------------------
  // vr_extract_token

  /**
   * vr_extract_token on the string at 0 of `s`: where the token starts, or
   * None, and the buffer afterwards.
   */
  function ExtractToken(s: seq<char>, sep: char): (r: (Option<nat>, seq<char>))
    requires Terminated(s, 0)
    ensures |r.1| == |s|
    ensures r.0.None? <==> s[SkipSpaces(s, 0)] == NUL || s[SkipSpaces(s, 0)] == sep
    ensures r.0.None? ==> r.1 == s
    ensures r.0.Some? ==> r.0.value == SkipSpaces(s, 0)
  {
    var st := SkipSpaces(s, 0);
    if s[st] == NUL || s[st] == sep then (None, s)
    else (Some(st), Cut(s, st, FindChar(s, st, sep), sep))
  }

  /** The buffer after the token at `st` is cut at `f` (a separator or the NUL) and its trailing spaces trimmed. */
  function Cut(s: seq<char>, st: nat, f: nat, sep: char): (r: seq<char>)
    requires st < f < |s| && (s[f] == sep || s[f] == NUL)
    ensures |r| == |s|
  {
    var found := s[f] == sep;
    var s1 := if found then s[f := NUL] else s;
    var l := TrimBack(s1, st, f - st - 1);
    var s2 := s1[st + l + 1 := NUL];
    if found && f - st != Len(s2, st) then s2[f := ' '] else s2
  }

  /** strlen from `i`, counting to the first NUL or the end of the buffer. */
  function Len(s: seq<char>, i: nat): (n: nat)
    requires i <= |s|
    ensures i + n <= |s|
    decreases |s| - i
  {
    if i == |s| || s[i] == NUL then 0 else Len(s, i + 1) + 1
  }

  /** What Cut leaves: the token's bytes unchanged and ending in a NUL just after the last kept character. */
  lemma CutShape(s: seq<char>, st: nat, f: nat, sep: char)
    requires st < f < |s| && (s[f] == sep || s[f] == NUL)
    requires forall k | st <= k < f :: s[k] != NUL
    ensures var r := Cut(s, st, f, sep);
            var l := TrimBack(s, st, f - st - 1);
            Terminated(r, st) && End(r, st) == st + l + 1 &&
            (forall k | 0 <= k <= st + l :: r[k] == s[k]) &&
            (s[f] == sep && sep != NUL && st + l + 1 < f ==> r[f] == ' ')
  {
    var found := s[f] == sep;
    var s1 := if found then s[f := NUL] else s;
    var l := TrimBack(s1, st, f - st - 1);
    TrimBackSame(s, s1, st, f - st - 1);
    var s2 := s1[st + l + 1 := NUL];
    EndAt(s2, st, st + l + 1);
    LenIsEnd(s2, st);
    var r := Cut(s, st, f, sep);
    assert r == if found && f - st != l + 1 then s2[f := ' '] else s2;
    EndAt(r, st, st + l + 1);
  }

  /**
   * The token at `st` of the buffer after the cut, `r`, is what `s` held
   * there, holds no separator, and neither starts nor ends with a space;
   * nothing before it changed.
   */
  predicate TokenOk(s: seq<char>, r: seq<char>, st: nat, sep: char)
    requires Terminated(r, st) && |r| == |s|
  {
    var e := End(r, st);
    st < e && r[st..e] == s[st..e] && sep !in r[st..e] && r[st] != ' ' && r[e - 1] != ' ' && r[..st] == s[..st]
  }

  lemma CutToken(s: seq<char>, st: nat, f: nat, sep: char)
    requires st < f < |s| && (s[f] == sep || s[f] == NUL) && s[st] != ' '
    requires forall k | st <= k < f :: s[k] != NUL && s[k] != sep
    ensures var r := Cut(s, st, f, sep);
            Terminated(r, st) && TokenOk(s, r, st, sep)
  {
    CutShape(s, st, f, sep);
    var r := Cut(s, st, f, sep);
    var e := End(r, st);
    assert r[st..e] == s[st..e];
    assert r[..st] == s[..st];
    assert forall k | st <= k < e :: r[st..e][k - st] == s[k];
  }

  /**
   * The token returned starts at the first non-space character and is as
   * TokenOk says.  When the separator was found and spaces were trimmed, the
   * separator's position holds a space afterwards.
   */
  lemma TokenShape(s: seq<char>, sep: char)
    requires Terminated(s, 0) && ExtractToken(s, sep).0.Some?
    ensures ExtractToken(s, sep).0 == Some(SkipSpaces(s, 0))
    ensures var st := SkipSpaces(s, 0);
            var r := ExtractToken(s, sep).1;
            Terminated(r, st) && TokenOk(s, r, st, sep)
    ensures var st := SkipSpaces(s, 0);
            var f := FindChar(s, st, sep);
            var r := ExtractToken(s, sep).1;
            Terminated(r, st) &&
            (s[f] == sep && sep != NUL && End(r, st) < f ==> r[f] == ' ')
  {
    var st := SkipSpaces(s, 0);
    var f := FindChar(s, st, sep);
    forall k | st <= k < f
      ensures s[k] != NUL && s[k] != sep
    {
      BeforeFound(s, st, sep, k);
    }
    CutShape(s, st, f, sep);
    CutToken(s, st, f, sep);
  }

  /** Past the token's NUL, Cut changes at most the separator, into a space. */
  lemma CutAfter(s: seq<char>, st: nat, f: nat, sep: char)
    requires st < f < |s| && (s[f] == sep || s[f] == NUL)
    requires forall k | st <= k < f :: s[k] != NUL
    ensures var r := Cut(s, st, f, sep);
            Terminated(r, st) &&
            forall k | End(r, st) < k < |s| :: r[k] == s[k] || (k == f && s[f] == sep && r[k] == ' ')
  {
    CutShape(s, st, f, sep);
    var found := s[f] == sep;
    var s1 := if found then s[f := NUL] else s;
    var l := TrimBack(s1, st, f - st - 1);
    TrimBackSame(s, s1, st, f - st - 1);
    var s2 := s1[st + l + 1 := NUL];
    var r := Cut(s, st, f, sep);
    assert r == s2 || r == s2[f := ' '];
  }

  /** A NUL at `j` bounds the end of the string at `i`. */
  lemma EndAtMost(s: seq<char>, i: nat, j: nat)
    requires Terminated(s, i) && i <= j < |s| && s[j] == NUL
    ensures End(s, i) <= j
  {
    if End(s, i) > j {
      EndIsFirst(s, i, j);
    }
  }

  /**
   * After a token is cut out of the string at 0 of `s`, the token's NUL is at
   * or before the string's old end, which still holds its NUL, and nothing
   * in between is a NUL: the rest of the string is still a string.
   */
  lemma TokenRest(s: seq<char>, sep: char)
    requires Terminated(s, 0) && sep != NUL && ExtractToken(s, sep).0.Some?
    ensures var st := SkipSpaces(s, 0);
            var r := ExtractToken(s, sep).1;
            Terminated(r, st) && st < End(r, st) <= End(s, 0) && r[End(s, 0)] == NUL &&
            forall k | End(r, st) < k < End(s, 0) :: r[k] != NUL
  {
    var st := SkipSpaces(s, 0);
    var f := FindChar(s, st, sep);
    forall k | st <= k < f
      ensures s[k] != NUL && s[k] != sep
    {
      BeforeFound(s, st, sep, k);
    }
    TokenShape(s, sep);
    CutAfter(s, st, f, sep);
    var r := ExtractToken(s, sep).1;
    var e := End(r, st);
    var z := End(s, 0);
    forall k | e < k < z
      ensures r[k] != NUL
    {
      EndIsFirst(s, 0, k);
    }
    if e < z {
      assert r[z] == NUL;
    }
    EndAtMost(r, st, z);
  }

  /** Where the caller resumes, one past the token's NUL, is again a string, ending where `s` did. */
  lemma RestAfterToken(s: seq<char>, sep: char)
    requires Terminated(s, 0) && sep != NUL && ExtractToken(s, sep).0.Some?
    ensures Terminated(ExtractToken(s, sep).1, SkipSpaces(s, 0))
    ensures var r := ExtractToken(s, sep).1;
            var e := End(r, SkipSpaces(s, 0));
            SkipSpaces(s, 0) < e <= End(s, 0) &&
            (e + 1 < End(s, 0) ==> Terminated(r[e + 1..], 0) && End(r[e + 1..], 0) == End(s, 0) - e - 1)
  {
    TokenRest(s, sep);
    RestOf(ExtractToken(s, sep).1, SkipSpaces(s, 0), End(s, 0));
  }

  /** A string at `st` ending before `z`, with no NUL between its end and `z`, resumes as a string ending at `z`. */
  lemma RestOf(r: seq<char>, st: nat, z: nat)
    requires Terminated(r, st) && st < End(r, st) <= z < |r| && r[z] == NUL
    requires forall k | End(r, st) < k < z :: r[k] != NUL
    ensures var e := End(r, st);
            e + 1 < z ==> Terminated(r[e + 1..], 0) && End(r[e + 1..], 0) == z - e - 1
  {
    var e := End(r, st);
    if e + 1 < z {
      SuffixString(r, e, z);
    }
  }

  /** The suffix after position `e` of a buffer with no NUL before `z` ends at `z`. */
  lemma SuffixString(r: seq<char>, e: nat, z: nat)
    requires e + 1 < z < |r| && r[z] == NUL && forall k | e < k < z :: r[k] != NUL
    ensures Terminated(r[e + 1..], 0) && End(r[e + 1..], 0) == z - e - 1
  {
    var t := r[e + 1..];
    forall k | 0 <= k < z - e - 1
      ensures t[k] != NUL
    {
      assert t[k] == r[e + 1 + k];
    }
    EndAt(t, 0, z - e - 1);
  }

  /** The string at `i`, copied out with its NUL, is a string of the same length. */
  lemma CopiedString(s: seq<char>, i: nat)
    requires Terminated(s, i)
    ensures Terminated(s[i..End(s, i)] + [NUL], 0) && End(s[i..End(s, i)] + [NUL], 0) == End(s, i) - i
  {
    var t := s[i..End(s, i)] + [NUL];
    forall k | 0 <= k < End(s, i) - i
      ensures t[k] != NUL
    {
      EndIsFirst(s, i, i + k);
    }
    EndAt(t, 0, End(s, i) - i);
  }

  /** A string of spaces only, or one whose first non-space character is the separator, gives no token. */
  lemma NoTokenCases(s: seq<char>, sep: char)
    requires Terminated(s, 0)
    ensures ExtractToken(s, sep).0.None? <==>
            (forall k | 0 <= k < End(s, 0) :: s[k] == ' ') || s[SkipSpaces(s, 0)] == sep
  {
    var st := SkipSpaces(s, 0);
    forall k | 0 <= k < st
      ensures s[k] == ' '
    {
      SkippedAreSpaces(s, 0, k);
    }
    if st < End(s, 0) {
      EndIsFirst(s, 0, st);
    }
  }

  /** vr_extract_token on the caller's buffer: returns the index where the token starts. */
  method ExtractTokenInPlace(a: array<char>, sep: char) returns (tok: Option<nat>)
    requires Terminated(a[..], 0)
    modifies a
    ensures (tok, a[..]) == ExtractToken(old(a[..]), sep)
  {
    var st := 0;
    while a[st] == ' '
      invariant st <= SkipSpaces(a[..], 0) && SkipSpaces(a[..], st) == SkipSpaces(a[..], 0)
      decreases a.Length - st
    {
      st := st + 1;
    }
    var len := StrLen(a, st);
    if len == 0 {
      return None;
    }
    if a[st] == sep {
      return None;
    }
    CutInPlace(a, st, sep);
    tok := Some(st);
  }

  /** The part of vr_extract_token after the checks: terminate the token and trim its trailing spaces. */
  method CutInPlace(a: array<char>, st: nat, sep: char)
    requires Terminated(a[..], st) && a[st] != NUL && a[st] != sep && a[st] != ' '
    modifies a
    ensures a[..] == Cut(old(a[..]), st, FindChar(old(a[..]), st, sep), sep)
  {
    ghost var s := a[..];
    var f := StrChr(a, st, sep);
    ghost var fs := FindChar(s, st, sep);
    FoundIsEnd(s, st, sep);
    var len := StrLen(a, st);
    if f.Some? {
      a[f.value] := NUL;
      CutAtFound(s, st, sep, a[..]);
      len := StrLen(a, st);
    }
    var l := TrimLoop(a, st, len - 1);
    a[st + l + 1] := NUL;
    assert Terminated(a[..], st) by { assert a[st + l + 1] == NUL; }
    ghost var s2 := a[..];
    var n := StrLen(a, st);
    if f.Some? && f.value - st != n {
      a[f.value] := ' ';
    }
    CutSteps(s, st, fs, sep, if s[fs] == sep then s[fs := NUL] else s, l, s2, n, a[..]);
  }

  /** The trailing-space loop of vr_extract_token (it reads the buffer only). */
  method TrimLoop(a: array<char>, st: nat, len0: nat) returns (len: nat)
    requires st + len0 < a.Length && a[st] != ' '
    ensures len == TrimBack(a[..], st, len0)
  {
    len := len0;
    var trimming := true;
    while trimming
      invariant len <= len0 && TrimBack(a[..], st, len0) == TrimBack(a[..], st, len)
      invariant !trimming ==> TrimBack(a[..], st, len) == len
      decreases len, trimming
    {
      if a[st + len] == ' ' {
        len := len - 1;
        trimming := len != 0;
      } else {
        trimming := false;
      }
    }
  }

  /** Without the separator, strchr stops at the NUL that ends the string. */
  lemma FoundIsEnd(s: seq<char>, st: nat, sep: char)
    requires Terminated(s, st)
    ensures s[FindChar(s, st, sep)] != sep ==> FindChar(s, st, sep) == End(s, st)
  {
    var f := FindChar(s, st, sep);
    if s[f] != sep && f < End(s, st) {
      EndIsFirst(s, st, f);
    }
  }

  /** Writing a NUL at the separator makes the string at `st` end there. */
  lemma CutAtFound(s: seq<char>, st: nat, sep: char, t: seq<char>)
    requires Terminated(s, st) && s[FindChar(s, st, sep)] == sep
    requires t == s[FindChar(s, st, sep) := NUL]
    ensures Terminated(t, st) && End(t, st) == FindChar(s, st, sep)
  {
    var f := FindChar(s, st, sep);
    forall k | st <= k < f
      ensures t[k] != NUL
    {
      BeforeFound(s, st, sep, k);
    }
    EndAt(t, st, f);
  }

  /** The buffer writes of the method, one after the other, are Cut. */
  lemma CutSteps(s: seq<char>, st: nat, f: nat, sep: char, s1: seq<char>, l: nat, s2: seq<char>, n: nat,
                 r: seq<char>)
    requires st < f < |s| && (s[f] == sep || s[f] == NUL)
    requires s1 == if s[f] == sep then s[f := NUL] else s
    requires l == TrimBack(s1, st, f - st - 1)
    requires s2 == s1[st + l + 1 := NUL] && Terminated(s2, st) && n == End(s2, st) - st
    requires r == if s[f] == sep && f - st != n then s2[f := ' '] else s2
    ensures r == Cut(s, st, f, sep)
  {
    LenIsEnd(s2, st);
  }

  /** strlen of the string at `i`. */
  method StrLen(a: array<char>, i: nat) returns (n: nat)
    requires Terminated(a[..], i)
    ensures i + n == End(a[..], i)
  {
    n := 0;
    while a[i + n] != NUL
      invariant i + n <= End(a[..], i)
      invariant forall k | i <= k < i + n :: a[k] != NUL
      decreases a.Length - (i + n)
    {
      n := n + 1;
    }
    EndAt(a[..], i, i + n);
  }

  /** strchr from `i`: the position of the first `c`, or None when the NUL comes first. */
  method StrChr(a: array<char>, i: nat, c: char) returns (p: Option<nat>)
    requires Terminated(a[..], i)
    ensures var k := FindChar(a[..], i, c);
            p == if a[k] == c then Some(k) else None
  {
    var k := i;
    while a[k] != c && a[k] != NUL
      invariant i <= k <= FindChar(a[..], i, c)
      invariant FindChar(a[..], k, c) == FindChar(a[..], i, c)
      decreases a.Length - k
    {
      k := k + 1;
    }
    p := if a[k] == c then Some(k) else None;
  }

  // ---------------------------------------------------------------------
  // Address syntax checks

  predicate IsDigit(c: char) { '0' <= c <= '9' }

  predicate IsAlnum(c: char) { IsDigit(c) || 'a' <= c <= 'z' || 'A' <= c <= 'Z' }

  /** How many letters and digits end just before position `n`. */
  function AlnumRun(s: seq<char>, n: nat): (r: nat)
    requires n <= |s|
    ensures r <= n
  {
    if n == 0 || !IsAlnum(s[n - 1]) then 0 else AlnumRun(s, n - 1) + 1
  }

  /** How many digits end just before position `n`. */
  function DigitRun(s: seq<char>, n: nat): (r: nat)
    requires n <= |s|
    ensures r <= n
  {
    if n == 0 || !IsDigit(s[n - 1]) then 0 else DigitRun(s, n - 1) + 1
  }

  /** How many times `c` occurs in the first `n` characters. */
  function Occurs(s: seq<char>, n: nat, c: char): (r: nat)
    requires n <= |s|
    ensures r <= n
  {
    if n == 0 then 0 else Occurs(s, n - 1, c) + (if s[n - 1] == c then 1 else 0)
  }

  lemma {:induction false} OccursMonotone(s: seq<char>, m: nat, n: nat, c: char)
    requires m <= n <= |s|
    ensures Occurs(s, m, c) <= Occurs(s, n, c)
    decreases n - m
  {
    if m < n {
      OccursMonotone(s, m, n - 1, c);
    }
  }

  /**
   * What vr_valid_ipv6_address accepts: "*", or a string of letters, digits
   * and ':' in which no run of letters and digits is longer than 4 and ':'
   * occurs at most 7 times.
   */
  predicate Ipv6Syntax(s: seq<char>)
  {
    s == "*" || ((forall k | 0 <= k < |s| :: Ipv6CharOk(s, k)) && Occurs(s, |s|, ':') <= 7)
  }

  /** Position `k` holds a letter, a digit or ':', and ends a run of at most 4 letters and digits. */
  predicate Ipv6CharOk(s: seq<char>, k: nat)
    requires k < |s|
  {
    (IsAlnum(s[k]) || s[k] == ':') && AlnumRun(s, k + 1) <= 4
  }

  /**
   * What vr_valid_ipv4_address accepts: "*", or a string of digits and '.'
   * that does not start with '.', in which no run of digits is longer than 3
   * and '.' occurs exactly 3 times.
   */
  predicate Ipv4Syntax(s: seq<char>)
  {
    s == "*" || ((forall k | 0 <= k < |s| :: Ipv4CharOk(s, k)) && Occurs(s, |s|, '.') == 3)
  }

  /** Position `k` holds a digit, or a '.' that is not the first character, and ends a run of at most 3 digits. */
  predicate Ipv4CharOk(s: seq<char>, k: nat)
    requires k < |s|
  {
    (IsDigit(s[k]) || (k > 0 && s[k] == '.')) && DigitRun(s, k + 1) <= 3
  }

  /** An accepted address holds no NUL: the C validators stop at the terminator, so every character they accept is a real one. */
  lemma AddressSyntaxNulFree(s: seq<char>)
    ensures Ipv6Syntax(s) ==> '\0' !in s
    ensures Ipv4Syntax(s) ==> '\0' !in s
  {
    if '\0' in s {
      var k :| 0 <= k < |s| && s[k] == '\0';
      assert !Ipv6CharOk(s, k) && !Ipv4CharOk(s, k);
    }
  }

  /** vr_valid_ipv6_address: the character loop with its group and separator counters. */
  method ValidIpv6Address(addr: seq<char>) returns (ok: bool)
    ensures ok == Ipv6Syntax(addr)
  {
    if |addr| >= 1 && addr[0] == '*' && |addr| == 1 {
      assert addr == "*";
      return true;
    }
    assert addr != "*" by {
      assert |"*"| == 1 && "*"[0] == '*';
    }
    var i, j, sepCount := 0, 0, 0;
    while i < |addr|
      invariant i <= |addr| && j == AlnumRun(addr, i) && sepCount == Occurs(addr, i, ':')
      invariant forall k | 0 <= k < i :: Ipv6CharOk(addr, k)
      invariant sepCount <= 7
    {
      if IsAlnum(addr[i]) {
        j := j + 1;
      } else if addr[i] == ':' {
        j := 0;
        sepCount := sepCount + 1;
      } else {
        assert !Ipv6CharOk(addr, i);
        return false;
      }
      assert AlnumRun(addr, i + 1) == j && Occurs(addr, i + 1, ':') == sepCount;
      if j > 4 || sepCount > 7 {
        OccursMonotone(addr, i + 1, |addr|, ':');
        assert j > 4 ==> !Ipv6CharOk(addr, i);
        return false;
      }
      assert Ipv6CharOk(addr, i);
      i := i + 1;
    }
    return true;
  }

  /** vr_valid_ipv4_address: the character loop with its group and separator counters. */
  method ValidIpv4Address(addr: seq<char>) returns (ok: bool)
    ensures ok == Ipv4Syntax(addr)
  {
    if |addr| >= 1 && addr[0] == '*' && |addr| == 1 {
      assert addr == "*";
      return true;
    }
    assert addr != "*" by {
      assert |"*"| == 1 && "*"[0] == '*';
    }
    var i, j, sepCount := 0, 0, 0;
    while i < |addr|
      invariant i <= |addr| && j == DigitRun(addr, i) && sepCount == Occurs(addr, i, '.')
      invariant forall k | 0 <= k < i :: Ipv4CharOk(addr, k)
      invariant sepCount <= 3
    {
      if IsDigit(addr[i]) {
        j := j + 1;
      } else if i > 0 && addr[i] == '.' {
        j := 0;
        sepCount := sepCount + 1;
      } else {
        assert !Ipv4CharOk(addr, i);
        return false;
      }
      assert DigitRun(addr, i + 1) == j && Occurs(addr, i + 1, '.') == sepCount;
      if j > 3 || sepCount > 3 {
        OccursMonotone(addr, i + 1, |addr|, '.');
        assert j > 3 ==> !Ipv4CharOk(addr, i);
        return false;
      }
      assert Ipv4CharOk(addr, i);
      i := i + 1;
    }
    if sepCount != 3 {
      return false;
    }
    return true;
  }

  /** "10.1.1.3" is a valid IPv4 address and "10.1.1" is not. */
  lemma Ipv4Examples()
    ensures Ipv4Syntax("10.1.1.3")
    ensures !Ipv4Syntax("10.1.1")
    ensures !Ipv4Syntax(".1.1.3")
  {
    var s := "10.1.1.3";
    assert DigitRun(s, 1) == 1 && DigitRun(s, 2) == 2 && DigitRun(s, 3) == 0;
    assert DigitRun(s, 4) == 1 && DigitRun(s, 5) == 0 && DigitRun(s, 6) == 1;
    assert DigitRun(s, 7) == 0 && DigitRun(s, 8) == 1;
    assert Occurs(s, 8, '.') == 3;
    assert Occurs("10.1.1", 6, '.') == 2;
    assert !Ipv4CharOk(".1.1.3", 0);
  }

  const ETHER_ALEN: nat := 6

  /** vr_valid_mac_address: false for NULL and for the all-zero address. */
  function ValidMacAddress(mac: Option<seq<byte>>): (ok: bool)
    requires mac.Some? ==> |mac.value| >= ETHER_ALEN
    ensures ok <==> mac.Some? && exists k | 0 <= k < ETHER_ALEN :: mac.value[k] != 0
  {
    mac.Some? && mac.value[..ETHER_ALEN] != Zeros(ETHER_ALEN)
  }

  // ---------------------------------------------------------------------
  // address_mask

  /** How many address bytes address_mask works on: 4 for AF_INET, 16 for any other family. */
  function AddressBytes(family: nat): (n: nat)
    ensures n == 4 || n == 16
  {
    if family == AF_INET as nat then IP4_ADDRESS_LEN else IP6_ADDRESS_LEN
  }

  /** The single-bit mask of bit `j` of a byte, counted from the most significant bit. */
  function BitOf(j: nat): bv8
    requires j < 8
  {
    if j == 0 then 0x80 else if j == 1 then 0x40 else if j == 2 then 0x20 else if j == 3 then 0x10
    else if j == 4 then 0x08 else if j == 5 then 0x04 else if j == 6 then 0x02 else 0x01
  }

  /** Bit `j` of byte `k` of an address, counted from the most significant bit. */
  predicate Bit(s: seq<byte>, k: nat, j: nat)
    requires k < |s| && j < 8
  {
    (s[k] as bv8) & BitOf(j) != 0
  }

  /** Byte `k` of the mask of a prefix of length `plen`. */
  function PrefixByte(k: nat, plen: nat): bv8
  {
    if plen >= 8 * k + 8 then 0xFF
    else if plen <= 8 * k then 0
    else 0xFF << (8 - (plen - 8 * k))
  }

  /** A byte ANDed with a bit mask. */
  function AndByte(x: byte, m: bv8): (r: byte)
    ensures r as bv8 == (x as bv8) & m
  {
    ((x as bv8) & m) as byte
  }

  /** The address with every bit from `plen` on cleared, over the first AddressBytes(family) bytes. */
  function Masked(s: seq<byte>, plen: nat, family: nat): (r: seq<byte>)
    requires |s| >= AddressBytes(family)
    ensures |r| == |s|
  {
    seq(|s|, k requires 0 <= k < |s| =>
      if k < AddressBytes(family) then AndByte(s[k], PrefixByte(k, plen)) else s[k])
  }

  lemma PrefixByteBit(k: nat, plen: nat, j: nat)
    requires j < 8
    ensures PrefixByte(k, plen) & BitOf(j) != 0 <==> 8 * k + j < plen
  {
    if 8 * k < plen < 8 * k + 8 {
      var m := plen - 8 * k;
      assert 1 <= m <= 7;
      ShiftedOnesBit(m, j);
    }
  }

  lemma ShiftedOnesBit(m: nat, j: nat)
    requires 1 <= m <= 7 && j < 8
    ensures (0xFF as bv8 << (8 - m)) & BitOf(j) != 0 <==> j < m
  {
    assert j == 0 || j == 1 || j == 2 || j == 3 || j == 4 || j == 5 || j == 6 || j == 7;
    assert m == 1 || m == 2 || m == 3 || m == 4 || m == 5 || m == 6 || m == 7;
  }

  /** address_mask keeps the first `plen` bits of the address, clears the others and leaves the bytes after it alone. */
  lemma MaskedBits(s: seq<byte>, plen: nat, family: nat, k: nat, j: nat)
    requires |s| >= AddressBytes(family) && k < AddressBytes(family) && j < 8
    ensures Bit(Masked(s, plen, family), k, j) <==> 8 * k + j < plen && Bit(s, k, j)
  {
    MaskedAt(s, plen, family, k);
    PrefixAndBit(s[k] as bv8, k, plen, j);
  }

  lemma MaskedAt(s: seq<byte>, plen: nat, family: nat, k: nat)
    requires |s| >= AddressBytes(family) && k < AddressBytes(family)
    ensures Masked(s, plen, family)[k] as bv8 == (s[k] as bv8) & PrefixByte(k, plen)
  {
  }

  lemma PrefixAndBit(x: bv8, k: nat, plen: nat, j: nat)
    requires j < 8
    ensures (x & PrefixByte(k, plen)) & BitOf(j) != 0 <==> 8 * k + j < plen && x & BitOf(j) != 0
  {
    PrefixByteBit(k, plen, j);
    AndBit(x, PrefixByte(k, plen), j);
  }

  lemma AndBit(x: bv8, y: bv8, j: nat)
    requires j < 8
    ensures (x & y) & BitOf(j) != 0 <==> x & BitOf(j) != 0 && y & BitOf(j) != 0
  {
    assert j == 0 || j == 1 || j == 2 || j == 3 || j == 4 || j == 5 || j == 6 || j == 7;
  }

  lemma MaskedKeepsRest(s: seq<byte>, plen: nat, family: nat)
    requires |s| >= AddressBytes(family)
    ensures Masked(s, plen, family)[AddressBytes(family)..] == s[AddressBytes(family)..]
  {
  }

  /** Masking twice with the same prefix is masking once. */
  lemma MaskedIdempotent(s: seq<byte>, plen: nat, family: nat)
    requires |s| >= AddressBytes(family)
    ensures Masked(Masked(s, plen, family), plen, family) == Masked(s, plen, family)
  {
    var r := Masked(s, plen, family);
    forall k | 0 <= k < |s|
      ensures Masked(r, plen, family)[k] == r[k]
    {
      if k < AddressBytes(family) {
        AndTwice(s[k] as bv8, PrefixByte(k, plen));
        assert Masked(r, plen, family)[k] == AndByte(r[k], PrefixByte(k, plen));
      }
    }
  }

  lemma AndTwice(x: bv8, m: bv8)
    ensures ((x & m) & m) == x & m
  {
  }

  /** address_mask on the caller's buffer: builds the mask bit by bit, from the last address bit down to `plen`, then ANDs it in. */
  method AddressMask(addr: array<byte>, plen: byte, family: nat)
    requires addr.Length >= AddressBytes(family)
    modifies addr
    ensures addr[..] == Masked(old(addr[..]), plen, family)
  {
    var addressBits: int := 8 * AddressBytes(family);
    var mask := new bv8[IP6_ADDRESS_LEN](_ => 0xFF);
    var i: int := addressBits - 1;
    AllOnesBits(mask[..], addressBits);
    while i >= plen
      modifies mask
      invariant i < addressBits && (i >= plen - 1 || i == addressBits - 1)
      invariant mask.Length == IP6_ADDRESS_LEN && MaskedFrom(mask[..], i, addressBits)
      decreases i
    {
      ghost var m0 := mask[..];
      mask[i / 8] := mask[i / 8] ^ BitOf(i % 8);
      FlipStep(m0, mask[..], i, addressBits);
      i := i - 1;
    }
    MaskIsPrefix(mask[..], plen, addressBits, i);
    assert addressBits / 8 == AddressBytes(family);
    ghost var s := addr[..];
    var k := 0;
    while k < addressBits / 8
      modifies addr
      invariant k <= addressBits / 8 && |addr[..]| == |s|
      invariant forall q | 0 <= q < k :: addr[q] == AndByte(s[q], PrefixByte(q, plen))
      invariant forall q | k <= q < addr.Length :: addr[q] == s[q]
      invariant forall q | 0 <= q < addressBits / 8 :: mask[q] == PrefixByte(q, plen)
    {
      addr[k] := AndByte(addr[k], mask[k]);
      k := k + 1;
    }
    MaskedOf(s, plen, family, addr[..]);
  }

  /** The mask has exactly the bits below `i + 1` and those from `addressBits` on set. */
  predicate MaskedFrom(m: seq<bv8>, i: int, addressBits: int)
    requires |m| == IP6_ADDRESS_LEN
  {
    forall p | 0 <= p < 8 * IP6_ADDRESS_LEN :: MaskBit(m, p) == !(i < p < addressBits)
  }

  lemma AllOnesBits(m: seq<bv8>, addressBits: int)
    requires |m| == IP6_ADDRESS_LEN && forall b | 0 <= b < |m| :: m[b] == 0xFF
    ensures MaskedFrom(m, addressBits - 1, addressBits)
  {
    forall p | 0 <= p < 8 * IP6_ADDRESS_LEN
      ensures MaskBit(m, p)
    {
      OnesBit(p % 8);
    }
  }

  lemma OnesBit(j: nat)
    requires j < 8
    ensures 0xFF & BitOf(j) != 0
  {
    assert j == 0 || j == 1 || j == 2 || j == 3 || j == 4 || j == 5 || j == 6 || j == 7;
  }

  lemma FlipStep(m0: seq<bv8>, m1: seq<bv8>, i: int, addressBits: int)
    requires |m0| == IP6_ADDRESS_LEN && 0 <= i < 8 * IP6_ADDRESS_LEN && i < addressBits && MaskedFrom(m0, i, addressBits)
    requires m1 == m0[i / 8 := m0[i / 8] ^ BitOf(i % 8)]
    ensures MaskedFrom(m1, i - 1, addressBits)
  {
    forall p | 0 <= p < 8 * IP6_ADDRESS_LEN
      ensures MaskBit(m1, p) == !(i - 1 < p < addressBits)
    {
      FlipBit(m0, i, p);
    }
  }

  lemma MaskedOf(s: seq<byte>, plen: nat, family: nat, r: seq<byte>)
    requires |s| >= AddressBytes(family) && |r| == |s|
    requires forall q | 0 <= q < AddressBytes(family) :: r[q] == AndByte(s[q], PrefixByte(q, plen))
    requires forall q | AddressBytes(family) <= q < |s| :: r[q] == s[q]
    ensures r == Masked(s, plen, family)
  {
  }

  predicate MaskBit(m: seq<bv8>, p: nat)
    requires p < 8 * |m|
  {
    m[p / 8] & BitOf(p % 8) != 0
  }

  /** XOR with bit `i` flips bit `i` of the mask and no other. */
  lemma FlipBit(m: seq<bv8>, i: nat, p: nat)
    requires i < 8 * |m| && p < 8 * |m|
    ensures var t := m[i / 8 := m[i / 8] ^ BitOf(i % 8)];
            MaskBit(t, p) == if p == i then !MaskBit(m, p) else MaskBit(m, p)
  {
    if p / 8 == i / 8 {
      XorBit(m[i / 8], i % 8, p % 8);
    }
  }

  lemma XorBit(x: bv8, a: nat, b: nat)
    requires a < 8 && b < 8
    ensures (x ^ BitOf(a)) & BitOf(b) != 0 <==> if a == b then x & BitOf(b) == 0 else x & BitOf(b) != 0
  {
    assert a == 0 || a == 1 || a == 2 || a == 3 || a == 4 || a == 5 || a == 6 || a == 7;
    assert b == 0 || b == 1 || b == 2 || b == 3 || b == 4 || b == 5 || b == 6 || b == 7;
  }

  /** Once the loop has cleared the bits from `plen` on, the mask's address bytes are the prefix bytes. */
  lemma MaskIsPrefix(m: seq<bv8>, plen: nat, addressBits: int, i: int)
    requires |m| == IP6_ADDRESS_LEN && (addressBits == 32 || addressBits == 128)
    requires i < plen && (i == addressBits - 1 || i == plen - 1)
    requires MaskedFrom(m, i, addressBits)
    ensures forall k | 0 <= k < addressBits / 8 :: m[k] == PrefixByte(k, plen)
  {
    forall k | 0 <= k < addressBits / 8
      ensures m[k] == PrefixByte(k, plen)
    {
      MaskByteIsPrefix(m, k, plen, addressBits, i);
    }
  }

  lemma MaskByteIsPrefix(m: seq<bv8>, k: nat, plen: nat, addressBits: int, i: int)
    requires |m| == IP6_ADDRESS_LEN && (addressBits == 32 || addressBits == 128) && k < addressBits / 8
    requires i < plen && (i == addressBits - 1 || i == plen - 1)
    requires MaskedFrom(m, i, addressBits)
    ensures m[k] == PrefixByte(k, plen)
  {
    forall j | 0 <= j < 8
      ensures m[k] & BitOf(j) == PrefixByte(k, plen) & BitOf(j)
    {
      var p := 8 * k + j;
      assert p / 8 == k && p % 8 == j;
      assert MaskBit(m, p) <==> p < plen;
      PrefixByteBit(k, plen, j);
      SingleBit(m[k], j);
      SingleBit(PrefixByte(k, plen), j);
    }
    SameBits(m[k], PrefixByte(k, plen));
  }

  lemma SingleBit(x: bv8, j: nat)
    requires j < 8
    ensures x & BitOf(j) == 0 || x & BitOf(j) == BitOf(j)
  {
    assert j == 0 || j == 1 || j == 2 || j == 3 || j == 4 || j == 5 || j == 6 || j == 7;
  }

  lemma SameBits(x: bv8, y: bv8)
    requires forall j | 0 <= j < 8 :: x & BitOf(j) == y & BitOf(j)
    ensures x == y
  {
    assert x & 0x80 == y & 0x80 by { assert BitOf(0) == 0x80; }
    assert x & 0x40 == y & 0x40 by { assert BitOf(1) == 0x40; }
    assert x & 0x20 == y & 0x20 by { assert BitOf(2) == 0x20; }
    assert x & 0x10 == y & 0x10 by { assert BitOf(3) == 0x10; }
    assert x & 0x08 == y & 0x08 by { assert BitOf(4) == 0x08; }
    assert x & 0x04 == y & 0x04 by { assert BitOf(5) == 0x04; }
    assert x & 0x02 == y & 0x02 by { assert BitOf(6) == 0x02; }
    assert x & 0x01 == y & 0x01 by { assert BitOf(7) == 0x01; }
  }

  // ---------------------------------------------------------------------
  // Next hops and responses

  /** The next-hop types (NH_* of vr_nexthop.h); a code outside the list is NhOther. */
  datatype NhType =
      NhDead | NhRcv | NhEncap | NhTunnel | NhResolve | NhDiscard | NhComposite
    | NhVrfTranslate | NhL2Rcv | NhOther(code: byte)

  /** vr_nexthop_req_has_vif: whether a next-hop request of this type names an interface. */
  predicate NexthopReqHasVif(t: NhType)
  {
    match t
    case NhEncap | NhTunnel | NhRcv | NhL2Rcv => true
    case _ => false
  }

  /** Only the four interface-bearing next-hop types name an interface; composite ones never do. */
  lemma NexthopVifTypes(t: NhType)
    ensures NexthopReqHasVif(t) <==> t == NhEncap || t == NhTunnel || t == NhRcv || t == NhL2Rcv
    ensures t == NhComposite ==> !NexthopReqHasVif(t)
  {
  }

  /** `code` has one of the bits of `mask` set (a bitwise AND of two non-negative ints). */
  predicate HasBits(code: nat, mask: u32)
    requires code < 0x1_0000_0000
  {
    (code as bv32) & (mask as bv32) != 0
  }

  /**
   * vr_response_common_process on a response with code `code`: the value it
   * returns, and what it leaves in *dump_pending (None when the caller passed
   * no place for it).  `dumpIncomplete` is VR_MESSAGE_DUMP_INCOMPLETE, whose value
   * is not part of this model.
   */
  function ResponseCommonProcess(code: int, dumpIncomplete: u32, hasPending: bool): (r: (int, Option<bool>))
    requires -0x8000_0000 <= code < 0x8000_0000
    ensures r.0 < 0 <==> code < 0
    ensures r.0 != 0 ==> r.0 == code
    ensures code >= 0 ==> r.0 == 0
    ensures r.1.Some? <==> hasPending
    ensures r.1 == Some(true) <==> hasPending && code >= 0 && HasBits(code, dumpIncomplete)
  {
    var pending := if hasPending then Some(false) else None;
    if code < 0 then (code, pending)
    else if HasBits(code, dumpIncomplete) && hasPending then (0, Some(true))
    else (0, pending)
  }

  // ---------------------------------------------------------------------
  // Name tables

  /** vr_proto_string. */
  function ProtoString(proto: u16): (name: seq<char>)
    ensures name == "UNKNOWN" <==> proto !in {1, 6, 17, 58, 132}
  {
    match proto
    case 6 => "TCP"
    case 17 => "UDP"
    case 1 => "ICMP"
    case 132 => "SCTP"
    case 58 => "ICMPv6"
    case _ => "UNKNOWN"
  }

  /** vr_pkt_vp_type_rsn. */
  function VpTypeName(t: PacketType): (name: seq<char>)
    ensures name == "UNKNOWN" <==> t == VpOther
  {
    match t
    case VpArp => "ARP"
    case VpIp => "IP"
    case VpIp6 => "IP6"
    case VpIpOIp => "IPOIP"
    case VpIp6OIp => "IP6OIP"
    case VpAgent => "AGENT"
    case VpPbb => "PBB"
    case VpOther => "UNKNOWN"
  }

  /** The name vr_pkt_droplog_rsn gives a listed drop reason. */
  function ReasonName(r: DropReason): seq<char>
  {
    match r
    case Discard => "Discards"
    case Pull => "Pull Fails"
    case InvalidIf => "Invalid IF"
    case InvalidArp => "Invalid ARP"
    case TrapNoIf => "Trap No IF"
    case NowhereToGo => "Nowhere to go"
    case FlowQueueLimitExceeded => "Flow Queue Limit Exceeded"
    case FlowNoMemory => "Flow No Memory"
    case FlowInvalidProtocol => "Flow Invalid Protocol"
    case FlowNatNoRflow => "Flow NAT no rflow"
    case FlowActionDrop => "Flow Action Drop"
    case FlowActionInvalid => "Flow Action Invalid"
    case FlowUnusable => "Flow Unusable"
    case FlowTableFull => "Flow Table Full"
    case InterfaceTxDiscard => "IF TX Discard"
    case InterfaceDrop => "IF Drop"
    case Duplicated => "Duplicate"
    case Push => "Push Fails"
    case TtlExceeded => "TTL Exceeded"
    case InvalidNh => "Invalid NH"
    case InvalidLabel => "Invalid Label"
    case InvalidProtocol => "Invalid Protocol"
    case InterfaceRxDiscard => "IF RX Discard"
    case InvalidMcastSource => "Invalid Mcast Source"
    case HeadAllocFail => "Head Alloc Fails"
    case PcowFail => "PCOW fails"
    case McastDfBit => "Jumbo Mcast Pkt with DF Bit"
    case McastCloneFail => "Mcast Clone Fail"
    case NoMemory => "Memory Failures"
    case RewriteFail => "Rewrite Fail"
    case Misc => "Misc"
    case InvalidPacket => "Invalid Packets"
    case CksumErr => "Checksum errors"
    case NoFmd => "No Fmd"
    case ClonedOriginal => "Cloned Original"
    case InvalidVnid => "Invalid VNID"
    case Fragments => "Fragment errors"
    case InvalidSource => "Invalid Source"
    case L2NoRoute => "No L2 Route"
    case FragmentQueueFail => "Fragment Queueing Failures"
    case VlanFwdTx => "VLAN fwd intf failed TX"
    case VlanFwdEnq => "VLAN fwd intf failed enq"
    case NewFlows => "New Flow Drops"
    case FlowEvict => "Flow Unusable (Eviction)"
    case TrapOriginal => "Original Packet Trapped"
    case LeafToLeaf => "Etree Leaf to Leaf"
    case BmacIsidMismatch => "Bmac/ISID Mismatch"
    case PktLoop => "Packet Loop"
    case NoCryptPath => "No Encrypt Path Failures"
    case InvalidHbsPkt => "Invalid HBS received packet"
    case NoFragEntry => "No Fragment Entries"
    case IcmpError => "ICMP errors"
    case CloneFail => "Clone Failures"
    case InvalidUnderlayEcmp => "Invalid underlay ECMP"
  }

  /** vr_pkt_droplog_rsn: the name of a drop code, "Unknow" for a code that names no reason. */
  function DropName(code: DropCode): (name: seq<char>)
    ensures name == "Unknow" <==> code.Unlisted?
  {
    match code
    case Listed(r) =>
      ReasonNotUnknown(r);
      ReasonName(r)
    case Unlisted => "Unknow"
  }

  /** No listed reason is named "Unknow". */
  lemma ReasonNotUnknown(r: DropReason)
    ensures ReasonName(r) != "Unknow"
  {
    match r
    case Discard => case Pull => case InvalidIf => case InvalidArp => case TrapNoIf => case NowhereToGo =>
    case FlowQueueLimitExceeded => case FlowNoMemory => case FlowInvalidProtocol => case FlowNatNoRflow =>
    case FlowActionDrop => case FlowActionInvalid => case FlowUnusable => case FlowTableFull =>
    case InterfaceTxDiscard => case InterfaceDrop => case Duplicated => case Push => case TtlExceeded =>
    case InvalidNh => case InvalidLabel => case InvalidProtocol => case InterfaceRxDiscard =>
    case InvalidMcastSource => case HeadAllocFail => case PcowFail => case McastDfBit =>
    case McastCloneFail => case NoMemory => case RewriteFail => case Misc => case InvalidPacket =>
    case CksumErr => case NoFmd => case ClonedOriginal => case InvalidVnid => case Fragments =>
    case InvalidSource => case L2NoRoute => case FragmentQueueFail => case VlanFwdTx => case VlanFwdEnq =>
    case NewFlows => case FlowEvict => case TrapOriginal => case LeafToLeaf => case BmacIsidMismatch =>
    case PktLoop => case NoCryptPath => case InvalidHbsPkt => case NoFragEntry => case IcmpError =>
    case CloneFail => case InvalidUnderlayEcmp =>
  }

  // ---------------------------------------------------------------------
  // The drop-log walk (vr_print_pkt_drop_log)

  /** One slot of the drop log as vr_print_pkt_drop_log_data reads it: its packet type (0 for an empty slot) and its drop reason. */
  datatype LogEntry = LogEntry(vpType: byte, dropReason: nat)

  /** How many slots one call walks: what is left of the configured buffer, at most `allow`. */
  function LogBufferIter(maxBuf: int, idx: int, allow: nat): (n: int)
    ensures n <= allow && n <= maxBuf - idx
    ensures n == allow || n == maxBuf - idx
  {
    if maxBuf - idx < allow then maxBuf - idx else allow
  }

  /** Slot `e` is printed: it is in use and matches the filter (`dropMax`, VP_DROP_MAX, shows every reason). */
  predicate Shown(e: LogEntry, show: nat, dropMax: nat)
  {
    e.vpType != 0 && (show == dropMax || show == e.dropReason)
  }

  /** The slots among the first `n` that are printed, in order. */
  function ShownIndices(entries: seq<LogEntry>, show: nat, dropMax: nat, n: int): seq<nat>
    requires n <= |entries|
    decreases n
  {
    if n <= 0 then []
    else ShownIndices(entries, show, dropMax, n - 1) + (if Shown(entries[n - 1], show, dropMax) then [n - 1] else [])
  }

  /** The printed slots are exactly the shown slots below `n`, in strictly increasing order. */
  lemma {:induction false} ShownIndicesSpec(entries: seq<LogEntry>, show: nat, dropMax: nat, n: int)
    requires n <= |entries|
    ensures var p := ShownIndices(entries, show, dropMax, n);
            (forall i :: i in p <==> 0 <= i < n && Shown(entries[i], show, dropMax)) &&
            (forall a, b | 0 <= a < b < |p| :: p[a] < p[b])
    decreases n
  {
    if n > 0 {
      ShownIndicesSpec(entries, show, dropMax, n - 1);
      var p := ShownIndices(entries, show, dropMax, n - 1);
      forall a | 0 <= a < |p|
        ensures p[a] < n - 1
      {
        assert p[a] in p;
      }
    }
  }

  /** Every slot one walk prints is below `allow` and inside the configured buffer. */
  lemma DropLogInBounds(entries: seq<LogEntry>, show: nat, dropMax: nat, maxBuf: int, idx: int, allow: nat, i: nat)
    requires allow <= |entries|
    requires i in ShownIndices(entries, show, dropMax, LogBufferIter(maxBuf, idx, allow))
    ensures i < allow && idx + i < maxBuf
  {
    ShownIndicesSpec(entries, show, dropMax, LogBufferIter(maxBuf, idx, allow));
  }

  /** Some printed slot is still inside the first VR_PKT_DROP_LOG_MAX, which is when the header is due. */
  predicate HeaderDue(printed: seq<nat>, idx: int, logMax: int)
  {
    exists k | 0 <= k < |printed| :: idx + printed[k] < logMax
  }

  /** One call of vr_print_pkt_drop_log: the slots, the start index, the buffer size and the reason filter. */
  datatype DropLogCall = DropLogCall(entries: seq<LogEntry>, idx: int, maxBuf: int, show: nat)

  /** VR_PKT_DROP_LOG_MAX, VR_PKT_DROPLOG_MAX_ALLOW_BUFSZ and VP_DROP_MAX. */
  datatype DropLogConfig = DropLogConfig(logMax: int, allow: nat, dropMax: nat)

  /** The calls can all be walked: each has at least `allow` slots. */
  predicate Walkable(calls: seq<DropLogCall>, cfg: DropLogConfig)
  {
    forall i | 0 <= i < |calls| :: cfg.allow <= |calls[i].entries|
  }

  /** The slots one call prints. */
  function CallPrinted(c: DropLogCall, cfg: DropLogConfig): seq<nat>
    requires cfg.allow <= |c.entries|
  {
    ShownIndices(c.entries, c.show, cfg.dropMax, LogBufferIter(c.maxBuf, c.idx, cfg.allow))
  }

  /** The call prints the header: the file-scope flag is clear and the header is due. */
  predicate CallHeader(flag: bool, c: DropLogCall, cfg: DropLogConfig)
    requires cfg.allow <= |c.entries|
  {
    !flag && HeaderDue(CallPrinted(c, cfg), c.idx, cfg.logMax)
  }

  /**
   * The file-scope flag after the call. With `reset` the flag is cleared
   * when the walk ends at VR_PKT_DROP_LOG_MAX, as the source intends; without
   * it the flag only ever becomes set, as the source behaves.
   */
  function NextFlag(flag: bool, c: DropLogCall, cfg: DropLogConfig, reset: bool): bool
    requires cfg.allow <= |c.entries|
  {
    if reset && c.idx + LogBufferIter(c.maxBuf, c.idx, cfg.allow) == cfg.logMax then false
    else flag || CallHeader(flag, c, cfg)
  }

  /** How many headers a sequence of calls prints, starting from the flag `flag`. */
  function SessionHeaders(flag: bool, calls: seq<DropLogCall>, cfg: DropLogConfig, reset: bool): nat
    requires Walkable(calls, cfg)
    decreases |calls|
  {
    if calls == [] then 0
    else
      (if CallHeader(flag, calls[0], cfg) then 1 else 0) +
      SessionHeaders(NextFlag(flag, calls[0], cfg, reset), calls[1..], cfg, reset)
  }

  /**
   * As written, the header is printed at most once in the whole life of the
   * printer, and never again once printed, whatever the calls.
   */
  lemma {:induction false} AsWrittenHeaderOnce(flag: bool, calls: seq<DropLogCall>, cfg: DropLogConfig)
    requires Walkable(calls, cfg)
    ensures SessionHeaders(flag, calls, cfg, false) <= 1
    ensures flag ==> SessionHeaders(flag, calls, cfg, false) == 0
    decreases |calls|
  {
    if calls != [] {
      assert Walkable(calls[1..], cfg) by {
        forall i | 0 <= i < |calls[1..]|
          ensures cfg.allow <= |calls[1..][i].entries|
        {
          assert calls[1..][i] == calls[i + 1];
        }
      }
      AsWrittenHeaderOnce(NextFlag(flag, calls[0], cfg, false), calls[1..], cfg);
    }
  }

  /**
   * Two full walks of a two-slot log (VR_PKT_DROP_LOG_MAX = 2): with the
   * reset the second walk prints the header again; as written it does not.
   */
  lemma ResetReprintsHeader()
    ensures var cfg := DropLogConfig(2, 2, 0);
            var c := DropLogCall([LogEntry(1, 0), LogEntry(1, 0)], 0, 10, 0);
            Walkable([c, c], cfg) &&
            SessionHeaders(false, [c, c], cfg, true) == 2 &&
            SessionHeaders(false, [c, c], cfg, false) == 1
  {
    var cfg := DropLogConfig(2, 2, 0);
    var c := DropLogCall([LogEntry(1, 0), LogEntry(1, 0)], 0, 10, 0);
    assert CallPrinted(c, cfg) == [0, 1];
    assert CallHeader(false, c, cfg) by {
      assert c.idx + CallPrinted(c, cfg)[0] < cfg.logMax;
    }
    assert [c, c][1..] == [c];
    assert [c][1..] == [];
    assert !NextFlag(false, c, cfg, true) && NextFlag(false, c, cfg, false);
    assert !CallHeader(true, c, cfg);
    assert SessionHeaders(false, [c], cfg, true) == 1 + SessionHeaders(false, [], cfg, true);
    assert SessionHeaders(true, [c], cfg, false) == 0 + SessionHeaders(true, [], cfg, false);
  }

  /** The corrected printer prints the header again on every call after one that ends at VR_PKT_DROP_LOG_MAX. */
  lemma CorrectedHeaderAfterFullWalk(flag: bool, c: DropLogCall, d: DropLogCall, cfg: DropLogConfig)
    requires cfg.allow <= |c.entries| && cfg.allow <= |d.entries|
    requires c.idx + LogBufferIter(c.maxBuf, c.idx, cfg.allow) == cfg.logMax
    ensures SessionHeaders(flag, [c, d], cfg, true) ==
              (if CallHeader(flag, c, cfg) then 1 else 0) + (if HeaderDue(CallPrinted(d, cfg), d.idx, cfg.logMax) then 1 else 0)
  {
    assert [c, d][1..] == [d];
    assert [d][1..] == [];
    assert !NextFlag(flag, c, cfg, true);
    assert SessionHeaders(false, [d], cfg, true) ==
             (if CallHeader(false, d, cfg) then 1 else 0) + SessionHeaders(NextFlag(false, d, cfg, true), [], cfg, true);
  }

  /**
   * The printer's state: the file-scope vr_header_include, the
   * function-local `static bool vr_header_include` that vr_print_pkt_drop_log
   * declares and that hides it, and the constants VR_PKT_DROP_LOG_MAX,
   * VR_PKT_DROPLOG_MAX_ALLOW_BUFSZ and VP_DROP_MAX, whose values are not
   * part of this model.
   */
  class DropLogPrinter {
    var headerIncluded: bool
    var localHeaderIncluded: bool
    const logMax: int
    const allowBufSz: nat
    const dropMax: nat

    constructor (logMax: int, allowBufSz: nat, dropMax: nat)
      ensures !headerIncluded && !localHeaderIncluded
      ensures this.logMax == logMax && this.allowBufSz == allowBufSz && this.dropMax == dropMax
    {
      this.logMax := logMax;
      this.allowBufSz := allowBufSz;
      this.dropMax := dropMax;
      headerIncluded := false;
      localHeaderIncluded := false;
    }

    function Config(): DropLogConfig
    {
      DropLogConfig(logMax, allowBufSz, dropMax)
    }

    /** vr_print_pkt_drop_log_data for slot `i`: whether the slot is printed and whether the header is printed before it. */
    method PrintData(entries: seq<LogEntry>, idx: int, i: nat, show: nat) returns (shown: bool, header: bool)
      requires i < |entries|
      modifies this
      ensures shown == Shown(entries[i], show, dropMax)
      ensures header <==> shown && idx + i < logMax && !old(headerIncluded)
      ensures headerIncluded == (old(headerIncluded) || header)
      ensures localHeaderIncluded == old(localHeaderIncluded)
    {
      shown, header := false, false;
      if entries[i].vpType == 0 {
        return;
      }
      if show != dropMax && show != entries[i].dropReason {
        return;
      }
      shown := true;
      if idx + i < logMax && !headerIncluded {
        header := true;
        headerIncluded := true;
      }
    }

    /** The loop of vr_print_pkt_drop_log: walks the slots, returns the ones printed and how many headers were printed. */
    method WalkSlots(entries: seq<LogEntry>, idx: int, maxBuf: int, show: nat) returns (printed: seq<nat>, headers: nat)
      requires allowBufSz <= |entries|
      modifies this
      ensures printed == CallPrinted(DropLogCall(entries, idx, maxBuf, show), Config())
      ensures headers == if CallHeader(old(headerIncluded), DropLogCall(entries, idx, maxBuf, show), Config()) then 1 else 0
      ensures headerIncluded == (old(headerIncluded) || headers == 1)
      ensures localHeaderIncluded == old(localHeaderIncluded)
    {
      var iter := LogBufferIter(maxBuf, idx, allowBufSz);
      var i := 0;
      printed, headers := [], 0;
      while i < iter
        invariant 0 <= i <= (if iter < 0 then 0 else iter) <= |entries|
        invariant printed == ShownIndices(entries, show, dropMax, i)
        invariant headers <= 1 && (headers == 1 <==> !old(headerIncluded) && HeaderDue(printed, idx, logMax))
        invariant headerIncluded == (old(headerIncluded) || headers == 1)
        invariant localHeaderIncluded == old(localHeaderIncluded)
      {
        var shown, header := PrintData(entries, idx, i, show);
        ghost var before := printed;
        if shown {
          printed := printed + [i];
        }
        if header {
          headers := headers + 1;
        }
        assert HeaderDue(printed, idx, logMax) <==> HeaderDue(before, idx, logMax) || (shown && idx + i < logMax) by {
          if shown && idx + i < logMax {
            assert printed[|before|] == i;
          }
          if HeaderDue(before, idx, logMax) {
            var k :| 0 <= k < |before| && idx + before[k] < logMax;
            assert printed[k] == before[k];
          }
        }
        i := i + 1;
      }
    }

    /**
     * vr_print_pkt_drop_log as written: the reset at the end tests and
     * clears the function-local flag, which nothing sets, so the file-scope
     * flag is never cleared and the header is printed at most once for the
     * life of the printer (AsWrittenHeaderOnce).
     */
    method PrintDropLog(entries: seq<LogEntry>, idx: int, maxBuf: int, show: nat) returns (printed: seq<nat>, headers: nat)
      requires allowBufSz <= |entries|
      modifies this
      ensures printed == CallPrinted(DropLogCall(entries, idx, maxBuf, show), Config())
      ensures headers == if CallHeader(old(headerIncluded), DropLogCall(entries, idx, maxBuf, show), Config()) then 1 else 0
      ensures headerIncluded == NextFlag(old(headerIncluded), DropLogCall(entries, idx, maxBuf, show), Config(), false)
      ensures !old(localHeaderIncluded) ==> !localHeaderIncluded
    {
      printed, headers := WalkSlots(entries, idx, maxBuf, show);
      if idx + LogBufferIter(maxBuf, idx, allowBufSz) == logMax && localHeaderIncluded {
        localHeaderIncluded := false;
      }
    }

    /** vr_print_pkt_drop_log as intended: the reset clears the file-scope flag when the walk ends at VR_PKT_DROP_LOG_MAX. */
    method PrintDropLogIntended(entries: seq<LogEntry>, idx: int, maxBuf: int, show: nat) returns (printed: seq<nat>, headers: nat)
      requires allowBufSz <= |entries|
      modifies this
      ensures printed == CallPrinted(DropLogCall(entries, idx, maxBuf, show), Config())
      ensures headers == if CallHeader(old(headerIncluded), DropLogCall(entries, idx, maxBuf, show), Config()) then 1 else 0
      ensures headerIncluded == NextFlag(old(headerIncluded), DropLogCall(entries, idx, maxBuf, show), Config(), true)
      ensures localHeaderIncluded == old(localHeaderIncluded)
    {
      printed, headers := WalkSlots(entries, idx, maxBuf, show);
      if idx + LogBufferIter(maxBuf, idx, allowBufSz) == logMax && headerIncluded {
        headerIncluded := false;
      }
    }
  }
}
