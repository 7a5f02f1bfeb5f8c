/** Searching, substrings and the split loop of String.cpp. Positions are size_t
    values; npos is the largest of them. */
module StringSearch {
  import opened CString
  import opened StringRep
  import opened HaggleString
  import opened StringCompare

  // ----- what a search is meant to return -----

  ghost predicate MatchAt(t: seq<Byte>, pat: seq<Byte>, i: nat) {
    i + |pat| <= |t| && t[i..i + |pat|] == pat
  }

  /** `r` is the least position from `pos` on where `pat` occurs, npos if none. */
  ghost predicate LeastMatch(t: seq<Byte>, pat: seq<Byte>, pos: nat, r: nat) {
    if r == NPOS then forall i: nat :: pos <= i ==> !MatchAt(t, pat, i)
    else pos <= r && MatchAt(t, pat, r) && forall i: nat :: pos <= i < r ==> !MatchAt(t, pat, i)
  }

  /** `r` is the least position from `pos` on of a character in `cs`, npos if none. */
  ghost predicate LeastIn(t: seq<Byte>, cs: seq<Byte>, pos: nat, r: nat) {
    if r == NPOS then forall i :: pos <= i < |t| ==> t[i] !in cs
    else pos <= r < |t| && t[r] in cs && forall i :: pos <= i < r ==> t[i] !in cs
  }

  /** `r` is the greatest position up to `pos` of a character in `cs`, npos if none. */
  ghost predicate GreatestIn(t: seq<Byte>, cs: seq<Byte>, pos: nat, r: nat) {
    if r == NPOS then forall i :: 0 <= i < |t| && i <= pos ==> t[i] !in cs
    else r <= pos && r < |t| && t[r] in cs && forall i :: r < i < |t| && i <= pos ==> t[i] !in cs
  }

  /** The pattern argument (const char*, size_t): its first n characters. */
  ghost predicate Readable(p: array?<Byte>, off: nat)
    reads p
  {
    p != null ==> off <= p.Length && 0 in p[off..]
  }

  /** The fields a search reads: a buffer with `len` characters before the byte that
      ends the string when it is NUL. */
  ghost predicate Text(s: array<Byte>, len: nat)
    reads s
  {
    len < s.Length && len < NPOS && 0 !in s[..len]
  }

  /** Every string provides them, terminated or not. */
  lemma StringText(f: String)
    requires f.WellFormed() && f.slen < NPOS
    ensures Text(f.s, f.slen) && f.Contents() == f.s[..f.slen] == f.State().Contents()
  {
    assert f.alloc_len == 0 ==> f.s[..f.slen] == [];
  }

  /** Comparing n bytes with strncmp finds a match. */
  lemma StrncmpIsMatch(t: seq<Byte>, b: seq<Byte>, rest: seq<Byte>, pos: nat, n: nat)
    requires pos + n <= |t| && n <= |CStr(b)|
    requires n <= |rest| && rest[..n] == t[pos..pos + n] && 0 !in t
    ensures StrncmpSign(rest, b, n) == 0 <==> MatchAt(t, CStr(b)[..n], pos)
  {
    assert forall i :: 0 <= i < n ==> rest[i] == rest[..n][i] == t[pos + i] && rest[i] != 0;
    assert |CStr(rest)| >= n;
    assert CStr(rest)[..n] == rest[..n];
    LexSignMeaning(t[pos..pos + n], CStr(b)[..n]);
  }

  /** The test of the loop of find: strncmp(s + pos, _s, n). */
  method StrncmpAt(s: array<Byte>, slen: nat, pos: nat, p: array<Byte>, off: nat, n: nat) returns (sign: int)
    requires Text(s, slen) && pos + n <= slen && Readable(p, off) && n <= |CStr(p[off..])|
    ensures sign == 0 <==> MatchAt(s[..slen], CStr(p[off..])[..n], pos)
  {
    assert s[pos..][..n] == s[..slen][pos..pos + n];
    StrncmpIsMatch(s[..slen], p[off..], s[pos..], pos, n);
    sign := Strncmp(s, pos, p, off, n);
  }

  /** find(const char*, size_t, size_t). The guard turns every start at or behind
      length - n away, a start exactly there with a match included. */
  method Find(s: array<Byte>, slen: nat, p: array?<Byte>, off: nat, start: nat, n: nat) returns (r: nat)
    requires Text(s, slen) && Readable(p, off) && start <= NPOS
    ensures p == null ==> r == NPOS
    ensures p != null && |CStr(p[off..])| < n ==> r == NPOS
    ensures p != null && |CStr(p[off..])| >= n ==>
              var t, pat := s[..slen], CStr(p[off..])[..n];
              LeastMatch(t, pat, start, r) <==> !(start + n == |t| && MatchAt(t, pat, start))
    ensures n <= slen && start >= slen - n ==> r == NPOS
  {
    if p == null {
      return NPOS;
    }
    var len := Strlen(p, off);
    if len < n || n > slen || start >= slen - n {
      return NPOS;
    }
    ghost var t, pat := s[..slen], CStr(p[off..])[..n];
    var pos := start;
    while pos <= slen - n
      invariant start <= pos <= slen - n + 1
      invariant forall i: nat :: start <= i < pos ==> !MatchAt(t, pat, i)
    {
      var sign := StrncmpAt(s, slen, pos, p, off, n);
      if sign == 0 {
        return pos;
      }
      pos := pos + 1;
    }
    return NPOS;
  }

  /** find(char, size_t). */
  method FindChar(s: array<Byte>, slen: nat, c: Byte, start: nat) returns (r: nat)
    requires Text(s, slen)
    ensures LeastIn(s[..slen], [c], start, r)
  {
    if start >= slen {
      return NPOS;
    }
    var pos := start;
    while pos < slen
      invariant start <= pos <= slen
      invariant forall i :: start <= i < pos ==> s[..slen][i] != c
    {
      if s[pos] == c {
        return pos;
      }
      pos := pos + 1;
    }
    return NPOS;
  }

  /** The inner loop of find_first_of and find_last_of: is the character one of the
      first n of the C string? */
  method OneOf(c: Byte, p: array<Byte>, off: nat, n: nat) returns (found: bool)
    requires off <= p.Length && n <= |CStr(p[off..])|
    ensures found <==> c in CStr(p[off..])[..n]
  {
    ghost var cs := CStr(p[off..]);
    var i := 0;
    while i < n
      invariant 0 <= i <= n && c !in cs[..i]
    {
      assert p[off + i] == p[off..][i] == cs[i];
      if c == p[off + i] {
        assert cs[..n][i] == c;
        return true;
      }
      assert cs[..i + 1] == cs[..i] + [cs[i]];
      i := i + 1;
    }
    return false;
  }

  /** find_first_of(const char*, size_t, size_t). */
  method FindFirstOf(s: array<Byte>, slen: nat, p: array?<Byte>, off: nat, start: nat, n: nat) returns (r: nat)
    requires Text(s, slen) && Readable(p, off)
    ensures p == null ==> r == NPOS
    ensures p != null && |CStr(p[off..])| < n ==> r == NPOS
    ensures p != null && |CStr(p[off..])| >= n ==> LeastIn(s[..slen], CStr(p[off..])[..n], start, r)
  {
    if p == null || start >= slen {
      return NPOS;
    }
    var len := Strlen(p, off);
    if len < n {
      return NPOS;
    }
    ghost var cs := CStr(p[off..])[..n];
    var pos := start;
    while pos < slen
      invariant start <= pos <= slen
      invariant forall i :: start <= i < pos ==> s[..slen][i] !in cs
    {
      var found := OneOf(s[pos], p, off, n);
      if found {
        return pos;
      }
      pos := pos + 1;
    }
    return NPOS;
  }

  /** The byte at a start at the length, which find_last_of looks at first: NUL, and so
      in no set, if the string is terminated. */
  ghost predicate StaleHit(s: array<Byte>, slen: nat, cs: seq<Byte>, start: nat)
    requires Text(s, slen)
    reads s
  {
    start == slen && s[slen] in cs
  }

  /** find_last_of(const char*, size_t, size_t). The position counts down and leaves
      the loop by wrapping from 0 to npos. It returns what is meant unless a start
      behind the length is turned away though the set occurs, or a start at the
      length hits a stale byte there. */
  method FindLastOf(s: array<Byte>, slen: nat, p: array?<Byte>, off: nat, start: nat, n: nat) returns (r: nat)
    requires Text(s, slen) && Readable(p, off) && start <= NPOS
    ensures p == null ==> r == NPOS
    ensures p != null && |CStr(p[off..])| < n ==> r == NPOS
    ensures p != null && |CStr(p[off..])| >= n ==>
              var t, cs := s[..slen], CStr(p[off..])[..n];
              && (slen < start < NPOS ==> r == NPOS)
              && (StaleHit(s, slen, cs, start) ==> r == slen)
              && (GreatestIn(t, cs, start, r) <==>
                  !(slen < start < NPOS && exists i :: 0 <= i < slen && t[i] in cs)
                  && !StaleHit(s, slen, cs, start))
  {
    if p == null {
      return NPOS;
    }
    var pos: nat := start;
    if pos == NPOS {
      pos := MinusOne(slen);
    }
    if pos > slen {
      return NPOS;
    }
    var len := Strlen(p, off);
    if len < n {
      return NPOS;
    }
    r := LastLoop(s, slen, p, off, pos, n);
  }

  /** Its loop, from a position up to the length. */
  method LastLoop(s: array<Byte>, slen: nat, p: array<Byte>, off: nat, start: nat, n: nat) returns (r: nat)
    requires Text(s, slen) && start <= slen && off <= p.Length && n <= |CStr(p[off..])|
    ensures var t, cs := s[..slen], CStr(p[off..])[..n];
            if StaleHit(s, slen, cs, start) then r == slen else GreatestIn(t, cs, start, r)
  {
    ghost var cs := CStr(p[off..])[..n];
    var pos: nat := start;
    while pos != NPOS
      invariant pos == NPOS || pos <= start
      invariant forall i :: 0 <= i <= start && (pos == NPOS || i > pos) ==> s[i] !in cs
      decreases if pos == NPOS then 0 else pos + 1
    {
      var found := OneOf(s[pos], p, off, n);
      if found {
        return pos;
      }
      pos := MinusOne(pos);
    }
    return NPOS;
  }

  /** The failing case of find: "a" is not found in "a". */
  method FindItself(s: array<Byte>) returns (r: nat)
    requires s[..] == [97, 0]
    ensures r == NPOS && LeastMatch([97], [97], 0, 0) && !LeastMatch([97], [97], 0, r)
  {
    assert s[..1] == [97] && s[0..] == [97, 0];
    CStrIs(s[0..], 1);
    assert CStr(s[0..])[..1] == [97];
    r := Find(s, 1, s, 0, 0, 1);
    assert MatchAt([97], [97], 0);
  }

  /** The failing case of find_last_of: from position 2, "a" is not found in "a". */
  method FindLastBehind(s: array<Byte>) returns (r: nat)
    requires s[..] == [97, 0]
    ensures r == NPOS && GreatestIn([97], [97], 2, 0) && !GreatestIn([97], [97], 2, r)
  {
    assert s[..1] == [97] && s[0..] == [97, 0];
    CStrIs(s[0..], 1);
    var t: seq<Byte> := [97];
    assert t[0] in t && CStr(s[0..])[..1] == t;
    r := FindLastOf(s, 1, s, 0, 2, 1);
  }

  /** The other failing case: in "abc" cleared and given "x" by a bounded append, the
      stale "b" behind the one character is found at the length. */
  method FindLastStale(s: array<Byte>, p: array<Byte>) returns (r: nat)
    requires s[..] == PrefixAppend(Clear(Fresh([97, 98, 99])), [120], 1).buf && p[..] == [98, 0]
    ensures r == 1 && !GreatestIn([120], [98], 1, r) && GreatestIn([120], [98], 1, NPOS)
  {
    assert Clear(Fresh([97, 98, 99])) == Rep([0, 98, 99, 0], 0);
    assert PrefixSlice([120], 1) == [120];
    assert s[..] == [120, 98, 99, 0] && s[..1] == [120] && p[0..] == [98, 0];
    CStrIs(p[0..], 1);
    assert CStr(p[0..])[..1] == [98];
    assert s[1] == s[..][1];
    r := FindLastOf(s, 1, p, 0, 1, 1);
  }

  // ----- substrings -----

  function SubstrOf(t: seq<Byte>, pos: nat, n: nat): seq<Byte> {
    if pos >= |t| then []
    else if n == NPOS || n > |t| - pos then t[pos..]
    else t[pos..pos + n]
  }

  /** The private constructor on s + pos: the n characters from there. */
  method CopyOut(f: String, pos: nat, n: nat, ghost u: seq<Byte>) returns (r: String)
    requires f.WellFormed() && pos + n <= f.slen && u == f.s[..f.slen][pos..pos + n]
    ensures fresh(r) && r.Valid() && fresh(r.Own())
    ensures r.State() == StringRep.Fresh(u)
  {
    RestAsC(f, pos, n, u);
    r := new String.Prefix(f.s, pos, n, f.nullchar);
  }

  /** The C string at an offset begins with the characters from there on. */
  lemma RestAsC(f: String, pos: nat, n: nat, u: seq<Byte>)
    requires f.WellFormed() && pos + n <= f.slen && u == f.s[..f.slen][pos..pos + n]
    ensures 0 in f.s[pos..] && n <= |CStr(f.s[pos..])| && CStr(f.s[pos..])[..n] == u && 0 !in u
  {
    var b := f.s[pos..];
    assert b[|b| - 1] == 0 by {
      assert f.alloc_len != 0 ==> f.State().buf[f.s.Length - 1] == f.s[f.s.Length - 1];
    }
    assert f.alloc_len != 0 ==> f.s[..f.slen] == f.State().Contents();
    assert forall i :: 0 <= i < n ==> b[i] == f.s[..f.slen][pos + i] && b[i] != 0;
    assert |CStr(b)| >= n;
    assert forall x :: x in u ==> x in f.s[..f.slen];
  }

  /** substr. */
  method Substr(f: String, pos: nat, count: nat) returns (r: String)
    requires f.WellFormed() && f.slen < NPOS && count <= NPOS
    ensures fresh(r) && r.Valid() && fresh(r.Own()) && r.State().Tight()
    ensures r.Contents() == SubstrOf(f.Contents(), pos, count)
    ensures pos >= f.slen ==> r.Contents() == []
    ensures pos < f.slen ==> r.Contents() <= f.Contents()[pos..]
    ensures pos < f.slen ==> r.slen == if count > f.slen - pos then f.slen - pos else count
  {
    if pos >= f.slen {
      r := new String.FromC(null, 0, f.nullchar);
      r.ReadAsC();
      return;
    }
    var n := count;
    if n == NPOS || n > f.slen - pos {
      n := f.slen - pos;
    }
    ghost var u := SubstrOf(f.Contents(), pos, count);
    assert u == f.s[..f.slen][pos..pos + n];
    RestAsC(f, pos, n, u);
    r := CopyOut(f, pos, n, u);
    TightContents(r, u);
    SubstrIsPart(f.Contents(), pos, count);
  }

  lemma SubstrIsPart(t: seq<Byte>, pos: nat, n: nat)
    requires pos < |t| < NPOS
    ensures SubstrOf(t, pos, n) <= t[pos..]
    ensures |SubstrOf(t, pos, n)| == if n > |t| - pos then |t| - pos else n
  {
  }

  lemma TightContents(r: String, t: seq<Byte>)
    requires r.Valid() && r.State() == StringRep.Fresh(t) && 0 !in t
    ensures r.State().Tight() && r.Contents() == t && r.slen == |t|
  {
    r.ReadAsC();
    FreshIsTight(t);
  }

  /** A string is its part before any index, the character there, and its part
      behind it. */
  lemma RebuildAt(t: seq<Byte>, k: nat)
    requires k < |t| < NPOS
    ensures SubstrOf(t, 0, k) == t[..k] && SubstrOf(t, k + 1, NPOS) == t[k + 1..]
    ensures SubstrOf(t, 0, k) + [t[k]] + SubstrOf(t, k + 1, NPOS) == t
  {
  }

  /** SplitFilename of the test program: at a separator behind the first character
      the two parts and the separator are the string; without one, the wrapped
      position makes both parts the whole string. */
  method SplitFilename(str: String, seps: array<Byte>) returns (found: nat, folder: String, file: String)
    requires str.WellFormed() && str.slen < NPOS && 0 in seps[0..]
    ensures folder.Valid() && file.Valid()
    ensures LeastIn(str.Contents(), CStr(seps[0..]), 1, found)
    ensures found == NPOS ==> folder.Contents() == str.Contents() == file.Contents()
    ensures found != NPOS ==>
              && folder.Contents() == str.Contents()[..found]
              && file.Contents() == str.Contents()[found + 1..]
              && folder.Contents() + [str.Contents()[found]] + file.Contents() == str.Contents()
  {
    var n := Strlen(seps, 0);
    assert CStr(seps[0..])[..n] == CStr(seps[0..]);
    StringText(str);
    ghost var t := str.Contents();
    found := FindFirstOf(str.s, str.slen, seps, 0, 1, n);
    WholeSubstr(t);
    if found != NPOS {
      RebuildAt(t, found);
    }
    folder := Substr(str, 0, found);
    assert folder.Contents() == SubstrOf(t, 0, found);
    file := Substr(str, if found == NPOS then 0 else found + 1, NPOS);
  }

  lemma WholeSubstr(t: seq<Byte>)
    ensures SubstrOf(t, 0, NPOS) == t
  {
  }

  // ----- the split loop -----

  /** Tokens with the separator between them. */
  function Join(tokens: seq<seq<Byte>>, sep: Byte): seq<Byte> {
    if |tokens| == 0 then []
    else if |tokens| == 1 then tokens[0]
    else Join(tokens[..|tokens| - 1], sep) + [sep] + tokens[|tokens| - 1]
  }

  /** What splitting is for: tokens without separators that join to the text. */
  ghost predicate IsSplit(tokens: seq<seq<Byte>>, t: seq<Byte>, c: Byte) {
    && |tokens| >= 1 && Join(tokens, c) == t
    && forall i :: 0 <= i < |tokens| ==> c !in tokens[i]
  }

  /** The text is one separator, or ends in two of them. */
  predicate EndsDouble(t: seq<Byte>, c: Byte) {
    |t| >= 1 && t[|t| - 1] == c && (|t| == 1 || t[|t| - 2] == c)
  }

  /** What the loop returns: a split, except that of a text that ends double the last
      separator is taken for a token. */
  ghost predicate IsLoopSplit(tokens: seq<seq<Byte>>, t: seq<Byte>, c: Byte) {
    && |tokens| >= 1 && Join(tokens, c) == t
    && (forall i :: 0 <= i < |tokens| - 1 ==> c !in tokens[i])
    && (if EndsDouble(t, c) then tokens[|tokens| - 1] == [c] else c !in tokens[|tokens| - 1])
  }

  /** The text from `start` on begins after a separator or at the front, and is not
      empty because of a double end. */
  ghost predicate TokenStart(t: seq<Byte>, c: Byte, start: nat) {
    && start <= |t| && (start == 0 || t[start - 1] == c)
    && (start == |t| ==> !EndsDouble(t, c))
  }

  /** Before each round: the tokens so far, and the text that is left. */
  ghost predicate Pending(tokens: seq<seq<Byte>>, t: seq<Byte>, c: Byte, start: nat) {
    && TokenStart(t, c, start)
    && (if |tokens| == 0 then start == 0 else Join(tokens, c) + [c] + t[start..] == t)
    && forall i :: 0 <= i < |tokens| ==> c !in tokens[i]
  }

  /** One round of the loop: search the separator, take the token before it. */
  method NextToken(f: String, sep: array<Byte>, start: nat) returns (end: nat, namevalue: String)
    requires f.WellFormed() && f.slen < NPOS && start <= f.slen
    requires sep.Length == 2 && sep[0] != 0 && sep[1] == 0
    ensures namevalue.Valid()
    ensures start + 1 >= |f.Contents()| ==> end == NPOS
    ensures var t, token := f.Contents(), namevalue.Contents();
            if end == NPOS then token == t[start..] && (sep[0] in token ==> token == [sep[0]])
            else start <= end < |t| && t[end] == sep[0] && token == t[start..end] && sep[0] !in token
  {
    StringText(f);
    assert sep[0..][..1] == [sep[0]];
    CStrIs(sep[0..], 1);
    assert CStr(sep[0..])[..1] == [sep[0]];
    end := Find(f.s, f.slen, sep, 0, start, 1);
    ghost var t := f.Contents();
    FoundOrNot(t, sep[0], start, end);
    var n := if end == NPOS then NPOS - start else end - start;
    assert SubstrOf(t, start, n) == if end == NPOS then t[start..] else t[start..end];
    namevalue := Substr(f, start, n);
    assert namevalue.Contents() == SubstrOf(t, start, n);
  }

  /** The splitting loop of the test program, for any one-character separator. */
  method Split(f: String, sep: array<Byte>) returns (tokens: seq<seq<Byte>>)
    requires f.WellFormed() && f.slen < NPOS
    requires sep.Length == 2 && sep[0] != 0 && sep[1] == 0
    ensures IsLoopSplit(tokens, f.Contents(), sep[0])
    ensures sep[0] in tokens[|tokens| - 1] <==> EndsDouble(f.Contents(), sep[0])
  {
    ghost var t := f.Contents();
    var c := sep[0];
    tokens := [];
    var start, end := 0, 0;
    while end != NPOS
      invariant if end == NPOS then IsLoopSplit(tokens, t, c) else Pending(tokens, t, c, start)
      decreases end != NPOS, |t| - start
    {
      var namevalue;
      end, namevalue := NextToken(f, sep, start);
      namevalue.ReadAsC();
      var token := namevalue.s[..namevalue.slen];
      TokenStep(t, tokens, token, c, start, end);
      tokens := tokens + [token];
      start := if end == NPOS then 0 else end + 1;
    }
  }

  lemma TokenStep(t: seq<Byte>, tokens: seq<seq<Byte>>, token: seq<Byte>, c: Byte, start: nat, end: nat)
    requires |t| < NPOS && Pending(tokens, t, c, start)
    requires start + 1 >= |t| ==> end == NPOS
    requires if end == NPOS then token == t[start..] && (c in token ==> token == [c])
             else start <= end < |t| && t[end] == c && token == t[start..end] && c !in token
    ensures end == NPOS ==> IsLoopSplit(tokens + [token], t, c)
    ensures end != NPOS ==> Pending(tokens + [token], t, c, end + 1)
  {
    JoinStep(t, tokens, token, c, start, end);
    EndStep(t, token, c, start, end);
  }

  lemma EndStep(t: seq<Byte>, token: seq<Byte>, c: Byte, start: nat, end: nat)
    requires |t| < NPOS && TokenStart(t, c, start)
    requires start + 1 >= |t| ==> end == NPOS
    requires if end == NPOS then token == t[start..] && (c in token ==> token == [c])
             else start <= end < |t| && t[end] == c && token == t[start..end] && c !in token
    ensures end == NPOS ==> if EndsDouble(t, c) then token == [c] else c !in token
    ensures end != NPOS ==> TokenStart(t, c, end + 1)
  {
    if end != NPOS && end + 1 == |t| {
      assert token[|t| - 2 - start] == t[|t| - 2];
    } else if end == NPOS && start < |t| {
      assert token[|t| - 1 - start] == t[|t| - 1];
    }
  }

  /** A text has one split. */
  lemma {:induction false} SplitUnique(a: seq<seq<Byte>>, b: seq<seq<Byte>>, t: seq<Byte>, c: Byte)
    requires IsSplit(a, t, c) && IsSplit(b, t, c)
    ensures a == b
    decreases |a|
  {
    var m, n := |a| - 1, |b| - 1;
    if m == 0 || n == 0 {
      JoinHasSeparator(a, c);
      JoinHasSeparator(b, c);
      assert a == [t] && b == [t];
    } else {
      var u, v := Join(a[..m], c), Join(b[..n], c);
      LastPart(u, a[m], v, b[n], c);
      SplitUnique(a[..m], b[..n], u, c);
      assert a == a[..m] + [a[m]] && b == b[..n] + [b[n]];
    }
  }

  lemma JoinHasSeparator(tokens: seq<seq<Byte>>, c: Byte)
    ensures |tokens| >= 2 ==> c in Join(tokens, c)
  {
  }

  /** The last separator of a text cuts it in one way. */
  lemma LastPart(u: seq<Byte>, x: seq<Byte>, v: seq<Byte>, y: seq<Byte>, c: Byte)
    requires u + [c] + x == v + [c] + y && c !in x && c !in y
    ensures u == v && x == y
  {
    var t := u + [c] + x;
    assert t[|u|] == c && t[|v|] == c;
    assert forall i :: |u| < i < |t| ==> t[i] == x[i - |u| - 1];
    assert forall i :: |v| < i < |t| ==> t[i] == y[i - |v| - 1];
    assert u == t[..|u|] && v == t[..|v|];
    assert x == t[|u| + 1..] && y == t[|v| + 1..];
  }

  /** The loop splits a text if and only if the text does not end double; then the
      true split has one token more, the last two of them empty. */
  lemma LoopSplitIff(tokens: seq<seq<Byte>>, t: seq<Byte>, c: Byte)
    requires IsLoopSplit(tokens, t, c)
    ensures IsSplit(tokens, t, c) <==> !EndsDouble(t, c)
    ensures EndsDouble(t, c) ==> IsSplit(tokens[..|tokens| - 1] + [[], []], t, c)
  {
    if EndsDouble(t, c) {
      assert c in tokens[|tokens| - 1];
      LoneSeparatorSplit(tokens, t, c);
    } else {
      assert forall i :: 0 <= i < |tokens| ==> c !in tokens[i];
    }
  }

  lemma LoneSeparatorSplit(tokens: seq<seq<Byte>>, t: seq<Byte>, c: Byte)
    requires IsLoopSplit(tokens, t, c) && EndsDouble(t, c)
    ensures IsSplit(tokens[..|tokens| - 1] + [[], []], t, c)
  {
    var s := tokens[..|tokens| - 1];
    assert tokens == s + [[c]];
    JoinSnoc(s, [c], c);
    JoinTwoEmpty(s, c);
  }

  /** Two empty tokens at the end read like one that is a separator. */
  lemma JoinTwoEmpty(s: seq<seq<Byte>>, c: Byte)
    ensures Join(s + [[], []], c) == if |s| == 0 then [c] else Join(s, c) + [c] + [c]
  {
    var s' := s + [[]];
    JoinSnoc(s, [], c);
    JoinSnoc(s', [], c);
    assert s + [[], []] == s' + [[]];
    assert Join(s', c) + [c] + [] == Join(s', c) + [c];
    if |s| > 0 {
      assert Join(s, c) + [c] + [] == Join(s, c) + [c];
    }
  }

  /** The failing case: of "a" and two spaces the loop makes the tokens "a" and " ",
      where the split is "a" and two empty tokens. */
  lemma DoubleSpaceAtEnd(tokens: seq<seq<Byte>>)
    requires IsLoopSplit(tokens, [97, 32, 32], 32)
    ensures tokens == [[97], [32]]
    ensures !IsSplit(tokens, [97, 32, 32], 32) && IsSplit([[97], [], []], [97, 32, 32], 32)
  {
    var t: seq<Byte> := [97, 32, 32];
    LoopSplitIff(tokens, t, 32);
    JoinSnoc([], [97], 32);
    JoinSnoc([[97]], [], 32);
    JoinSnoc([[97], []], [], 32);
    assert [[97]] + [[]] == [[97], []] && [[97], []] + [[]] == [[97], [], []];
    SplitUnique(tokens[..|tokens| - 1] + [[], []], [[97], [], []], t, 32);
    assert |tokens| == 2 && tokens[0] == (tokens[..1] + [[], []])[0];
  }

  lemma JoinStep(t: seq<Byte>, tokens: seq<seq<Byte>>, token: seq<Byte>, c: Byte, start: nat, end: nat)
    requires start <= |t|
    requires if |tokens| == 0 then start == 0 else Join(tokens, c) + [c] + t[start..] == t
    requires if end == NPOS then token == t[start..]
             else start <= end < |t| && t[end] == c && token == t[start..end]
    ensures end == NPOS ==> Join(tokens + [token], c) == t
    ensures end != NPOS ==> Join(tokens + [token], c) + [c] + t[end + 1..] == t
  {
    JoinSnoc(tokens, token, c);
    if end != NPOS {
      TailSplit(t, start, end);
      if |tokens| == 0 {
        assert t[0..] == t;
      } else {
        Regroup(Join(tokens, c) + [c], token, [c], t[end + 1..]);
      }
    } else if |tokens| == 0 {
      assert t[0..] == t;
    }
  }

  lemma TailSplit(t: seq<Byte>, start: nat, end: nat)
    requires start <= end < |t|
    ensures t[start..] == t[start..end] + [t[end]] + t[end + 1..]
  {
  }

  lemma Regroup(a: seq<Byte>, b: seq<Byte>, c: seq<Byte>, d: seq<Byte>)
    ensures a + (b + c + d) == (a + b) + c + d
  {
  }

  lemma JoinSnoc(tokens: seq<seq<Byte>>, token: seq<Byte>, c: Byte)
    ensures Join(tokens + [token], c) == if |tokens| == 0 then token else Join(tokens, c) + [c] + token
  {
    assert (tokens + [token])[..|tokens|] == tokens;
  }

  /** What find says about a single separator character. */
  lemma FoundOrNot(t: seq<Byte>, c: Byte, start: nat, end: nat)
    requires start <= |t| < NPOS
    requires LeastMatch(t, [c], start, end) <==> !(start + 1 == |t| && MatchAt(t, [c], start))
    requires 1 <= |t| && start >= |t| - 1 ==> end == NPOS
    ensures end != NPOS ==> start <= end < |t| && t[end] == c && c !in t[start..end]
    ensures end == NPOS && c in t[start..] ==> t[start..] == [c]
  {
    if end != NPOS {
      assert t[end..end + 1] == [c];
      assert t[end] == [c][0];
      forall i | start <= i < end
        ensures t[i] != c
      {
        assert !MatchAt(t, [c], i);
        assert t[i..i + 1] == [t[i]];
      }
    } else if start + 1 < |t| || start == |t| {
      forall i | start <= i < |t|
        ensures t[i] != c
      {
        assert !MatchAt(t, [c], i);
        assert t[i..i + 1] == [t[i]];
      }
    } else {
      assert t[start..] == [t[start]];
    }
  }
}
