/** NUL-terminated byte strings and the functions of the C library that String.cpp
    calls, after sections 7.20.3.4 (realloc), 7.21.2.3 and 7.21.2.4 (copying),
    7.21.6.1 (memset) and 7.21.6.3 (strlen) of ISO C99.
    A pointer into a buffer is an array and an offset. */
module CString {

  type Byte = b: int | 0 <= b < 256

  /** The string that starts a run of bytes: all bytes before the first NUL. */
  function CStr(b: seq<Byte>): (r: seq<Byte>)
    ensures |r| <= |b| && r == b[..|r|] && 0 !in r
    ensures |r| < |b| ==> b[|r|] == 0
  {
    b[..FirstNul(b, 0)]
  }

  function FirstNul(b: seq<Byte>, i: nat): (n: nat)
    requires i <= |b| && forall j :: 0 <= j < i ==> b[j] != 0
    ensures i <= n <= |b| && (n < |b| ==> b[n] == 0)
    ensures forall j :: 0 <= j < n ==> b[j] != 0
    decreases |b| - i
  {
    if i == |b| || b[i] == 0 then i else FirstNul(b, i + 1)
  }

  /** A run of bytes denotes the string of its first `n` bytes, if these hold no NUL
      and a NUL or the end follows. */
  lemma CStrIs(b: seq<Byte>, n: nat)
    requires n <= |b| && 0 !in b[..n] && (n < |b| ==> b[n] == 0)
    ensures CStr(b) == b[..n]
  {
    assert forall i :: 0 <= i < n ==> b[i] == b[..n][i] && b[i] != 0;
    assert forall i :: 0 <= i < |CStr(b)| ==> b[i] == CStr(b)[i] && b[i] != 0;
  }

  /** `n` times the byte `c`. */
  function Fill(n: nat, c: Byte): (t: seq<Byte>)
    ensures |t| == n && forall i :: 0 <= i < n ==> t[i] == c
  {
    seq(n, i => c)
  }

  /** `t` written over `buf` from position `at`. */
  function Splice(buf: seq<Byte>, at: nat, t: seq<Byte>): (r: seq<Byte>)
    requires at + |t| <= |buf|
    ensures |r| == |buf|
    ensures forall i :: 0 <= i < |r| ==> r[i] == if at <= i < at + |t| then t[i - at] else buf[i]
  {
    seq(|buf|, i requires 0 <= i < |buf| => if at <= i < at + |t| then t[i - at] else buf[i])
  }

  /** The `n` bytes that strncpy stores: the string, cut or padded with NULs. */
  function Padded(b: seq<Byte>, n: nat): (r: seq<Byte>)
    ensures |r| == n
    ensures forall i :: 0 <= i < n ==> r[i] == if i < |CStr(b)| then b[i] else 0
  {
    var t := CStr(b);
    if n <= |t| then t[..n] else t + Fill(n - |t|, 0)
  }

  /** realloc to a larger size; a moved block is a new array. */
  method Realloc(a: array<Byte>, n: nat, len: nat) returns (b: array<Byte>)
    requires n <= a.Length && n <= len
    ensures fresh(b) && b.Length == len && b[..n] == a[..n]
  {
    b := new Byte[len];
    var i := 0;
    while i < n
      invariant 0 <= i <= n
      invariant forall j :: 0 <= j < i ==> b[j] == a[j]
    {
      b[i] := a[i];
      i := i + 1;
    }
  }

  /** memset(a + start, 0, n). */
  method Memset0(a: array<Byte>, start: nat, n: nat)
    requires start + n <= a.Length
    modifies a
    ensures a[..] == Splice(old(a[..]), start, Fill(n, 0))
  {
    var i := start;
    while i < start + n
      invariant start <= i <= start + n
      invariant forall j :: 0 <= j < a.Length ==> a[j] == if start <= j < i then 0 else old(a[j])
    {
      a[i] := 0;
      i := i + 1;
    }
  }

  /** strlen. */
  method Strlen(a: array<Byte>, off: nat) returns (n: nat)
    requires off <= a.Length && 0 in a[off..]
    ensures n == |CStr(a[off..])| && off + n < a.Length
  {
    n := 0;
    while a[off + n] != 0
      invariant off + n < a.Length
      invariant 0 !in a[off..][..n] && 0 in a[off..][n..]
      decreases a.Length - n
    {
      assert a[off..][..n + 1] == a[off..][..n] + [a[off + n]];
      assert a[off..][n..] == [a[off + n]] + a[off..][n + 1..];
      n := n + 1;
    }
    CStrIs(a[off..], n);
  }

  /** strcpy, for separate buffers. */
  method Strcpy(d: array<Byte>, doff: nat, s: array<Byte>, soff: nat)
    requires d != s && soff <= s.Length && 0 in s[soff..]
    requires doff + |CStr(s[soff..])| + 1 <= d.Length
    modifies d
    ensures d[..] == Splice(old(d[..]), doff, CStr(s[soff..]) + [0])
  {
    ghost var t := CStr(s[soff..]);
    assert |t| < |s[soff..]|;
    assert forall j :: 0 <= j < |t| ==> t[j] == s[soff..][j] == s[soff + j] && t[j] != 0;
    var i := 0;
    while s[soff + i] != 0
      invariant 0 <= i <= |t|
      invariant forall j :: 0 <= j < d.Length ==>
                  d[j] == if doff <= j < doff + i then t[j - doff] else old(d[j])
      decreases |t| - i
    {
      d[doff + i] := s[soff + i];
      i := i + 1;
    }
    d[doff + i] := 0;
  }

  /** The part of strncpy that copies, from low to high addresses, up to a NUL. */
  method CopyUntilNul(d: array<Byte>, doff: nat, s: array<Byte>, soff: nat, n: nat) returns (i: nat)
    requires d == s ==> doff <= soff
    requires soff <= s.Length && (soff + n <= s.Length || 0 in s[soff..])
    requires doff + n <= d.Length
    modifies d
    ensures i <= n && i <= |CStr(old(s[soff..]))| && (i < n ==> i == |CStr(old(s[soff..]))|)
    ensures d[..] == Splice(old(d[..]), doff, CStr(old(s[soff..]))[..i])
  {
    ghost var src, was := s[soff..], d[..];
    ghost var t := CStr(src);
    assert soff + n <= s.Length || |t| < |src|;
    i := 0;
    while i < n && s[soff + i] != 0
      invariant 0 <= i <= n && i <= |t|
      invariant forall j :: soff + i <= j < s.Length ==> s[j] == src[j - soff]
      invariant forall j :: 0 <= j < d.Length ==>
                  d[j] == if doff <= j < doff + i then t[j - doff] else was[j]
    {
      assert src[i] == s[soff + i] && i < |t|;
      d[doff + i] := s[soff + i];
      i := i + 1;
    }
  }

  /** strncpy, read as a copy from low to high addresses: the destination may lie
      below the source in the same buffer. */
  method Strncpy(d: array<Byte>, doff: nat, s: array<Byte>, soff: nat, n: nat)
    requires d == s ==> doff <= soff
    requires soff <= s.Length && (soff + n <= s.Length || 0 in s[soff..])
    requires doff + n <= d.Length
    modifies d
    ensures d[..] == Splice(old(d[..]), doff, Padded(old(s[soff..]), n))
  {
    ghost var src, was := s[soff..], d[..];
    var i := CopyUntilNul(d, doff, s, soff, n);
    Memset0(d, doff + i, n - i);
    PaddedParts(src, n, i);
    SpliceTwice(was, doff, CStr(src)[..i], Fill(n - i, 0));
  }

  lemma PaddedParts(src: seq<Byte>, n: nat, i: nat)
    requires i <= n && i <= |CStr(src)| && (i < n ==> i == |CStr(src)|)
    ensures Padded(src, n) == CStr(src)[..i] + Fill(n - i, 0)
  {
  }

  lemma SpliceTwice(buf: seq<Byte>, at: nat, t: seq<Byte>, u: seq<Byte>)
    requires at + |t| + |u| <= |buf|
    ensures Splice(Splice(buf, at, t), at + |t|, u) == Splice(buf, at, t + u)
  {
  }
}
