/** The representation of haggle::String as a value: the allocated buffer and the
    length field. Every mutating operation is a function on it, to which the class
    in HaggleString.dfy is tied; what users rely on is proved here. */
module StringRep {
  import opened CString

  /** size_t is 32 bits wide, as in pyconfig.h. */
  const NPOS: nat := 0xFFFF_FFFF

  /** `buf` is empty while the string still shares the static NUL cell. */
  datatype Rep = Rep(buf: seq<Byte>, slen: nat) {

    /** Kept by every operation: the length stays inside the buffer, no NUL lies before
        it, and the last byte is NUL, so that reading the buffer as a C string never
        leaves it. */
    ghost predicate WellFormed() {
      && (if |buf| == 0 then slen == 0 else slen < |buf| && buf[|buf| - 1] == 0)
      && 0 !in buf[..slen]
    }

    function Contents(): seq<Byte>
      requires slen <= |buf|
    {
      buf[..slen]
    }

    /** c_str() ends where length() says. */
    ghost predicate Terminated() {
      |buf| != 0 ==> slen < |buf| && buf[slen] == 0
    }

    ghost predicate Valid() { WellFormed() && Terminated() }

    /** The buffer has no byte beyond the terminator. */
    ghost predicate Tight() {
      Valid() && (|buf| == 0 || |buf| == slen + 1)
    }
  }

  // ----- the operations -----

  /** alloc. Growing zeroes everything behind the string. */
  function Grow(r: Rep, len: nat): (g: Rep)
    requires r.WellFormed()
    ensures g.WellFormed() && g.slen == r.slen && g.Contents() == r.Contents()
    ensures |g.buf| >= |r.buf| && |g.buf| >= len
    ensures len <= |r.buf| || len == 0 ==> g == r
    ensures |r.buf| < len ==>
              |g.buf| == len && forall i :: 0 <= i < len ==> g.buf[i] == if i < r.slen then r.buf[i] else 0
  {
    if len <= |r.buf| || len == 0 then r
    else
      var b := seq(len, i requires 0 <= i < len => if i < r.slen then r.buf[i] else 0);
      assert b[..r.slen] == r.Contents();
      Rep(b, r.slen)
  }

  /** append(const String&) and append(const char*). */
  function AppendString(r: Rep, t: seq<Byte>): Rep
    requires r.WellFormed()
  {
    if t == [] then r
    else
      var g := Grow(r, r.slen + |t| + 1);
      Rep(Splice(g.buf, r.slen, t + [0]), r.slen + |t|)
  }

  /** The bounded appends, once their guards have let the slice `t` pass: no
      terminator is written. */
  function AppendSlice(r: Rep, t: seq<Byte>): Rep
    requires r.WellFormed()
  {
    if t == [] then r
    else
      var g := Grow(r, r.slen + |t| + 1);
      Rep(Splice(g.buf, r.slen, t), r.slen + |t|)
  }

  /** The slice that append(const String&, pos, n) passes on: its guard turns away one
      that reaches the end of the argument. */
  function SubSlice(str: seq<Byte>, pos: nat, n: nat): seq<Byte> {
    if n == 0 || |str| == 0 || |str| <= pos + n then [] else str[pos..pos + n]
  }

  /** append(const String&, pos, n). */
  function SubAppend(r: Rep, str: seq<Byte>, pos: nat, n: nat): Rep
    requires r.WellFormed()
  {
    AppendSlice(r, SubSlice(str, pos, n))
  }

  /** The slice that append(const char*, n) passes on. */
  function PrefixSlice(t: seq<Byte>, n: nat): seq<Byte> {
    if n == 0 || n > |t| then [] else t[..n]
  }

  /** append(const char*, n). */
  function PrefixAppend(r: Rep, t: seq<Byte>, n: nat): Rep
    requires r.WellFormed()
  {
    AppendSlice(r, PrefixSlice(t, n))
  }

  /** append(size_t, char). */
  function AppendFill(r: Rep, n: nat, c: Byte): Rep
    requires r.WellFormed()
  {
    var g := Grow(r, r.slen + n + 1);
    Rep(Splice(g.buf, r.slen, Fill(n, c) + [0]), r.slen + n)
  }

  function Clear(r: Rep): Rep
    requires r.WellFormed()
  {
    if r.slen == 0 then r else Rep(r.buf[0 := 0], 0)
  }

  function Erase(r: Rep, pos: nat, n: nat): Rep
    requires r.WellFormed()
  {
    if pos == 0 && n == NPOS then Clear(r)
    else if pos >= r.slen then r
    else if n == NPOS || pos + n > r.slen then Rep(r.buf[pos := 0], pos)
    else
      Rep(Splice(r.buf, pos, r.buf[pos + n..r.slen])[r.slen - n := 0], r.slen - n)
  }

  /** operator= from a string or C string. */
  function Assign(r: Rep, t: seq<Byte>): Rep
    requires r.WellFormed()
  {
    var g := Grow(r, |t| + 1);
    Rep(Splice(g.buf, 0, t + [0]), |t|)
  }

  /** operator=(char). */
  function AssignChar(r: Rep, c: Byte): Rep
    requires r.WellFormed()
  {
    Assign(r, if c == 0 then [] else [c])
  }

  /** What the constructors leave: a buffer of exactly the string and its NUL. */
  function Fresh(t: seq<Byte>): Rep { Rep(t + [0], |t|) }

  function Empty(): Rep { Rep([], 0) }

  // ----- what the operations mean for the contents -----

  /** `r2` holds `t` and has lost no capacity over `r1`; nothing is said of its
      terminator. */
  ghost predicate Carries(r1: Rep, r2: Rep, t: seq<Byte>) {
    r2.WellFormed() && r2.Contents() == t && |r2.buf| >= |r1.buf|
  }

  lemma GrowKeeps(r: Rep, len: nat)
    requires r.WellFormed()
    ensures var g := Grow(r, len);
            && g.buf[..r.slen] == r.buf[..r.slen]
            && (|r.buf| < len ==> |g.buf| == len && forall i :: r.slen <= i < len ==> g.buf[i] == 0)
  {
  }

  lemma SpliceContents(buf: seq<Byte>, at: nat, t: seq<Byte>, n: nat)
    requires at + |t| <= |buf| && at <= n <= at + |t|
    ensures Splice(buf, at, t)[..n] == buf[..at] + t[..n - at]
    ensures forall i :: 0 <= i < |buf| ==>
              Splice(buf, at, t)[i] == if at <= i < at + |t| then t[i - at] else buf[i]
  {
  }

  /** The unbounded appends: the concatenation, with a terminator unless nothing was
      appended to a string that had none. */
  lemma AppendStringHolds(r: Rep, t: seq<Byte>)
    requires r.WellFormed() && 0 !in t
    ensures Carries(r, AppendString(r, t), r.Contents() + t)
    ensures AppendString(r, t).Terminated() <==> t != [] || r.Terminated()
    ensures r.Tight() ==> AppendString(r, t).Tight()
  {
    if t == [] {
      assert r.Contents() + t == r.Contents();
    } else {
      var g := Grow(r, r.slen + |t| + 1);
      SpliceContents(g.buf, r.slen, t + [0], r.slen + |t|);
    }
  }

  /** A bounded append appends the slice; the result is terminated if and only if
      the buffer had to grow or a NUL already lay behind the new end. */
  lemma AppendSliceIff(r: Rep, t: seq<Byte>)
    requires r.WellFormed() && 0 !in t && t != []
    ensures Carries(r, AppendSlice(r, t), r.Contents() + t)
    ensures AppendSlice(r, t).Terminated() <==>
            |r.buf| <= r.slen + |t| || r.buf[r.slen + |t|] == 0
    ensures r.Tight() ==> AppendSlice(r, t).Tight()
  {
    var g := Grow(r, r.slen + |t| + 1);
    GrowKeeps(r, r.slen + |t| + 1);
    SpliceContents(g.buf, r.slen, t, r.slen + |t|);
    assert t[..|t|] == t;
    assert g.buf[..r.slen] == r.Contents();
    assert AppendSlice(r, t).Contents() == r.Contents() + t;
  }

  /** append(const String&, pos, n) changes nothing, not even the buffer, if it is asked
      for a slice that reaches the end of its argument or goes beyond it. So a slice of
      the argument is appended if and only if it is empty or ends before that. */
  lemma SubAppendIff(r: Rep, str: seq<Byte>, pos: nat, n: nat)
    requires r.WellFormed() && 0 !in str
    ensures n == 0 || |str| <= pos + n ==> SubAppend(r, str, pos, n) == r
    ensures SubAppend(r, str, pos, n).slen <= |SubAppend(r, str, pos, n).buf|
    ensures pos + n <= |str| ==>
              (SubAppend(r, str, pos, n).Contents() == r.Contents() + str[pos..pos + n]
               <==> n == 0 || pos + n < |str|)
  {
    var u := SubSlice(str, pos, n);
    assert forall x :: x in u ==> x in str;
    SliceAppended(r, u);
    if pos + n <= |str| && u != str[pos..pos + n] {
      assert |r.Contents() + u| != |r.Contents() + str[pos..pos + n]|;
    }
  }

  lemma SliceAppended(r: Rep, u: seq<Byte>)
    requires r.WellFormed() && 0 !in u
    ensures Carries(r, AppendSlice(r, u), r.Contents() + u)
  {
    if u == [] {
      assert r.Contents() + u == r.Contents();
    } else {
      AppendSliceIff(r, u);
    }
  }

  /** append(const char*, n) appends the first n characters whenever there are that
      many, and changes nothing, not even the buffer, if there are fewer. */
  lemma PrefixAppendHolds(r: Rep, t: seq<Byte>, n: nat)
    requires r.WellFormed() && 0 !in t
    ensures n <= |t| ==> Carries(r, PrefixAppend(r, t, n), r.Contents() + t[..n])
    ensures |t| < n ==> PrefixAppend(r, t, n) == r
  {
    if n <= |t| {
      assert forall x :: x in t[..n] ==> x in t;
      SliceAppended(r, PrefixSlice(t, n));
    }
  }

  /** The whole of an argument is turned away: "b" is not appended to "a". */
  lemma WholeArgumentRejected()
    ensures SubAppend(Fresh([97]), [98], 0, 1) == Fresh([97])
    ensures Fresh([97]).Contents() != Fresh([97]).Contents() + [98][0..1]
  {
    SubAppendIff(Fresh([97]), [98], 0, 1);
  }

  /** The failing case of termination: after clear, bytes of the old string show
      behind the end. */
  lemma StaleTail()
    ensures var r := Clear(Fresh([97, 98, 99]));
            r.Valid() && !PrefixAppend(r, [120], 1).Valid()
  {
    var r := Clear(Fresh([97, 98, 99]));
    assert r == Rep([0, 98, 99, 0], 0);
    AppendSliceIff(r, [120]);
    assert [120][..1] == [120];
  }

  /** append(n, c) appends the characters and a terminator. */
  lemma AppendFillHolds(r: Rep, n: nat, c: Byte)
    requires r.WellFormed()
    ensures var a := AppendFill(r, n, c);
            && a.slen == r.slen + n && a.buf[..a.slen] == r.Contents() + Fill(n, c) && a.Terminated()
            && |a.buf| >= |r.buf| && a.buf[|a.buf| - 1] == 0
            && (|r.buf| <= r.slen + n ==> |a.buf| == a.slen + 1)
  {
    var g := Grow(r, r.slen + n + 1);
    SpliceContents(g.buf, r.slen, Fill(n, c) + [0], r.slen + n);
    assert (Fill(n, c) + [0])[..n] == Fill(n, c);
  }

  /** With a real character the result is well formed; a NUL breaks the link of length
      and C string unless nothing is appended. */
  lemma AppendFillIff(r: Rep, n: nat, c: Byte)
    requires r.WellFormed()
    ensures AppendFill(r, n, c).WellFormed() <==> n == 0 || c != 0
    ensures n == 0 || c != 0 ==> Carries(r, AppendFill(r, n, c), r.Contents() + Fill(n, c))
    ensures r.Tight() && AppendFill(r, n, c).WellFormed() ==> AppendFill(r, n, c).Tight()
  {
    AppendFillHolds(r, n, c);
    var a := AppendFill(r, n, c);
    assert a.buf[..a.slen] == r.Contents() + Fill(n, c);
    if n > 0 {
      assert (r.Contents() + Fill(n, c))[r.slen] == c;
    }
  }

  lemma ClearHolds(r: Rep)
    requires r.WellFormed()
    ensures Carries(r, Clear(r), [])
    ensures Clear(r).Terminated() <==> r.slen != 0 || r.Terminated()
  {
  }

  lemma AssignHolds(r: Rep, t: seq<Byte>)
    requires r.WellFormed() && 0 !in t
    ensures Carries(r, Assign(r, t), t) && Assign(r, t).Terminated() && Assign(r, t).buf != []
  {
    var g := Grow(r, |t| + 1);
    SpliceContents(g.buf, 0, t + [0], |t|);
    assert (t + [0])[..|t|] == t;
  }

  /** What erase promises: the bytes from pos on, n of them or all, are gone. */
  function Erased(t: seq<Byte>, pos: nat, n: nat): seq<Byte> {
    if pos >= |t| then t
    else if n == NPOS || pos + n >= |t| then t[..pos]
    else t[..pos] + t[pos + n..]
  }

  lemma EraseMiddle(r: Rep, pos: nat, n: nat)
    requires r.WellFormed() && pos < r.slen && pos + n <= r.slen
    ensures var e := Rep(Splice(r.buf, pos, r.buf[pos + n..r.slen])[r.slen - n := 0], r.slen - n);
            Carries(r, e, r.Contents()[..pos] + r.Contents()[pos + n..]) && e.Terminated()
  {
    var t, tail := r.Contents(), r.buf[pos + n..r.slen];
    var m := Splice(r.buf, pos, tail);
    SpliceContents(r.buf, pos, tail, r.slen - n);
    assert tail[..|tail|] == tail == t[pos + n..];
    assert r.buf[..pos] == t[..pos];
    assert m[r.slen - n := 0][..r.slen - n] == m[..r.slen - n] == t[..pos] + t[pos + n..];
  }

  /** erase: n characters from pos on are gone, or all that there are; nothing happens
      from the length on. There is a terminator if pos lies inside the string or there
      was one. */
  lemma EraseHolds(r: Rep, pos: nat, n: nat)
    requires r.WellFormed()
    ensures pos >= r.slen ==> Erase(r, pos, n) == r
    ensures pos < r.slen && n != NPOS && pos + n <= r.slen ==>
              Carries(r, Erase(r, pos, n), r.Contents()[..pos] + r.Contents()[pos + n..])
    ensures pos < r.slen && (n == NPOS || r.slen < pos + n) ==>
              Carries(r, Erase(r, pos, n), r.Contents()[..pos])
    ensures Carries(r, Erase(r, pos, n), Erased(r.Contents(), pos, n))
    ensures Erase(r, pos, n).Terminated() <==> pos < r.slen || r.Terminated()
  {
    var t := r.Contents();
    if pos == 0 && n == NPOS {
      ClearHolds(r);
    } else if pos < r.slen && n != NPOS && pos + n <= r.slen {
      EraseMiddle(r, pos, n);
      assert pos + n == |t| ==> t[..pos] + t[pos + n..] == t[..pos];
    } else if pos < r.slen {
      assert r.buf[pos := 0][..pos] == t[..pos];
    }
  }

  lemma FreshIsTight(t: seq<Byte>)
    requires 0 !in t
    ensures Fresh(t).Tight() && Fresh(t).Contents() == t && Empty().Tight() && Empty().Contents() == []
  {
  }
}
