/** haggle::String: a NUL-terminated buffer that grows on demand. Each method leaves
    exactly the representation that its counterpart in StringRep describes, and
    writes nothing but its own fields and its own buffer: the NUL cell that all
    empty strings share is never in a modifies clause. */
module HaggleString {
  import opened CString
  import opened StringRep

  class String {
    var s: array<Byte>
    var alloc_len: nat
    var slen: nat
    const nullchar: array<Byte>

    /** Where the buffer lives: in the shared cell until the first allocation. */
    ghost predicate Shape()
      reads this, nullchar
    {
      && nullchar.Length == 1 && nullchar[0] == 0
      && (if alloc_len == 0 then s == nullchar else s != nullchar && s.Length == alloc_len)
    }

    /** The part of the invariant that even an unterminated string keeps. */
    ghost predicate WellFormed()
      reads this, s, nullchar
    {
      Shape() && State().WellFormed()
    }

    ghost function State(): Rep
      reads this, s
    {
      Rep(if alloc_len == 0 then [] else s[..], slen)
    }

    ghost predicate Valid()
      reads this, s, nullchar
    {
      Shape() && State().Valid()
    }

    ghost function Contents(): seq<Byte>
      reads this, s, nullchar
      requires WellFormed()
    {
      s[..slen]
    }

    /** What the string may write. */
    ghost function Own(): set<object>
      reads this
    {
      if alloc_len == 0 then {} else {s}
    }

    /** Another string has a buffer of its own. */
    ghost predicate Separate(str: String)
      reads this, str
    {
      this != str && (alloc_len != 0 ==> s != str.s) && (alloc_len != 0 ==> s != str.nullchar)
    }

    /** An argument of type const char*: null, or a C string outside the buffer. */
    ghost predicate Argument(p: array?<Byte>, off: nat)
      reads this, p
    {
      p != null ==> off <= p.Length && 0 in p[off..] && (alloc_len != 0 ==> p != s)
    }

    /** alloc. realloc is taken to succeed; a moved block is a new array. */
    method Alloc(len: nat) returns (ok: bool)
      requires WellFormed()
      modifies this
      ensures ok && Shape() && State() == Grow(old(State()), len)
      ensures s == old(s) || fresh(s)
      ensures alloc_len == 0 ==> s == old(s)
      ensures len != 0 ==> alloc_len != 0
      ensures len > old(alloc_len) ==> fresh(s)
    {
      ok := true;
      if len <= alloc_len || len == 0 {
        return;
      }
      var tmp := Realloc(s, alloc_len, len);
      s, alloc_len := tmp, len;
      Memset0(s, slen, alloc_len - slen);
      assert s[..] == old(s[..slen]) + Fill(len - slen, 0);
    }

    // ----- assignment -----

    /** operator=(const char*). */
    method AssignC(p: array?<Byte>, off: nat)
      requires WellFormed() && Argument(p, off)
      modifies this, Own()
      ensures Shape()
      ensures State() == if p == null then old(State()) else Assign(old(State()), CStr(old(p[off..])))
      ensures s == old(s) || fresh(s)
      ensures p != null ==> alloc_len != 0
    {
      if p == null {
        return;
      }
      var n := Strlen(p, off);
      PutAssigned(p, off, n, CStr(p[off..]));
      slen := Strlen(s, 0);
    }

    /** What both assignments of a text do before they set the length. */
    method PutAssigned(p: array<Byte>, off: nat, n: nat, ghost t: seq<Byte>)
      requires WellFormed() && (alloc_len != 0 ==> p != s)
      requires off <= p.Length && 0 in p[off..] && CStr(p[off..]) == t && |t| == n
      modifies this, Own()
      ensures Shape() && alloc_len != 0 && (s == old(s) || fresh(s))
      ensures State() == Rep(Assign(old(State()), t).buf, old(slen))
      ensures 0 in s[0..] && CStr(s[0..]) == t
    {
      ghost var u := p[off..];
      var ok := Alloc(n + 1);
      assert p[off..] == u;
      PutFront(p, off, t);
    }

    /** Their copy. */
    method PutFront(p: array<Byte>, off: nat, ghost t: seq<Byte>)
      requires p != s && off <= p.Length && 0 in p[off..] && CStr(p[off..]) == t
      requires alloc_len != 0 && |t| + 1 <= s.Length
      modifies s
      ensures State() == Rep(Splice(old(State()).buf, 0, t + [0]), slen)
      ensures 0 in s[0..] && CStr(s[0..]) == t
    {
      ghost var b := s[..];
      Strcpy(s, 0, p, off);
      StoredAtFront(b, t, s[..]);
    }

    static lemma StoredAtFront(g: seq<Byte>, t: seq<Byte>, b: seq<Byte>)
      requires 0 !in t && |t| + 1 <= |g| && b == Splice(g, 0, t + [0])
      ensures b[0..] == b && 0 in b && CStr(b[0..]) == t && b[..|t|] == t && b[|t|] == 0
    {
      assert b[|t|] == 0 && b[..|t|] == t;
      CStrIs(b, |t|);
    }

    /** The bytes of a valid string, read as a C string. */
    lemma ReadAsC()
      requires Valid()
      ensures s[0..] == s[..] && 0 in s[0..] && CStr(s[0..]) == Contents()
      ensures State().Contents() == Contents()
    {
      assert s[0..][slen] == 0;
      assert s[0..][..slen] == s[..slen];
      CStrIs(s[0..], slen);
    }

    /** What c_str() shows of any string: its characters, followed by stale ones unless
        it is terminated. The read stays inside the buffer. */
    lemma CStringIff()
      requires WellFormed()
      ensures 0 in s[0..] && Contents() <= CStr(s[0..])
      ensures CStr(s[0..]) == Contents() <==> State().Terminated()
    {
      assert s[0..] == s[..] && s[0..][s.Length - 1] == 0;
      assert forall i :: 0 <= i < slen ==> s[0..][i] == State().Contents()[i];
      assert Contents() == s[0..][..slen];
      if s[slen] == 0 {
        CStrIs(s[0..], slen);
      }
    }

    /** operator=(const String&). */
    method AssignString(str: String)
      requires WellFormed() && str.Valid() && Separate(str)
      modifies this, Own()
      ensures Shape()
      ensures State() == Assign(old(State()), old(str.Contents()))
      ensures s == old(s) || fresh(s)
      ensures alloc_len != 0
    {
      str.ReadAsC();
      PutAssigned(str.s, 0, str.slen, str.Contents());
      slen := str.slen;
    }

    /** operator=(char). */
    method AssignCh(c: Byte)
      requires WellFormed()
      modifies this, Own()
      ensures Shape()
      ensures State() == AssignChar(old(State()), c)
      ensures s == old(s) || fresh(s)
      ensures alloc_len != 0
    {
      if c != 0 {
        var ok := Alloc(2);
        ghost var g := State();
        s[0] := c;
        s[1] := 0;
        slen := 1;
        assert State() == Rep(Splice(g.buf, 0, [c] + [0]), 1);
      } else {
        var ok := Alloc(1);
        ghost var g := State();
        s[0] := 0;
        slen := 0;
        assert State() == Rep(Splice(g.buf, 0, [] + [0]), 0);
      }
    }

    // ----- construction -----

    static lemma AssignFromEmpty(t: seq<Byte>)
      ensures Assign(Empty(), t) == StringRep.Fresh(t)
    {
      assert Splice(Grow(Empty(), |t| + 1).buf, 0, t + [0]) == t + [0];
    }

    /** String(const char*). */
    constructor FromC(p: array?<Byte>, off: nat, cell: array<Byte>)
      requires cell.Length == 1 && cell[0] == 0
      requires p != null ==> off <= p.Length && 0 in p[off..]
      ensures Valid() && nullchar == cell && fresh(Own())
      ensures State() == if p == null then Empty() else StringRep.Fresh(CStr(p[off..]))
    {
      s, alloc_len, slen, nullchar := cell, 0, 0, cell;
      new;
      AssignC(p, off);
      if p != null {
        AssignFromEmpty(CStr(p[off..]));
        FreshIsTight(CStr(p[off..]));
      }
    }

    /** String(const String&). */
    constructor Copy(str: String)
      requires str.Valid()
      ensures Valid() && nullchar == str.nullchar && fresh(Own())
      ensures State() == StringRep.Fresh(str.Contents())
    {
      s, alloc_len, slen, nullchar := str.nullchar, 0, 0, str.nullchar;
      new;
      AssignString(str);
      str.ReadAsC();
      AssignFromEmpty(str.Contents());
      FreshIsTight(str.Contents());
    }

    /** String(const char). */
    constructor FromChar(c: Byte, cell: array<Byte>)
      requires cell.Length == 1 && cell[0] == 0
      ensures Valid() && nullchar == cell && fresh(Own())
      ensures State() == StringRep.Fresh(if c == 0 then [] else [c])
    {
      s, alloc_len, slen, nullchar := cell, 0, 0, cell;
      new;
      AssignCh(c);
      AssignFromEmpty(if c == 0 then [] else [c]);
      FreshIsTight(if c == 0 then [] else [c]);
    }

    /** String(const char*, size_t): at most the first n characters; the terminator
        is a byte that alloc has zeroed. */
    constructor Prefix(p: array?<Byte>, off: nat, n: nat, cell: array<Byte>)
      requires cell.Length == 1 && cell[0] == 0
      requires p != null ==> off <= p.Length && 0 in p[off..]
      ensures Valid() && nullchar == cell && fresh(Own())
      ensures State() ==
              if p == null then Empty()
              else var t := CStr(p[off..]); StringRep.Fresh(if n > |t| then t else t[..n])
    {
      s, alloc_len, slen, nullchar := cell, 0, 0, cell;
      new;
      if p != null {
        var len := Strlen(p, off);
        var m := if n > len then len else n;
        FillPrefix(p, off, m);
        FreshIsTight(CStr(p[off..])[..m]);
      }
    }

    method FillPrefix(p: array<Byte>, off: nat, m: nat)
      requires WellFormed() && State() == Empty()
      requires off <= p.Length && m <= |CStr(p[off..])|
      modifies this
      ensures State() == StringRep.Fresh(CStr(old(p[off..]))[..m])
      ensures fresh(s) && s.Length == alloc_len != 0
    {
      var ok := Alloc(m + 1);
      ghost var g := s[..];
      Strncpy(s, 0, p, off, m);
      slen := m;
      FilledPrefix(g, CStr(p[off..])[..m], s[..]);
    }

    static lemma FilledPrefix(g: seq<Byte>, t: seq<Byte>, b: seq<Byte>)
      requires |g| == |t| + 1 && g[|t|] == 0 && b == Splice(g, 0, t)
      ensures b == t + [0]
    {
    }

    // ----- access -----

    /** at, the const form. A position within the string gives NUL, against the
        comment above it; one behind the length reads whatever the buffer holds
        there, so the caller must stay inside the buffer. */
    method At(pos: nat) returns (c: Byte)
      requires WellFormed()
      requires slen != 0 && slen <= pos ==> pos < s.Length
      ensures slen == 0 || pos < slen ==> c == 0
      ensures slen != 0 && slen <= pos ==> c == s[pos]
      ensures (if pos < slen then c == Contents()[pos] else c == 0) <==>
              pos >= slen && (slen != 0 ==> s[pos] == 0)
    {
      assert forall i :: 0 <= i < slen ==> s[i] == State().Contents()[i] && s[i] != 0;
      if slen != 0 && slen <= pos {
        return s[pos];
      }
      return nullchar[0];
    }

    // ----- appending -----

    /** append(const String&). */
    method AppendStr(str: String)
      requires WellFormed() && str.Valid() && Separate(str)
      requires slen + str.slen + 1 <= NPOS
      modifies this, Own()
      ensures Shape()
      ensures s == old(s) || fresh(s)
      ensures State() == AppendString(old(State()), old(str.Contents()))
    {
      str.ReadAsC();
      if str.slen != 0 {
        AppendText(str.s, 0, str.slen, str.Contents());
      }
    }

    /** append(const char*). */
    method AppendC(p: array?<Byte>, off: nat)
      requires WellFormed() && Argument(p, off)
      requires p != null ==> slen + |CStr(p[off..])| + 1 <= NPOS
      modifies this, Own()
      ensures Shape()
      ensures s == old(s) || fresh(s)
      ensures State() == AppendString(old(State()), if p == null then [] else CStr(old(p[off..])))
    {
      if p == null {
        return;
      }
      var n := Strlen(p, off);
      if n == 0 {
        return;
      }
      AppendText(p, off, n, CStr(p[off..]));
    }

    /** The common end of the unbounded appends: a C string of n characters, not
        empty. */
    method AppendText(p: array<Byte>, off: nat, n: nat, ghost t: seq<Byte>)
      requires WellFormed() && (alloc_len != 0 ==> p != s)
      requires off <= p.Length && 0 in p[off..] && CStr(p[off..]) == t && |t| == n != 0
      modifies this, Own()
      ensures Shape()
      ensures s == old(s) || fresh(s)
      ensures State() == AppendString(old(State()), t)
    {
      ghost var u := p[off..];
      var ok := Alloc(slen + n + 1);
      ghost var g := State();
      assert p[off..] == u;
      PutText(p, off, n, t);
      assert State() == Rep(Splice(g.buf, g.slen, t + [0]), g.slen + n);
    }

    /** Its copy, and the new length. */
    method PutText(p: array<Byte>, off: nat, n: nat, ghost t: seq<Byte>)
      requires p != s && off <= p.Length && 0 in p[off..] && CStr(p[off..]) == t && |t| == n
      requires alloc_len != 0 && slen + n + 1 <= s.Length
      modifies this`slen, s
      ensures State() == Rep(Splice(old(State()).buf, old(slen), t + [0]), old(slen) + n)
    {
      Strcpy(s, slen, p, off);
      slen := slen + n;
    }

    /** The common end of the bounded appends: n characters at p + off, no NUL. */
    method AppendBytes(p: array<Byte>, off: nat, n: nat)
      requires WellFormed() && (alloc_len != 0 ==> p != s)
      requires 0 < n && off + n <= p.Length && 0 !in p[off..off + n]
      modifies this, Own()
      ensures Shape()
      ensures s == old(s) || fresh(s)
      ensures State() == AppendSlice(old(State()), old(p[off..off + n]))
    {
      ghost var t := p[off..off + n];
      var ok := Alloc(slen + n + 1);
      ghost var g := State();
      PutBytes(p, off, n, t);
      assert State() == Rep(Splice(g.buf, g.slen, t), g.slen + n);
    }

    method PutBytes(p: array<Byte>, off: nat, n: nat, ghost t: seq<Byte>)
      requires p != s && off + n <= p.Length && t == p[off..off + n] && 0 !in t
      requires slen + n <= s.Length
      modifies this`slen, s
      ensures slen == old(slen) + n
      ensures s[..] == Splice(old(s[..]), old(slen), t)
    {
      assert p[off..][..n] == p[off..off + n];
      SliceBytes(p[off..], n);
      Strncpy(s, slen, p, off, n);
      slen := slen + n;
    }

    /** append(const String&, size_t, size_t). */
    method AppendSub(str: String, pos: nat, n: nat)
      requires WellFormed() && str.WellFormed() && Separate(str)
      requires pos + n <= NPOS && slen + n + 1 <= NPOS
      modifies this, Own()
      ensures Shape()
      ensures s == old(s) || fresh(s)
      ensures State() == SubAppend(old(State()), old(str.Contents()), pos, n)
      ensures n == 0 || old(str.slen) <= pos + n ==> State() == old(State())
    {
      if n == 0 || str.slen == 0 || str.slen <= pos + n {
        return;
      }
      assert str.Contents() == str.s[..str.slen];
      assert str.s[..str.slen][pos..pos + n] == str.s[pos..pos + n];
      AppendBytes(str.s, pos, n);
    }

    /** append(const char*, size_t). */
    method AppendN(p: array?<Byte>, off: nat, n: nat)
      requires WellFormed() && Argument(p, off)
      requires slen + n + 1 <= NPOS
      modifies this, Own()
      ensures Shape()
      ensures s == old(s) || fresh(s)
      ensures State() == if p == null then old(State()) else PrefixAppend(old(State()), CStr(old(p[off..])), n)
      ensures p == null || |CStr(old(p[off..]))| < n ==> State() == old(State())
    {
      if n == 0 || p == null {
        return;
      }
      var len := Strlen(p, off);
      if n > len {
        return;
      }
      assert p[off..off + n] == CStr(p[off..])[..n];
      AppendBytes(p, off, n);
    }

    /** The loop of append(size_t, char), with the terminator behind it. */
    method PutChars(count: nat, c: Byte)
      requires alloc_len == s.Length && slen + count < alloc_len
      modifies this`slen, s
      ensures slen == old(slen) + count
      ensures s[..] == Splice(old(s[..]), old(slen), Fill(count, c) + [0])
    {
      var n := count;
      while n != 0
        invariant 0 <= n <= count && slen == old(slen) + count - n
        invariant forall j :: 0 <= j < s.Length ==> s[j] == if old(slen) <= j < slen then c else old(s[j])
      {
        s[slen] := c;
        slen := slen + 1;
        n := n - 1;
      }
      s[slen] := 0;
    }

    /** append(size_t, char). */
    method AppendChars(count: nat, c: Byte)
      requires WellFormed() && slen + count + 1 <= NPOS
      modifies this, Own()
      ensures Shape()
      ensures s == old(s) || fresh(s)
      ensures State() == AppendFill(old(State()), count, c)
    {
      var ok := Alloc(slen + count + 1);
      ghost var g := State();
      PutChars(count, c);
      assert State() == Rep(Splice(g.buf, g.slen, Fill(count, c) + [0]), g.slen + count);
    }

    /** Copying bytes that hold no NUL pads nothing. */
    static lemma SliceBytes(src: seq<Byte>, n: nat)
      requires n <= |src| && 0 !in src[..n]
      ensures Padded(src, n) == src[..n]
    {
      assert forall i :: 0 <= i < n ==> src[i] == src[..n][i] && src[i] != 0;
      assert |CStr(src)| >= n;
    }

    // ----- removing -----

    /** clear. */
    method ClearAll()
      requires WellFormed()
      modifies this, Own()
      ensures Shape()
      ensures s == old(s)
      ensures State() == Clear(old(State()))
    {
      if slen != 0 {
        s[0] := 0;
        slen := 0;
      }
    }

    /** erase. A count other than npos must not take pos + n past the largest size_t. */
    method EraseAt(pos: nat, n: nat)
      requires WellFormed() && pos <= NPOS && n <= NPOS
      requires n != NPOS && pos < slen ==> pos + n <= NPOS
      modifies this, Own()
      ensures Shape()
      ensures s == old(s)
      ensures State() == Erase(old(State()), pos, n)
    {
      if pos == 0 && n == NPOS {
        ClearAll();
        return;
      }
      if pos >= slen {
        return;
      }
      if n == NPOS || pos + n > slen {
        s[pos] := 0;
        slen := slen - (slen - pos);
        assert State() == Erase(old(State()), pos, n);
        return;
      }
      MoveDown(pos, n);
      slen := slen - n;
      s[slen] := 0;
      assert State() == Erase(old(State()), pos, n);
    }

    /** The copy of erase: the characters behind the gap move down over it. */
    method MoveDown(pos: nat, n: nat)
      requires pos + n <= slen < s.Length && 0 !in s[..slen]
      modifies s
      ensures s[..] == Splice(old(s[..]), pos, old(s[pos + n..slen]))
    {
      var cplen := slen - pos - n;
      if cplen > 0 {
        assert s[pos + n..][..cplen] == s[pos + n..slen] == s[..slen][pos + n..];
        SliceBytes(s[pos + n..], cplen);
        Strncpy(s, pos, s, pos + n, cplen);
      }
    }
  }
}
