/** Comparison of strings: strncmp and strcmp of ISO C99 (sections 7.21.4.4 and 7.21.4.2),
    String::compare and the relational operators. Of a comparison result only the
    sign is modelled. */
module StringCompare {
  import opened CString
  import opened StringRep
  import opened HaggleString

  /** The order of strings by their first difference, bytes being unsigned. */
  function LexSign(a: seq<Byte>, b: seq<Byte>): (sign: int)
    ensures -1 <= sign <= 1
  {
    if |a| == 0 && |b| == 0 then 0
    else if |a| == 0 then -1
    else if |b| == 0 then 1
    else if a[0] < b[0] then -1
    else if a[0] > b[0] then 1
    else LexSign(a[1..], b[1..])
  }

  /** At most the first `n` characters. */
  function Cut(t: seq<Byte>, n: nat): (r: seq<Byte>)
    ensures r <= t && |r| <= n && (|r| == n || r == t)
  {
    if n <= |t| then t[..n] else t
  }

  /** The sign of strncmp, on the bytes from the two pointers on. */
  function StrncmpSign(a: seq<Byte>, b: seq<Byte>, n: nat): int {
    LexSign(Cut(CStr(a), n), Cut(CStr(b), n))
  }

  function StrcmpSign(a: seq<Byte>, b: seq<Byte>): int {
    LexSign(CStr(a), CStr(b))
  }

  // ----- the order -----

  /** `a` comes before `b`: it is a proper prefix, or smaller at the first
      difference. */
  ghost predicate Before(a: seq<Byte>, b: seq<Byte>) {
    exists i: nat :: FirstDifference(a, b, i) && (i == |a| || (i < |b| && a[i] < b[i]))
  }

  ghost predicate Agree(a: seq<Byte>, b: seq<Byte>, i: nat) {
    i <= |a| && i <= |b| && forall k :: 0 <= k < i ==> a[k] == b[k]
  }

  ghost predicate FirstDifference(a: seq<Byte>, b: seq<Byte>, i: nat) {
    Agree(a, b, i) && (i < |a| || i < |b|) && (i < |a| && i < |b| ==> a[i] != b[i])
  }

  /** Equal beginnings do not matter. */
  lemma {:induction false} LexSkip(a: seq<Byte>, b: seq<Byte>, i: nat)
    requires Agree(a, b, i)
    ensures LexSign(a, b) == LexSign(a[i..], b[i..])
  {
    if i > 0 {
      LexSkip(a[1..], b[1..], i - 1);
      assert a[1..][i - 1..] == a[i..] && b[1..][i - 1..] == b[i..];
    } else {
      assert a[0..] == a && b[0..] == b;
    }
  }

  lemma DifferenceExists(a: seq<Byte>, b: seq<Byte>) returns (i: nat)
    requires a != b
    ensures FirstDifference(a, b, i)
  {
    i := 0;
    while i < |a| && i < |b| && a[i] == b[i]
      invariant Agree(a, b, i)
    {
      i := i + 1;
    }
  }

  /** The recursive sign is the order by first difference, and 0 means equal. */
  lemma {:induction false} LexSignMeaning(a: seq<Byte>, b: seq<Byte>)
    ensures LexSign(a, b) == 0 <==> a == b
    ensures LexSign(a, b) == -1 <==> Before(a, b)
    ensures LexSign(a, b) == 1 <==> Before(b, a)
    ensures LexSign(b, a) == -LexSign(a, b)
  {
    if a == b {
      LexSkip(a, b, |a|);
      assert a[|a|..] == [];
      assert !Before(a, b);
    } else {
      var i := DifferenceExists(a, b);
      LexSkip(a, b, i);
      LexSkip(b, a, i);
      assert FirstDifference(b, a, i);
      assert forall j: nat :: FirstDifference(a, b, j) || FirstDifference(b, a, j) ==> j == i;
    }
  }

  /** The order is transitive, strictly so if one of the steps is strict. */
  lemma {:induction false} LexTransitive(a: seq<Byte>, b: seq<Byte>, c: seq<Byte>)
    requires LexSign(a, b) <= 0 && LexSign(b, c) <= 0
    ensures LexSign(a, c) <= 0
    ensures LexSign(a, c) == 0 ==> LexSign(a, b) == 0 && LexSign(b, c) == 0
  {
    if |a| > 0 && |b| > 0 && |c| > 0 && a[0] == b[0] == c[0] {
      LexTransitive(a[1..], b[1..], c[1..]);
    }
  }

  // ----- the C functions -----

  /** strncmp. */
  method Strncmp(a: array<Byte>, aoff: nat, b: array<Byte>, boff: nat, n: nat) returns (sign: int)
    requires aoff <= a.Length && (aoff + n <= a.Length || 0 in a[aoff..])
    requires boff <= b.Length && (boff + n <= b.Length || 0 in b[boff..])
    ensures sign == StrncmpSign(a[aoff..], b[boff..], n)
  {
    ghost var s, t := CStr(a[aoff..]), CStr(b[boff..]);
    ghost var u, v := Cut(s, n), Cut(t, n);
    assert aoff + n <= a.Length || |s| < |a[aoff..]|;
    assert boff + n <= b.Length || |t| < |b[boff..]|;
    var i := 0;
    while i < n
      invariant 0 <= i <= n && Agree(s, t, i)
    {
      var x, y := a[aoff + i], b[boff + i];
      assert x == a[aoff..][i] && y == b[boff..][i];
      assert i < |s| <==> x != 0;
      assert i < |t| <==> y != 0;
      LexSkip(u, v, i);
      if x != y {
        return if x < y then -1 else 1;
      }
      if x == 0 {
        return 0;
      }
      i := i + 1;
    }
    LexSkip(u, v, n);
    return 0;
  }

  // ----- String::compare -----

  /** size_t subtraction of one. */
  function MinusOne(n: nat): nat { if n == 0 then NPOS else n - 1 }

  function Larger(m: nat, n: nat): (r: nat)
    ensures r >= m && r >= n && (r == m || r == n)
  {
    if m > n then m else n
  }

  /** _compare, branch by branch; the repeated test is the source's. */
  function RawCompare(str1: seq<Byte>, len1: nat, pos1: nat, n1: nat,
                      str2: seq<Byte>, len2: nat, pos2: nat, n2: nat): int
    requires pos1 <= |str1| && pos2 <= |str2|
  {
    if len1 == 0 && len2 == 0 then 0
    else if len1 == 0 then -1
    else if len1 == 0 then 1
    else if n1 == 0 || pos1 > MinusOne(len1) || pos2 > MinusOne(len2) then -1
    else StrncmpSign(str1[pos1..], str2[pos2..], Larger(n1, n2))
  }

  /** compare(const String&). */
  function Compare(a: String, b: String): int
    reads a, a.s, b, b.s
  {
    RawCompare(a.s[..], a.slen, 0, a.slen, b.s[..], b.slen, 0, b.slen)
  }

  /** compare(const char*). */
  function CompareC(a: String, p: array<Byte>, off: nat): int
    requires off <= p.Length
    reads a, a.s, p
  {
    var n := |CStr(p[off..])|;
    RawCompare(a.s[..], a.slen, 0, a.slen, p[off..], n, 0, n)
  }

  /** Despite the missing case for an empty second operand, whole-string comparison
      is the lexicographic order. */
  lemma RawCompareIsLex(s: seq<Byte>, t: seq<Byte>)
    requires |CStr(s)| <= NPOS && |CStr(t)| <= NPOS
    ensures RawCompare(s, |CStr(s)|, 0, |CStr(s)|, t, |CStr(t)|, 0, |CStr(t)|) == LexSign(CStr(s), CStr(t))
  {
    assert s[0..] == s && t[0..] == t;
    var a, b := CStr(s), CStr(t);
    var n := Larger(|a|, |b|);
    assert Cut(a, n) == a && Cut(b, n) == b;
  }

  /** compare orders strings lexicographically, for every pair of strings and every
      pair of a string and a C string. */
  lemma CompareIsLex(a: String, b: String)
    requires a.Valid() && b.Valid() && a.slen <= NPOS && b.slen <= NPOS
    ensures Compare(a, b) == LexSign(a.Contents(), b.Contents())
  {
    a.ReadAsC();
    b.ReadAsC();
    RawCompareIsLex(a.s[..], b.s[..]);
  }

  lemma CompareCIsLex(a: String, p: array<Byte>, off: nat)
    requires a.Valid() && a.slen <= NPOS
    requires off <= p.Length && |CStr(p[off..])| <= NPOS
    ensures CompareC(a, p, off) == LexSign(a.Contents(), CStr(p[off..]))
  {
    a.ReadAsC();
    RawCompareIsLex(a.s[..], p[off..]);
  }

  // ----- the relational operators -----

  datatype Relation = Eq | Ne | Lt | Gt | Le | Ge {
    /** The operator's test of a comparison result. */
    predicate Test(sign: int) {
      match this
      case Eq => sign == 0
      case Ne => sign != 0
      case Lt => sign < 0
      case Gt => sign > 0
      case Le => sign <= 0
      case Ge => sign >= 0
    }

    function Mirrored(): Relation {
      match this
      case Lt => Gt
      case Gt => Lt
      case Le => Ge
      case Ge => Le
      case _ => this
    }
  }

  /** operator(const String&, const String&). */
  predicate StringString(rel: Relation, a: String, b: String)
    reads a, a.s, b, b.s
  {
    rel.Test(Compare(a, b))
  }

  /** operator(const String&, const char*). */
  predicate StringChars(rel: Relation, a: String, p: array<Byte>, off: nat)
    requires off <= p.Length
    reads a, a.s, p
  {
    rel.Test(CompareC(a, p, off))
  }

  /** operator(const char*, const String&), which calls strcmp. */
  predicate CharsString(rel: Relation, p: array<Byte>, off: nat, b: String)
    requires off <= p.Length
    reads p, b, b.s
  {
    rel.Test(StrcmpSign(p[off..], b.s[..]))
  }

  /** The three forms of every operator agree: on the characters of a string `a` and
      a C string with the same characters, and with the operands exchanged. */
  lemma OperatorsAgree(rel: Relation, a: String, p: array<Byte>, off: nat, b: String)
    requires a.Valid() && b.Valid() && a.slen <= NPOS && b.slen <= NPOS
    requires off <= p.Length && CStr(p[off..]) == a.Contents()
    ensures CharsString(rel, p, off, b) <==> StringString(rel, a, b)
    ensures StringChars(rel.Mirrored(), b, p, off) <==> StringString(rel, a, b)
  {
    CompareIsLex(a, b);
    CompareCIsLex(b, p, off);
    b.ReadAsC();
    LexSignMeaning(a.Contents(), b.Contents());
  }

  /** The six operators on strings are equality, the order by first difference, and
      their negations and converses; operator<= is a total order. */
  lemma OperatorsOrder(a: String, b: String, c: String)
    requires a.Valid() && b.Valid() && c.Valid()
    requires a.slen <= NPOS && b.slen <= NPOS && c.slen <= NPOS
    ensures StringString(Eq, a, b) <==> a.Contents() == b.Contents()
    ensures StringString(Ne, a, b) <==> a.Contents() != b.Contents()
    ensures StringString(Lt, a, b) <==> Before(a.Contents(), b.Contents())
    ensures StringString(Gt, a, b) <==> Before(b.Contents(), a.Contents())
    ensures StringString(Le, a, b) <==> !Before(b.Contents(), a.Contents())
    ensures StringString(Ge, a, b) <==> !Before(a.Contents(), b.Contents())
    ensures StringString(Le, a, b) || StringString(Le, b, a)
    ensures StringString(Le, a, b) && StringString(Le, b, a) ==> a.Contents() == b.Contents()
    ensures StringString(Le, a, b) && StringString(Le, b, c) ==> StringString(Le, a, c)
  {
    CompareIsLex(a, b);
    CompareIsLex(b, a);
    CompareIsLex(b, c);
    CompareIsLex(a, c);
    LexSignMeaning(a.Contents(), b.Contents());
    if StringString(Le, a, b) && StringString(Le, b, c) {
      LexTransitive(a.Contents(), b.Contents(), c.Contents());
    }
  }
}
