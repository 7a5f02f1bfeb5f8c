/** Runs of calls on one string object: the class follows the runs of StringRuns. */
module StringSession {
  import opened CString
  import opened StringRep
  import opened StringRuns
  import opened HaggleString

  /** The size_t sums of the call do not wrap around. */
  predicate Fits(op: Op, len: nat) {
    match op
    case AppendStringOp(t) => len + |t| + 1 <= NPOS
    case AppendCOp(t) => len + |t| + 1 <= NPOS
    case AppendSubOp(_, pos, n) => pos + n <= NPOS && len + n + 1 <= NPOS
    case AppendPrefixOp(_, n) => len + n + 1 <= NPOS
    case AppendFillOp(n, _) => len + n + 1 <= NPOS
    case EraseOp(pos, n) => pos <= NPOS && n <= NPOS && (n != NPOS ==> pos + n <= NPOS)
    case _ => true
  }

  ghost predicate FitsRun(ops: seq<Op>, t: seq<Byte>) {
    forall i :: 0 <= i < |ops| ==> Fits(ops[i], |RunMeaning(ops[..i], t)|)
  }

  /** A C string in memory. */
  method ToC(t: seq<Byte>) returns (p: array<Byte>)
    requires 0 !in t
    ensures fresh(p) && 0 in p[0..] && CStr(p[0..]) == t
  {
    var u := t + [0];
    p := new Byte[|u|](i requires 0 <= i < |u| => u[i]);
    assert p[0..] == u;
    assert u[|t|] == 0 && u[..|t|] == t;
    CStrIs(u, |t|);
  }

  /** A string object. */
  method ToString(t: seq<Byte>, cell: array<Byte>) returns (str: String)
    requires 0 !in t && cell.Length == 1 && cell[0] == 0
    ensures fresh(str) && str.Valid() && str.Contents() == t && str.nullchar == cell
    ensures str.alloc_len != 0 && fresh(str.s)
  {
    var p := ToC(t);
    str := new String.FromC(p, 0, cell);
    FreshIsTight(t);
    str.ReadAsC();
  }

  /** One call on the object, terminated or not. */
  method Call(str: String, op: Op)
    requires str.WellFormed() && op.Admissible() && Fits(op, str.slen)
    modifies str, str.Own()
    ensures str.Shape() && str.State() == op.Step(old(str.State()))
    ensures str.s == old(str.s) || fresh(str.s)
  {
    match op
    case AppendStringOp(t) =>
      var other := ToString(t, str.nullchar);
      str.AppendStr(other);
    case AppendCOp(t) =>
      var p := ToC(t);
      str.AppendC(p, 0);
    case AppendSubOp(u, pos, n) =>
      var other := ToString(u, str.nullchar);
      str.AppendSub(other, pos, n);
    case AppendPrefixOp(t, n) =>
      var p := ToC(t);
      str.AppendN(p, 0, n);
    case AppendFillOp(n, c) =>
      str.AppendChars(n, c);
    case ClearOp =>
      str.ClearAll();
    case EraseOp(pos, n) =>
      str.EraseAt(pos, n);
    case AssignStringOp(t) =>
      var other := ToString(t, str.nullchar);
      str.AssignString(other);
    case AssignCOp(t) =>
      var p := ToC(t);
      str.AssignC(p, 0);
    case AssignCharOp(c) =>
      str.AssignCh(c);
  }

  /** A run on the object in memory: every representation on the way is that of the
      run, its characters are those of the run on plain sequences, capacity never
      shrinks, and the object is valid at the end if and only if the run ends so. */
  method Execute(str: String, ops: seq<Op>)
    requires str.WellFormed() && AllAdmissible(ops)
    requires FitsRun(ops, str.State().Contents())
    modifies str, str.Own()
    ensures str.Shape() && str.State() == Run(ops, old(str.State()))
    ensures str.State().Contents() == RunMeaning(ops, old(str.State().Contents()))
    ensures str.alloc_len >= old(str.alloc_len)
  {
    ghost var r := str.State();
    var i := 0;
    while i < |ops|
      invariant 0 <= i <= |ops|
      invariant str.Shape() && str.State() == Run(ops[..i], r)
      invariant str.Own() <= old(str.Own()) || fresh(str.Own())
    {
      RunRefines(ops[..i], r);
      RunNext(ops, r, i);
      Call(str, ops[i]);
      i := i + 1;
    }
    assert ops[..i] == ops;
    RunRefines(ops, r);
  }

  /** operator+ on two strings: the concatenation, in a buffer of exactly its size. */
  method Plus(lhs: String, rhs: String) returns (ret: String)
    requires lhs.Valid() && rhs.Valid() && lhs.slen + rhs.slen + 1 <= NPOS
    ensures fresh(ret) && ret.Valid() && ret.State().Tight()
    ensures ret.State().Contents() == lhs.Contents() + rhs.Contents()
  {
    NoNul(lhs);
    NoNul(rhs);
    FreshThenAppend(lhs.Contents(), rhs.Contents());
    ret := CopyAndAppend(lhs, rhs, lhs.Contents(), rhs.Contents());
  }

  method CopyAndAppend(lhs: String, rhs: String, ghost t: seq<Byte>, ghost u: seq<Byte>) returns (ret: String)
    requires lhs.Valid() && rhs.Valid() && lhs.slen + rhs.slen + 1 <= NPOS
    requires lhs.Contents() == t && rhs.Contents() == u && |t| == lhs.slen && Fresh(t).WellFormed()
    ensures fresh(ret) && ret.Shape()
    ensures ret.State() == AppendString(Fresh(t), u)
  {
    ret := new String.Copy(lhs);
    assert rhs.Valid() && rhs.Contents() == u;
    ret.AppendStr(rhs);
  }

  lemma NoNul(str: String)
    requires str.Valid()
    ensures 0 !in str.Contents() && |str.Contents()| == str.slen
  {
    str.ReadAsC();
  }

  lemma FreshThenAppend(t: seq<Byte>, u: seq<Byte>)
    requires 0 !in t && 0 !in u
    ensures Fresh(t).WellFormed()
    ensures AppendString(Fresh(t), u).Tight() && AppendString(Fresh(t), u).Contents() == t + u
  {
    FreshIsTight(t);
    AppendStringHolds(Fresh(t), u);
  }
}
