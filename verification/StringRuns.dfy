/** Runs of string operations: what holds after any sequence of calls. */
module StringRuns {
  import opened CString
  import opened StringRep

  /** The mutating calls. An argument `t` is a C string in the ...C cases and a String
      object in the ...String cases. */
  datatype Op =
    | AppendStringOp(t: seq<Byte>)
    | AppendCOp(t: seq<Byte>)
    | AppendSubOp(str: seq<Byte>, pos: nat, n: nat)
    | AppendPrefixOp(t: seq<Byte>, n: nat)
    | AppendFillOp(n: nat, c: Byte)
    | ClearOp
    | EraseOp(pos: nat, n: nat)
    | AssignStringOp(t: seq<Byte>)
    | AssignCOp(t: seq<Byte>)
    | AssignCharOp(c: Byte)
  {
    /** Arguments hold no NUL; a filled character is not NUL. */
    ghost predicate Admissible() {
      match this
      case AppendSubOp(str, _, _) => 0 !in str
      case AppendFillOp(_, c) => c != 0
      case ClearOp => true
      case EraseOp(_, _) => true
      case AssignCharOp(_) => true
      case _ => 0 !in t
    }

    predicate Bounded() { AppendSubOp? || AppendPrefixOp? }

    predicate Appends() { AppendStringOp? || AppendCOp? || AppendFillOp? || Bounded() }

    /** The slice that a bounded append passes on, none if its guard rejects. */
    function Slice(): seq<Byte>
      requires Bounded()
    {
      match this
      case AppendSubOp(str, pos, n) => SubSlice(str, pos, n)
      case AppendPrefixOp(t, n) => PrefixSlice(t, n)
    }

    /** What the call does to the sequence of characters. */
    function Meaning(u: seq<Byte>): seq<Byte> {
      match this
      case AppendStringOp(t) => u + t
      case AppendCOp(t) => u + t
      case AppendFillOp(n, c) => u + Fill(n, c)
      case ClearOp => []
      case EraseOp(pos, n) => Erased(u, pos, n)
      case AssignStringOp(t) => t
      case AssignCOp(t) => t
      case AssignCharOp(c) => if c == 0 then [] else [c]
      case _ => u + Slice()
    }

    /** What the call does to the representation. */
    function Step(r: Rep): Rep
      requires r.WellFormed()
    {
      match this
      case AppendStringOp(t) => AppendString(r, t)
      case AppendCOp(t) => AppendString(r, t)
      case AppendSubOp(str, pos, n) => SubAppend(r, str, pos, n)
      case AppendPrefixOp(t, n) => PrefixAppend(r, t, n)
      case AppendFillOp(n, c) => AppendFill(r, n, c)
      case ClearOp => Clear(r)
      case EraseOp(pos, n) => Erase(r, pos, n)
      case AssignStringOp(t) => Assign(r, t)
      case AssignCOp(t) => Assign(r, t)
      case AssignCharOp(c) => AssignChar(r, c)
    }

    /** The state before the call has, or the call writes, a NUL at the new end. Only a
        bounded append can spoil a terminated string: when a stale byte lies there. */
    ghost predicate Clean(r: Rep)
      requires r.WellFormed()
    {
      match this
      case AppendStringOp(t) => t != [] || r.Terminated()
      case AppendCOp(t) => t != [] || r.Terminated()
      case AppendFillOp(_, _) => true
      case ClearOp => r.slen != 0 || r.Terminated()
      case EraseOp(pos, _) => pos < r.slen || r.Terminated()
      case AssignStringOp(_) => true
      case AssignCOp(_) => true
      case AssignCharOp(_) => true
      case _ =>
        if Slice() == [] then r.Terminated()
        else |r.buf| <= r.slen + |Slice()| || r.buf[r.slen + |Slice()|] == 0
    }
  }

  /** One call, on a terminated string or not: the characters change as meant,
      capacity never shrinks, and the result is terminated if and only if the call
      was clean. */
  lemma StepIff(r: Rep, op: Op)
    requires r.WellFormed() && op.Admissible()
    ensures Carries(r, op.Step(r), op.Meaning(r.Contents()))
    ensures op.Step(r).Terminated() <==> op.Clean(r)
    ensures r.Valid() && !op.Bounded() ==> op.Clean(r)
    ensures r.Tight() && op.Appends() ==> op.Step(r).Tight()
  {
    match op
    case AppendStringOp(t) => AppendStringHolds(r, t);
    case AppendCOp(t) => AppendStringHolds(r, t);
    case AppendFillOp(n, c) =>
      AppendFillHolds(r, n, c);
      AppendFillIff(r, n, c);
    case ClearOp => ClearHolds(r);
    case EraseOp(pos, n) => EraseHolds(r, pos, n);
    case AssignStringOp(t) => AssignHolds(r, t);
    case AssignCOp(t) => AssignHolds(r, t);
    case AssignCharOp(c) => AssignHolds(r, if c == 0 then [] else [c]);
    case _ => SliceIff(r, op);
  }

  lemma SliceIff(r: Rep, op: Op)
    requires r.WellFormed() && op.Admissible() && op.Bounded()
    ensures Carries(r, op.Step(r), r.Contents() + op.Slice())
    ensures op.Step(r).Terminated() <==> op.Clean(r)
    ensures r.Tight() ==> op.Step(r).Tight()
  {
    SliceFacts(op);
    if op.Slice() == [] {
      assert r.Contents() + op.Slice() == r.Contents();
    } else {
      AppendSliceIff(r, op.Slice());
    }
  }

  lemma SliceFacts(op: Op)
    requires op.Admissible() && op.Bounded()
    ensures 0 !in op.Slice()
  {
    match op
    case AppendSubOp(str, pos, n) => assert forall x :: x in SubSlice(str, pos, n) ==> x in str;
    case AppendPrefixOp(t, n) => assert forall x :: x in PrefixSlice(t, n) ==> x in t;
  }

  /** The characters after each call, in terms of its arguments. */
  lemma StepContents(r: Rep, op: Op)
    requires r.WellFormed() && op.Admissible()
    ensures op.Step(r).WellFormed()
    ensures var t, u := r.Contents(), op.Step(r).Contents();
            match op
            case AppendStringOp(x) => u == t + x
            case AppendCOp(x) => u == t + x
            case AppendSubOp(x, pos, n) => u == if pos + n < |x| then t + x[pos..pos + n] else t
            case AppendPrefixOp(x, n) => u == if n <= |x| then t + x[..n] else t
            case AppendFillOp(n, c) => t <= u && |u| == |t| + n && forall i :: |t| <= i < |u| ==> u[i] == c
            case ClearOp => u == []
            case EraseOp(pos, n) =>
              if pos >= |t| then u == t
              else if n == NPOS || pos + n > |t| then u == t[..pos]
              else u == t[..pos] + t[pos + n..]
            case AssignStringOp(x) => u == x
            case AssignCOp(x) => u == x
            case AssignCharOp(c) => u == if c == 0 then [] else [c]
  {
    StepIff(r, op);
    var t := r.Contents();
    if op.Bounded() && op.Slice() == [] {
      assert t + op.Slice() == t;
    }
  }

  /** A buffer grows to exactly the new string and its terminator, or keeps its size;
      then the bytes behind the new end are the old ones, up to a terminator at the end
      itself. */
  ghost predicate RestKept(r: Rep, a: Rep) {
    && (|a.buf| == |r.buf| || (|r.buf| <= a.slen && |a.buf| == a.slen + 1))
    && (|a.buf| == |r.buf| ==>
          forall i :: a.slen <= i < |a.buf| ==> a.buf[i] == r.buf[i] || (i == a.slen && a.buf[i] == 0))
  }

  /** So it is after each call: with the characters and StepIff, every byte of the new
      buffer is known. */
  lemma StepRest(r: Rep, op: Op)
    requires r.WellFormed() && op.Admissible()
    ensures RestKept(r, op.Step(r))
  {
    match op
    case AppendStringOp(t) => AppendStringRest(r, t);
    case AppendCOp(t) => AppendStringRest(r, t);
    case AppendFillOp(_, _) =>
    case ClearOp =>
    case EraseOp(pos, n) => EraseRest(r, pos, n);
    case AssignStringOp(t) => AssignRest(r, t);
    case AssignCOp(t) => AssignRest(r, t);
    case AssignCharOp(c) => AssignRest(r, if c == 0 then [] else [c]);
    case _ => AppendSliceRest(r, op.Slice());
  }

  lemma AppendStringRest(r: Rep, t: seq<Byte>)
    requires r.WellFormed()
    ensures RestKept(r, AppendString(r, t))
  {
  }

  lemma AppendSliceRest(r: Rep, t: seq<Byte>)
    requires r.WellFormed()
    ensures RestKept(r, AppendSlice(r, t))
  {
  }

  lemma AssignRest(r: Rep, t: seq<Byte>)
    requires r.WellFormed()
    ensures RestKept(r, Assign(r, t))
  {
  }

  lemma EraseRest(r: Rep, pos: nat, n: nat)
    requires r.WellFormed()
    ensures RestKept(r, Erase(r, pos, n))
  {
  }

  // ----- runs -----

  ghost predicate AllAdmissible(ops: seq<Op>) {
    forall i :: 0 <= i < |ops| ==> ops[i].Admissible()
  }

  /** The characters after a run that starts from `t`. */
  function RunMeaning(ops: seq<Op>, t: seq<Byte>): seq<Byte> {
    if |ops| == 0 then t
    else ops[|ops| - 1].Meaning(RunMeaning(ops[..|ops| - 1], t))
  }

  /** The representation after a run. */
  ghost function Run(ops: seq<Op>, r: Rep): (a: Rep)
    requires r.WellFormed() && AllAdmissible(ops)
    ensures a.WellFormed()
  {
    if |ops| == 0 then r
    else
      var b := Run(ops[..|ops| - 1], r);
      StepIff(b, ops[|ops| - 1]);
      ops[|ops| - 1].Step(b)
  }

  /** Refinement: after every run, whether or not the string is terminated on the way,
      its characters are those of the run on plain sequences, and its capacity has
      not shrunk. */
  lemma {:induction false} RunRefines(ops: seq<Op>, r: Rep)
    requires r.WellFormed() && AllAdmissible(ops)
    ensures Carries(r, Run(ops, r), RunMeaning(ops, r.Contents()))
  {
    if |ops| > 0 {
      var m := |ops| - 1;
      RunRefines(ops[..m], r);
      StepIff(Run(ops[..m], r), ops[m]);
    }
  }

  /** Every call of the run is clean where it is made. */
  ghost predicate CleanRun(ops: seq<Op>, r: Rep)
    requires r.WellFormed() && AllAdmissible(ops)
  {
    forall i :: 0 <= i < |ops| ==> ops[i].Clean(Run(ops[..i], r))
  }

  /** The string is valid after every call of the run. */
  ghost predicate AlwaysValid(ops: seq<Op>, r: Rep)
    requires r.WellFormed() && AllAdmissible(ops)
  {
    forall i :: 0 <= i <= |ops| ==> Run(ops[..i], r).Valid()
  }

  /** A string stays valid throughout a run if and only if it starts valid and every
      call is clean. */
  lemma ValidThroughoutIff(ops: seq<Op>, r: Rep)
    requires r.WellFormed() && AllAdmissible(ops)
    ensures AlwaysValid(ops, r) <==> r.Valid() && CleanRun(ops, r)
  {
    assert Run(ops[..0], r) == r;
    if r.Valid() && CleanRun(ops, r) {
      forall i | 0 <= i <= |ops|
        ensures Run(ops[..i], r).Valid()
      {
        if i > 0 {
          RunNext(ops, r, i - 1);
        }
      }
    }
    if AlwaysValid(ops, r) {
      forall i | 0 <= i < |ops|
        ensures ops[i].Clean(Run(ops[..i], r))
      {
        RunNext(ops, r, i);
        assert Run(ops[..i + 1], r).Valid();
      }
    }
  }

  lemma RunNext(ops: seq<Op>, r: Rep, i: nat)
    requires r.WellFormed() && AllAdmissible(ops) && i < |ops|
    ensures Run(ops[..i + 1], r) == ops[i].Step(Run(ops[..i], r))
    ensures Run(ops[..i + 1], r).Valid() <==> ops[i].Clean(Run(ops[..i], r))
  {
    assert ops[..i + 1][..i] == ops[..i];
    StepIff(Run(ops[..i], r), ops[i]);
  }

  /** After every run without bounded appends the string is valid. */
  lemma {:induction false} UnboundedRunsValid(ops: seq<Op>, r: Rep)
    requires r.Valid() && AllAdmissible(ops)
    requires forall i :: 0 <= i < |ops| ==> !ops[i].Bounded()
    ensures Run(ops, r).Valid()
  {
    if |ops| > 0 {
      var m := |ops| - 1;
      UnboundedRunsValid(ops[..m], r);
      StepIff(Run(ops[..m], r), ops[m]);
    }
  }

  /** After every run made only of appends, bounded ones included, from a tight
      buffer, as the constructors leave it, the buffer is tight and so valid. */
  lemma {:induction false} AppendRunsTight(ops: seq<Op>, r: Rep)
    requires r.Tight() && AllAdmissible(ops)
    requires forall i :: 0 <= i < |ops| ==> ops[i].Appends()
    ensures Run(ops, r).Tight()
  {
    if |ops| > 0 {
      var m := |ops| - 1;
      AppendRunsTight(ops[..m], r);
      StepIff(Run(ops[..m], r), ops[m]);
    }
  }

  /** What a constructor leaves for the characters `t`: the shared cell, for the null
      pointer that is the default argument, or a buffer of exactly the string. */
  ghost predicate Constructed(r: Rep, t: seq<Byte>) {
    r == Fresh(t) || (t == [] && r == Empty())
  }

  /** From any constructor, through any run without bounded appends or made only of
      appends: valid throughout, with the characters of the run on plain sequences. */
  lemma ConstructedRuns(r: Rep, t: seq<Byte>, ops: seq<Op>)
    requires 0 !in t && Constructed(r, t) && AllAdmissible(ops)
    requires (forall i :: 0 <= i < |ops| ==> !ops[i].Bounded())
             || (forall i :: 0 <= i < |ops| ==> ops[i].Appends())
    ensures r.WellFormed() && AlwaysValid(ops, r)
    ensures Carries(r, Run(ops, r), RunMeaning(ops, t))
  {
    FreshIsTight(t);
    forall i | 0 <= i <= |ops|
      ensures Run(ops[..i], r).Valid()
    {
      if forall j :: 0 <= j < |ops| ==> ops[j].Appends() {
        AppendRunsTight(ops[..i], r);
      } else {
        UnboundedRunsValid(ops[..i], r);
      }
    }
    RunRefines(ops, r);
  }
}
