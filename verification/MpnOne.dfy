/** mpn_add_1 and mpn_sub_1: a vector plus or minus a single limb. The header has
    one macro body for limbs without nails, where the carry is seen from
    wrap-around alone, and one for limbs with nails. */
module MpnOne {
  import opened Limbs
  import opened Schoolbook
  import Mpn

  /** x op v in a word of the limb type. */
  function WordOp(f: Layout, op: Op, x: nat, v: nat): (r: nat)
    ensures f.LimbBase() > 0 && r < f.LimbBase()
  {
    LayoutFacts(f);
    Wrap(f.LimbBase(), if op == Plus then x + v else x - v)
  }

  /** __GMPN_ADDCB and __GMPN_SUBCB. */
  predicate CB(op: Op, r: nat, x: nat, v: nat) {
    if op == Plus then r < v else x < v
  }

  /** One limb operation of __GMPN_AORS_1: the limb stored and whether the body's
      carry test fires. The two bodies of the macro differ in this alone: without
      nails the word is stored as it is and the carry is a comparison, with nails
      the word is masked and the carry is any bit above the mask. */
  function LimbOp(f: Layout, op: Op, x: nat, v: nat): (r: (nat, nat))
    requires x < f.Base() && v < f.LimbBase()
    ensures r.0 < f.Base() && r.1 <= 1
  {
    LayoutFacts(f);
    var r := WordOp(f, op, x, v);
    if f.nailBits == 0 then (r, if CB(op, r, x, v) then 1 else 0)
    else
      MaskIsMod(f, r);
      (f.Mask(r), if f.Shift(r) != 0 then 1 else 0)
  }

  /** A carry (borrow) of `c` out of a lowest limb `d`, run through x[1..]. */
  function Carried(op: Op, b: nat, x: seq<nat>, d: nat, c: nat, n: nat): (r: (seq<nat>, nat))
    requires Digits(b, x) && 1 <= n <= |x| && d < b && c <= 1
    ensures |r.0| == n && Digits(b, r.0) && r.1 <= 1
  {
    if n == 1 then ([d], c)
    else
      var (w, k) := Carried(op, b, x, d, c, n - 1);
      var (e, k') := Step(op, b, x[n - 1], 0, k);
      (w + [e], k')
  }

  /** The plain ripple form of x op v. */
  function One(f: Layout, op: Op, x: seq<nat>, v: nat): (r: (seq<nat>, nat))
    requires |x| >= 1 && Digits(f.Base(), x) && v < f.LimbBase()
    ensures |r.0| == |x| && Digits(f.Base(), r.0) && r.1 <= 1
  {
    var (d, c) := LimbOp(f, op, x[0], v);
    Carried(op, f.Base(), x, d, c, |x|)
  }

  lemma {:induction false} CarryGone(op: Op, b: nat, x: seq<nat>, d: nat, c: nat, i: nat, n: nat)
    requires Digits(b, x) && 1 <= i <= n <= |x| && d < b && c <= 1
    requires Carried(op, b, x, d, c, i).1 == 0
    ensures Carried(op, b, x, d, c, n) == (Carried(op, b, x, d, c, i).0 + x[i..n], 0)
    decreases n
  {
    var w := Carried(op, b, x, d, c, i).0;
    if i == n {
      assert w + x[i..n] == w;
    } else {
      CarryGone(op, b, x, d, c, i, n - 1);
      assert Step(op, b, x[n - 1], 0, 0) == (x[n - 1], 0);
      assert w + x[i..n] == (w + x[i..n - 1]) + [x[n - 1]];
    }
  }

  lemma LimbOpOne(f: Layout, op: Op, x: nat)
    requires x < f.Base()
    ensures 1 < f.Base() <= f.LimbBase()
    ensures LimbOp(f, op, x, 1) == Step(op, f.Base(), x, 0, 1)
  {
    LayoutFacts(f);
    if f.nailBits >= 1 {
      NailStep(f, op, x, 1);
    }
  }

  /** The loop of __GMPN_AORS_1 that runs a carry out of the lowest limb. The
      carry either leaves the top limb (`cout` is 1 and i == n) or has died
      before limb `i`. */
  method CarryLoop(f: Layout, b: nat, op: Op, dst: array<nat>, src: array<nat>, n: nat,
                   ghost x: seq<nat>, ghost d: nat)
    returns (i: nat, cout: nat)
    requires b == f.Base() && Digits(b, x) && d < b
    requires 1 <= n == |x| && n <= dst.Length && n <= src.Length
    requires forall j :: 1 <= j < n ==> src[j] == x[j]
    requires dst[0] == d
    modifies dst
    ensures 1 <= i <= n && (cout == 1 ==> i == n)
    ensures (dst[..i], cout) == Carried(op, b, x, d, 1, i)
    ensures forall j :: n <= j < dst.Length ==> dst[j] == old(dst[j])
    ensures forall j :: i <= j < n ==> src[j] == x[j]
  {
    cout := 1;
    i := 1;
    assert dst[..1] == [d];
    while i < n
      invariant 1 <= i <= n
      invariant cout == 1 && (dst[..i], 1) == Carried(op, b, x, d, 1, i)
      invariant forall j :: n <= j < dst.Length ==> dst[j] == old(dst[j])
      invariant forall j :: i <= j < n ==> src[j] == x[j]
    {
      LimbOpOne(f, op, src[i]);
      var (r, carry) := LimbOp(f, op, src[i], 1);
      dst[i] := r;
      i := i + 1;
      assert dst[..i] == dst[..i - 1] + [r];
      if carry == 0 {
        return i, 0;
      }
    }
  }

  /** __GMPN_AORS_1: the common body of mpn_add_1 and mpn_sub_1. */
  method AorsOne(f: Layout, op: Op, dst: array<nat>, src: array<nat>, n: nat, v: nat) returns (cout: nat)
    requires 1 <= n <= dst.Length && n <= src.Length
    requires Digits(f.Base(), src[..n]) && v < f.LimbBase()
    modifies dst
    ensures (dst[..n], cout) == One(f, op, old(src[..n]), v)
    ensures forall i :: n <= i < dst.Length ==> dst[i] == old(dst[i])
  {
    var b := f.Base();
    ghost var x := src[..n];
    var (r, carry) := LimbOp(f, op, src[0], v);
    dst[0] := r;
    assert dst[..1] == [r];
    var i := 1;
    cout := carry;
    if carry != 0 {
      i, cout := CarryLoop(f, b, op, dst, src, n, x, r);
      if cout == 1 {
        return;
      }
    }
    CopyTail(b, op, dst, src, n, i, x, r, carry);
  }

  /** The end of __GMPN_AORS_1 once the carry has died before limb `i`. */
  method CopyTail(b: nat, op: Op, dst: array<nat>, src: array<nat>, n: nat, i: nat,
                  ghost x: seq<nat>, ghost d: nat, ghost c: nat)
    requires Digits(b, x) && d < b && c <= 1
    requires 1 <= i <= n == |x| && n <= dst.Length && n <= src.Length
    requires forall j :: i <= j < n ==> src[j] == x[j]
    requires (dst[..i], 0) == Carried(op, b, x, d, c, i)
    modifies dst
    ensures (dst[..n], 0) == Carried(op, b, x, d, c, n)
    ensures forall j :: n <= j < dst.Length ==> dst[j] == old(dst[j])
  {
    CarryGone(op, b, x, d, c, i, n);
    assert src[i..n] == x[i..n];
    Mpn.FinishTail(dst, src, n, i);
  }

  /** With nails, masking and testing the bits above the mask is exact as long as
      the result needs no more than one carry. */
  lemma NailAdd(f: Layout, x: nat, v: nat)
    requires f.nailBits >= 1 && x < f.Base() && x + v < 2 * f.Base()
    ensures v < f.LimbBase()
    ensures LimbOp(f, Plus, x, v) == if x + v >= f.Base() then (x + v - f.Base(), 1) else (x + v, 0)
  {
    LayoutFacts(f);
    var b, r := f.Base(), WordOp(f, Plus, x, v);
    MaskIsMod(f, r);
    if x + v < b {
      DivModUnique(0, b, r);
    } else {
      DivModUnique(1, b, r - b);
    }
  }

  lemma TopWord(f: Layout, d: nat, r: nat)
    requires f.nailBits >= 1 && d < f.Base() && r == f.LimbBase() - f.Base() + d
    ensures f.Base() > 0 && r / f.Base() > 0 && r % f.Base() == d
  {
    LayoutFacts(f);
    DivModUnique(Pow(2, f.nailBits) - 1, f.Base(), d);
    assert Pow(2, f.nailBits) == 2 * Pow(2, f.nailBits - 1);
    PowPositive(2, f.nailBits - 1);
  }

  lemma NailSub(f: Layout, x: nat, v: nat)
    requires f.nailBits >= 1 && x < f.Base() && v <= x + f.Base()
    ensures v < f.LimbBase()
    ensures LimbOp(f, Minus, x, v) == if x < v then (x + f.Base() - v, 1) else (x - v, 0)
  {
    LayoutFacts(f);
    var b, r := f.Base(), WordOp(f, Minus, x, v);
    MaskIsMod(f, r);
    if x >= v {
      DivModUnique(0, b, r);
    } else {
      TopWord(f, x + b - v, r);
    }
  }

  /** For two number limbs that is a limb of the schoolbook form. */
  lemma NailStep(f: Layout, op: Op, x: nat, v: nat)
    requires f.nailBits >= 1 && x < f.Base() && v < f.Base()
    ensures v < f.LimbBase()
    ensures LimbOp(f, op, x, v) == Step(op, f.Base(), x, v, 0)
  {
    if op == Plus {
      NailAdd(f, x, v);
    } else {
      NailSub(f, x, v);
    }
  }

  /** The test on the nail bits fires exactly when the comparison of the other macro
      body, on the stored limb, would, if and only if the word does not wrap around
      a second time; so for every two number limbs. */
  lemma CarryTestsAgree(f: Layout, op: Op, x: nat, v: nat)
    requires f.nailBits >= 1 && x < f.Base() && v < f.LimbBase()
    ensures var r := WordOp(f, op, x, v);
            (f.Shift(r) != 0 <==> CB(op, f.Mask(r), x, v)) <==>
            if op == Plus then x + v < f.LimbBase() else v <= x + (f.LimbBase() - f.Base())
    ensures v < f.Base() ==> x + v < f.LimbBase() && v <= x + (f.LimbBase() - f.Base())
  {
    LayoutFacts(f);
    if v < f.Base() {
      NailStep(f, op, x, v);
    } else {
      WideOperand(f, op, x, v);
    }
  }

  lemma WideOperand(f: Layout, op: Op, x: nat, v: nat)
    requires f.nailBits >= 1 && x < f.Base() <= v < f.LimbBase()
    ensures var r := WordOp(f, op, x, v);
            && CB(op, f.Mask(r), x, v)
            && (f.Shift(r) != 0 <==>
                if op == Plus then x + v < f.LimbBase() else v <= x + (f.LimbBase() - f.Base()))
  {
    LayoutFacts(f);
    var b, r := f.Base(), WordOp(f, op, x, v);
    MaskIsMod(f, r);
    ShiftTest(b, r);
  }

  lemma ShiftTest(b: nat, r: nat)
    requires b > 0
    ensures r / b != 0 <==> r >= b
  {
    if r < b {
      DivModUnique(0, b, r);
    } else {
      var q := r / b;
      assert r == b * q + r % b;
    }
  }

  // ----- exactness -----

  /** The carried vector differs from x by what the lowest limb and its carry
      (of weight `b`, so `t` in all) add to or take from x[0]. */
  lemma {:induction false} CarriedExact(op: Op, b: nat, x: seq<nat>, d: nat, c: nat, t: nat, n: nat)
    requires Digits(b, x) && 1 <= n <= |x| && d < b && c <= 1 && t == (if c == 1 then b else 0)
    ensures var (w, k) := Carried(op, b, x, d, c, n);
            && (op == Plus ==> Value(b, w) + k * Pow(b, n) == Value(b, x[..n]) - x[0] + d + t)
            && (op == Minus ==> Value(b, w) - k * Pow(b, n) == Value(b, x[..n]) - x[0] + d - t)
  {
    if n == 1 {
      ValueOne(b, d);
      ValueOne(b, x[0]);
      assert x[..1] == [x[0]];
      assert Pow(b, 1) == b * Pow(b, 0) == b;
      CarryTimes(c, Pow(b, 1));
    } else {
      var m := n - 1;
      CarriedExact(op, b, x, d, c, t, m);
      var (w, k) := Carried(op, b, x, d, c, m);
      var (e, k') := Step(op, b, x[m], 0, k);
      StepExact(op, b, Pow(b, m), x[m], 0, k);
      ValueTake(b, x, m);
      ValueSnoc(b, w, e);
    }
  }

  /** The lowest limb and its carry, for every limb v: the limb is x op v modulo the
      base; the carry says that x op v left the range of a number limb, but with nails
      it is lost again where the word wraps around and comes back into that range. */
  lemma LimbOpValue(f: Layout, op: Op, x: nat, v: nat)
    requires x < f.Base() && v < f.LimbBase()
    ensures f.Base() > 0
    ensures var (d, c) := LimbOp(f, op, x, v);
            && d == (if op == Plus then x + v else x - v) % f.Base()
            && (c == 1 <==>
                if op == Plus then f.Base() <= x + v && (f.nailBits != 0 ==> x + v < f.LimbBase())
                else x < v && (f.nailBits != 0 ==> v <= x + f.LimbBase() - f.Base()))
  {
    LayoutFacts(f);
    var b, m, r := f.Base(), f.LimbBase(), WordOp(f, op, x, v);
    if f.nailBits == 0 {
      WrapCases(b, if op == Plus then x + v else x - v);
    } else {
      MaskIsMod(f, r);
      ShiftTest(b, r);
      var t := Pow(2, f.nailBits);
      if op == Plus && x + v >= m {
        ModAbsorb(b, r, t);
      } else if op == Minus && x < v {
        ModAbsorb(b, x - v, t);
      }
    }
  }

  /** When the lowest limb with its carry is the exact x op v. */
  lemma LimbOpExactIff(f: Layout, op: Op, x: nat, v: nat)
    requires x < f.Base() && v < f.LimbBase()
    ensures var (d, c) := LimbOp(f, op, x, v);
            && (op == Plus ==> (d + c * f.Base() == x + v <==> x + v < 2 * f.Base()))
            && (op == Minus ==> (d - c * f.Base() == x - v <==> v <= x + f.Base()))
  {
    LayoutFacts(f);
    var b := f.Base();
    var (d, c) := LimbOp(f, op, x, v);
    CarryTimes(c, b);
    if f.nailBits >= 1 && op == Plus && x + v < 2 * b {
      NailAdd(f, x, v);
    } else if f.nailBits >= 1 && op == Minus && v <= x + b {
      NailSub(f, x, v);
    }
  }

  /** What mpn_add_1 and mpn_sub_1 compute for every limb v: x[0] is replaced by the
      lowest limb, and its carry, of weight `b`, reaches the rest. */
  lemma OneValue(f: Layout, op: Op, x: seq<nat>, v: nat)
    requires |x| >= 1 && Digits(f.Base(), x) && v < f.LimbBase()
    ensures var ((d, c), (w, k)) := (LimbOp(f, op, x[0], v), One(f, op, x, v));
            var b, t := f.Base(), if c == 1 then f.Base() else 0;
            && (op == Plus ==> Value(b, w) + k * Pow(b, |x|) == Value(b, x) - x[0] + d + t)
            && (op == Minus ==> Value(b, w) - k * Pow(b, |x|) == Value(b, x) - x[0] + d - t)
  {
    var (d, c) := LimbOp(f, op, x[0], v);
    CarriedExact(op, f.Base(), x, d, c, if c == 1 then f.Base() else 0, |x|);
    assert x[..|x|] == x;
  }

  /** mpn_add_1 and mpn_sub_1 are exact for a limb v if and only if the lowest limb
      position produces no more than one carry, which is every v without nails. */
  lemma OneExactIff(f: Layout, op: Op, x: seq<nat>, v: nat)
    requires |x| >= 1 && Digits(f.Base(), x) && v < f.LimbBase()
    ensures var (w, c) := One(f, op, x, v);
            && (op == Plus ==>
                  (Value(f.Base(), w) + c * Pow(f.Base(), |x|) == Value(f.Base(), x) + v
                   <==> x[0] + v < 2 * f.Base()))
            && (op == Minus ==>
                  (Value(f.Base(), w) - c * Pow(f.Base(), |x|) == Value(f.Base(), x) - v
                   <==> v <= x[0] + f.Base()))
  {
    LayoutFacts(f);
    var b := f.Base();
    var (d, c) := LimbOp(f, op, x[0], v);
    LimbOpExactIff(f, op, x[0], v);
    CarryTimes(c, b);
    OneValue(f, op, x, v);
  }

  /** For every number limb v the result is that of mpn_add or mpn_sub with the
      one-limb operand [v]. */
  lemma OneIsWhole(f: Layout, op: Op, x: seq<nat>, v: nat)
    requires |x| >= 1 && Digits(f.Base(), x) && v < f.Base()
    ensures v < f.LimbBase()
    ensures One(f, op, x, v) == Whole(op, f.Base(), x, [v])
  {
    LayoutFacts(f);
    OneExactIff(f, op, x, v);
    ValueOne(f.Base(), v);
    var (w, k) := One(f, op, x, v);
    ExactIsWhole(op, f.Base(), x, [v], w, k);
  }

  /** With nails, a limb whose nail bits are not zero can lose a carry: 2^8 added
      to 0 in limbs of four number bits and five nails. */
  lemma NailsInOperandLoseCarry()
    ensures var f := Format(9, 5);
            var (w, c) := One(f, Plus, [0], 256);
            Value(f.Base(), w) + c * Pow(f.Base(), 1) != 0 + 256
  {
    var f: Layout := Format(9, 5);
    NineBitLimbs();
    ValueOne(16, 0);
    OneExactIff(f, Plus, [0], 256);
  }

  /** Likewise a borrow: 17 taken from 0 in the same limbs. */
  lemma NailsInOperandLoseBorrow()
    ensures var f := Format(9, 5);
            && 17 < f.LimbBase() && f.Base() > 0
            && var (w, c) := One(f, Minus, [0], 17);
            Value(f.Base(), w) - c * Pow(f.Base(), 1) != 0 - 17
  {
    var f: Layout := Format(9, 5);
    NineBitLimbs();
    ValueOne(16, 0);
    OneExactIff(f, Minus, [0], 17);
  }

  /** Undoing a word operation after the multiple `high` of b has been cut off. */
  lemma WordUndo(m: nat, b: nat, op: Op, x: nat, v: nat, high: nat)
    requires x < b <= m && v < m
    requires var r := Wrap(m, if op == Plus then x + v else x - v);
             high <= r < high + b && (high == 0 || high >= b)
    ensures var d := Wrap(m, if op == Plus then x + v else x - v) - high;
            Wrap(m, if op == Plus then d - v else d + v) == if high == 0 then x else x + m - high
  {
  }

  /** Doing the limb operation and its inverse with any limb v: the limb is restored,
      and the second carry test fires exactly when the first did. */
  lemma LimbOpUndo(f: Layout, op: Op, x: nat, v: nat)
    requires x < f.Base() && v < f.LimbBase()
    ensures var (d, c) := LimbOp(f, op, x, v);
            LimbOp(f, op.Inverse(), d, v) == (x, c)
  {
    LayoutFacts(f);
    if f.nailBits >= 1 {
      LimbOpUndoNails(f, op, x, v);
    }
  }

  lemma LimbOpUndoNails(f: Layout, op: Op, x: nat, v: nat)
    requires f.nailBits >= 1 && x < f.Base() && v < f.LimbBase()
    ensures var (d, c) := LimbOp(f, op, x, v);
            LimbOp(f, op.Inverse(), d, v) == (x, c)
  {
    var r := WordOp(f, op, x, v);
    var k, d := CutWord(f, r);
    WordBack(f, op, x, v, k, d);
    RestoredWord(f, x, k, WordOp(f, op.Inverse(), d, v));
  }

  lemma CutWord(f: Layout, r: nat) returns (k: nat, d: nat)
    requires r < f.LimbBase()
    ensures f.Mask(r) == d < f.Base() && f.Shift(r) == k < Pow(2, f.nailBits)
    ensures r == k * f.Base() + d && (k > 0 ==> k * f.Base() >= f.Base())
  {
    PowAdd(2, f.nailBits, f.NumbBits());
    PowPositive(2, f.NumbBits());
    MaskIsMod(f, r);
    k, d := WordParts(Pow(2, f.nailBits), f.Base(), r);
  }

  lemma WordBack(f: Layout, op: Op, x: nat, v: nat, k: nat, d: nat)
    requires x < f.Base() && v < f.LimbBase() && d < f.Base()
    requires WordOp(f, op, x, v) == k * f.Base() + d && (k > 0 ==> k * f.Base() >= f.Base())
    ensures WordOp(f, op.Inverse(), d, v) == if k == 0 then x else x + f.LimbBase() - k * f.Base()
  {
    LayoutFacts(f);
    WordUndo(f.LimbBase(), f.Base(), op, x, v, k * f.Base());
  }

  lemma RestoredWord(f: Layout, x: nat, k: nat, back: nat)
    requires x < f.Base() && k < Pow(2, f.nailBits)
    requires back == if k == 0 then x else x + f.LimbBase() - k * f.Base()
    ensures f.Mask(back) == x && (f.Shift(back) != 0 <==> k != 0)
  {
    LayoutFacts(f);
    MaskIsMod(f, back);
    var t, b := Pow(2, f.nailBits), f.Base();
    if k == 0 {
      DivModUnique(0, b, x);
    } else {
      Complement(t, b, k);
      DivModUnique(t - k, b, x);
    }
  }

  lemma WordParts(t: nat, b: nat, r: nat) returns (k: nat, d: nat)
    requires b > 0 && r < t * b
    ensures k == r / b && d == r % b
    ensures r == k * b + d && d < b && k < t && (k > 0 ==> k * b >= b)
  {
    k, d := r / b, r % b;
    if k >= t {
      MulMonotone(b, t, k);
    }
    if k > 0 {
      MulMonotone(b, 1, k);
    }
  }

  lemma Complement(t: nat, b: nat, k: nat)
    requires k <= t
    ensures t * b - k * b == (t - k) * b
  {
  }

  lemma StepUndo(op: Op, b: nat, x: nat, k: nat)
    requires x < b && k <= 1 && 0 < b
    ensures var (e, k') := Step(op, b, x, 0, k);
            Step(op.Inverse(), b, e, 0, k) == (x, k')
  {
  }

  lemma {:induction false} CarriedUndo(op: Op, b: nat, x: seq<nat>, d: nat, c: nat, n: nat)
    requires Digits(b, x) && 1 <= n <= |x| && d < b && c <= 1
    ensures var (w, k) := Carried(op, b, x, d, c, |x|);
            Carried(op.Inverse(), b, w, x[0], c, n) == (x[..n], Carried(op, b, x, d, c, n).1)
  {
    if n == 1 {
      assert x[..1] == [x[0]];
    } else {
      CarriedUndo(op, b, x, d, c, n - 1);
      CarriedAt(op, b, x, d, c, n);
      StepUndo(op, b, x[n - 1], Carried(op, b, x, d, c, n - 1).1);
      assert x[..n] == x[..n - 1] + [x[n - 1]];
    }
  }

  lemma CarriedAt(op: Op, b: nat, x: seq<nat>, d: nat, c: nat, n: nat)
    requires Digits(b, x) && 2 <= n <= |x| && d < b && c <= 1
    ensures var k := Carried(op, b, x, d, c, n - 1).1;
            Carried(op, b, x, d, c, |x|).0[n - 1] == Step(op, b, x[n - 1], 0, k).0
  {
    CarriedPrefix(op, b, x, d, c, n, |x|);
    assert Carried(op, b, x, d, c, |x|).0[..n][n - 1] == Carried(op, b, x, d, c, |x|).0[n - 1];
  }

  /** Later limbs leave the earlier ones alone. */
  lemma {:induction false} CarriedPrefix(op: Op, b: nat, x: seq<nat>, d: nat, c: nat, n: nat, m: nat)
    requires Digits(b, x) && 1 <= n <= m <= |x| && d < b && c <= 1
    ensures Carried(op, b, x, d, c, n).0 == Carried(op, b, x, d, c, m).0[..n]
    decreases m
  {
    if n < m {
      CarriedPrefix(op, b, x, d, c, n, m - 1);
    }
  }

  /** Adding any limb and subtracting it again restores the vector, and the borrow
      equals the carry; likewise the other way round. That holds even where the
      nails of v make the two results inexact. */
  lemma OneUndo(f: Layout, op: Op, x: seq<nat>, v: nat)
    requires |x| >= 1 && Digits(f.Base(), x) && v < f.LimbBase()
    ensures var (w, c) := One(f, op, x, v);
            One(f, op.Inverse(), w, v) == (x, c)
  {
    var (d, c) := LimbOp(f, op, x[0], v);
    LimbOpUndo(f, op, x[0], v);
    CarriedPrefix(op, f.Base(), x, d, c, 1, |x|);
    var w := One(f, op, x, v).0;
    assert w[0] == w[..1][0] == d;
    CarriedUndo(op, f.Base(), x, d, c, |x|);
    assert x[..|x|] == x;
  }

  // ----- the functions -----

  /** mpn_add_1. */
  method Add1(f: Layout, dst: array<nat>, src: array<nat>, size: nat, v: nat) returns (c: nat)
    requires 1 <= size <= dst.Length && size <= src.Length
    requires Digits(f.Base(), src[..size]) && v < f.LimbBase()
    modifies dst
    ensures Digits(f.Base(), dst[..size]) && c <= 1
    ensures old(src[0]) + v < 2 * f.Base() <==>
            Value(f.Base(), dst[..size]) + c * Pow(f.Base(), size) == Value(f.Base(), old(src[..size])) + v
    ensures (dst[..size], c) == One(f, Plus, old(src[..size]), v)
    ensures forall i :: size <= i < dst.Length ==> dst[i] == old(dst[i])
  {
    c := AorsOne(f, Plus, dst, src, size, v);
    OneExactIff(f, Plus, old(src[..size]), v);
  }

  /** mpn_sub_1. */
  method Sub1(f: Layout, dst: array<nat>, src: array<nat>, size: nat, v: nat) returns (c: nat)
    requires 1 <= size <= dst.Length && size <= src.Length
    requires Digits(f.Base(), src[..size]) && v < f.LimbBase()
    modifies dst
    ensures Digits(f.Base(), dst[..size]) && c <= 1
    ensures v <= old(src[0]) + f.Base() <==>
            Value(f.Base(), dst[..size]) - c * Pow(f.Base(), size) == Value(f.Base(), old(src[..size])) - v
    ensures (dst[..size], c) == One(f, Minus, old(src[..size]), v)
    ensures forall i :: size <= i < dst.Length ==> dst[i] == old(dst[i])
  {
    c := AorsOne(f, Minus, dst, src, size, v);
    OneExactIff(f, Minus, old(src[..size]), v);
  }
}
