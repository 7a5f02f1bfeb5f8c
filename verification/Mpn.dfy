/** The inline mpn operations of gmp.h over limb arrays. A destination may be the
    same array as a source or a separate one, as the header demands. The
    configuration macros (limb width, nails) are the `Layout` parameter. */
module Mpn {
  import opened Limbs
  import opened Schoolbook

  /** The numb part of limb arithmetic: adding or subtracting one and masking. */
  lemma MaskedStep(f: Layout, op: Op, x: nat)
    requires x < f.Base()
    ensures f.LimbBase() > 0
    ensures f.Mask(Wrap(f.LimbBase(), if op == Plus then x + 1 else x - 1)) == Step(op, f.Base(), x, 0, 1).0
  {
    LayoutFacts(f);
    var b, m := f.Base(), f.LimbBase();
    var r := Wrap(m, if op == Plus then x + 1 else x - 1);
    MaskIsMod(f, r);
    var d := Step(op, b, x, 0, 1).0;
    if op == Minus && x == 0 {
      DivModUnique(Pow(2, f.nailBits) - 1, b, d);
    } else if op == Plus && x == b - 1 {
      assert r == 0 || r == b;
      DivModUnique(0, b, 0);
      DivModUnique(1, b, 0);
    } else {
      DivModUnique(0, b, d);
    }
  }

  /** __GMPN_COPY_REST. */
  method CopyRest(dst: array<nat>, src: array<nat>, size: nat, start: nat)
    requires start <= size <= dst.Length && size <= src.Length
    modifies dst
    ensures forall i :: 0 <= i < dst.Length ==>
              dst[i] == if start <= i < size then old(src[i]) else old(dst[i])
  {
    var j := start;
    while j < size
      invariant start <= j <= size
      invariant forall i :: 0 <= i < dst.Length ==>
                  dst[i] == if start <= i < j then old(src[i]) else old(dst[i])
      invariant forall i :: j <= i < size ==> src[i] == old(src[i])
    {
      dst[j] := src[j];
      j := j + 1;
    }
  }

  /** The copied tail: nothing to do in place, the rest of the source otherwise.
      Either way the destination ends as its first `start` limbs and the
      source's rest. */
  method FinishTail(dst: array<nat>, src: array<nat>, size: nat, start: nat)
    requires start <= size <= dst.Length && size <= src.Length
    modifies dst
    ensures dst[..size] == old(dst[..start]) + old(src[start..size])
    ensures forall i :: size <= i < dst.Length ==> dst[i] == old(dst[i])
  {
    if dst != src {
      CopyRest(dst, src, size, start);
    }
  }

  /** mpn_add_n and mpn_sub_n. The header only declares them; the schoolbook loop
      stands for the library's code. */
  method AorsN(f: Layout, op: Op, wp: array<nat>, xp: array<nat>, yp: array<nat>, n: nat) returns (cout: nat)
    requires n <= wp.Length && n <= xp.Length && n <= yp.Length
    requires Digits(f.Base(), xp[..n]) && Digits(f.Base(), yp[..n])
    modifies wp
    ensures f.Base() > 0
    ensures (wp[..n], cout) == Ripple(op, f.Base(), old(xp[..n]), old(yp[..n]), n)
    ensures forall i :: n <= i < wp.Length ==> wp[i] == old(wp[i])
  {
    LayoutFacts(f);
    var b := f.Base();
    ghost var x, y := xp[..n], yp[..n];
    var i := 0;
    cout := 0;
    while i < n
      invariant 0 <= i <= n
      invariant (wp[..i], cout) == Ripple(op, b, x, y, i)
      invariant forall j :: n <= j < wp.Length ==> wp[j] == old(wp[j])
      invariant forall j :: i <= j < n ==> xp[j] == x[j] && yp[j] == y[j]
    {
      var (d, c) := Step(op, b, xp[i], yp[i], cout);
      wp[i] := d;
      i := i + 1;
      assert wp[..i] == wp[..i - 1] + [d];
      cout := c;
    }
  }

  /** The limb stored by the carry chain, and whether the chain goes on. */
  function ChainLimb(f: Layout, op: Op, limb: nat): (r: (nat, bool))
    requires limb < f.Base()
    ensures (r.0, if r.1 then 1 else 0) == Step(op, f.Base(), limb, 0, 1)
  {
    MaskedStep(f, op, limb);
    match op
    case Plus => var d := f.Mask(Wrap(f.LimbBase(), limb + 1)); (d, d == 0)
    case Minus => (f.Mask(Wrap(f.LimbBase(), limb - 1)), limb == 0)
  }

  /** The do/while carry chain of __GMPN_AORS, entered with a carry after `start`
      limbs. `done` stands for the jump out of the macro at the top limb;
      otherwise the carry has died before limb `i`. */
  method CarryChain(f: Layout, b: nat, op: Op, wp: array<nat>, xp: array<nat>, xsize: nat, start: nat,
                    ghost x: seq<nat>, ghost y: seq<nat>)
    returns (i: nat, done: bool)
    requires b == f.Base() > 0 && Digits(b, x) && Digits(b, y)
    requires |y| <= start <= xsize == |x| && xsize <= wp.Length && xsize <= xp.Length
    requires forall j :: start <= j < xsize ==> xp[j] == x[j]
    requires (wp[..start], 1) == Ripple(op, b, x, y, start)
    modifies wp
    ensures start <= i <= xsize && (done ==> i == xsize)
    ensures (wp[..i], if done then 1 else 0) == Ripple(op, b, x, y, i)
    ensures forall j :: xsize <= j < wp.Length ==> wp[j] == old(wp[j])
    ensures forall j :: i <= j < xsize ==> xp[j] == x[j]
  {
    i := start;
    while true
      invariant start <= i <= xsize
      invariant (wp[..i], 1) == Ripple(op, b, x, y, i)
      invariant forall j :: xsize <= j < wp.Length ==> wp[j] == old(wp[j])
      invariant forall j :: i <= j < xsize ==> xp[j] == x[j]
      decreases xsize - i
    {
      if i >= xsize {
        return i, true;
      }
      var (limb, again) := ChainLimb(f, op, xp[i]);
      wp[i] := limb;
      i := i + 1;
      assert wp[..i] == wp[..i - 1] + [limb];
      if !again {
        return i, false;
      }
    }
  }

  /** The first part of __GMPN_AORS: the call of mpn_add_n or mpn_sub_n on the
      limbs both operands have, skipped when there are none. */
  method CommonLimbs(f: Layout, op: Op, wp: array<nat>, xp: array<nat>, xsize: nat, yp: array<nat>, ysize: nat)
    returns (c: nat)
    requires ysize <= xsize <= wp.Length && xsize <= xp.Length && ysize <= yp.Length
    requires f.Base() > 0 && Digits(f.Base(), xp[..xsize]) && Digits(f.Base(), yp[..ysize])
    modifies wp
    ensures (wp[..ysize], c) == Ripple(op, f.Base(), old(xp[..xsize]), old(yp[..ysize]), ysize)
    ensures forall i :: ysize <= i < wp.Length ==> wp[i] == old(wp[i])
  {
    c := 0;
    if ysize != 0 {
      c := AorsN(f, op, wp, xp, yp, ysize);
      RippleLow(op, f.Base(), old(xp[..ysize]), old(yp[..ysize]), old(xp[..xsize]), old(yp[..ysize]), ysize);
    }
  }

  /** __GMPN_AORS: the common body of mpn_add and mpn_sub. */
  method Aors(f: Layout, op: Op, wp: array<nat>, xp: array<nat>, xsize: nat, yp: array<nat>, ysize: nat)
    returns (cout: nat)
    requires ysize <= xsize <= wp.Length && xsize <= xp.Length && ysize <= yp.Length
    requires Digits(f.Base(), xp[..xsize]) && Digits(f.Base(), yp[..ysize])
    modifies wp
    ensures f.Base() > 0
    ensures (wp[..xsize], cout) == Whole(op, f.Base(), old(xp[..xsize]), old(yp[..ysize]))
    ensures forall i :: xsize <= i < wp.Length ==> wp[i] == old(wp[i])
  {
    LayoutFacts(f);
    var b := f.Base();
    ghost var x, y := xp[..xsize], yp[..ysize];
    var i := ysize;
    var carry := CommonLimbs(f, op, wp, xp, xsize, yp, ysize);
    assert forall j :: ysize <= j < xsize ==> xp[j] == old(xp[j]) == x[j];
    if carry != 0 {
      var done;
      i, done := CarryChain(f, b, op, wp, xp, xsize, i, x, y);
      if done {
        return 1;
      }
    }
    NoCarryTail(op, b, x, y, i, xsize);
    assert xp[i..xsize] == x[i..xsize];
    FinishTail(wp, xp, xsize, i);
    cout := 0;
  }

  /** mpn_add: the exact sum, whether or not wp is one of the sources. */
  method Add(f: Layout, wp: array<nat>, xp: array<nat>, xsize: nat, yp: array<nat>, ysize: nat)
    returns (c: nat)
    requires ysize <= xsize <= wp.Length && xsize <= xp.Length && ysize <= yp.Length
    requires Digits(f.Base(), xp[..xsize]) && Digits(f.Base(), yp[..ysize])
    modifies wp
    ensures f.Base() > 0 && Digits(f.Base(), wp[..xsize]) && c <= 1
    ensures Value(f.Base(), wp[..xsize]) + c * Pow(f.Base(), xsize)
            == Value(f.Base(), old(xp[..xsize])) + Value(f.Base(), old(yp[..ysize]))
    ensures (wp[..xsize], c) == Whole(Plus, f.Base(), old(xp[..xsize]), old(yp[..ysize]))
    ensures forall i :: xsize <= i < wp.Length ==> wp[i] == old(wp[i])
  {
    c := Aors(f, Plus, wp, xp, xsize, yp, ysize);
    WholeExact(Plus, f.Base(), old(xp[..xsize]), old(yp[..ysize]));
  }

  /** mpn_sub: the exact difference, modulo the borrow. */
  method Sub(f: Layout, wp: array<nat>, xp: array<nat>, xsize: nat, yp: array<nat>, ysize: nat)
    returns (c: nat)
    requires ysize <= xsize <= wp.Length && xsize <= xp.Length && ysize <= yp.Length
    requires Digits(f.Base(), xp[..xsize]) && Digits(f.Base(), yp[..ysize])
    modifies wp
    ensures f.Base() > 0 && Digits(f.Base(), wp[..xsize]) && c <= 1
    ensures Value(f.Base(), wp[..xsize]) - c * Pow(f.Base(), xsize)
            == Value(f.Base(), old(xp[..xsize])) - Value(f.Base(), old(yp[..ysize]))
    ensures (wp[..xsize], c) == Whole(Minus, f.Base(), old(xp[..xsize]), old(yp[..ysize]))
    ensures forall i :: xsize <= i < wp.Length ==> wp[i] == old(wp[i])
  {
    c := Aors(f, Minus, wp, xp, xsize, yp, ysize);
    WholeExact(Minus, f.Base(), old(xp[..xsize]), old(yp[..ysize]));
  }

  /** In memory: taking y off the sum again restores x, and the borrow is the carry. */
  method AddThenSub(f: Layout, wp: array<nat>, xp: array<nat>, xsize: nat, yp: array<nat>, ysize: nat)
    returns (carry: nat, borrow: nat)
    requires ysize <= xsize <= wp.Length && xsize <= xp.Length && ysize <= yp.Length
    requires Digits(f.Base(), xp[..xsize]) && Digits(f.Base(), yp[..ysize])
    requires wp != yp
    modifies wp
    ensures wp[..xsize] == old(xp[..xsize]) && borrow == carry
    ensures carry == 1 <==>
            Value(f.Base(), old(xp[..xsize])) + Value(f.Base(), yp[..ysize]) >= Pow(f.Base(), xsize)
  {
    carry := Add(f, wp, xp, xsize, yp, ysize);
    borrow := Sub(f, wp, wp, xsize, yp, ysize);
    Undo(Plus, f.Base(), old(xp[..xsize]), yp[..ysize]);
    CarryMeaning(Plus, f.Base(), old(xp[..xsize]), yp[..ysize]);
  }
}
