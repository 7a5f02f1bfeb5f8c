/** Schoolbook addition and subtraction of limb vectors: every limb is visited
    and a carry (or borrow) of 0 or 1 runs through all of them. This is the plain
    form that the early-exit loops of gmp.h refine. */
module Schoolbook {
  import opened Limbs

  datatype Op = Plus | Minus {
    function Inverse(): Op { if Plus? then Minus else Plus }
  }

  /** Limb `i` of a vector that is extended with zeros. */
  function At(y: seq<nat>, i: nat): nat {
    if i < |y| then y[i] else 0
  }

  /** One limb position: the limb written and the carry passed on. */
  function Step(op: Op, b: nat, x: nat, y: nat, c: nat): (r: (nat, nat))
    requires x < b && y < b && c <= 1
    ensures r.0 < b && r.1 <= 1
  {
    match op
    case Plus => if x + y + c >= b then (x + y + c - b, 1) else (x + y + c, 0)
    case Minus => if x < y + c then (x + b - y - c, 1) else (x - y - c, 0)
  }

  /** The lowest `n` limbs of x op y, and the carry out of them. */
  function Ripple(op: Op, b: nat, x: seq<nat>, y: seq<nat>, n: nat): (r: (seq<nat>, nat))
    requires b > 0 && Digits(b, x) && Digits(b, y) && n <= |x|
    ensures |r.0| == n && Digits(b, r.0) && r.1 <= 1
  {
    if n == 0 then ([], 0)
    else
      var (w, c) := Ripple(op, b, x, y, n - 1);
      var (d, c') := Step(op, b, x[n - 1], At(y, n - 1), c);
      (w + [d], c')
  }

  /** x op y over all of x. */
  function Whole(op: Op, b: nat, x: seq<nat>, y: seq<nat>): (r: (seq<nat>, nat))
    requires b > 0 && Digits(b, x) && Digits(b, y)
    ensures |r.0| == |x| && Digits(b, r.0) && r.1 <= 1
  {
    Ripple(op, b, x, y, |x|)
  }

  /** What gmp.h promises of addition and subtraction: the limbs and the carry
      together are the exact integer result. */
  ghost predicate Exact(op: Op, b: nat, x: seq<nat>, y: seq<nat>, w: seq<nat>, c: nat) {
    && |w| == |x| && Digits(b, w) && c <= 1
    && (op == Plus ==> Value(b, w) + c * Pow(b, |x|) == Value(b, x) + Value(b, y))
    && (op == Minus ==> Value(b, w) - c * Pow(b, |x|) == Value(b, x) - Value(b, y))
  }

  /** The limbs of `y` below position `n`, as far as `y` reaches. */
  function Low(y: seq<nat>, n: nat): seq<nat> {
    if n <= |y| then y[..n] else y
  }

  lemma ValueLow(b: nat, y: seq<nat>, n: nat)
    ensures Value(b, Low(y, n + 1)) == Value(b, Low(y, n)) + At(y, n) * Pow(b, n)
  {
    if n < |y| {
      assert y[..n + 1][..n] == y[..n];
    } else if n == |y| {
      assert y[..n] == y;
    }
  }

  /** One limb position is exact at its weight `p`. */
  lemma StepExact(op: Op, b: nat, p: nat, x: nat, y: nat, c: nat)
    requires x < b && y < b && c <= 1
    ensures var (d, c') := Step(op, b, x, y, c);
            && (op == Plus ==> d * p + c' * (b * p) == x * p + y * p + c * p)
            && (op == Minus ==> d * p - c' * (b * p) == x * p - y * p - c * p)
  {
    var (d, c') := Step(op, b, x, y, c);
    if op == Plus {
      ScaleSum(p, b, d, c', x, y, c);
    } else {
      ScaleSum(p, b, x, c', d, y, c);
    }
  }

  lemma ScaleSum(p: nat, b: nat, u: nat, k: nat, v: nat, y: nat, c: nat)
    requires u + k * b == v + y + c
    ensures u * p + k * (b * p) == v * p + y * p + c * p
  {
    calc {
      u * p + k * (b * p);
      { assert k * (b * p) == (k * b) * p; }
      u * p + (k * b) * p;
      (u + k * b) * p;
      (v + y + c) * p;
      v * p + y * p + c * p;
    }
  }

  lemma {:induction false} RippleExact(op: Op, b: nat, x: seq<nat>, y: seq<nat>, n: nat)
    requires b > 0 && Digits(b, x) && Digits(b, y) && n <= |x|
    ensures var (w, c) := Ripple(op, b, x, y, n);
            && (op == Plus ==> Value(b, w) + c * Pow(b, n) == Value(b, x[..n]) + Value(b, Low(y, n)))
            && (op == Minus ==> Value(b, w) - c * Pow(b, n) == Value(b, x[..n]) - Value(b, Low(y, n)))
  {
    if n > 0 {
      var m := n - 1;
      RippleExact(op, b, x, y, m);
      var (w, c) := Ripple(op, b, x, y, m);
      var (d, c') := Step(op, b, x[m], At(y, m), c);
      ValueLow(b, y, m);
      ValueTake(b, x, m);
      ValueSnoc(b, w, d);
      StepExact(op, b, Pow(b, m), x[m], At(y, m), c);
    }
  }

  lemma NegScale(k: int, p: int)
    ensures (0 - k) * p == 0 - k * p
  {
  }

  /** The schoolbook form is exact, for vectors of any lengths with |y| <= |x|. */
  lemma WholeExact(op: Op, b: nat, x: seq<nat>, y: seq<nat>)
    requires b > 0 && Digits(b, x) && Digits(b, y) && |y| <= |x|
    ensures Exact(op, b, x, y, Whole(op, b, x, y).0, Whole(op, b, x, y).1)
  {
    RippleExact(op, b, x, y, |x|);
    assert x[..|x|] == x && Low(y, |x|) == y;
  }

  /** Exactness leaves no freedom: one vector and one carry satisfy it. */
  lemma ExactUnique(op: Op, b: nat, x: seq<nat>, y: seq<nat>,
                    w: seq<nat>, c: nat, w': seq<nat>, c': nat)
    requires Exact(op, b, x, y, w, c) && Exact(op, b, x, y, w', c')
    ensures w == w' && c == c'
  {
    var p := Pow(b, |x|);
    ValueBound(b, w);
    ValueBound(b, w');
    if op == Plus {
      QuotientUnique(p, c, Value(b, w), c', Value(b, w'));
    } else {
      NegScale(c, p);
      NegScale(c', p);
      QuotientUnique(p, 0 - c, Value(b, w), 0 - c', Value(b, w'));
    }
    ValueInjective(b, w, w');
  }

  /** Whatever is exact is the schoolbook result. */
  lemma ExactIsWhole(op: Op, b: nat, x: seq<nat>, y: seq<nat>, w: seq<nat>, c: nat)
    requires b > 0 && Digits(b, x) && Digits(b, y) && |y| <= |x|
    requires Exact(op, b, x, y, w, c)
    ensures (w, c) == Whole(op, b, x, y)
  {
    WholeExact(op, b, x, y);
    var (w', c') := Whole(op, b, x, y);
    ExactUnique(op, b, x, y, w, c, w', c');
  }

  /** Subtraction undoes addition and addition undoes subtraction: the second
      step restores x limb for limb and reports the carry of the first. */
  lemma Undo(op: Op, b: nat, x: seq<nat>, y: seq<nat>)
    requires b > 0 && Digits(b, x) && Digits(b, y) && |y| <= |x|
    ensures var (w, c) := Whole(op, b, x, y);
            Whole(op.Inverse(), b, w, y) == (x, c)
  {
    WholeExact(op, b, x, y);
    var (w, c) := Whole(op, b, x, y);
    ExactIsWhole(op.Inverse(), b, w, y, x, c);
  }

  lemma CarryTimes(c: nat, p: nat)
    requires c <= 1
    ensures c * p == if c == 1 then p else 0
  {
  }

  /** The carry out of an addition says that the sum needs one more limb; the
      borrow out of a subtraction says that x is smaller than y. */
  lemma CarryMeaning(op: Op, b: nat, x: seq<nat>, y: seq<nat>)
    requires b > 0 && Digits(b, x) && Digits(b, y) && |y| <= |x|
    ensures Whole(Plus, b, x, y).1 == 1 <==> Value(b, x) + Value(b, y) >= Pow(b, |x|)
    ensures Whole(Minus, b, x, y).1 == 1 <==> Value(b, x) < Value(b, y)
  {
    WholeExact(Plus, b, x, y);
    var (w, c) := Whole(Plus, b, x, y);
    ValueBound(b, w);
    CarryTimes(c, Pow(b, |x|));
    WholeExact(Minus, b, x, y);
    var (w', c') := Whole(Minus, b, x, y);
    ValueBound(b, w');
    CarryTimes(c', Pow(b, |x|));
  }

  /** Once y is exhausted and the carry is 0, the remaining limbs are those of x:
      what the early exits and the copied tails of gmp.h rest on. */
  lemma {:induction false} NoCarryTail(op: Op, b: nat, x: seq<nat>, y: seq<nat>, i: nat, n: nat)
    requires b > 0 && Digits(b, x) && Digits(b, y)
    requires |y| <= i <= n <= |x|
    requires Ripple(op, b, x, y, i).1 == 0
    ensures Ripple(op, b, x, y, n) == (Ripple(op, b, x, y, i).0 + x[i..n], 0)
    decreases n
  {
    if i == n {
      assert Ripple(op, b, x, y, i).0 + x[i..n] == Ripple(op, b, x, y, i).0;
    } else {
      NoCarryTail(op, b, x, y, i, n - 1);
      var w := Ripple(op, b, x, y, i).0;
      assert Step(op, b, x[n - 1], At(y, n - 1), 0) == (x[n - 1], 0);
      assert w + x[i..n] == (w + x[i..n - 1]) + [x[n - 1]];
    }
  }

  /** The result of the lower limbs depends on those limbs of y alone. */
  lemma {:induction false} RippleLow(op: Op, b: nat, x: seq<nat>, y: seq<nat>, x': seq<nat>, y': seq<nat>, n: nat)
    requires b > 0 && Digits(b, x) && Digits(b, y) && Digits(b, x') && Digits(b, y')
    requires n <= |x| && n <= |x'|
    requires forall i :: 0 <= i < n ==> x[i] == x'[i] && At(y, i) == At(y', i)
    ensures Ripple(op, b, x, y, n) == Ripple(op, b, x', y', n)
  {
    if n > 0 {
      RippleLow(op, b, x, y, x', y', n - 1);
    }
  }
}
