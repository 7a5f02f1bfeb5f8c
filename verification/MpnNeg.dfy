/** mpn_neg and mpn_cmp. */
module MpnNeg {
  import opened Limbs
  import opened Schoolbook

  /** Two's complement negation: zero minus the vector, limb by limb. */
  function Negated(b: nat, u: seq<nat>): (r: (seq<nat>, nat))
    requires b > 0 && Digits(b, u)
    ensures |r.0| == |u| && Digits(b, r.0) && r.1 <= 1
  {
    Whole(Minus, b, Zeros(|u|), u)
  }

  /** mpn_neg. The limb arithmetic is that of the whole word: the source applies no
      numb mask here, so with nails the vector is negated in base 2^limbBits. */
  method Neg(f: Layout, rp: array<nat>, up: array<nat>, n: nat) returns (cy: nat)
    requires 1 <= n <= rp.Length && n <= up.Length
    requires Digits(f.LimbBase(), up[..n])
    modifies rp
    ensures f.LimbBase() > 0
    ensures (rp[..n], cy) == Negated(f.LimbBase(), old(up[..n]))
    ensures Value(f.LimbBase(), rp[..n]) == cy * Pow(f.LimbBase(), n) - Value(f.LimbBase(), old(up[..n]))
    ensures cy == 1 <==> exists i :: 0 <= i < n && old(up[i]) != 0
    ensures forall i :: n <= i < rp.Length ==> rp[i] == old(rp[i])
  {
    cy := NegLimbs(f, rp, up, n);
    NegatedExact(f.LimbBase(), old(up[..n]));
    assert forall i :: 0 <= i < n ==> old(up[..n])[i] == old(up[i]);
  }

  /** -ul - cy in a word holding the values below m. */
  function NegWord(m: nat, ul: nat, cy: nat): (r: nat)
    requires ul < m && cy <= 1
    ensures (r, if cy == 1 || ul != 0 then 1 else 0) == Step(Minus, m, 0, ul, cy)
  {
    Wrap(m, Wrap(m, -(ul as int)) as int - cy)
  }

  /** The loop of mpn_neg. */
  method NegLimbs(f: Layout, rp: array<nat>, up: array<nat>, n: nat) returns (cy: nat)
    requires 1 <= n <= rp.Length && n <= up.Length
    requires Digits(f.LimbBase(), up[..n])
    modifies rp
    ensures f.LimbBase() > 0
    ensures (rp[..n], cy) == Negated(f.LimbBase(), old(up[..n]))
    ensures forall i :: n <= i < rp.Length ==> rp[i] == old(rp[i])
  {
    LayoutFacts(f);
    var m := f.LimbBase();
    ghost var u := up[..n];
    var i, left := 0, n;
    cy := 0;
    while true
      invariant 0 <= i < n && left == n - i
      invariant (rp[..i], cy) == Ripple(Minus, m, Zeros(n), u, i)
      invariant forall j :: n <= j < rp.Length ==> rp[j] == old(rp[j])
      invariant forall j :: i <= j < n ==> up[j] == u[j]
      decreases left
    {
      var ul := up[i];
      rp[i] := NegWord(m, ul, cy);
      cy := if cy == 1 || ul != 0 then 1 else 0;
      i := i + 1;
      assert rp[..i] == rp[..i - 1] + [rp[i - 1]];
      left := left - 1;
      if left == 0 {
        break;
      }
    }
  }

  /** The value of a negated vector: cy*b^n minus the value, where cy is 1 exactly
      when the vector is not zero; negating twice is the identity. */
  lemma NegatedExact(b: nat, u: seq<nat>)
    requires b > 0 && Digits(b, u)
    ensures var (w, cy) := Negated(b, u);
            && Value(b, w) == cy * Pow(b, |u|) - Value(b, u)
            && (cy == 1 <==> exists i :: 0 <= i < |u| && u[i] != 0)
            && Negated(b, w) == (u, cy)
  {
    var (w, cy) := Negated(b, u);
    var z := Zeros(|u|);
    WholeExact(Minus, b, z, u);
    ValueOfZeros(b, z);
    ValueZeroIff(b, u);
    ValueBound(b, w);
    CarryTimes(cy, Pow(b, |u|));
    ExactIsWhole(Minus, b, z, w, u, cy);
  }

  // ----- what mpn_neg means in the number base -----

  /** The nail bits of limbs k up to n, weighed in base b: (m - b) * b^i each. */
  ghost function NailWeight(m: nat, b: nat, k: nat, n: nat): nat
    requires k <= n && b <= m
  {
    if k == n then 0 else NailWeight(m, b, k, n - 1) + (m - b) * Pow(b, n - 1)
  }

  lemma {:induction false} NailWeightZeroIff(m: nat, b: nat, k: nat, n: nat)
    requires k <= n && 0 < b <= m
    ensures NailWeight(m, b, k, n) == 0 <==> k == n || m == b
  {
    if k < n {
      NailWeightZeroIff(m, b, k, n - 1);
      PowPositive(b, n - 1);
      if m > b {
        MulMonotone(Pow(b, n - 1), 1, m - b);
      }
    }
  }

  /** Reading the lowest `n` limbs of a word-base negation in the number base `b`:
      the nail bits of the limbs from `k` upwards come on top. */
  ghost predicate ReadsAs(m: nat, b: nat, u: seq<nat>, k: nat, n: nat)
    requires 0 < b <= m && Digits(m, u) && k <= n <= |u|
  {
    var (w, cy) := Ripple(Minus, m, Zeros(|u|), u, n);
    && cy == (if k < n then 1 else 0)
    && Value(b, w) == (if k < n then Pow(b, n) else 0) - Value(b, u[..n]) + NailWeight(m, b, k, n)
  }

  /** So it is, `k` being the lowest nonzero limb. */
  lemma {:induction false} NegatedInBase(m: nat, b: nat, u: seq<nat>, k: nat, n: nat)
    requires 0 < b <= m && Digits(m, u)
    requires k <= n <= |u|
    requires forall i :: 0 <= i < k ==> u[i] == 0
    requires k < |u| ==> u[k] != 0
    ensures ReadsAs(m, b, u, k, n)
    decreases n
  {
    if n == k {
      ValueOfZeros(b, u[..n]);
      ZeroPart(m, u, n);
      ValueOfZeros(b, Zeros(n));
    } else {
      NegatedInBase(m, b, u, k, n - 1);
      NegatedStep(m, b, u, k, n - 1);
    }
  }

  lemma NegatedStep(m: nat, b: nat, u: seq<nat>, k: nat, j: nat)
    requires 0 < b <= m && Digits(m, u) && k <= j < |u| && u[k] != 0
    requires ReadsAs(m, b, u, k, j)
    ensures ReadsAs(m, b, u, k, j + 1)
  {
    var (w, cy) := Ripple(Minus, m, Zeros(|u|), u, j);
    var d := NextNegated(m, u, k, j, w, cy);
    ValueSnoc(b, w, d);
    ValueTake(b, u, j);
    NegLimb(m, b, d, u[j], cy, Pow(b, j));
  }

  lemma NextNegated(m: nat, u: seq<nat>, k: nat, j: nat, w: seq<nat>, cy: nat) returns (d: nat)
    requires m > 0 && Digits(m, u) && k <= j < |u| && u[k] != 0
    requires Ripple(Minus, m, Zeros(|u|), u, j) == (w, cy) && cy == (if k < j then 1 else 0)
    ensures d == m - u[j] - cy
    ensures Ripple(Minus, m, Zeros(|u|), u, j + 1) == (w + [d], 1)
  {
    d := m - u[j] - cy;
    assert Step(Minus, m, 0, u[j], cy) == (d, 1);
  }

  lemma NegLimb(m: nat, b: nat, d: nat, u: nat, cy: nat, p: nat)
    requires d == m - u - cy && cy <= 1
    ensures (if cy == 1 then p else 0) + d * p == b * p - u * p + (m - b) * p
  {
    CarryTimes(cy, p);
    calc {
      cy * p + d * p;
      (cy + d) * p;
      (m - u) * p;
      m * p - u * p;
      b * p - u * p + (m - b) * p;
    }
  }

  lemma {:induction false} ZeroPart(m: nat, u: seq<nat>, n: nat)
    requires m > 0 && Digits(m, u) && n <= |u|
    requires forall i :: 0 <= i < n ==> u[i] == 0
    ensures Ripple(Minus, m, Zeros(|u|), u, n) == (Zeros(n), 0)
  {
    if n > 0 {
      ZeroPart(m, u, n - 1);
      assert Zeros(n) == Zeros(n - 1) + [0];
    }
  }

  /** mpn_neg negates the number itself if and only if limbs have no nails or the
      number is zero. */
  lemma NegExactIff(f: Layout, u: seq<nat>)
    requires Digits(f.Base(), u)
    ensures Digits(f.LimbBase(), u) && f.LimbBase() > 0
    ensures var (w, cy) := Negated(f.LimbBase(), u);
            Value(f.Base(), w) == cy * Pow(f.Base(), |u|) - Value(f.Base(), u)
            <==> f.nailBits == 0 || forall i :: 0 <= i < |u| ==> u[i] == 0
  {
    LayoutFacts(f);
    var k := LowestNonzero(u);
    NegatedInBase(f.LimbBase(), f.Base(), u, k, |u|);
    assert u[..|u|] == u;
    CarryTimes(Negated(f.LimbBase(), u).1, Pow(f.Base(), |u|));
    NailWeightZeroIff(f.LimbBase(), f.Base(), k, |u|);
  }

  /** The failing case: with five nails, the limb 1 of base 16 becomes 511, not 15. */
  lemma NailsSpoilNegation()
    ensures var f := Format(9, 5);
            && f.LimbBase() == 512 && f.Base() == 16
            && Negated(512, [1]) == ([511], 1)
            && Value(16, [511]) != 1 * Pow(16, 1) - Value(16, [1])
  {
    NineBitLimbs();
    assert Pow(16, 1) == 16 * Pow(16, 0) && Pow(512, 1) == 512 * Pow(512, 0);
    var (w, cy) := Negated(512, [1]);
    NegatedExact(512, [1]);
    assert [1][0] != 0 && w == [w[0]];
    ValueOne(512, w[0]);
    ValueOne(512, 1);
    ValueOne(16, 511);
    ValueOne(16, 1);
  }

  lemma LowestNonzero(u: seq<nat>) returns (k: nat)
    ensures k <= |u| && (forall i :: 0 <= i < k ==> u[i] == 0) && (k < |u| ==> u[k] != 0)
  {
    k := 0;
    while k < |u| && u[k] == 0
      invariant k <= |u| && forall i :: 0 <= i < k ==> u[i] == 0
    {
      k := k + 1;
    }
  }

  // ----- comparison -----

  /** mpn_cmp: positive, negative or zero as the first value is greater, less or the
      same. */
  method Cmp(b: nat, xp: array<nat>, yp: array<nat>, size: nat) returns (result: int)
    requires size <= xp.Length && size <= yp.Length
    requires Digits(b, xp[..size]) && Digits(b, yp[..size])
    ensures -1 <= result <= 1
    ensures result > 0 <==> Value(b, xp[..size]) > Value(b, yp[..size])
    ensures result < 0 <==> Value(b, xp[..size]) < Value(b, yp[..size])
  {
    ghost var u, v := xp[..size], yp[..size];
    result := 0;
    var i: int := size;
    i := i - 1;
    while i >= 0
      invariant -1 <= i < size && result == 0
      invariant forall j :: i < j < size ==> u[j] == v[j]
    {
      var x, y := xp[i], yp[i];
      if x != y {
        result := if x > y then 1 else -1;
        TopDifference(b, u, v, i);
        TopDifference(b, v, u, i);
        return;
      }
      i := i - 1;
    }
    assert u == v;
  }

  /** The topmost limb that differs decides the comparison. */
  lemma TopDifference(b: nat, x: seq<nat>, y: seq<nat>, i: nat)
    requires Digits(b, x) && Digits(b, y) && i < |x| == |y|
    requires forall j :: i < j < |x| ==> x[j] == y[j]
    ensures x[i] < y[i] ==> Value(b, x) < Value(b, y)
  {
    if x[i] < y[i] {
      assert x[i + 1..] == y[i + 1..];
      ValueSplit(b, x, i + 1);
      ValueSplit(b, y, i + 1);
      assert x[..i + 1][..i] == x[..i] && y[..i + 1][..i] == y[..i];
      ValueBound(b, x[..i]);
      var p := Pow(b, i);
      MulMonotone(p, x[i] + 1, y[i]);
      Distribute(p, x[i], 1);
    }
  }

  /** What mpn_cmp returns is negative exactly when subtracting borrows one way,
      positive exactly when it borrows the other way, and zero exactly when the
      vectors are equal. */
  lemma CmpAgreesWithSub(b: nat, x: seq<nat>, y: seq<nat>, result: int)
    requires b > 0 && Digits(b, x) && Digits(b, y) && |x| == |y|
    requires result > 0 <==> Value(b, x) > Value(b, y)
    requires result < 0 <==> Value(b, x) < Value(b, y)
    ensures result < 0 <==> Whole(Minus, b, x, y).1 == 1
    ensures result > 0 <==> Whole(Minus, b, y, x).1 == 1
    ensures result == 0 <==> x == y
  {
    CarryMeaning(Minus, b, y, x);
    CarryMeaning(Minus, b, x, y);
    if Value(b, x) == Value(b, y) {
      ValueInjective(b, x, y);
    }
  }
}
