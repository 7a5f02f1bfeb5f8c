/** Limbs of a multi-precision number: their layout in a machine word, the
    wrap-around arithmetic of that word, and the number a limb vector denotes. */
module Limbs {

  function Pow(b: nat, e: nat): nat {
    if e == 0 then 1 else b * Pow(b, e - 1)
  }

  lemma {:induction false} PowPositive(b: nat, e: nat)
    requires b > 0
    ensures Pow(b, e) > 0
  {
    if e > 0 {
      PowPositive(b, e - 1);
    }
  }

  lemma {:induction false} PowAdd(b: nat, d: nat, e: nat)
    ensures Pow(b, d + e) == Pow(b, d) * Pow(b, e)
  {
    if e == 0 {
      assert Pow(b, d) * 1 == Pow(b, d);
    } else {
      PowAdd(b, d, e - 1);
      assert d + e - 1 == d + (e - 1);
      MulShuffle(Pow(b, d), b, Pow(b, e - 1));
    }
  }

  lemma SmallMultiple(m: nat, k: int, d: int)
    requires m * k == d && 0 - m < d < m
    ensures k == 0 && d == 0
  {
    if k >= 1 {
      MulMonotone(m, 1, k);
    } else if k <= -1 {
      MulMonotone(m, k, -1);
    }
  }

  lemma MulMonotone(m: nat, a: int, c: int)
    requires a <= c
    ensures m * a <= m * c
  {
  }

  /** The quotient and remainder of a number written as `q * m + r` are `q` and `r`. */
  lemma DivModUnique(q: int, m: nat, r: nat)
    requires r < m
    ensures (q * m + r) / m == q && (q * m + r) % m == r
  {
    var n := q * m + r;
    var q', r' := n / m, n % m;
    assert n == m * q' + r' && 0 <= r' < m;
    Distribute(m, q', 0 - q);
    SmallMultiple(m, q' - q, r - r');
  }

  /** Adding a multiple of the modulus changes nothing. */
  lemma ModAbsorb(m: nat, a: int, h: int)
    requires m > 0
    ensures (a + h * m) % m == a % m
  {
    var q, r := a / m, a % m;
    Distribute(m, q, h);
    DivModUnique(q + h, m, r);
  }

  lemma Distribute(m: int, a: int, c: int)
    ensures m * (a + c) == m * a + m * c
  {
  }

  // ----- bit operations on unsigned words -----

  /** Bitwise and. */
  function And(a: nat, b: nat): nat {
    if a == 0 || b == 0 then 0
    else 2 * And(a / 2, b / 2) + (a % 2) * (b % 2)
  }

  /** And-ing with a mask of `k` ones is the remainder modulo 2^k. */
  lemma {:induction false} AndMaskIsMod(a: nat, k: nat)
    ensures Pow(2, k) > 0
    ensures And(a, Pow(2, k) - 1) == a % Pow(2, k)
    decreases k
  {
    PowPositive(2, k);
    if k > 0 && a > 0 {
      var h := Pow(2, k - 1);
      AndMaskIsMod(a / 2, k - 1);
      AndOnes(a, h);
      HalvesMod(a, h);
    } else if k > 0 {
      DivModUnique(0, Pow(2, k), 0);
    }
  }

  lemma AndOnes(a: nat, h: nat)
    requires a > 0 && h > 0
    ensures And(a, 2 * h - 1) == 2 * And(a / 2, h - 1) + a % 2
  {
    assert (2 * h - 1) / 2 == h - 1 && (2 * h - 1) % 2 == 1;
  }

  lemma HalvesMod(a: nat, h: nat)
    requires h > 0
    ensures a % (2 * h) == 2 * (a / 2 % h) + a % 2
  {
    var q, r := a / 2 / h, a / 2 % h;
    assert a / 2 == q * h + r;
    assert a == 2 * (q * h) + 2 * r + a % 2;
    assert 2 * (q * h) == q * (2 * h);
    DivModUnique(q, 2 * h, 2 * r + a % 2);
  }

  lemma WrapCases(m: nat, x: int)
    requires m > 0
    ensures 0 <= x < m ==> x % m == x
    ensures m <= x < 2 * m ==> x % m == x - m
    ensures x < 0 <= x + m ==> x % m == x + m
  {
    if 0 <= x < m {
      DivModUnique(0, m, x);
    } else if m <= x < 2 * m {
      DivModUnique(1, m, x - m);
    } else if x < 0 <= x + m {
      DivModUnique(-1, m, x + m);
    }
  }

  /** Reduction of an integer into a word holding the values below `m`: what
      unsigned addition, subtraction and negation do in C. */
  function Wrap(m: nat, x: int): (r: nat)
    requires m > 0
    ensures r < m
    ensures 0 <= x < m ==> r == x
    ensures m <= x < 2 * m ==> r == x - m
    ensures x < 0 <= x + m ==> r == x + m
  {
    WrapCases(m, x);
    x % m
  }

  /** Unsigned division. */
  function Quotient(a: nat, m: nat): nat
    requires m > 0
  {
    a / m
  }

  // ----- layout of a limb -----

  /** A limb has `limbBits` bits; the top `nailBits` of them are kept zero
      between operations and the rest carry the number. */
  datatype Format = Format(limbBits: nat, nailBits: nat) {
    function LimbBase(): nat { Pow(2, limbBits) }

    function NumbBits(): nat
      requires nailBits <= limbBits
    {
      limbBits - nailBits
    }

    /** The base in which limb vectors are read. */
    function Base(): nat
      requires nailBits <= limbBits
    {
      Pow(2, NumbBits())
    }

    /** All ones, shifted right over the nails. */
    function NumbMask(): nat {
      PowPositive(2, limbBits);
      PowPositive(2, nailBits);
      Quotient(LimbBase() - 1, Pow(2, nailBits))
    }

    function Mask(r: nat): nat { And(r, NumbMask()) }

    /** The bits above the number part, shifted down. */
    function Shift(r: nat): nat
      requires nailBits <= limbBits
    {
      PowPositive(2, NumbBits());
      r / Pow(2, NumbBits())
    }
  }

  type Layout = f: Format | f.nailBits < f.limbBits witness Format(32, 0)

  lemma LayoutFacts(f: Layout)
    ensures f.Base() >= 2
    ensures Pow(2, f.nailBits) >= 1
    ensures f.LimbBase() == Pow(2, f.nailBits) * f.Base()
    ensures f.LimbBase() == (Pow(2, f.nailBits) - 1) * f.Base() + f.Base()
    ensures f.LimbBase() >= f.Base()
    ensures f.nailBits == 0 ==> f.LimbBase() == f.Base()
    ensures f.nailBits >= 1 ==> f.LimbBase() >= 2 * f.Base()
  {
    PowPositive(2, f.nailBits);
    PowPositive(2, f.NumbBits() - 1);
    PowAdd(2, f.nailBits, f.NumbBits());
    if f.nailBits >= 1 {
      PowPositive(2, f.nailBits - 1);
    }
    Multiple(Pow(2, f.nailBits), f.Base());
  }

  /** Limbs of four number bits and five nails, for the counterexamples. */
  lemma NineBitLimbs()
    ensures Format(9, 5).LimbBase() == 512 && Format(9, 5).Base() == 16
  {
    assert Pow(2, 4) == 2 * (2 * (2 * (2 * Pow(2, 0))));
    PowAdd(2, 5, 4);
    assert Pow(2, 5) == 2 * Pow(2, 4);
  }

  lemma Multiple(k: nat, b: nat)
    requires k >= 1
    ensures k * b == (k - 1) * b + b >= b
    ensures k >= 2 ==> k * b >= 2 * b
  {
    if k >= 2 {
      MulMonotone(b, 2, k);
    }
  }

  lemma OnesShifted(k: nat, b: nat)
    requires k >= 1 && b >= 1
    ensures k * b >= 1 && (k * b - 1) / k == b - 1
  {
    Multiple(b, k);
    DivModUnique(b - 1, k, k - 1);
  }

  /** The mask expression of the header has exactly the number bits set, so
      masking reduces modulo the base. */
  lemma MaskIsMod(f: Layout, r: nat)
    ensures f.NumbMask() == f.Base() - 1
    ensures f.Mask(r) == r % f.Base()
  {
    LayoutFacts(f);
    OnesShifted(Pow(2, f.nailBits), f.Base());
    AndMaskIsMod(r, f.NumbBits());
  }

  // ----- limb vectors -----

  ghost predicate Digits(b: nat, s: seq<nat>) {
    forall i :: 0 <= i < |s| ==> s[i] < b
  }

  /** The number denoted by a limb vector, least significant limb first. */
  ghost function Value(b: nat, s: seq<nat>): nat {
    if |s| == 0 then 0
    else Value(b, s[..|s| - 1]) + s[|s| - 1] * Pow(b, |s| - 1)
  }

  lemma ValueOne(b: nat, d: nat)
    ensures Value(b, [d]) == d
  {
    assert [d][..0] == [];
  }

  lemma ValueSnoc(b: nat, s: seq<nat>, d: nat)
    ensures Value(b, s + [d]) == Value(b, s) + d * Pow(b, |s|)
  {
    assert (s + [d])[..|s|] == s;
  }

  lemma ValueTake(b: nat, s: seq<nat>, j: nat)
    requires j < |s|
    ensures Value(b, s[..j + 1]) == Value(b, s[..j]) + s[j] * Pow(b, j)
  {
    assert s[..j + 1][..j] == s[..j];
  }

  lemma ValueTwo(b: nat, d: nat, e: nat)
    ensures Value(b, [d, e]) == d + e * b
  {
    assert [d, e][..1] == [d];
    ValueOne(b, d);
    assert Pow(b, 1) == b * Pow(b, 0) == b;
  }

  lemma {:induction false} ValueBound(b: nat, s: seq<nat>)
    requires Digits(b, s)
    ensures Value(b, s) < Pow(b, |s|)
  {
    if |s| > 0 {
      var n := |s| - 1;
      ValueBound(b, s[..n]);
      var p := Pow(b, n);
      Distribute(p, s[n], 1);
      MulMonotone(p, s[n] + 1, b);
    }
  }

  /** A vector splits at any limb: the upper part weighs b^k. */
  lemma {:induction false} ValueSplit(b: nat, s: seq<nat>, k: nat)
    requires k <= |s|
    ensures Value(b, s) == Value(b, s[..k]) + Pow(b, k) * Value(b, s[k..])
    decreases |s|
  {
    if k == |s| {
      assert s[..k] == s;
      assert Value(b, s[k..]) == 0;
    } else {
      var n := |s| - 1;
      ValueSplit(b, s[..n], k);
      assert s[..n][..k] == s[..k];
      assert s[..n][k..] == s[k..][..n - k];
      var hi := s[k..];
      assert hi[|hi| - 1] == s[n] && |hi| - 1 == n - k;
      PowAdd(b, k, n - k);
      var p, q, v, d := Pow(b, k), Pow(b, n - k), Value(b, hi[..n - k]), s[n];
      assert Value(b, hi) == v + d * q;
      Distribute(p, v, d * q);
      MulShuffle(p, d, q);
    }
  }

  lemma MulShuffle(p: int, d: int, q: int)
    ensures p * (d * q) == d * (p * q)
  {
  }

  /** Two limb vectors of one length with the same value are the same vector. */
  lemma {:induction false} ValueInjective(b: nat, s: seq<nat>, t: seq<nat>)
    requires |s| == |t| && Digits(b, s) && Digits(b, t)
    requires Value(b, s) == Value(b, t)
    ensures s == t
  {
    if |s| > 0 {
      var n := |s| - 1;
      ValueBound(b, s[..n]);
      ValueBound(b, t[..n]);
      QuotientUnique(Pow(b, n), s[n], Value(b, s[..n]), t[n], Value(b, t[..n]));
      ValueInjective(b, s[..n], t[..n]);
      assert s == s[..n] + [s[n]] && t == t[..n] + [t[n]];
    }
  }

  lemma QuotientUnique(p: nat, a: int, u: nat, c: int, v: nat)
    requires u < p && v < p
    requires u + a * p == v + c * p
    ensures a == c && u == v
  {
    Distribute(p, a, 0 - c);
    SmallMultiple(p, a - c, v - u);
  }

  /** The vector of `n` zero limbs. */
  function Zeros(n: nat): (z: seq<nat>)
    ensures |z| == n && forall i :: 0 <= i < n ==> z[i] == 0
  {
    seq(n, i => 0)
  }

  lemma {:induction false} ValueOfZeros(b: nat, s: seq<nat>)
    requires forall i :: 0 <= i < |s| ==> s[i] == 0
    ensures Value(b, s) == 0
  {
    if |s| > 0 {
      ValueOfZeros(b, s[..|s| - 1]);
    }
  }

  /** Only the all-zero vector denotes zero. */
  lemma {:induction false} ValueZeroIff(b: nat, s: seq<nat>)
    requires b > 0
    ensures Value(b, s) == 0 <==> forall i :: 0 <= i < |s| ==> s[i] == 0
  {
    if |s| > 0 {
      var n := |s| - 1;
      ValueZeroIff(b, s[..n]);
      PowPositive(b, n);
      if s[n] > 0 {
        assert s[n] * Pow(b, n) > 0;
      }
      assert forall i :: 0 <= i < n ==> s[i] == s[..n][i];
    }
  }
}
