/** Signed integers in sign-magnitude form: the inline mpz operations of gmp.h. */
module Mpz {
  import opened Limbs

  function Abs(n: int): nat { if n >= 0 then n else -n }

  // ----- reading a number held in a size field `n` and a limb area `p` -----

  /** The form the library keeps: at least one limb allocated, |n| limbs in use,
      the top one of them not zero. */
  ghost predicate Normalized(f: Layout, n: int, p: seq<nat>) {
    && |p| >= 1 && Abs(n) <= |p|
    && Digits(f.Base(), p[..Abs(n)])
    && (n != 0 ==> p[Abs(n) - 1] != 0)
  }

  ghost function Magnitude(f: Layout, n: int, p: seq<nat>): nat
    requires Abs(n) <= |p|
  {
    Value(f.Base(), p[..Abs(n)])
  }

  ghost function IntOf(f: Layout, n: int, p: seq<nat>): int
    requires Abs(n) <= |p|
  {
    if n >= 0 then Magnitude(f, n, p) else 0 - Magnitude(f, n, p)
  }

  /** __GMPZ_FITS_UTYPE_P, in its two forms; the bound is cast to a limb before it
      is shifted. */
  predicate FitsUType(f: Layout, n: int, p: seq<nat>, maxval: nat)
    requires |p| >= 1 && Abs(n) <= |p|
  {
    LayoutFacts(f);
    || n == 0
    || (n == 1 && p[0] <= maxval)
    || (f.nailBits != 0 && n == 2 && p[1] <= f.Shift(Wrap(f.LimbBase(), maxval)))
  }

  /** mpz_get_ui, for an unsigned long as wide as a limb. */
  function GetUi(f: Layout, n: int, p: seq<nat>): nat
    requires |p| >= 1 && Abs(n) <= |p|
  {
    LayoutFacts(f);
    if f.nailBits == 0 then
      if n != 0 then p[0] else 0
    else if Abs(n) <= 1 then
      if Abs(n) != 0 then p[0] else 0
    else
      var high := Wrap(f.LimbBase(), p[1] * Pow(2, f.NumbBits()));
      Wrap(f.LimbBase(), p[0] + high)
  }

  /** mpz_getlimbn. */
  function GetLimbN(size: int, p: seq<nat>, i: int): nat
    requires Abs(size) <= |p|
  {
    if 0 <= i < Abs(size) then p[i] else 0
  }

  // ----- sizes and magnitudes -----

  /** A normalized number of n limbs has a magnitude of at least b^(n-1). */
  lemma MagnitudeLow(f: Layout, n: int, p: seq<nat>)
    requires Normalized(f, n, p) && n != 0
    ensures Magnitude(f, n, p) >= Pow(f.Base(), Abs(n) - 1)
    ensures Magnitude(f, n, p) > 0
  {
    LayoutFacts(f);
    var k := Abs(n) - 1;
    PowPositive(f.Base(), k);
    MulMonotone(Pow(f.Base(), k), 1, p[k]);
  }

  lemma MagnitudeSmall(f: Layout, n: int, p: seq<nat>)
    requires Abs(n) <= 2 && Abs(n) <= |p|
    ensures Abs(n) == 0 ==> Magnitude(f, n, p) == 0
    ensures Abs(n) == 1 ==> Magnitude(f, n, p) == p[0]
    ensures Abs(n) == 2 ==> Magnitude(f, n, p) == p[0] + p[1] * f.Base()
  {
    if Abs(n) == 1 {
      assert p[..1] == [p[0]];
      ValueOne(f.Base(), p[0]);
    } else if Abs(n) == 2 {
      assert p[..2] == [p[0], p[1]];
      ValueTwo(f.Base(), p[0], p[1]);
    }
  }

  lemma {:induction false} PowMonotone(b: nat, d: nat, e: nat)
    requires b >= 1 && d <= e
    ensures Pow(b, d) <= Pow(b, e)
    ensures b >= 2 && d < e ==> 2 * Pow(b, d) <= Pow(b, e)
  {
    if d < e {
      PowMonotone(b, d, e - 1);
      ScaleUp(b, Pow(b, e - 1));
    }
  }

  lemma ScaleUp(b: nat, q: nat)
    ensures b >= 1 ==> q <= b * q
    ensures b >= 2 ==> 2 * q <= b * q
  {
    if b >= 2 {
      MulMonotone(q, 2, b);
    }
  }

  lemma BaseSquared(f: Layout)
    ensures Pow(f.Base(), 2) == f.Base() * f.Base() == Pow(2, 2 * f.NumbBits())
  {
    var b := f.Base();
    assert Pow(b, 2) == b * (b * Pow(b, 0));
    PowAdd(2, f.NumbBits(), f.NumbBits());
  }

  // ----- mpz_fits_*_p -----

  /** How many bits the test and mpz_get_ui are right for: a word, or two limbs where
      these are narrower. */
  function FitCapacity(f: Layout): (k: nat)
    ensures k <= f.limbBits && k <= 2 * f.NumbBits()
    ensures k == f.limbBits || k == 2 * f.NumbBits()
  {
    if 2 * f.NumbBits() <= f.limbBits then 2 * f.NumbBits() else f.limbBits
  }

  function TypeMax(k: nat): nat {
    PowPositive(2, k);
    Pow(2, k) - 1
  }

  /** A bound of h*b - 1 is decided by the upper of two limbs. */
  lemma UpperLimbDecides(b: nat, h: nat, p0: nat, p1: nat)
    requires p0 < b && h >= 1
    ensures p1 <= h - 1 <==> p0 + p1 * b <= h * b - 1
  {
    if p1 <= h - 1 {
      MulMonotone(b, p1, h - 1);
      Multiple(h, b);
    } else {
      MulMonotone(b, h, p1);
    }
  }

  /** The largest k-bit value, shifted right by the number bits. */
  lemma ShiftedMax(f: Layout, k: nat)
    ensures k <= f.NumbBits() ==> f.Shift(TypeMax(k)) == 0
    ensures k > f.NumbBits() ==>
              var h := Pow(2, k - f.NumbBits());
              h >= 1 && TypeMax(k) == h * f.Base() - 1 && f.Shift(TypeMax(k)) == h - 1
  {
    LayoutFacts(f);
    var b := f.Base();
    if k <= f.NumbBits() {
      PowMonotone(2, k, f.NumbBits());
      DivModUnique(0, b, TypeMax(k));
    } else {
      var h := Pow(2, k - f.NumbBits());
      PowAdd(2, k - f.NumbBits(), f.NumbBits());
      PowPositive(2, k - f.NumbBits());
      OnesShifted(b, h);
    }
  }

  /** The bound shifted by the number bits separates the two-limb numbers. */
  lemma TwoLimbBound(f: Layout, k: nat, p0: nat, p1: nat)
    requires k <= f.limbBits && p0 < f.Base() && p1 >= 1
    ensures f.LimbBase() > 0
    ensures p1 <= f.Shift(Wrap(f.LimbBase(), TypeMax(k))) <==> p0 + p1 * f.Base() <= TypeMax(k)
  {
    LayoutFacts(f);
    PowMonotone(2, k, f.limbBits);
    ShiftedMax(f, k);
    if k <= f.NumbBits() {
      PowMonotone(2, k, f.NumbBits());
      MulMonotone(f.Base(), 1, p1);
    } else {
      UpperLimbDecides(f.Base(), Pow(2, k - f.NumbBits()), p0, p1);
    }
  }

  /** The width whose values the test accepts when asked about `k` bits. */
  function FitWidth(f: Layout, k: nat): (w: nat)
    ensures w <= k && w <= FitCapacity(f) && (w == k || w == FitCapacity(f))
  {
    if k <= FitCapacity(f) then k else FitCapacity(f)
  }

  /** Asked about a wider type, the test answers as for its capacity. */
  lemma WiderIsCapacity(f: Layout, n: int, p: seq<nat>, k: nat)
    requires Normalized(f, n, p) && k > FitCapacity(f)
    ensures FitsUType(f, n, p, TypeMax(k)) <==> FitsUType(f, n, p, TypeMax(FitCapacity(f)))
  {
    LayoutFacts(f);
    var c := FitCapacity(f);
    PowMonotone(2, f.NumbBits(), c);
    PowMonotone(2, c, k);
    if f.nailBits != 0 {
      ShiftedCast(f, c);
      ShiftedCast(f, k);
    }
  }

  /** From the capacity on, the cast and shifted bound is one limb of ones or what
      the nails leave of it. */
  lemma ShiftedCast(f: Layout, k: nat)
    requires f.nailBits != 0 && k >= FitCapacity(f)
    ensures f.LimbBase() > 0
    ensures if f.nailBits < f.NumbBits() then
              f.Shift(Wrap(f.LimbBase(), TypeMax(k))) == Pow(2, f.nailBits) - 1
            else
              f.Shift(Wrap(f.LimbBase(), TypeMax(k))) >= f.Base() - 1
  {
    LayoutFacts(f);
    if k >= f.limbBits {
      CastKeepsOnes(f, k);
      ShiftedMax(f, f.limbBits);
      if f.nailBits >= f.NumbBits() {
        PowMonotone(2, f.NumbBits(), f.nailBits);
      }
    } else {
      PowMonotone(2, k, f.limbBits);
      ShiftedMax(f, k);
      PowMonotone(2, f.NumbBits(), k - f.NumbBits());
    }
  }

  /** For every normalized z and every type width k: the test holds exactly of the
      values of a type of k bits or of the capacity, whichever is less. */
  lemma FitsExact(f: Layout, n: int, p: seq<nat>, k: nat)
    requires Normalized(f, n, p)
    ensures FitsUType(f, n, p, TypeMax(k)) <==> 0 <= IntOf(f, n, p) < Pow(2, FitWidth(f, k))
  {
    if k > FitCapacity(f) {
      WiderIsCapacity(f, n, p, k);
    }
    FitsWithin(f, n, p, FitWidth(f, k));
  }

  lemma FitsWithin(f: Layout, n: int, p: seq<nat>, k: nat)
    requires Normalized(f, n, p) && k <= FitCapacity(f)
    ensures FitsUType(f, n, p, TypeMax(k)) <==> 0 <= IntOf(f, n, p) <= TypeMax(k)
  {
    if n < 0 {
      MagnitudeLow(f, n, p);
    } else if n >= 3 {
      ThreeLimbsTooLarge(f, n, p, k);
    } else if n == 2 {
      TwoLimbsFit(f, p, k);
    } else {
      MagnitudeSmall(f, n, p);
    }
  }

  lemma ThreeLimbsTooLarge(f: Layout, n: int, p: seq<nat>, k: nat)
    requires Normalized(f, n, p) && n >= 3 && k <= FitCapacity(f)
    ensures Magnitude(f, n, p) > TypeMax(k)
  {
    LayoutFacts(f);
    MagnitudeLow(f, n, p);
    PowMonotone(f.Base(), 2, n - 1);
    BaseSquared(f);
    PowMonotone(2, k, 2 * f.NumbBits());
  }

  lemma TwoLimbsFit(f: Layout, p: seq<nat>, k: nat)
    requires Normalized(f, 2, p) && k <= FitCapacity(f)
    ensures FitsUType(f, 2, p, TypeMax(k)) <==> Magnitude(f, 2, p) <= TypeMax(k)
  {
    MagnitudeSmall(f, 2, p);
    assert p[..2][0] == p[0];
    if f.nailBits == 0 {
      PowMonotone(2, k, f.NumbBits());
      AtLeastBase(f.Base(), p[0], p[1]);
    } else {
      TwoLimbBound(f, k, p[0], p[1]);
    }
  }

  lemma AtLeastBase(b: nat, p0: nat, p1: nat)
    requires p1 >= 1
    ensures p0 + p1 * b >= b
  {
    MulMonotone(b, 1, p1);
  }

  /** Beyond the capacity some number of the type is turned away. */
  lemma FitsTooWide(f: Layout, k: nat) returns (n: int, p: seq<nat>)
    requires k > FitCapacity(f)
    ensures Normalized(f, n, p)
    ensures 0 <= IntOf(f, n, p) <= TypeMax(k) && !FitsUType(f, n, p, TypeMax(k))
  {
    LayoutFacts(f);
    if f.nailBits == 0 {
      n, p := 2, [0, 1];
      MagnitudeSmall(f, n, p);
      PowMonotone(2, f.NumbBits(), k);
    } else if 2 * f.NumbBits() <= f.limbBits {
      n, p := 3, [0, 0, 1];
      ThirdLimbOne(f);
      PowMonotone(2, 2 * f.NumbBits(), k);
    } else {
      n, p := 2, [0, Pow(2, f.nailBits)];
      BitAboveLimb(f, k);
    }
  }

  /** In limbs with few nails, 2^limbBits does not fit a cast bound. */
  lemma BitAboveLimb(f: Layout, k: nat)
    requires 0 < f.nailBits < f.NumbBits() && k > f.limbBits
    ensures var p := [0, Pow(2, f.nailBits)];
            && Normalized(f, 2, p)
            && IntOf(f, 2, p) <= TypeMax(k) && !FitsUType(f, 2, p, TypeMax(k))
  {
    LayoutFacts(f);
    var h, p := Pow(2, f.nailBits), [0, Pow(2, f.nailBits)];
    PowMonotone(2, f.nailBits, f.NumbBits());
    assert p[..2] == p;
    ValueTwo(f.Base(), 0, h);
    PowMonotone(2, f.limbBits, k);
    CastKeepsOnes(f, k);
    ShiftedMax(f, f.limbBits);
  }

  /** The number whose third limb is 1. */
  lemma ThirdLimbOne(f: Layout)
    ensures Normalized(f, 3, [0, 0, 1])
    ensures Magnitude(f, 3, [0, 0, 1]) == Pow(2, 2 * f.NumbBits())
  {
    LayoutFacts(f);
    var p := [0, 0, 1];
    assert p[..3] == p && p[..2] == [0, 0];
    ValueOfZeros(f.Base(), p[..2]);
    BaseSquared(f);
  }

  /** Casting a type maximum to a narrower limb leaves all ones. */
  lemma CastKeepsOnes(f: Layout, k: nat)
    requires k >= f.limbBits
    ensures f.LimbBase() > 0 && Wrap(f.LimbBase(), TypeMax(k)) == f.LimbBase() - 1
  {
    LayoutFacts(f);
    var m, h := f.LimbBase(), Pow(2, k - f.limbBits);
    PowAdd(2, k - f.limbBits, f.limbBits);
    PowPositive(2, k - f.limbBits);
    Multiple(h, m);
    assert TypeMax(k) == (h - 1) * m + (m - 1);
    DivModUnique(h - 1, m, m - 1);
  }

  /** mpz_fits_*_p answers "0 <= z and z is at most the largest k-bit value" for
      every normalized z if and only if k is within the capacity of the test. */
  lemma FitsCorrectIff(f: Layout, k: nat)
    ensures (forall n: int, p: seq<nat> | Normalized(f, n, p) ::
              FitsUType(f, n, p, TypeMax(k)) <==> 0 <= IntOf(f, n, p) <= TypeMax(k))
            <==> k <= f.limbBits && k <= 2 * f.NumbBits()
  {
    if k <= FitCapacity(f) {
      forall n: int, p: seq<nat> | Normalized(f, n, p)
        ensures FitsUType(f, n, p, TypeMax(k)) <==> 0 <= IntOf(f, n, p) <= TypeMax(k)
      {
        FitsExact(f, n, p, k);
      }
    } else {
      var n, p := FitsTooWide(f, k);
    }
  }

  // ----- mpz_get_ui -----

  /** The two lowest limbs determine a magnitude modulo the square of the base. */
  lemma LowTwoLimbs(f: Layout, n: int, p: seq<nat>) returns (h: nat)
    requires Abs(n) >= 2 && Abs(n) <= |p|
    ensures Magnitude(f, n, p) == p[0] + p[1] * f.Base() + Pow(f.Base(), 2) * h
  {
    var b, s := f.Base(), p[..Abs(n)];
    ValueSplit(b, s, 2);
    h := Value(b, s[2..]);
    assert s[..2] == p[..2];
    MagnitudeSmall(f, 2, p);
  }

  lemma LowLimb(f: Layout, n: int, p: seq<nat>) returns (h: nat)
    requires Abs(n) >= 1 && Abs(n) <= |p|
    ensures Magnitude(f, n, p) == p[0] + f.Base() * h
  {
    var b, s := f.Base(), p[..Abs(n)];
    ValueSplit(b, s, 1);
    h := Value(b, s[1..]);
    assert s[..1] == p[..1];
    MagnitudeSmall(f, 1, p);
    assert Pow(b, 1) == b * Pow(b, 0) == b;
  }

  lemma WrapSum(m: nat, a: nat, c: nat)
    requires m > 0
    ensures Wrap(m, a + Wrap(m, c)) == (a + c) % m
  {
    ModAbsorb(m, a + c % m, c / m);
  }

  /** For every layout and every normalized number, mpz_get_ui is the magnitude
      modulo 2^FitCapacity. */
  lemma GetUiExact(f: Layout, n: int, p: seq<nat>)
    requires Normalized(f, n, p)
    ensures Pow(2, FitCapacity(f)) > 0 && GetUi(f, n, p) == Magnitude(f, n, p) % Pow(2, FitCapacity(f))
  {
    PowPositive(2, FitCapacity(f));
    if f.nailBits <= f.NumbBits() {
      GetUiWord(f, n, p);
      if f.nailBits == f.NumbBits() {
        assert f.LimbBase() == Pow(2, FitCapacity(f));
      }
    } else {
      GetUiTwoLimbs(f, n, p);
    }
  }

  lemma GetUiTwoLimbs(f: Layout, n: int, p: seq<nat>)
    requires Normalized(f, n, p) && f.nailBits > f.NumbBits()
    ensures Pow(2, 2 * f.NumbBits()) > 0
    ensures GetUi(f, n, p) == Magnitude(f, n, p) % Pow(2, 2 * f.NumbBits())
  {
    if Abs(n) <= 1 {
      GetUiOneLimb(f, n, p);
    } else {
      var h := LowTwoLimbs(f, n, p);
      assert p[..Abs(n)][0] == p[0] && p[..Abs(n)][1] == p[1];
      TwoLimbWord(f, p[0], p[1], h);
    }
  }

  /** Two limbs that together are narrower than a word, below a multiple of their
      range. */
  lemma TwoLimbWord(f: Layout, p0: nat, p1: nat, h: nat)
    requires f.nailBits > f.NumbBits() && p0 < f.Base() && p1 < f.Base()
    ensures f.LimbBase() > 0 && Pow(2, 2 * f.NumbBits()) > 0
    ensures Wrap(f.LimbBase(), p0 + Wrap(f.LimbBase(), p1 * f.Base()))
            == (p0 + p1 * f.Base() + Pow(f.Base(), 2) * h) % Pow(2, 2 * f.NumbBits())
  {
    BaseSquared(f);
    PowPositive(2, 2 * f.NumbBits());
    PowMonotone(2, 2 * f.NumbBits(), f.limbBits);
    TwoDigitsBelow(f.Base(), p0, p1);
    LowPairMod(Pow(f.Base(), 2), f.LimbBase(), p0, p1 * f.Base(), h);
  }

  lemma GetUiOneLimb(f: Layout, n: int, p: seq<nat>)
    requires Normalized(f, n, p) && Abs(n) <= 1
    ensures Pow(2, 2 * f.NumbBits()) > 0
    ensures GetUi(f, n, p) == Magnitude(f, n, p) % Pow(2, 2 * f.NumbBits())
  {
    LayoutFacts(f);
    MagnitudeSmall(f, n, p);
    assert Abs(n) == 1 ==> p[..1][0] == p[0];
    PowMonotone(2, f.NumbBits(), 2 * f.NumbBits());
    DivModUnique(0, Pow(2, 2 * f.NumbBits()), Magnitude(f, n, p));
  }

  /** Two low limbs that fit a word are not wrapped by it. */
  lemma LowPairMod(w: nat, m: nat, p0: nat, q: nat, h: nat)
    requires p0 + q < w <= m
    ensures Wrap(m, p0 + Wrap(m, q)) == (p0 + q + w * h) % w
  {
    var a := p0 + q;
    ModAbsorb(w, a, h);
    WrapCases(w, a);
    assert w * h == h * w;
  }

  lemma TwoDigitsBelow(b: nat, p0: nat, p1: nat)
    requires p0 < b && p1 < b
    ensures p1 * b <= p0 + p1 * b < b * b
  {
    MulMonotone(b, p1 + 1, b);
    Distribute(b, p1, 1);
  }

  /** While the nails take no more than half of a limb, FitCapacity is the whole word. */
  lemma GetUiWord(f: Layout, n: int, p: seq<nat>)
    requires Normalized(f, n, p) && f.nailBits <= f.NumbBits()
    ensures f.LimbBase() > 0 && GetUi(f, n, p) == Magnitude(f, n, p) % f.LimbBase()
  {
    LayoutFacts(f);
    var b, m := f.Base(), f.LimbBase();
    if n == 0 {
      MagnitudeSmall(f, n, p);
      DivModUnique(0, m, 0);
    } else if f.nailBits == 0 {
      var h := LowLimb(f, n, p);
      ModAbsorb(m, p[0], h);
      DivModUnique(0, m, p[0]);
    } else if Abs(n) == 1 {
      MagnitudeSmall(f, n, p);
      DivModUnique(0, m, p[0]);
    } else {
      var h := LowTwoLimbs(f, n, p);
      WrapSum(m, p[0], p[1] * b);
      ThirdLimbWeight(f, p[0] + p[1] * b, h);
    }
  }

  /** From the third limb on, every weight is a multiple of 2^limbBits. */
  lemma ThirdLimbWeight(f: Layout, a: nat, h: nat)
    requires f.nailBits <= f.NumbBits()
    ensures f.LimbBase() > 0 && (a + Pow(f.Base(), 2) * h) % f.LimbBase() == a % f.LimbBase()
  {
    LayoutFacts(f);
    BaseSquared(f);
    var g, m := Pow(2, f.NumbBits() - f.nailBits), f.LimbBase();
    PowAdd(2, f.NumbBits() - f.nailBits, f.limbBits);
    Regroup(g, m, h);
    ModAbsorb(m, a, g * h);
  }

  lemma Regroup(g: int, m: int, h: int)
    ensures (g * m) * h == (g * h) * m
  {
  }

  /** With wider nails the third limb is missed: [0, 0, 1] reads as 0. */
  lemma GetUiWideNails(f: Layout)
    requires f.nailBits > f.NumbBits()
    ensures Normalized(f, 3, [0, 0, 1])
    ensures f.LimbBase() > 0
    ensures GetUi(f, 3, [0, 0, 1]) == 0 && Magnitude(f, 3, [0, 0, 1]) % f.LimbBase() != 0
  {
    LayoutFacts(f);
    ThirdLimbOne(f);
    PowPositive(2, 2 * f.NumbBits());
    PowMonotone(2, 2 * f.NumbBits(), f.limbBits);
    DivModUnique(0, f.LimbBase(), Pow(2, 2 * f.NumbBits()));
  }

  /** mpz_get_ui reads every normalized number modulo 2^limbBits if and only if the
      nails take no more than half of a limb. */
  lemma GetUiCorrectIff(f: Layout)
    ensures f.LimbBase() > 0
    ensures (forall n: int, p: seq<nat> | Normalized(f, n, p) ::
              GetUi(f, n, p) == Magnitude(f, n, p) % f.LimbBase())
            <==> f.nailBits <= f.NumbBits()
  {
    LayoutFacts(f);
    if f.nailBits <= f.NumbBits() {
      forall n: int, p: seq<nat> | Normalized(f, n, p)
        ensures GetUi(f, n, p) == Magnitude(f, n, p) % f.LimbBase()
      {
        GetUiWord(f, n, p);
      }
    } else {
      GetUiWideNails(f);
    }
  }

  /** A number that passes mpz_fits_ulong_p is returned unchanged by mpz_get_ui. */
  lemma FitThenGetUi(f: Layout, n: int, p: seq<nat>)
    requires Normalized(f, n, p)
    requires FitsUType(f, n, p, TypeMax(f.limbBits))
    ensures GetUi(f, n, p) == IntOf(f, n, p)
  {
    FitsExact(f, n, p, f.limbBits);
    GetUiExact(f, n, p);
    assert FitWidth(f, f.limbBits) == FitCapacity(f);
    DivModUnique(0, Pow(2, FitCapacity(f)), IntOf(f, n, p));
  }

  // ----- mpz_getlimbn -----

  /** The limbs read one by one, for any count that reaches mpz_size, rebuild the
      magnitude; indices outside give zero. */
  lemma LimbsRebuild(f: Layout, n: int, p: seq<nat>, count: nat)
    requires Normalized(f, n, p) && Abs(n) <= count
    ensures Value(f.Base(), seq(count, i requires 0 <= i => GetLimbN(n, p, i))) == Magnitude(f, n, p)
    ensures Digits(f.Base(), seq(count, i requires 0 <= i => GetLimbN(n, p, i)))
    ensures forall i: int :: i < 0 || i >= Abs(n) ==> GetLimbN(n, p, i) == 0
  {
    var s := seq(count, i requires 0 <= i => GetLimbN(n, p, i));
    LayoutFacts(f);
    assert forall i :: 0 <= i < Abs(n) ==> s[i] == p[..Abs(n)][i];
    ValueSplit(f.Base(), s, Abs(n));
    assert s[..Abs(n)] == p[..Abs(n)];
    ValueOfZeros(f.Base(), s[Abs(n)..]);
  }

  // ----- the structure -----

  /** __mpz_struct. */
  class Integer {
    var mp_alloc: nat
    var mp_size: int
    var mp_d: array<nat>

    ghost predicate Valid(f: Layout)
      reads this, mp_d
    {
      mp_alloc == mp_d.Length && Normalized(f, mp_size, mp_d[..])
    }

    ghost function Int(f: Layout): int
      reads this, mp_d
      requires Valid(f)
    {
      IntOf(f, mp_size, mp_d[..])
    }

    constructor (d: array<nat>)
      requires d.Length >= 1
      ensures mp_d == d && mp_alloc == d.Length && mp_size == 0
    {
      mp_d, mp_alloc, mp_size := d, d.Length, 0;
    }
  }

  /** mpz_fits_ulong_p, mpz_fits_uint_p and mpz_fits_ushort_p, `k` being the width of
      the type. */
  method FitsType(f: Layout, z: Integer, k: nat) returns (fits: bool)
    requires z.Valid(f)
    ensures fits <==> FitsUType(f, z.mp_size, z.mp_d[..], TypeMax(k))
    ensures fits <==> 0 <= z.Int(f) < Pow(2, FitWidth(f, k))
  {
    FitsExact(f, z.mp_size, z.mp_d[..], k);
    fits := FitsUType(f, z.mp_size, z.mp_d[..], TypeMax(k));
  }

  /** mpz_get_ui. */
  method GetUnsigned(f: Layout, z: Integer) returns (r: nat)
    requires z.Valid(f)
    ensures r == GetUi(f, z.mp_size, z.mp_d[..])
    ensures Pow(2, FitCapacity(f)) > 0 && r == Abs(z.Int(f)) % Pow(2, FitCapacity(f))
  {
    GetUiExact(f, z.mp_size, z.mp_d[..]);
    r := GetUi(f, z.mp_size, z.mp_d[..]);
  }

  /** mpz_set, which the header only declares: w becomes the number u. */
  method Set(f: Layout, w: Integer, u: Integer)
    requires w != u && w.mp_d != u.mp_d && u.Valid(f) && w.mp_alloc == w.mp_d.Length >= 1
    modifies w, w.mp_d
    ensures w.Valid(f) && w.Int(f) == u.Int(f) && w.mp_size == u.mp_size
    ensures w.mp_d == old(w.mp_d) || fresh(w.mp_d)
  {
    var n := Abs(u.mp_size);
    if w.mp_alloc < n {
      w.mp_d := new nat[n];
      w.mp_alloc := n;
    }
    var i := 0;
    while i < n
      invariant 0 <= i <= n <= w.mp_d.Length && w.mp_d != u.mp_d
      invariant w.mp_alloc == w.mp_d.Length >= 1
      invariant w.mp_d == old(w.mp_d) || fresh(w.mp_d)
      invariant u.mp_d[..] == old(u.mp_d[..])
      invariant w.mp_d[..i] == u.mp_d[..i]
    {
      w.mp_d[i] := u.mp_d[i];
      assert w.mp_d[..i + 1] == w.mp_d[..i] + [w.mp_d[i]];
      assert u.mp_d[..i + 1] == u.mp_d[..i] + [u.mp_d[i]];
      i := i + 1;
    }
    w.mp_size := u.mp_size;
    assert w.mp_d[..][..n] == w.mp_d[..n] && u.mp_d[..][..n] == u.mp_d[..n];
  }

  /** mpz_abs. */
  method MpzAbs(f: Layout, w: Integer, u: Integer)
    requires u.Valid(f) && w.mp_alloc == w.mp_d.Length >= 1 && (w != u ==> w.mp_d != u.mp_d)
    modifies w, w.mp_d
    ensures w.Valid(f) && w.Int(f) == Abs(old(u.Int(f)))
    ensures w == u ==> w.mp_d == old(u.mp_d) && w.mp_d[..] == old(u.mp_d[..])
    ensures w.mp_d == old(w.mp_d) || fresh(w.mp_d)
  {
    if w != u {
      Set(f, w, u);
    }
    w.mp_size := Abs(w.mp_size);
  }

  /** mpz_neg. */
  method MpzNeg(f: Layout, w: Integer, u: Integer)
    requires u.Valid(f) && w.mp_alloc == w.mp_d.Length >= 1 && (w != u ==> w.mp_d != u.mp_d)
    modifies w, w.mp_d
    ensures w.Valid(f) && w.Int(f) == -old(u.Int(f))
    ensures w == u ==> w.mp_d == old(u.mp_d) && w.mp_d[..] == old(u.mp_d[..])
    ensures w.mp_d == old(w.mp_d) || fresh(w.mp_d)
  {
    if w != u {
      Set(f, w, u);
    }
    w.mp_size := -w.mp_size;
  }
}
