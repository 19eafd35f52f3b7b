/** The preferred exponents of section 5.2 of IEEE 754-2008. */
module Preferred {
  import opened Arith
  import opened Rounding
  import opened RoundingTheorems
  import opened ExactSum
  import opened IntegerDivision
  import opened Separation
  import opened OneMode

  /** m written with quantum 10^k shows that b * 10^k divides a = m * b and is not below the quantum. */
  lemma WrittenDivides(f: Format, a: nat, b: nat, m: nat, c: nat, k: nat)
    requires f.Valid() && b > 0 && m * b == a && Written(f, m, c, k)
    ensures a % MulPow(b, k) == 0 && Quantum(f.p, a, b) <= k
  {
    hide Pow, Quantum;
    var t := Pow(10, k);
    SwapMiddle(c, b, t);
    DivModUnique(a, MulPow(b, k), c, 0);
    PowAdd(10, f.p, k);
    MulStrict(c, Pow(10, f.p), t);
    MulStrict(m, Pow(10, f.p + k), b);
    AtLeastQuantum(f.p, a, b, k);
  }

  lemma AtLeastQuantum(p: nat, a: nat, b: nat, k: nat)
    requires b > 0 && a < b * Pow(10, p + k)
    ensures Quantum(p, a, b) <= k
  {
    var r := Quantum(p, a, b);
    if r > k {
      PowMono(10, p + k, p + r - 1);
      MulMono(Pow(10, p + k), Pow(10, p + r - 1), b);
    }
  }

  lemma DivisibleBelow(a: nat, b: nat, j: nat, k: nat)
    requires b > 0 && j <= k && a % MulPow(b, k) == 0
    ensures a % MulPow(b, j) == 0
  {
    hide Pow;
    PowSplit(10, k, j);
    var q := a / MulPow(b, k);
    DivBounds(a, MulPow(b, k));
    SwapMiddle(Pow(10, k - j), b, Pow(10, j));
    assert MulPow(b, k) == Pow(10, k - j) * MulPow(b, j);
    MulAssoc(q, Pow(10, k - j), MulPow(b, j));
    DivModUnique(a, MulPow(b, j), q * Pow(10, k - j), 0);
  }

  /** The quantum that Climb reaches is as near the ideal as any other that divides. */
  lemma ClimbIsNearest(a: nat, b: nat, k0: nat, ideal: int, top: nat, k: nat)
    requires b > 0 && a % MulPow(b, k0) == 0 && k0 <= k <= top && a % MulPow(b, k) == 0
    ensures Distance(Min(Climb(a, b, k0, ideal), top), ideal) <= Distance(k, ideal)
  {
    hide Pow, MulPow;
    var r := Climb(a, b, k0, ideal);
    if r < ideal && k > r { DivisibleBelow(a, b, r + 1, k); }
  }

  /** An exact result has the exponent nearest the ideal one among all the ways to write it in the format. */
  lemma ExactTakesPreferred(f: Format, mode: Mode, neg: bool, a: nat, b: nat, ideal: int, m: nat, c: nat, k: nat)
    requires f.Valid() && b > 0 && m * b == a && Written(f, m, c, k)
    ensures var o := RoundExact(f, mode, neg, a, b, ideal);
      o.raised == {} && o.num.Finite? && Distance(o.num.exp - f.etiny, ideal) <= Distance(k, ideal)
  {
    hide Pow, Quantum, Climb;
    WrittenDivides(f, a, b, m, c, k);
    var k0 := Quantum(f.p, a, b);
    DivisibleBelow(a, b, k0, k);
    ClimbIsNearest(a, b, k0, ideal, f.kmax, k);
    assert Representable(f, m);
    RepresentableIsExact(f, mode, neg, a, b, ideal, m);
    var kk := Climb(a, b, k0, ideal);
    FitExponent(f, mode, neg, a / MulPow(b, kk), kk);
  }

  /** An inexact result has the least exponent among all the ways to write it in the format. */
  lemma InexactTakesLeast(f: Format, mode: Mode, neg: bool, a: nat, b: nat, ideal: int, c: nat, k: nat)
    requires f.Valid() && b > 0
    ensures var o := RoundExact(f, mode, neg, a, b, ideal);
      Inexact in o.raised && o.num.Finite? && Written(f, Magnitude(f, o.num), c, k) ==> o.num.exp - f.etiny <= k
  {
    hide Pow, RoundExact, Normal, Written, Quantum, MulPow;
    var o := RoundExact(f, mode, neg, a, b, ideal);
    if Inexact in o.raised && o.num.Finite? && Written(f, Magnitude(f, o.num), c, k) {
      ResultHolds(f, mode, neg, a, b, ideal);
      InexactIsNormal(f, mode, neg, a, b, ideal);
      NormalIsLeast(f, o.num, c, k);
    }
  }

  lemma InexactIsNormal(f: Format, mode: Mode, neg: bool, a: nat, b: nat, ideal: int)
    requires f.Valid() && b > 0
    ensures var o := RoundExact(f, mode, neg, a, b, ideal);
      Inexact in o.raised && o.num.Finite? ==> Normal(f, o.num)
  {
    hide Pow, RoundExact, Quantum, MulPow, Normal;
    var o := RoundExact(f, mode, neg, a, b, ideal);
    if a % MulPow(b, Quantum(f.p, a, b)) != 0 { InexactResult(f, mode, neg, a, b, ideal); }
    if Overflow in o.raised {
      var raised := Delivers(f, mode, neg, a, b, ideal);
      if o.num.Finite? { LargestIsNormal(f, mode, neg); }
    } else if a % MulPow(b, Quantum(f.p, a, b)) == 0 {
      var v := ExactOutcome(f, mode, neg, a, b, ideal);
    }
  }

  lemma LargestIsNormal(f: Format, mode: Mode, neg: bool)
    requires f.Valid() && Overflowed(f, mode, neg).Finite?
    ensures Normal(f, Overflowed(f, mode, neg))
  {
    TenMore(f.p - 1);
    hide Pow;
  }

  lemma NormalIsLeast(f: Format, x: Number, c: nat, k: nat)
    requires f.Valid() && Holds(f, x) && Normal(f, x) && Written(f, Magnitude(f, x), c, k)
    ensures x.exp - f.etiny <= k
  {
    hide Pow;
    var e := x.exp - f.etiny;
    if k < e {
      MulStrict(c, Pow(10, f.p), Pow(10, k));
      PowAdd(10, f.p, k);
      PowMono(10, f.p + k, f.p - 1 + e);
      PowAdd(10, f.p - 1, e);
      MulMono(Pow(10, f.p - 1), x.coeff, Pow(10, e));
    }
  }

  lemma FitExponent(f: Format, mode: Mode, neg: bool, c: nat, k: nat)
    requires f.Valid()
    ensures var o := Fit(f, mode, neg, c, k, {});
      Overflow !in o.raised ==> o.num == Finite(neg, o.num.coeff, f.etiny + Min(k, f.kmax))
  {}

  /** What a sum rounds is the sum of the signed values, counted in units of the lower exponent; an exact zero
      has the sign that section 6.3 asks for. */
  lemma SumIsRounded(f: Format, mode: Mode, n1: bool, c1: nat, e1: int, n2: bool, c2: nat, e2: int, s: int)
    requires f.p > 0
    requires var e := Min(e1, e2);
      s == (if n1 then -1 else 1) * (c1 * Pow(10, e1 - e)) + (if n2 then -1 else 1) * (c2 * Pow(10, e2 - e))
    ensures var o, e := SumOutcome(f, mode, n1, c1, e1, n2, c2, e2), Min(e1, e2);
      && (s > 0 ==> o == RoundScaled(f, mode, false, s, e))
      && (s < 0 ==> o == RoundScaled(f, mode, true, -s, e))
      && (s == 0 ==> o == RoundScaled(f, mode, if n1 == n2 then n1 else mode == Floor, 0, e))
  {
    hide Pow, RoundScaled;
    var e := Min(e1, e2);
    var x: int := c1 * Pow(10, e1 - e);
    var y: int := c2 * Pow(10, e2 - e);
    assert x == Aligned(c1, e1, e) && y == Aligned(c2, e2, e);
    assert s == (if n1 then -x else x) + (if n2 then -y else y);
  }

  /** An exact sum that fits has the lower of the two exponents. */
  lemma SumTakesLowExponent(f: Format, mode: Mode, n1: bool, c1: nat, e1: int, n2: bool, c2: nat, e2: int)
    requires f.Valid() && f.etiny <= e1 <= f.etop && f.etiny <= e2 <= f.etop
    requires var e := Min(e1, e2); var x, y := Aligned(c1, e1, e), Aligned(c2, e2, e);
      (if n1 == n2 then x + y else Distance(x, y)) < Pow(10, f.p)
    ensures var e := Min(e1, e2); var x, y := Aligned(c1, e1, e), Aligned(c2, e2, e);
      var neg := if n1 == n2 || x > y then n1 else if y > x then n2 else mode == Floor;
      SumOutcome(f, mode, n1, c1, e1, n2, c2, e2) ==
        Outcome(Finite(neg, if n1 == n2 then x + y else Distance(x, y), e), {})
  {
    hide Pow, RoundScaled, Aligned;
    var e := Min(e1, e2);
    var x, y := Aligned(c1, e1, e), Aligned(c2, e2, e);
    var neg := if n1 == n2 || x > y then n1 else if y > x then n2 else mode == Floor;
    HeldExactly(f, mode, neg, if n1 == n2 then x + y else Distance(x, y), e);
  }
}
