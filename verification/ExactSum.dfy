/** The exact sum of two signed decimal numbers, rounded once: what addition and fused
    multiply-add must both return, and when a far-away operand may be replaced by a stand-in. */
module ExactSum {
  import opened Arith
  import opened Rounding
  import opened Sticky

  /** c * 10^e as a multiple of 10^base. */
  function Aligned(c: nat, e: int, base: int): nat
    requires base <= e
  {
    c * Pow(10, e - base)
  }

  /** The sum of two signed numbers rounded once, with the smaller exponent as its ideal; an exact
      zero from operands of opposite sign is positive unless rounding toward -Infinity
      (section 6.3 of IEEE 754-2008). */
  function SumOutcome(f: Format, mode: Mode, n1: bool, c1: nat, e1: int, n2: bool, c2: nat, e2: int): Outcome
    requires f.p > 0
  {
    var e := Min(e1, e2);
    var x, y := Aligned(c1, e1, e), Aligned(c2, e2, e);
    if n1 == n2 then RoundScaled(f, mode, n1, x + y, e)
    else if x > y then RoundScaled(f, mode, n1, x - y, e)
    else if y > x then RoundScaled(f, mode, n2, y - x, e)
    else RoundScaled(f, mode, mode == Floor, 0, e)
  }

  /** The order of the operands does not matter. */
  lemma SumCommutes(f: Format, mode: Mode, n1: bool, c1: nat, e1: int, n2: bool, c2: nat, e2: int)
    requires f.p > 0
    ensures SumOutcome(f, mode, n1, c1, e1, n2, c2, e2) == SumOutcome(f, mode, n2, c2, e2, n1, c1, e1)
  {}

  /* ---- Comparing scaled numbers ---- */

  /** c1 * 10^e1 < c2 * 10^e2 */
  ghost predicate Below(c1: nat, e1: int, c2: nat, e2: int) {
    Aligned(c1, e1, Min(e1, e2)) < Aligned(c2, e2, Min(e1, e2))
  }

  lemma AlignedDown(c: nat, e: int, base: int, base': int)
    requires base' <= base <= e
    ensures Aligned(c, e, base') == Aligned(c, e, base) * Pow(10, base - base')
  {
    hide Pow;
    PowAdd(10, e - base, base - base');
    MulAssoc(c, Pow(10, e - base), Pow(10, base - base'));
  }

  /** The comparison may be made at any base not above either exponent. */
  lemma BelowAt(c1: nat, e1: int, c2: nat, e2: int, base: int)
    requires base <= e1 && base <= e2
    ensures Below(c1, e1, c2, e2) <==> Aligned(c1, e1, base) < Aligned(c2, e2, base)
  {
    hide Pow, Aligned;
    var m := Min(e1, e2);
    AlignedDown(c1, e1, m, base);
    AlignedDown(c2, e2, m, base);
    MulCancel(Aligned(c1, e1, m), Aligned(c2, e2, m), Pow(10, m - base));
    MulCancel(Aligned(c2, e2, m), Aligned(c1, e1, m), Pow(10, m - base));
  }

  /** The fraction RoundScaled works on, in units of 10^base. */
  lemma UnitsAligned(f: Format, c: nat, e: int, base: int)
    requires base <= e && base <= f.etiny
    ensures UnitsNum(f, c, e) * Pow(10, f.etiny - base) == UnitsDen(f, e) * Aligned(c, e, base)
  {
    hide Pow;
    var s := Pow(10, f.etiny - base);
    if e >= f.etiny {
      PowAdd(10, e - f.etiny, f.etiny - base);
      MulAssoc(c, Pow(10, e - f.etiny), s);
    } else {
      PowAdd(10, f.etiny - e, e - base);
      MulAssoc(Pow(10, f.etiny - e), c, Pow(10, e - base));
      Commute(c, Pow(10, f.etiny - e), Pow(10, e - base));
    }
  }

  /** Equal fractions round equally. */
  lemma SameFraction(f: Format, mode: Mode, neg: bool, a1: nat, b1: nat, a2: nat, b2: nat, ideal: int)
    requires b1 > 0 && b2 > 0 && f.p > 0 && a1 * b2 == a2 * b1
    ensures RoundExact(f, mode, neg, a1, b1, ideal) == RoundExact(f, mode, neg, a2, b2, ideal)
    ensures Quantum(f.p, a1, b1) == Quantum(f.p, a2, b2)
  {
    hide RoundExact;
    RoundExactScale(f, mode, neg, a1, b1, ideal, b2);
    RoundExactScale(f, mode, neg, a2, b2, ideal, b1);
    QuantumScale(f.p, a1, b1, b2);
    QuantumScale(f.p, a2, b2, b1);
    assert b1 * b2 == b2 * b1;
  }

  lemma QuantumScale(p: nat, a: nat, b: nat, t: nat)
    requires b > 0 && t > 0
    ensures b * t > 0 && a * t >= 0 && Quantum(p, a * t, b * t) == Quantum(p, a, b)
  {
    hide Pow;
    MulPos(b, t);
    MulMono(0, a, t);
    var k := Quantum(p, a, b);
    MulPowScale(b, p + k, t);
    MulStrict(a, MulPow(b, p + k), t);
    if k > 0 {
      MulPowScale(b, p + k - 1, t);
      MulMono(MulPow(b, p + k - 1), a, t);
    }
    QuantumIs(p, a * t, b * t, k);
  }

  /* ---- The cell lemma for scaled numbers ---- */

  /** lo * 10^g < c * 10^e < (lo + w) * 10^g */
  ghost predicate Within(c: nat, e: int, lo: nat, w: nat, g: int) {
    Below(lo, g, c, e) && Below(c, e, lo + w, g)
  }

  lemma StandInWithin(x: nat, lo: nat, g: int)
    requires lo < x < lo + 5
    ensures Within(x, g, lo, 5, g)
  {}

  lemma WithinIsInCell(f: Format, c: nat, e: int, lo: nat, w: nat, g: int, base: int)
    requires Within(c, e, lo, w, g) && base <= e && base <= g && base <= f.etiny
    ensures InCell(UnitsNum(f, c, e), UnitsDen(f, e), f.etiny - base, Aligned(lo, g, base), Aligned(w, g, base))
  {
    hide Pow, UnitsNum, UnitsDen, Below;
    BelowAt(lo, g, c, e, base);
    BelowAt(c, e, lo + w, g, base);
    UnitsAligned(f, c, e, base);
    var d := UnitsDen(f, e);
    var v, l, u := Aligned(c, e, base), Aligned(lo, g, base), Aligned(w, g, base);
    assert Aligned(lo + w, g, base) == l + u;
    hide Aligned;
    MulStrict(l, v, d);
    MulStrict(v, l + u, d);
  }

  lemma FineCellAligned(f: Format, lo: nat, w: nat, h: nat, g: int, base: int)
    requires FineCell(f, f.etiny - g, lo, w, h) && base <= g
    ensures FineCell(f, f.etiny - base, Aligned(lo, g, base), Aligned(w, g, base), h + (g - base))
  {
    hide Pow;
    var t := Pow(10, g - base);
    MulPos(w, t);
    ScaleDivMod(lo, w, t);
    ScaleDivMod(5 * Pow(10, h), w, t);
    PowAdd(10, h, g - base);
    assert 5 * Pow(10, h + (g - base)) == 5 * Pow(10, h) * t by { MulAssoc(5, Pow(10, h), t); }
    PowAdd(10, f.p + h, g - base);
    if lo >= Pow(10, f.p + h) { MulMono(Pow(10, f.p + h), lo, t); }
  }

  /** Scaled numbers in one fine cell round to the same outcome, and both inexactly. */
  lemma SameCellScaled(f: Format, mode: Mode, neg: bool, c1: nat, e1: int, c2: nat, e2: int,
                       lo: nat, w: nat, h: nat, g: int)
    requires f.p > 0 && FineCell(f, f.etiny - g, lo, w, h) && Within(c1, e1, lo, w, g) && Within(c2, e2, lo, w, g)
    ensures RoundScaled(f, mode, neg, c1, e1) == RoundScaled(f, mode, neg, c2, e2)
    ensures Inexact in RoundScaled(f, mode, neg, c1, e1).raised
  {
    hide Pow, UnitsNum, UnitsDen, Aligned, FineCell, InCell, Within, RoundExact;
    var base := Min(f.etiny, Min(g, Min(e1, e2)));
    WithinIsInCell(f, c1, e1, lo, w, g, base);
    WithinIsInCell(f, c2, e2, lo, w, g, base);
    FineCellAligned(f, lo, w, h, g, base);
    SameCell(f, mode, neg, UnitsNum(f, c1, e1), UnitsDen(f, e1), e1 - f.etiny,
             UnitsNum(f, c2, e2), UnitsDen(f, e2), e2 - f.etiny,
             f.etiny - base, Aligned(lo, g, base), Aligned(w, g, base), h + (g - base));
  }

  /* ---- Replacing a far-away operand ---- */

  /** The operand c2 * 10^e2 is non-zero and smaller than w * 10^g, where x = c1 * 10^(e1-g) is a
      multiple of w with digits to spare. */
  ghost predicate Far(f: Format, c1: nat, e1: int, c2: nat, e2: int, w: nat, g: int) {
    && (w == 1 || w == 5) && g <= e1 && e2 <= e1
    && Aligned(c1, e1, g) % w == 0 && Aligned(c1, e1, g) >= Pow(10, f.p) + w
    && c2 > 0 && Below(c2, e2, w, g)
  }

  lemma FarSumWithin(f: Format, c1: nat, e1: int, c2: nat, e2: int, w: nat, g: int)
    requires Far(f, c1, e1, c2, e2, w, g)
    ensures var x := Aligned(c1, e1, g);
      && Aligned(c1, e1, e2) > c2
      && Within(Aligned(c1, e1, e2) + c2, e2, x, w, g)
      && Within(Aligned(c1, e1, e2) - c2, e2, x - w, w, g)
  {
    hide Pow, Aligned, Below;
    var base := Min(e2, g);
    var x, v := Aligned(c1, e1, g), Aligned(c1, e1, e2);
    FarBounds(c2, e2, w, g, base);
    FarIsLarger(c1, e1, c2, e2, w, g, base);
    AlignedTwice(c1, e1, g, base);
    AlignedTwice(c1, e1, e2, base);
    AlignedSum(v, c2, e2, base);
    AlignedSum(x, w, g, base);
    BelowAt(x, g, v + c2, e2, base);
    BelowAt(v + c2, e2, x + w, g, base);
    BelowAt(x - w, g, v - c2, e2, base);
    BelowAt(v - c2, e2, x, g, base);
  }

  lemma FarBounds(c2: nat, e2: int, w: nat, g: int, base: int)
    requires c2 > 0 && Below(c2, e2, w, g) && base == Min(e2, g)
    ensures 0 < Aligned(c2, e2, base) < Aligned(w, g, base)
  {
    hide Pow;
    MulPos(c2, Pow(10, e2 - base));
  }

  lemma AlignedTwice(c: nat, e: int, m: int, base: int)
    requires base <= m <= e
    ensures Aligned(Aligned(c, e, m), m, base) == Aligned(c, e, base)
  {
    hide Pow;
    AlignedDown(c, e, m, base);
  }

  lemma AlignedSum(x: nat, y: nat, e: int, base: int)
    requires base <= e
    ensures Aligned(x + y, e, base) == Aligned(x, e, base) + Aligned(y, e, base)
    ensures x >= y ==> Aligned(x - y, e, base) == Aligned(x, e, base) - Aligned(y, e, base)
  {
    hide Pow;
    DistributeBoth(x, y, Pow(10, e - base));
  }

  lemma DistributeBoth(x: int, y: int, t: int)
    ensures (x + y) * t == x * t + y * t && (x - y) * t == x * t - y * t
  {}

  lemma FarIsLarger(c1: nat, e1: int, c2: nat, e2: int, w: nat, g: int, base: int)
    requires g <= e1 && e2 <= e1 && base <= e2 && base <= g
    requires Aligned(c1, e1, g) >= w && Aligned(c2, e2, base) < Aligned(w, g, base)
    ensures Aligned(c1, e1, e2) > c2
  {
    hide Pow;
    AlignedDown(c1, e1, g, base);
    AlignedDown(c1, e1, e2, base);
    MulMono(w, Aligned(c1, e1, g), Pow(10, g - base));
    MulCancel(c2, Aligned(c1, e1, e2), Pow(10, e2 - base));
  }

  /** A far operand may be replaced by any other far operand of its sign. */
  lemma ReplaceFar(f: Format, mode: Mode, n1: bool, c1: nat, e1: int, n2: bool,
                   c2: nat, e2: int, c3: nat, e3: int, w: nat, g: int)
    requires f.Valid() && Far(f, c1, e1, c2, e2, w, g) && Far(f, c1, e1, c3, e3, w, g)
    ensures SumOutcome(f, mode, n1, c1, e1, n2, c2, e2) == SumOutcome(f, mode, n1, c1, e1, n2, c3, e3)
    ensures Inexact in SumOutcome(f, mode, n1, c1, e1, n2, c2, e2).raised
  {
    hide Pow, Aligned, Within, FineCell, RoundScaled, SumOutcome, Below;
    var x := Aligned(c1, e1, g);
    FarSumWithin(f, c1, e1, c2, e2, w, g);
    FarSumWithin(f, c1, e1, c3, e3, w, g);
    FarCells(f, f.etiny - g, x, w);
    SumOfLarger(f, mode, n1, c1, e1, n2, c2, e2);
    SumOfLarger(f, mode, n1, c1, e1, n2, c3, e3);
    var u2, u3 := Aligned(c1, e1, e2), Aligned(c1, e1, e3);
    if n1 == n2 {
      SameCellScaled(f, mode, n1, u2 + c2, e2, u3 + c3, e3, x, w, 0, g);
    } else {
      SameCellScaled(f, mode, n1, u2 - c2, e2, u3 - c3, e3, x - w, w, 0, g);
    }
  }

  /** The sum when the operand of higher exponent is also the larger. */
  lemma SumOfLarger(f: Format, mode: Mode, n1: bool, c1: nat, e1: int, n2: bool, c2: nat, e2: int)
    requires f.p > 0 && e2 <= e1 && Aligned(c1, e1, e2) > c2
    ensures var u := Aligned(c1, e1, e2);
      SumOutcome(f, mode, n1, c1, e1, n2, c2, e2) == RoundScaled(f, mode, n1, if n1 == n2 then u + c2 else u - c2, e2)
  {
    hide RoundScaled;
    AlignedSelf(c2, e2);
  }

  lemma AlignedOf(c: nat, e: int, base: int)
    requires base <= e
    ensures Aligned(c, e, base) == c * Pow(10, e - base)
  {}

  lemma AlignedSelf(c: nat, e: int)
    ensures Aligned(c, e, e) == c
  {}

  lemma FarCells(f: Format, s: int, x: nat, w: nat)
    requires (w == 1 || w == 5) && x % w == 0 && x >= Pow(10, f.p) + w
    ensures FineCell(f, s, x, w, 0) && FineCell(f, s, x - w, w, 0)
  {}

  /** A zero addend matters only through its exponent, and not at all when both exponents are below
      the quantum the result needs. */
  lemma ReplaceFarZero(f: Format, mode: Mode, n1: bool, c1: nat, e1: int, n2: bool, e2: int, e3: int, digits: nat)
    requires f.Valid() && digits > 0 && Pow(10, digits - 1) <= c1 && c1 > 0
    requires e2 <= e1 && e3 <= e1 && e2 <= e1 + digits - f.p && e3 <= e1 + digits - f.p
    ensures SumOutcome(f, mode, n1, c1, e1, n2, 0, e2) == SumOutcome(f, mode, n1, c1, e1, n2, 0, e3)
  {
    hide Pow, RoundScaled;
    assert Aligned(0, e2, e2) == 0 && Aligned(0, e3, e3) == 0;
    MulPos(c1, Pow(10, e1 - e2));
    MulPos(c1, Pow(10, e1 - e3));
    IdealIrrelevant(f, mode, n1, c1, e1, e2, e3, digits);
  }

  lemma IdealIrrelevant(f: Format, mode: Mode, neg: bool, c: nat, e: int, e2: int, e3: int, digits: nat)
    requires f.Valid() && digits > 0 && Pow(10, digits - 1) <= c
    requires e2 <= e && e3 <= e && e2 <= e + digits - f.p && e3 <= e + digits - f.p
    ensures RoundScaled(f, mode, neg, Aligned(c, e, e2), e2) == RoundScaled(f, mode, neg, Aligned(c, e, e3), e3)
  {
    var c2, c3 := Aligned(c, e, e2), Aligned(c, e, e3);
    var a2, b2, a3, b3 := UnitsNum(f, c2, e2), UnitsDen(f, e2), UnitsNum(f, c3, e3), UnitsDen(f, e3);
    CrossMultiplied(f, c, e, e2, e3);
    SameFraction(f, mode, neg, a2, b2, a3, b3, e2 - f.etiny);
    QuantumAtLeast(f, c, e, e2, digits);
    QuantumAtLeast(f, c, e, e3, digits);
    hide Pow, UnitsNum, UnitsDen, Quantum, Aligned;
    LowIdeal(f, mode, neg, a3, b3, e2 - f.etiny, e3 - f.etiny);
  }

  /** Two ideals at or below the quantum give the same outcome. */
  lemma LowIdeal(f: Format, mode: Mode, neg: bool, a: nat, b: nat, i: int, j: int)
    requires b > 0 && f.p > 0 && i <= Quantum(f.p, a, b) && j <= Quantum(f.p, a, b)
    ensures RoundExact(f, mode, neg, a, b, i) == RoundExact(f, mode, neg, a, b, j)
  {}

  lemma CrossMultiplied(f: Format, c: nat, e: int, e2: int, e3: int)
    requires e2 <= e && e3 <= e
    ensures UnitsNum(f, Aligned(c, e, e2), e2) * UnitsDen(f, e3) == UnitsNum(f, Aligned(c, e, e3), e3) * UnitsDen(f, e2)
  {
    hide Pow, UnitsNum, UnitsDen;
    var base := Min(f.etiny, Min(e2, e3));
    UnitsAligned(f, Aligned(c, e, e2), e2, base);
    UnitsAligned(f, Aligned(c, e, e3), e3, base);
    AlignedDown(c, e, e2, base);
    AlignedDown(c, e, e3, base);
    var v := Aligned(c, e, base);
    assert Aligned(Aligned(c, e, e2), e2, base) == v == Aligned(Aligned(c, e, e3), e3, base);
    hide Aligned;
    Cross(UnitsNum(f, Aligned(c, e, e2), e2), UnitsDen(f, e2), UnitsNum(f, Aligned(c, e, e3), e3), UnitsDen(f, e3),
          Pow(10, f.etiny - base), v);
  }

  lemma Cross(a: nat, b: nat, c: nat, d: nat, s: nat, v: nat)
    requires s > 0 && a * s == b * v && c * s == d * v
    ensures a * d == c * b
  {
    assert (a * d) * s == (a * s) * d == (b * v) * d == (d * v) * b == (c * s) * b == (c * b) * s;
    MulCancel(a * d, c * b, s);
  }

  /** A value of so many digits has a quantum at least so high. */
  lemma QuantumAtLeast(f: Format, c: nat, e: int, e2: int, digits: nat)
    requires f.Valid() && digits > 0 && Pow(10, digits - 1) <= c && e2 <= e && e2 <= e + digits - f.p
    ensures e2 - f.etiny <= Quantum(f.p, UnitsNum(f, Aligned(c, e, e2), e2), UnitsDen(f, e2))
  {
    hide Pow;
    var c2 := Aligned(c, e, e2);
    assert Pow(10, f.p - 1) <= c2 by {
      PowAdd(10, digits - 1, e - e2);
      MulMono(Pow(10, digits - 1), c, Pow(10, e - e2));
      PowMono(10, f.p - 1, digits - 1 + (e - e2));
    }
    var i := e2 - f.etiny;
    if i > 0 {
      var a := c2 * Pow(10, i);
      PowAdd(10, f.p - 1, i);
      MulMono(Pow(10, f.p - 1), c2, Pow(10, i));
      var k := Quantum(f.p, a, 1);
      if k < i {
        PowMono(10, f.p + k, f.p - 1 + i);
      }
    }
  }
}
