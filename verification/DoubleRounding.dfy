/** Rounding twice: first with round-for-reround into a wider format, then in any mode into a narrower one.
    The result is what rounding the exact value once into the narrower format gives. */
module DoubleRounding {
  import opened Arith
  import opened Digits
  import opened Rounding
  import opened Sticky
  import opened RoundingTheorems
  import opened Preferred
  import opened ExactSum
  import opened IntegerDivision
  import opened Separation

  /** g has more digits than f, and every quantum of f. */
  ghost predicate Extends(f: Format, g: Format) {
    f.Valid() && g.Valid() && f.p < g.p && g.etiny <= f.etiny && f.etop <= g.etop
  }

  /** How far the least quantum of f is above that of g. */
  function Gap(f: Format, g: Format): nat
    requires g.etiny <= f.etiny
  {
    f.etiny - g.etiny
  }

  /** The exact value a/b, in units of g's least quantum, rounded once into f. */
  function RoundedOnce(f: Format, g: Format, mode: Mode, neg: bool, a: nat, b: nat, ideal: int): Outcome
    requires b > 0 && f.p > 0 && g.etiny <= f.etiny
  {
    RoundExact(f, mode, neg, a, MulPow(b, Gap(f, g)), ideal - Gap(f, g))
  }

  /** A finite number rounded into f. */
  function Renarrowed(f: Format, mode: Mode, x: Number): Outcome
    requires x.Finite? && f.p > 0
  {
    RoundScaled(f, mode, x.neg, x.coeff, x.exp)
  }

  /** Not a multiple of the least quantum, which is the same in both formats, and subnormal in f. */
  ghost predicate LostBelow(f: Format, g: Format, a: nat, b: nat)
    requires b > 0
  {
    f.etiny == g.etiny && a % b != 0 && a < b * Pow(10, f.p)
  }

  /* ---- Units of one format and the other ---- */

  lemma PowersAcross(f: Format, g: Format, b: nat, x: nat)
    requires b > 0 && g.etiny <= f.etiny
    ensures MulPow(MulPow(b, Gap(f, g)), x) == MulPow(b, x + Gap(f, g))
  {
    PowAdd(10, Gap(f, g), x);
    MulAssoc(b, Pow(10, Gap(f, g)), Pow(10, x));
  }

  /** The quantum in f is at least that in g. */
  lemma QuantumAcross(f: Format, g: Format, a: nat, b: nat)
    requires Extends(f, g) && b > 0
    ensures Quantum(g.p, a, b) <= Quantum(f.p, a, MulPow(b, Gap(f, g))) + Gap(f, g)
  {
    hide Pow, Quantum, MulPow;
    var k, s := Quantum(f.p, a, MulPow(b, Gap(f, g))), Gap(f, g);
    PowersAcross(f, g, b, f.p + k);
    PowMono(10, f.p + k + s, g.p + (k + s));
    MulMono(Pow(10, f.p + k + s), Pow(10, g.p + (k + s)), b);
    AtLeastQuantum(g.p, a, b, k + s);
  }

  /** A number of g, as the fraction that rounding into f works on. */
  lemma SameFractionAcross(f: Format, g: Format, a: nat, b: nat, c: nat, e: int)
    requires Extends(f, g) && b > 0 && g.etiny <= e && c * Pow(10, e - g.etiny) * b == a
    ensures UnitsNum(f, c, e) * MulPow(b, Gap(f, g)) == a * UnitsDen(f, e)
  {
    hide Pow, UnitsNum, UnitsDen, Aligned;
    UnitsAligned(f, c, e, g.etiny);
    AlignedOf(c, e, g.etiny);
    CrossArith(UnitsNum(f, c, e), Pow(10, Gap(f, g)), UnitsDen(f, e), c * Pow(10, e - g.etiny), b, a);
  }

  lemma CrossArith(n: nat, t: nat, d: nat, m: nat, b: nat, a: nat)
    requires n * t == d * m && m * b == a
    ensures n * (b * t) == a * d
  {
    assert n * (b * t) == (n * t) * b == (d * m) * b == d * (m * b);
  }

  /* ---- Exact values ---- */

  lemma SameExact(f: Format, mode: Mode, neg: bool, v: nat, o1: Outcome, o2: Outcome)
    requires f.Valid() && Stores(f, mode, neg, v, {}, o1) && Stores(f, mode, neg, v, {}, o2)
    requires o1.num.Finite? && o2.num.Finite? && Overflow !in o1.raised ==> o1.num.exp == o2.num.exp
    ensures o1 == o2
  {
    hide Pow, Overflowed;
    if v < Pow(10, f.p + f.kmax) {
      MulCancel(o1.num.coeff, o2.num.coeff, Pow(10, o1.num.exp - f.etiny));
    }
  }

  /** The exponent of an exact result depends on the ideal only through the quantum that is reached. */
  lemma IdealThrough(f: Format, mode: Mode, neg: bool, a: nat, b: nat, i: int, j: int)
    requires f.Valid() && b > 0 && a % MulPow(b, Quantum(f.p, a, b)) == 0
    requires var k := Quantum(f.p, a, b); Min(Climb(a, b, k, i), f.kmax) == Min(Climb(a, b, k, j), f.kmax)
    ensures RoundExact(f, mode, neg, a, b, i) == RoundExact(f, mode, neg, a, b, j)
  {
    hide Pow, Quantum, Climb, Stores, Fit, MulPow;
    var k := Quantum(f.p, a, b);
    var v := ExactOutcome(f, mode, neg, a, b, i);
    var v' := ExactOutcome(f, mode, neg, a, b, j);
    MulCancel(v, v', b);
    FitExponent(f, mode, neg, a / MulPow(b, Climb(a, b, k, i)), Climb(a, b, k, i));
    FitExponent(f, mode, neg, a / MulPow(b, Climb(a, b, k, j)), Climb(a, b, k, j));
    var o1, o2 := RoundExact(f, mode, neg, a, b, i), RoundExact(f, mode, neg, a, b, j);
    OverflowAlike(f, mode, neg, v, o1, o2);
    SameExact(f, mode, neg, v, o1, o2);
  }

  lemma OverflowAlike(f: Format, mode: Mode, neg: bool, v: nat, o1: Outcome, o2: Outcome)
    requires f.Valid() && Stores(f, mode, neg, v, {}, o1) && Stores(f, mode, neg, v, {}, o2)
    ensures Overflow in o1.raised <==> Overflow in o2.raised
  {
    hide Pow, Overflowed;
  }

  /** Climbing in f toward what climbing in g has reached ends where climbing toward the ideal itself does,
      or above the top quantum. k0 is where f begins, seen from g. */
  lemma ClimbAcross(a: nat, b: nat, b': nat, s: nat, k: nat, k0: nat, ideal: int, top: int, top': int)
    requires b > 0 && b' > 0 && (forall x: nat :: MulPow(b', x) == MulPow(b, x + s)) && k <= k0 + s
    requires a % MulPow(b, k) == 0 && a % MulPow(b', k0) == 0 && top' + s <= top
    ensures var kk := Min(Climb(a, b, k, ideal), top);
      Min(Climb(a, b', k0, kk - s), top') == Min(Climb(a, b', k0, ideal - s), top')
  {
    hide Pow, MulPow, Climb;
    var r := Climb(a, b, k, ideal);
    var kk := Min(r, top);
    var x1, x2 := Climb(a, b', k0, ideal - s), Climb(a, b', k0, kk - s);
    assert MulPow(b', x1 + 1) == MulPow(b, x1 + 1 + s) && MulPow(b', x2 + 1) == MulPow(b, x2 + 1 + s);
    assert MulPow(b', x1) == MulPow(b, x1 + s) && MulPow(b', x2) == MulPow(b, x2 + s);
    assert MulPow(b', k0) == MulPow(b, k0 + s);
    if ideal > k0 + s {
      if r < k0 + s { DivisibleBelow(a, b, r + 1, k0 + s); }
      if r < x1 + s { DivisibleBelow(a, b, r + 1, x1 + s); }
      if x1 + s < r { DivisibleBelow(a, b, x1 + 1 + s, r); }
      if x2 + s < kk { DivisibleBelow(a, b, x2 + 1 + s, r); }
    }
  }

  /** An exact value that g can hold, as g's number. */
  lemma ExactNumber(g: Format, neg: bool, a: nat, b: nat, ideal: int, x: Number)
    requires g.Valid() && b > 0 && a % MulPow(b, Quantum(g.p, a, b)) == 0
    requires Outcome(x, {}) == RoundExact(g, ZeroFiveUp, neg, a, b, ideal)
    ensures var kk := Climb(a, b, Quantum(g.p, a, b), ideal);
      x.Finite? && x.neg == neg && x.exp == g.etiny + Min(kk, g.kmax) && x.coeff * Pow(10, x.exp - g.etiny) * b == a
  {
    hide Pow, Quantum, Climb, MulPow, RoundExact, Fit;
    var kk := Climb(a, b, Quantum(g.p, a, b), ideal);
    ExactIs(g, ZeroFiveUp, neg, a, b, ideal);
    FitExponent(g, ZeroFiveUp, neg, a / MulPow(b, kk), kk);
    InexactIffChanged(g, ZeroFiveUp, neg, a, b, ideal);
    ResultHolds(g, ZeroFiveUp, neg, a, b, ideal);
  }

  /** An exact value that g can hold rounds in f as itself, and toward the same ideal. */
  lemma ExactTwice(f: Format, g: Format, mode: Mode, neg: bool, a: nat, b: nat, ideal: int, x: Number)
    requires Extends(f, g) && b > 0 && a % MulPow(b, Quantum(g.p, a, b)) == 0
    requires Outcome(x, {}) == RoundExact(g, ZeroFiveUp, neg, a, b, ideal)
    ensures x.Finite? && Renarrowed(f, mode, x) == RoundedOnce(f, g, mode, neg, a, b, ideal)
  {
    hide Pow, Quantum, Climb, MulPow, RoundExact, UnitsNum, UnitsDen;
    ExactNumber(g, neg, a, b, ideal, x);
    var b' := MulPow(b, Gap(f, g));
    SameFractionAcross(f, g, a, b, x.coeff, x.exp);
    SameFraction(f, mode, neg, UnitsNum(f, x.coeff, x.exp), UnitsDen(f, x.exp), a, b', x.exp - f.etiny);
    ReachedIdeal(f, g, mode, neg, a, b, ideal, x.exp - f.etiny);
  }

  /** The ideal and the exponent that g reaches toward it mean the same to f. */
  lemma ReachedIdeal(f: Format, g: Format, mode: Mode, neg: bool, a: nat, b: nat, ideal: int, reached: int)
    requires Extends(f, g) && b > 0 && a % MulPow(b, Quantum(g.p, a, b)) == 0
    requires reached == Min(Climb(a, b, Quantum(g.p, a, b), ideal), g.kmax) - Gap(f, g)
    ensures RoundExact(f, mode, neg, a, MulPow(b, Gap(f, g)), reached) == RoundedOnce(f, g, mode, neg, a, b, ideal)
  {
    hide Pow, Quantum, Climb, MulPow, RoundExact;
    var k, s := Quantum(g.p, a, b), Gap(f, g);
    var b' := MulPow(b, s);
    QuantumAcross(f, g, a, b);
    var k0 := Quantum(f.p, a, b');
    if a % MulPow(b', k0) == 0 {
      forall y: nat ensures MulPow(b', y) == MulPow(b, y + s) { PowersAcross(f, g, b, y); }
      ClimbAcross(a, b, b', s, k, k0, ideal, g.kmax, f.kmax);
      IdealThrough(f, mode, neg, a, b', reached, ideal - s);
    } else {
      InexactCase(f, mode, neg, a, b', reached);
      InexactCase(f, mode, neg, a, b', ideal - s);
    }
  }

  lemma ExactIs(f: Format, mode: Mode, neg: bool, a: nat, b: nat, ideal: int)
    requires f.Valid() && b > 0 && a % MulPow(b, Quantum(f.p, a, b)) == 0
    ensures var kk := Climb(a, b, Quantum(f.p, a, b), ideal);
      RoundExact(f, mode, neg, a, b, ideal) == Fit(f, mode, neg, a / MulPow(b, kk), kk, {})
  {
    hide Pow, Quantum, Climb, Fit;
  }

  /* ---- Values out of range ---- */

  /** c * 10^e is at least 10^top. */
  lemma NotBelowPower(c: nat, e: int, n: nat, top: int)
    requires Pow(10, n) <= c && top <= e + n
    ensures !Below(c, e, 1, top)
  {
    hide Pow;
    if e <= top {
      AlignedSelf(c, e);
      PowMono(10, top - e, n);
    } else {
      MulMono(1, c, Pow(10, e - top));
      AlignedSelf(1, top);
    }
  }

  /** What is out of g's range is out of f's, and so is the largest number of g that stands for it. */
  lemma BeyondTwice(f: Format, g: Format, mode: Mode, neg: bool, a: nat, b: nat, ideal: int)
    requires Extends(f, g) && b > 0 && a >= b * Pow(10, g.p + g.kmax)
    ensures var w := RoundExact(g, ZeroFiveUp, neg, a, b, ideal).num;
      w.Finite? && Renarrowed(f, mode, w) == RoundedOnce(f, g, mode, neg, a, b, ideal)
  {
    hide Pow, RoundExact, RoundScaled, MulPow, Below;
    BeyondTop(g, ZeroFiveUp, neg, a, b, ideal);
    var s := Gap(f, g);
    PowersAcross(f, g, b, f.p + f.kmax);
    PowMono(10, f.p + f.kmax + s, g.p + g.kmax);
    MulMono(Pow(10, f.p + f.kmax + s), Pow(10, g.p + g.kmax), b);
    BeyondTop(f, mode, neg, a, MulPow(b, s), ideal - s);
    PowMono(10, g.p - 1, g.p);
    NotBelowPower(Pow(10, g.p) - 1, g.etop, g.p - 1, f.emax + 1);
    TooBigOverflows(f, mode, neg, Pow(10, g.p) - 1, g.etop);
  }

  /* ---- Inexact values ---- */

  lemma FivesInPower(p: nat)
    requires p > 0
    ensures Pow(10, p) % 5 == 0
  {
    assert Pow(10, p) == 5 * (2 * Pow(10, p - 1));
    hide Pow;
    DivModUnique(Pow(10, p), 5, 2 * Pow(10, p - 1), 0);
  }

  /** Below q a multiple of five, q and what stands for more than q share five. */
  lemma SameFive(q: nat, c: nat, top: nat)
    requires top % 5 == 0 && c == if q % 5 == 0 then q + 1 else q
    ensures var lo := q - q % 5; lo % 5 == 0 && lo <= q < lo + 5 && lo < c < lo + 5
    ensures q < top ==> c < top
    ensures top <= q ==> top <= q - q % 5
  {}

  /** An inexact value in g's range: what is stored, and the five units that it shares with the value. */
  lemma Reround(g: Format, neg: bool, a: nat, b: nat, ideal: int) returns (c: nat)
    requires g.Valid() && b > 0 && Quantum(g.p, a, b) <= g.kmax && a % MulPow(b, Quantum(g.p, a, b)) != 0
    ensures var k := Quantum(g.p, a, b); var q := a / MulPow(b, k);
      && 0 <= q < Pow(10, g.p) && 0 < c == (if q % 5 == 0 then q + 1 else q)
      && RoundExact(g, ZeroFiveUp, neg, a, b, ideal).num == Finite(neg, c, g.etiny + k)
      && Multiple(q, MulPow(b, k)) < a < Multiple(q + 1, MulPow(b, k))
  {
    hide Pow, Quantum, MulPow, RoundExact;
    var k := Quantum(g.p, a, b);
    var d := MulPow(b, k);
    var q := a / d;
    BelowPower(a, b, g.p, k);
    QuotientNat(a, d);
    DivBounds(a, d);
    OneMore(q, d);
    c := Rounded(ZeroFiveUp, neg, a, d);
    FivesInPower(g.p);
    SameFive(q, c, Pow(10, g.p));
    InexactCase(g, ZeroFiveUp, neg, a, b, ideal);
  }

  /** The exact value lies in the cell, in the units of f. */
  lemma CellAcross(f: Format, g: Format, a: nat, b: nat, k: nat, q: nat)
    requires Extends(f, g) && b > 0 && Multiple(q, MulPow(b, k)) < a < Multiple(q + 1, MulPow(b, k))
    ensures var lo, e := q - q % 5, g.etiny + k;
      InCell(a, MulPow(b, Gap(f, g)), Gap(f, g), Aligned(lo, e, g.etiny), Aligned(5, e, g.etiny))
  {
    var lo := q - q % 5;
    hide Pow;
    var t, u := Pow(10, k), Pow(10, Gap(f, g));
    MulMono(lo, q, MulPow(b, k));
    MulMono(q + 1, lo + 5, MulPow(b, k));
    CellArith(b, t, u, lo);
    CellArith(b, t, u, lo + 5);
    MulStrict(lo * (b * t), a, u);
    MulStrict(a, (lo + 5) * (b * t), u);
    assert lo * t + 5 * t == (lo + 5) * t;
  }

  lemma CellArith(b: nat, t: nat, u: nat, x: nat)
    ensures b * u * (x * t) == x * (b * t) * u
  {
    MulAssoc(x, b, t);
    assert b * u * (x * t) == b * (x * t) * u;
  }

  /** An inexact value rounds in f as what g stores for it, unless f's least quantum cuts them off alike. */
  lemma InexactTwice(f: Format, g: Format, mode: Mode, neg: bool, a: nat, b: nat, ideal: int)
    requires Extends(f, g) && b > 0 && Quantum(g.p, a, b) <= g.kmax && a % MulPow(b, Quantum(g.p, a, b)) != 0
    requires !LostBelow(f, g, a, b)
    ensures var w := RoundExact(g, ZeroFiveUp, neg, a, b, ideal).num;
      w.Finite? && Renarrowed(f, mode, w) == RoundedOnce(f, g, mode, neg, a, b, ideal)
  {
    hide Pow, Quantum, MulPow, RoundExact, Aligned, InCell, FineCell, UnitsNum, UnitsDen, Multiple;
    var k, s := Quantum(g.p, a, b), Gap(f, g);
    var c := Reround(g, neg, a, b, ideal);
    var q, e := a / MulPow(b, k), g.etiny + k;
    var lo := q - q % 5;
    FivesInPower(f.p);
    SameFive(q, c, Pow(10, f.p));
    ReroundFine(f, g, a, b, k, q);
    FineCellAligned(f, lo, 5, 0, e, g.etiny);
    CellAcross(f, g, a, b, k, q);
    StandInWithin(c, lo, e);
    WithinIsInCell(f, c, e, lo, 5, e, g.etiny);
    SameCell(f, mode, neg, UnitsNum(f, c, e), UnitsDen(f, e), e - f.etiny, a, MulPow(b, s), ideal - s,
             s, Aligned(lo, e, g.etiny), Aligned(5, e, g.etiny), k);
  }

  /** Five of g's units are fine enough for f. */
  lemma ReroundFine(f: Format, g: Format, a: nat, b: nat, k: nat, q: nat)
    requires Extends(f, g) && b > 0 && k == Quantum(g.p, a, b) && a % MulPow(b, k) != 0 && q == a / MulPow(b, k)
    requires !LostBelow(f, g, a, b)
    ensures FineCell(f, f.etiny - (g.etiny + k), q - q % 5, 5, 0)
  {
    SmallPowers();
    hide Pow, Quantum;
    FivesInPower(f.p);
    if k > 0 {
      BelowPower(a, b, g.p - 1, k);
      PowMono(10, f.p, g.p - 1);
    } else if f.etiny == g.etiny {
      assert MulPow(b, 0) == b;
      BelowPower(a, b, f.p, 0);
    }
    SameFive(q, if q % 5 == 0 then q + 1 else q, Pow(10, f.p));
  }

  /** Where both formats have the same least quantum the first rounding is the last: Inexact is lost. */
  lemma LostInexact(f: Format, g: Format, mode: Mode, neg: bool, a: nat, b: nat, ideal: int)
    requires Extends(f, g) && b > 0 && LostBelow(f, g, a, b)
    ensures var w := RoundExact(g, ZeroFiveUp, neg, a, b, ideal).num;
      && w.Finite? && Renarrowed(f, mode, w) == Outcome(w, {})
      && Inexact in RoundedOnce(f, g, mode, neg, a, b, ideal).raised
  {
    SmallPowers();
    hide Pow, RoundExact, RoundScaled, Quantum, Multiple;
    assert MulPow(b, 0) == b;
    PowMono(10, f.p, g.p);
    MulMono(Pow(10, f.p), Pow(10, g.p), b);
    QuantumIs(f.p, a, b, 0);
    QuantumIs(g.p, a, b, 0);
    var c := Reround(g, neg, a, b, ideal);
    BelowPower(a, b, f.p, 0);
    FivesInPower(f.p);
    SameFive(a / b, c, Pow(10, f.p));
    HeldExactly(f, mode, neg, c, f.etiny);
    InexactCase(f, mode, neg, a, b, ideal);
    FitKeepsInexact(f, mode, neg, Rounded(mode, neg, a, b), 0, Flags(f, a, b));
  }

  /* ---- The theorem ---- */

  /** Rounding with round-for-reround into the wider format and then in any mode into the narrower one is
      rounding the exact value once into the narrower one: number, exponent and conditions. The one exception
      is an inexact subnormal of two formats that share their least quantum; there Inexact is always lost. */
  lemma RoundTwice(f: Format, g: Format, mode: Mode, neg: bool, a: nat, b: nat, ideal: int)
    requires Extends(f, g) && b > 0
    ensures var w := RoundExact(g, ZeroFiveUp, neg, a, b, ideal).num;
      w.Finite? && (Renarrowed(f, mode, w) == RoundedOnce(f, g, mode, neg, a, b, ideal) <==> !LostBelow(f, g, a, b))
  {
    hide Pow, Quantum, MulPow, RoundExact, Stores, Renarrowed;
    var k := Quantum(g.p, a, b);
    if LostBelow(f, g, a, b) {
      LostInexact(f, g, mode, neg, a, b, ideal);
    } else if a >= b * Pow(10, g.p + g.kmax) {
      BeyondTwice(f, g, mode, neg, a, b, ideal);
    } else if a % MulPow(b, k) == 0 {
      var v := ExactOutcome(g, ZeroFiveUp, neg, a, b, ideal);
      InRangeExact(g, neg, a, b, v, RoundExact(g, ZeroFiveUp, neg, a, b, ideal));
      ExactTwice(f, g, mode, neg, a, b, ideal, RoundExact(g, ZeroFiveUp, neg, a, b, ideal).num);
    } else {
      InRangeQuantum(g, a, b);
      InexactTwice(f, g, mode, neg, a, b, ideal);
    }
  }

  lemma InRangeExact(g: Format, neg: bool, a: nat, b: nat, v: nat, o: Outcome)
    requires g.Valid() && b > 0 && a < b * Pow(10, g.p + g.kmax) && v * b == a && Stores(g, ZeroFiveUp, neg, v, {}, o)
    ensures o == Outcome(o.num, {})
  {
    hide Pow;
    MulCancel(v, Pow(10, g.p + g.kmax), b);
  }

  lemma InRangeQuantum(g: Format, a: nat, b: nat)
    requires g.Valid() && b > 0 && a < b * Pow(10, g.p + g.kmax)
    ensures Quantum(g.p, a, b) <= g.kmax
  {
    hide Pow, Quantum;
    AtLeastQuantum(g.p, a, b, g.kmax);
  }
}
