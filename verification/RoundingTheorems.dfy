/** RoundExact is the rounding of IEEE 754-2008 section 4.3: a statement about every representable
    magnitude, with no mention of digits or quanta of the result. */
module RoundingTheorems {
  import opened Arith
  import opened Rounding
  import opened Sticky

  ghost predicate Written(f: Format, m: nat, c: nat, k: nat) {
    c < Pow(10, f.p) && k <= f.kmax && m == c * Pow(10, k)
  }

  /** Some finite number of the format has magnitude m (in units of 10^Etiny). */
  ghost predicate Representable(f: Format, m: nat) {
    exists c: nat, k: nat :: Written(f, m, c, k)
  }

  function Magnitude(f: Format, x: Number): nat
    requires x.Finite?
  {
    x.coeff * Pow(10, Max(x.exp - f.etiny, 0))
  }

  predicate TowardZero(mode: Mode, neg: bool) {
    mode == Down || (mode == Ceiling && neg) || (mode == Floor && !neg)
  }

  predicate AwayFromZero(mode: Mode, neg: bool) {
    mode == Up || (mode == Ceiling && !neg) || (mode == Floor && neg)
  }

  predicate ToNearest(mode: Mode) {
    mode == HalfUp || mode == HalfEven || mode == HalfDown
  }

  function Distance(x: int, y: int): nat {
    if x < y then y - x else x - y
  }

  /** o holds the magnitude v, or has overflowed because v is out of range. */
  ghost predicate Stores(f: Format, mode: Mode, neg: bool, v: nat, raised: set<Condition>, o: Outcome)
    requires f.Valid()
  {
    && !o.num.NaN? && o.num.neg == neg
    && (o.num.Finite? ==> Holds(f, o.num))
    && (v < Pow(10, f.p + f.kmax) ==> o.raised == raised && o.num.Finite? && Magnitude(f, o.num) == v)
    && (v >= Pow(10, f.p + f.kmax) ==>
          o.raised == raised + {Overflow, Inexact} && o.num == Overflowed(f, mode, neg))
  }

  lemma FitStores(f: Format, mode: Mode, neg: bool, c: nat, k: nat, raised: set<Condition>)
    requires f.Valid() && c < Pow(10, f.p)
    ensures Stores(f, mode, neg, c * Pow(10, k), raised, Fit(f, mode, neg, c, k, raised))
  {
    hide Pow, Stores;
    if c == 0 {
      StoredAt(f, mode, neg, 0, k, f.etiny + Min(k, f.kmax), raised);
    } else if k <= f.kmax {
      LowQuantum(f, c, k);
      StoredAt(f, mode, neg, c, k, f.etiny + k, raised);
    } else {
      HighQuantum(f, c, k);
      FoldDownOrOverflow(f, mode, neg, c, k, raised);
    }
  }

  lemma StoredAt(f: Format, mode: Mode, neg: bool, c: nat, k: nat, e: int, raised: set<Condition>)
    requires f.Valid() && c < Pow(10, f.p) && f.etiny <= e <= f.etop
    requires c == 0 || (e == f.etiny + k && c * Pow(10, k) < Pow(10, f.p + f.kmax))
    ensures Stores(f, mode, neg, c * Pow(10, k), raised, Outcome(Finite(neg, c, e), raised))
  {
    hide Pow;
    if c == 0 {
      assert c * Pow(10, k) == 0 && 0 * Pow(10, e - f.etiny) == 0;
    }
  }

  lemma FoldDownOrOverflow(f: Format, mode: Mode, neg: bool, c: nat, k: nat, raised: set<Condition>)
    requires f.Valid() && 0 < c < Pow(10, f.p) && k > f.kmax
    requires c * Pow(10, k) == (c * Pow(10, k - f.kmax)) * Pow(10, f.kmax)
    requires c * Pow(10, k - f.kmax) < Pow(10, f.p) <==> c * Pow(10, k) < Pow(10, f.p + f.kmax)
    ensures Stores(f, mode, neg, c * Pow(10, k), raised, Fit(f, mode, neg, c, k, raised))
  {
    hide Pow;
    var t := c * Pow(10, k - f.kmax);
    if t < Pow(10, f.p) {
      assert Fit(f, mode, neg, c, k, raised) == Outcome(Finite(neg, t, f.etop), raised);
    }
  }

  lemma LowQuantum(f: Format, c: nat, k: nat)
    requires f.Valid() && c < Pow(10, f.p) && k <= f.kmax
    ensures c * Pow(10, k) < Pow(10, f.p + f.kmax)
  {
    PowAdd(10, f.p, f.kmax);
    PowMono(10, k, f.kmax);
    MulBound(c, Pow(10, f.p), Pow(10, k), Pow(10, f.kmax));
  }

  lemma HighQuantum(f: Format, c: nat, k: nat)
    requires f.Valid() && k > f.kmax
    ensures c * Pow(10, k) == (c * Pow(10, k - f.kmax)) * Pow(10, f.kmax)
    ensures c * Pow(10, k - f.kmax) < Pow(10, f.p) <==> c * Pow(10, k) < Pow(10, f.p + f.kmax)
  {
    PowAdd(10, f.p, f.kmax);
    PowSplit(10, k, f.kmax);
    var t := Pow(10, k - f.kmax);
    MulAssoc(c, t, Pow(10, f.kmax));
    MulCancel(c * t, Pow(10, f.p), Pow(10, f.kmax));
    MulCancel(Pow(10, f.p), c * t, Pow(10, f.kmax));
  }

  /** Every representable magnitude is below 10^(p+kmax). */
  lemma RepresentableBelowTop(f: Format, m: nat)
    requires f.Valid() && Representable(f, m)
    ensures m < Pow(10, f.p + f.kmax)
    ensures m <= (Pow(10, f.p) - 1) * Pow(10, f.kmax)
  {
    var c: nat, k: nat :| Written(f, m, c, k);
    PowAdd(10, f.p, f.kmax);
    PowMono(10, k, f.kmax);
    MulMono(Pow(10, k), Pow(10, f.kmax), c);
    MulMono(c, Pow(10, f.p) - 1, Pow(10, f.kmax));
    assert (Pow(10, f.p) - 1) * Pow(10, f.kmax) == Pow(10, f.p) * Pow(10, f.kmax) - Pow(10, f.kmax);
  }

  /** No representable magnitude lies strictly between the two multiples of the quantum that
      enclose the exact value. */
  lemma NothingBetween(f: Format, a: nat, b: nat, m: nat)
    requires f.Valid() && b > 0 && Representable(f, m)
    ensures var k := Quantum(f.p, a, b); var q := a / MulPow(b, k);
      m <= q * Pow(10, k) || (q + 1) * Pow(10, k) <= m
  {
    var k := Quantum(f.p, a, b);
    var q := a / MulPow(b, k);
    var c: nat, j: nat :| Written(f, m, c, j);
    if j >= k {
      PowSplit(10, j, k);
      var t := c * Pow(10, j - k);
      assert m == t * Pow(10, k) by { MulAssoc(c, Pow(10, j - k), Pow(10, k)); }
      if t <= q { MulMono(t, q, Pow(10, k)); } else { MulMono(q + 1, t, Pow(10, k)); }
    } else {
      PowMono(10, j, k - 1);
      MulMono(Pow(10, j), Pow(10, k - 1), c);
      MulMono(c, Pow(10, f.p), Pow(10, k - 1));
      PowAdd(10, f.p, k - 1);
      PowAdd(10, f.p - 1, k);
      assert Pow(10, f.p - 1) * MulPow(b, k) == b * Pow(10, f.p + k - 1) by {
        SwapRight(b, Pow(10, k), Pow(10, f.p - 1));
        MulAssoc(b, Pow(10, f.p - 1), Pow(10, k));
      }
      DivGe(a, MulPow(b, k), Pow(10, f.p - 1));
      MulMono(Pow(10, f.p - 1), q, Pow(10, k));
    }
  }

  /** The exact case: the stored magnitude is the exact value, whichever member of the cohort. */
  lemma ExactOutcome(f: Format, mode: Mode, neg: bool, a: nat, b: nat, ideal: int) returns (v: nat)
    requires f.Valid() && b > 0 && a % MulPow(b, Quantum(f.p, a, b)) == 0
    ensures v * b == a && Stores(f, mode, neg, v, {}, RoundExact(f, mode, neg, a, b, ideal))
  {
    hide Pow, Stores, Fit;
    var k := Quantum(f.p, a, b);
    var kk := Climb(a, b, k, ideal);
    var c := a / MulPow(b, kk);
    v := c * Pow(10, kk);
    ClimbedFits(f, a, b, kk, c);
    SwapMiddle(c, b, Pow(10, kk));
    FitStores(f, mode, neg, c, kk, {});
  }

  lemma SwapMiddle(c: nat, b: nat, t: nat)
    ensures c * (b * t) == (c * t) * b
  {}

  lemma ClimbedFits(f: Format, a: nat, b: nat, kk: nat, c: nat)
    requires b > 0 && c == a / MulPow(b, kk) && a % MulPow(b, kk) == 0 && Quantum(f.p, a, b) <= kk
    ensures c < Pow(10, f.p) && a == c * (b * Pow(10, kk))
  {
    hide Pow;
    var k := Quantum(f.p, a, b);
    PowMono(10, f.p + k, f.p + kk);
    MulMono(Pow(10, f.p + k), Pow(10, f.p + kk), b);
    BelowPower(a, b, f.p, kk);
    assert c < Pow(10, f.p);
    DivBounds(a, MulPow(b, kk));
  }

  /** a < b * 10^(p+k) bounds the quotient by the quantum. */
  lemma BelowPower(a: nat, b: nat, p: nat, k: nat)
    requires b > 0
    ensures a < b * Pow(10, p + k) ==> a / MulPow(b, k) < Pow(10, p)
    ensures b * Pow(10, p + k) <= a ==> Pow(10, p) <= a / MulPow(b, k)
  {
    hide Pow;
    PowAdd(10, p, k);
    var x, t, d := Pow(10, p), Pow(10, k), MulPow(b, k);
    assert x * d == b * Pow(10, p + k) by { SwapMiddle(x, b, t); MulAssoc(b, x, t); }
    if a < x * d { DivLt(a, d, x); } else { DivGe(a, d, x); }
  }

  /** The inexact case: the stored magnitude is the rounded quotient times the quantum. */
  lemma InexactOutcome(f: Format, mode: Mode, neg: bool, a: nat, b: nat, ideal: int)
    returns (v: nat, raised: set<Condition>)
    requires f.Valid() && b > 0 && a % MulPow(b, Quantum(f.p, a, b)) != 0
    ensures v == Rounded(mode, neg, a, MulPow(b, Quantum(f.p, a, b))) * Pow(10, Quantum(f.p, a, b))
    ensures raised == {Inexact} + if a < b * Pow(10, f.p - 1) then {Underflow} else {}
    ensures Stores(f, mode, neg, v, raised, RoundExact(f, mode, neg, a, b, ideal))
    ensures v < Pow(10, f.p + f.kmax) && Rounded(mode, neg, a, MulPow(b, Quantum(f.p, a, b))) % 2 == 0 ==>
      RoundExact(f, mode, neg, a, b, ideal).num.coeff % 2 == 0
  {
    hide Pow, Stores, FitRounded, Quantum, Rounded, RoundExact;
    var k := Quantum(f.p, a, b);
    var c := Rounded(mode, neg, a, MulPow(b, k));
    raised := {Inexact} + if a < MulPow(b, f.p - 1) then {Underflow} else {};
    v := c * Pow(10, k);
    BelowPower(a, b, f.p, k);
    RoundedBetween(mode, neg, a, MulPow(b, k));
    if k > f.kmax { InexactAboveTop(f, a, b, k, c); }
    FitRoundedStores(f, mode, neg, c, k, raised);
    InexactIs(f, mode, neg, a, b, ideal, raised);
    StoredIsFinite(f, mode, neg, v, raised, RoundExact(f, mode, neg, a, b, ideal));
  }

  lemma RoundedBetween(mode: Mode, neg: bool, n: nat, d: nat)
    requires d > 0
    ensures n / d <= Rounded(mode, neg, n, d) <= n / d + 1
  {}

  lemma InexactIs(f: Format, mode: Mode, neg: bool, a: nat, b: nat, ideal: int, raised: set<Condition>)
    requires f.Valid() && b > 0 && a % MulPow(b, Quantum(f.p, a, b)) != 0
    requires raised == {Inexact} + if a < MulPow(b, f.p - 1) then {Underflow} else {}
    ensures var k := Quantum(f.p, a, b);
      RoundExact(f, mode, neg, a, b, ideal) == FitRounded(f, mode, neg, Rounded(mode, neg, a, MulPow(b, k)), k, raised)
  {
    hide Pow, FitRounded, Quantum, Rounded;
  }

  lemma StoredIsFinite(f: Format, mode: Mode, neg: bool, v: nat, raised: set<Condition>, o: Outcome)
    requires f.Valid() && Stores(f, mode, neg, v, raised, o)
    ensures v < Pow(10, f.p + f.kmax) ==> o.num.Finite?
  {}

  lemma FitRoundedStores(f: Format, mode: Mode, neg: bool, c: nat, k: nat, raised: set<Condition>)
    requires f.Valid() && c <= Pow(10, f.p)
    requires k > f.kmax ==> c * Pow(10, k) >= Pow(10, f.p + f.kmax)
    ensures Stores(f, mode, neg, c * Pow(10, k), raised, FitRounded(f, mode, neg, c, k, raised))
    ensures c * Pow(10, k) < Pow(10, f.p + f.kmax) ==>
      var x := FitRounded(f, mode, neg, c, k, raised).num; x.Finite? && (c % 2 == 0 ==> x.coeff % 2 == 0)
  {
    hide Pow, Stores;
    if c == Pow(10, f.p) {
      CarriedOut(f, k);
      FitStores(f, mode, neg, Pow(10, f.p - 1), k + 1, raised);
      if k + 1 > f.kmax { PowAdd(10, f.p, f.kmax); }
    } else {
      FitStores(f, mode, neg, c, k, raised);
    }
  }

  /** An inexact value whose quantum is above the top one overflows. */
  lemma InexactAboveTop(f: Format, a: nat, b: nat, k: nat, c: nat)
    requires f.Valid() && b > 0 && k == Quantum(f.p, a, b) && k > f.kmax
    requires c >= a / MulPow(b, k)
    ensures c * Pow(10, k) >= Pow(10, f.p + f.kmax)
  {
    hide Pow;
    assert f.p - 1 + k == f.p + k - 1;
    BelowPower(a, b, f.p - 1, k);
    MulMono(Pow(10, f.p - 1), c, Pow(10, k));
    PowAdd(10, f.p - 1, k);
    PowMono(10, f.p + f.kmax, f.p - 1 + k);
  }

  lemma CarriedOut(f: Format, k: nat)
    requires f.Valid()
    ensures Pow(10, f.p - 1) * Pow(10, k + 1) == Pow(10, f.p) * Pow(10, k)
    ensures Pow(10, f.p - 1) % 2 == 0 && Pow(10, f.p - 1) < Pow(10, f.p)
  {
    PowAdd(10, f.p - 1, k + 1);
    PowAdd(10, f.p, k);
    assert Pow(10, f.p - 1) == 10 * Pow(10, f.p - 2);
  }

  /** A finite result is always a number the format holds, with the sign asked for. */
  lemma ResultHolds(f: Format, mode: Mode, neg: bool, a: nat, b: nat, ideal: int)
    requires f.Valid() && b > 0
    ensures var x := RoundExact(f, mode, neg, a, b, ideal).num;
      !x.NaN? && x.neg == neg && (x.Finite? ==> Holds(f, x))
  {
    hide RoundExact;
    if a % MulPow(b, Quantum(f.p, a, b)) == 0 {
      var _ := ExactOutcome(f, mode, neg, a, b, ideal);
    } else {
      var _, _ := InexactOutcome(f, mode, neg, a, b, ideal);
    }
  }

  /** The quotient, the value and the next quotient, all scaled by the denominator. */
  lemma Enclosed(a: nat, b: nat, t: nat)
    requires b > 0 && t > 0
    ensures b * t > 0
    ensures ((a / (b * t)) * t) * b <= a < ((a / (b * t) + 1) * t) * b
    ensures a % (b * t) == a - ((a / (b * t)) * t) * b
    ensures ((a / (b * t) + 1) * t) * b == ((a / (b * t)) * t) * b + b * t
  {
    MulPos(b, t);
    var q := a / (b * t);
    DivBounds(a, b * t);
    SwapMiddle(q, b, t);
    SwapMiddle(q + 1, b, t);
    assert (q + 1) * (b * t) == q * (b * t) + b * t;
  }

  /** Where a representable magnitude lies, scaled by the denominator of an inexact value. */
  lemma Sides(f: Format, a: nat, b: nat, m: nat)
    requires f.Valid() && b > 0 && Representable(f, m) && a % MulPow(b, Quantum(f.p, a, b)) != 0
    ensures var k := Quantum(f.p, a, b); var q := a / MulPow(b, k); var l, u := q * Pow(10, k), (q + 1) * Pow(10, k);
      && l * b < a < u * b
      && (m <= l || u <= m)
      && (m <= l ==> m * b <= l * b) && (m < l ==> m * b < l * b)
      && (u <= m ==> u * b <= m * b) && (u < m ==> u * b < m * b)
  {
    hide Pow;
    var k := Quantum(f.p, a, b);
    var q := a / MulPow(b, k);
    var l, u := q * Pow(10, k), (q + 1) * Pow(10, k);
    Enclosed(a, b, Pow(10, k));
    NothingBetween(f, a, b, m);
    if m < l { MulStrict(m, l, b); }
    if u < m { MulStrict(u, m, b); }
  }

  /** Inexact is raised exactly when the stored number is not the exact value. */
  lemma InexactIffChanged(f: Format, mode: Mode, neg: bool, a: nat, b: nat, ideal: int)
    requires f.Valid() && b > 0
    ensures var o := RoundExact(f, mode, neg, a, b, ideal);
      Inexact !in o.raised <==> o.num.Finite? && Magnitude(f, o.num) * b == a
  {
    hide RoundExact, Pow;
    var o := RoundExact(f, mode, neg, a, b, ideal);
    if a % MulPow(b, Quantum(f.p, a, b)) == 0 {
      var v := ExactOutcome(f, mode, neg, a, b, ideal);
      if v >= Pow(10, f.p + f.kmax) && o.num.Finite? {
        NmaxBelow(f);
        MulStrict(Magnitude(f, o.num), v, b);
      }
    } else {
      var v, raised := InexactOutcome(f, mode, neg, a, b, ideal);
      if o.num.Finite? {
        HeldIsRepresentable(f, o.num);
        Sides(f, a, b, Magnitude(f, o.num));
      }
    }
  }

  /** Underflow is raised exactly for inexact results whose exact value was below the least normal
      number, 10^Emin. */
  lemma UnderflowIffTiny(f: Format, mode: Mode, neg: bool, a: nat, b: nat, ideal: int)
    requires f.Valid() && b > 0
    ensures var o := RoundExact(f, mode, neg, a, b, ideal);
      Underflow in o.raised <==> Inexact in o.raised && a < b * Pow(10, f.p - 1)
  {
    hide RoundExact, Pow, Quantum;
    if a % MulPow(b, Quantum(f.p, a, b)) == 0 {
      var v := ExactOutcome(f, mode, neg, a, b, ideal);
      if v >= Pow(10, f.p + f.kmax) {
        PowMono(10, f.p - 1, f.p + f.kmax);
        MulMono(Pow(10, f.p - 1), v, b);
      }
    } else {
      var _, _ := InexactOutcome(f, mode, neg, a, b, ideal);
    }
  }

  /** A value the format can represent is always stored exactly, with no condition raised. */
  lemma RepresentableIsExact(f: Format, mode: Mode, neg: bool, a: nat, b: nat, ideal: int, m: nat)
    requires f.Valid() && b > 0 && Representable(f, m) && m * b == a
    ensures var o := RoundExact(f, mode, neg, a, b, ideal);
      o.raised == {} && o.num.Finite? && Magnitude(f, o.num) == m
  {
    hide RoundExact, Pow;
    RepresentableBelowTop(f, m);
    if a % MulPow(b, Quantum(f.p, a, b)) == 0 {
      var v := ExactOutcome(f, mode, neg, a, b, ideal);
      MulCancel(v, m, b);
    } else {
      Sides(f, a, b, m);
      assert false;
    }
  }

  lemma HeldIsRepresentable(f: Format, x: Number)
    requires f.Valid() && Holds(f, x)
    ensures Representable(f, Magnitude(f, x))
  {
    assert Written(f, Magnitude(f, x), x.coeff, x.exp - f.etiny);
  }

  lemma NmaxBelow(f: Format)
    requires f.Valid()
    ensures (Pow(10, f.p) - 1) * Pow(10, f.kmax) < Pow(10, f.p + f.kmax)
    ensures Representable(f, (Pow(10, f.p) - 1) * Pow(10, f.kmax))
  {
    assert Written(f, (Pow(10, f.p) - 1) * Pow(10, f.kmax), Pow(10, f.p) - 1, f.kmax);
    RepresentableBelowTop(f, (Pow(10, f.p) - 1) * Pow(10, f.kmax));
  }

  /** Rounding toward zero stores the greatest representable magnitude not above the exact one,
      even when it overflows. */
  lemma TowardZeroIsGreatest(f: Format, mode: Mode, neg: bool, a: nat, b: nat, ideal: int, m: nat)
    requires f.Valid() && b > 0 && TowardZero(mode, neg) && Representable(f, m)
    ensures var x := RoundExact(f, mode, neg, a, b, ideal).num;
      Holds(f, x) && Magnitude(f, x) * b <= a && (m * b <= a ==> m <= Magnitude(f, x))
  {
    hide RoundExact, Pow;
    var o := RoundExact(f, mode, neg, a, b, ideal);
    RepresentableBelowTop(f, m);
    NmaxBelow(f);
    ResultHolds(f, mode, neg, a, b, ideal);
    if a % MulPow(b, Quantum(f.p, a, b)) == 0 {
      var v := ExactOutcome(f, mode, neg, a, b, ideal);
      MulCancel(m, v, b);
      if v >= Pow(10, f.p + f.kmax) { MulMono(Magnitude(f, o.num), v, b); }
    } else {
      var v, raised := InexactOutcome(f, mode, neg, a, b, ideal);
      Sides(f, a, b, m);
      if v >= Pow(10, f.p + f.kmax) { MulMono(Magnitude(f, o.num), v, b); }
    }
  }

  /** Rounding away from zero stores the least representable magnitude not below the exact one,
      and infinity only when there is none. */
  lemma AwayFromZeroIsLeast(f: Format, mode: Mode, neg: bool, a: nat, b: nat, ideal: int, m: nat)
    requires f.Valid() && b > 0 && AwayFromZero(mode, neg) && Representable(f, m)
    ensures var x := RoundExact(f, mode, neg, a, b, ideal).num;
      && !x.NaN?
      && (x.Finite? ==> Holds(f, x) && a <= Magnitude(f, x) * b && (a <= m * b ==> Magnitude(f, x) <= m))
      && (x.Infinite? ==> m * b < a)
  {
    hide RoundExact, Pow;
    RepresentableBelowTop(f, m);
    if a % MulPow(b, Quantum(f.p, a, b)) == 0 {
      var v := ExactOutcome(f, mode, neg, a, b, ideal);
      MulCancel(v, m, b);
      MulCancel(m, v, b);
      if m < v { MulStrict(m, v, b); }
    } else {
      var v, raised := InexactOutcome(f, mode, neg, a, b, ideal);
      Sides(f, a, b, m);
    }
  }

  /** Rounding to nearest: no representable magnitude is closer to the exact one, and a tie with
      another is settled the way the mode says. */
  lemma NearestIsClosest(f: Format, mode: Mode, neg: bool, a: nat, b: nat, ideal: int, m: nat, x: Number)
    requires f.Valid() && b > 0 && ToNearest(mode) && Representable(f, m)
    requires x == RoundExact(f, mode, neg, a, b, ideal).num && x.Finite?
    ensures Holds(f, x) && Distance(Magnitude(f, x) * b, a) <= Distance(m * b, a)
    ensures m != Magnitude(f, x) && Distance(Magnitude(f, x) * b, a) == Distance(m * b, a) ==>
      && (mode == HalfEven ==> x.coeff % 2 == 0)
      && (mode == HalfUp ==> m < Magnitude(f, x))
      && (mode == HalfDown ==> Magnitude(f, x) < m)
  {
    hide RoundExact, Pow;
    var k := Quantum(f.p, a, b);
    var r := Magnitude(f, x);
    if a % MulPow(b, k) == 0 {
      var v := ExactOutcome(f, mode, neg, a, b, ideal);
      if m < r { MulStrict(m, r, b); }
      if r < m { MulStrict(r, m, b); }
    } else {
      var v, raised := InexactOutcome(f, mode, neg, a, b, ideal);
      Sides(f, a, b, m);
      NearestMultiple(mode, neg, a, b, Pow(10, k));
    }
  }

  /** The rounded multiple of t is the nearer of the two that enclose a/b. */
  lemma NearestMultiple(mode: Mode, neg: bool, a: nat, b: nat, t: nat)
    requires b > 0 && t > 0 && ToNearest(mode) && b * t > 0 && a % (b * t) != 0
    ensures var q := a / (b * t); var l, u := (q * t) * b, ((q + 1) * t) * b;
      var c := Rounded(mode, neg, a, b * t);
      && (c == q || c == q + 1) && l < a < u
      && (c == q ==> a - l <= u - a && (a - l == u - a ==> mode == HalfDown || (mode == HalfEven && c % 2 == 0)))
      && (c == q + 1 ==> u - a <= a - l && (a - l == u - a ==> mode == HalfUp || (mode == HalfEven && c % 2 == 0)))
  {
    Enclosed(a, b, t);
  }

  /* ---- When rounding to nearest overflows ---- */

  /** From where on the nearest multiple of the top quantum is 10^(p + kmax): half a quantum below it. */
  ghost predicate PastMiddle(f: Format, mode: Mode, a: nat, b: nat)
    requires f.Valid()
  {
    var middle := (2 * Pow(10, f.p) - 1) * Pow(10, f.kmax);
    if mode == HalfDown then 2 * a > b * middle else 2 * a >= b * middle
  }

  /** The middle, counted in top quanta d. */
  lemma MiddleInQuanta(f: Format, b: nat)
    requires f.Valid() && b > 0
    ensures var d, n := MulPow(b, f.kmax), Pow(10, f.p);
      && b * ((2 * n - 1) * Pow(10, f.kmax)) == 2 * (n * d) - d && b * Pow(10, f.p + f.kmax) == n * d
  {
    PowAdd(10, f.p, f.kmax);
    hide *;
    MiddleArith(b, Pow(10, f.p), Pow(10, f.kmax));
  }

  lemma MiddleArith(b: nat, n: nat, t: nat)
    ensures b * ((2 * n - 1) * t) == 2 * (n * (b * t)) - b * t && b * (n * t) == n * (b * t)
  {
    Commute(b, n, t);
    Commute(b, 2 * n - 1, t);
    DoubleLess(n, b * t);
  }

  lemma DoubleLess(n: nat, d: nat)
    ensures (2 * n - 1) * d == 2 * (n * d) - d
  {}

  lemma NearestAtTop(mode: Mode, neg: bool, a: nat, d: nat, n: nat)
    requires ToNearest(mode) && d > 0 && n % 2 == 0 && n > 0 && a < n * d && a % d != 0
    ensures Rounded(mode, neg, a, d) <= n
    ensures Rounded(mode, neg, a, d) == n <==>
      if mode == HalfDown then 2 * a > 2 * (n * d) - d else 2 * a >= 2 * (n * d) - d
  {
    DivBounds(a, d);
    DivLt(a, d, n);
    var q, r := a / d, a % d;
    assert Rounded(mode, neg, a, d) == if Away(mode, neg, q, r, d) then q + 1 else q;
    hide Rounded, Away;
    if q == n - 1 {
      assert (n - 1) * d == n * d - d;
      AwayAtTop(mode, neg, q, r, d);
    } else {
      MulMono(q + 2, n, d);
      assert (q + 2) * d == q * d + 2 * d;
    }
  }

  lemma AwayAtTop(mode: Mode, neg: bool, q: nat, r: nat, d: nat)
    requires ToNearest(mode) && q % 2 == 1
    ensures Away(mode, neg, q, r, d) <==> if mode == HalfDown then 2 * r > d else 2 * r >= d
  {}

  /** The inexact value's magnitude reaches 10^(p + kmax) exactly past the middle. */
  lemma NearestReachesTop(f: Format, mode: Mode, neg: bool, a: nat, b: nat)
    requires f.Valid() && b > 0 && ToNearest(mode) && a % MulPow(b, Quantum(f.p, a, b)) != 0
    ensures var k := Quantum(f.p, a, b);
      Rounded(mode, neg, a, MulPow(b, k)) * Pow(10, k) >= Pow(10, f.p + f.kmax) <==> PastMiddle(f, mode, a, b)
  {
    hide Pow, Quantum, Rounded, MulPow;
    var k := Quantum(f.p, a, b);
    var c := Rounded(mode, neg, a, MulPow(b, k));
    MiddleInQuanta(f, b);
    if k > f.kmax {
      BelowPower(a, b, f.p, k);
      RoundedBetween(mode, neg, a, MulPow(b, k));
      InexactAboveTop(f, a, b, k, c);
      AboveMiddle(f, a, b, k);
    } else if k == f.kmax {
      EvenPower(f.p);
      NearestAtTop(mode, neg, a, MulPow(b, k), Pow(10, f.p));
      TopReached(f, c);
    } else {
      BelowPower(a, b, f.p, k);
      RoundedBetween(mode, neg, a, MulPow(b, k));
      TenBelow(f, a, b, k, c);
    }
  }

  lemma EvenPower(n: nat)
    requires n > 0
    ensures Pow(10, n) > 0 && Pow(10, n) % 2 == 0
  {
    TenMore(n - 1);
    var t := Pow(10, n - 1);
    hide Pow;
    DivModUnique(10 * t, 2, 5 * t, 0);
  }

  lemma TopReached(f: Format, c: nat)
    requires f.Valid() && c <= Pow(10, f.p)
    ensures c * Pow(10, f.kmax) >= Pow(10, f.p + f.kmax) <==> c == Pow(10, f.p)
  {
    PowAdd(10, f.p, f.kmax);
    hide Pow;
    if c < Pow(10, f.p) { MulStrict(c, Pow(10, f.p), Pow(10, f.kmax)); }
  }

  lemma AboveMiddle(f: Format, a: nat, b: nat, k: nat)
    requires f.Valid() && b > 0 && k > f.kmax && b * Pow(10, f.p + k - 1) <= a
    ensures var d, n := MulPow(b, f.kmax), Pow(10, f.p); 2 * a > 2 * (n * d) - d
  {
    hide Pow, MulPow;
    MiddleInQuanta(f, b);
    PowMono(10, f.p + f.kmax, f.p + k - 1);
    MulMono(Pow(10, f.p + f.kmax), Pow(10, f.p + k - 1), b);
    Commute(b, 1, Pow(10, f.p + f.kmax));
    Commute(b, 1, Pow(10, f.p + k - 1));
    hide *;
  }

  /** Below the top decade a value is far from the middle. */
  lemma TenBelow(f: Format, a: nat, b: nat, k: nat, c: nat)
    requires f.Valid() && b > 0 && k < f.kmax && a < b * Pow(10, f.p + k) && c <= Pow(10, f.p)
    ensures var d, n := MulPow(b, f.kmax), Pow(10, f.p); 2 * a < 2 * (n * d) - d
    ensures c * Pow(10, k) < Pow(10, f.p + f.kmax)
  {
    TenMore(f.p + f.kmax - 1);
    SmallPowers();
    PowMono(10, 1, f.p);
    PowMono(10, f.p + k, f.p + f.kmax - 1);
    PowAdd(10, f.p, k);
    hide Pow, MulPow;
    var x, d, n := Pow(10, f.p + f.kmax - 1), MulPow(b, f.kmax), Pow(10, f.p);
    MiddleInQuanta(f, b);
    MulMono(c, n, Pow(10, k));
    MulMono(10, n, d);
    Scaled10(b, x, Pow(10, f.p + k));
  }

  lemma Scaled10(b: nat, x: nat, y: nat)
    requires y <= x
    ensures b * (10 * x) == 10 * (b * x) && b * y <= b * x
  {
    MulMono(y, x, b);
  }

  /** Section 4.3.1: rounding to nearest gives an infinity exactly from half a quantum above the largest finite
      number on, at that middle itself unless ties go down. */
  lemma NearestIsInfiniteIff(f: Format, mode: Mode, neg: bool, a: nat, b: nat, ideal: int)
    requires f.Valid() && b > 0 && ToNearest(mode)
    ensures var middle := b * ((2 * Pow(10, f.p) - 1) * Pow(10, f.kmax));
      RoundExact(f, mode, neg, a, b, ideal).num.Infinite?
      <==> if mode == HalfDown then 2 * a > middle else 2 * a >= middle
  {
    hide RoundExact, Pow, Quantum, Rounded;
    var o := RoundExact(f, mode, neg, a, b, ideal);
    if a % MulPow(b, Quantum(f.p, a, b)) == 0 {
      var v := ExactOutcome(f, mode, neg, a, b, ideal);
      MiddleInQuanta(f, b);
      if v >= Pow(10, f.p + f.kmax) {
        MulMono(Pow(10, f.p + f.kmax), v, b);
      } else {
        HeldIsRepresentable(f, o.num);
        RepresentableBelowTop(f, v);
        MulMono(v, (Pow(10, f.p) - 1) * Pow(10, f.kmax), b);
        LessOne(Pow(10, f.p), Pow(10, f.kmax), b);
      }
    } else {
      var v, raised := InexactOutcome(f, mode, neg, a, b, ideal);
      NearestReachesTop(f, mode, neg, a, b);
    }
  }

  lemma LessOne(n: nat, t: nat, b: nat)
    requires n > 0
    ensures b * ((n - 1) * t) == n * (b * t) - b * t
  {
    assert (n - 1) * t == n * t - t && b * (n * t - t) == b * (n * t) - b * t;
    Commute(b, n, t);
  }

  /** Where a truncated coefficient and the next one are placed. */
  lemma TruncatedPlaced(f: Format, neg: bool, q: nat, k: nat, raised: set<Condition>)
    requires f.Valid() && q < Pow(10, f.p) && (k > 0 ==> Pow(10, f.p - 1) <= q) && Inexact in raised
    ensures var c := if q % 5 == 0 then q + 1 else q;
      var o, z := FitRounded(f, ZeroFiveUp, neg, c, k, raised), FitRounded(f, Down, neg, q, k, raised);
      && o.raised == z.raised && Inexact in z.raised && z.num.Finite?
      && o.num == Finite(neg, z.num.coeff + (if z.num.coeff % 5 == 0 then 1 else 0), z.num.exp)
  {
    TenMore(f.p - 1);
    NinesLeave(Pow(10, f.p - 1));
    hide Pow;
    if k > f.kmax {
      TopFull(f, q, k);
      TopFull(f, if q % 5 == 0 then q + 1 else q, k);
    }
  }

  lemma NinesLeave(t: nat)
    requires t > 0
    ensures (10 * t - 1) % 5 == 4 && 10 * t % 5 == 0
  {
    DivModUnique(10 * t - 1, 5, 2 * t - 1, 4);
    DivModUnique(10 * t, 5, 2 * t, 0);
  }

  lemma TopFull(f: Format, c: nat, k: nat)
    requires f.Valid() && k > f.kmax && Pow(10, f.p - 1) <= c
    ensures c * Pow(10, k - f.kmax) >= Pow(10, f.p)
  {
    PowMono(10, 1, k - f.kmax);
    SmallPowers();
    TenMore(f.p - 1);
    hide Pow;
    MulMono(10, Pow(10, k - f.kmax), c);
    assert c * 10 >= 10 * Pow(10, f.p - 1);
  }

  /** Round-for-reround is rounding toward zero, one unit farther where that leaves a last digit of 0 or 5:
      same exponent, same conditions, and never an infinity. */
  lemma ReroundIsDownOrNext(f: Format, neg: bool, a: nat, b: nat, ideal: int)
    requires f.Valid() && b > 0
    ensures var o, z := RoundExact(f, ZeroFiveUp, neg, a, b, ideal), RoundExact(f, Down, neg, a, b, ideal);
      && o.num.Finite? && z.num.Finite? && o.raised == z.raised
      && o.num == Finite(neg, z.num.coeff + (if Inexact in z.raised && z.num.coeff % 5 == 0 then 1 else 0), z.num.exp)
  {
    hide Pow, Quantum, MulPow, RoundExact, FitRounded;
    var k := Quantum(f.p, a, b);
    if a % MulPow(b, k) == 0 {
      ExactReround(f, neg, a, b, ideal);
    } else {
      var q := a / MulPow(b, k);
      var raised := {Inexact} + if a < MulPow(b, f.p - 1) then {Underflow} else {};
      BelowPower(a, b, f.p, k);
      if k > 0 { BelowPower(a, b, f.p - 1, k); }
      QuotientNat(a, MulPow(b, k));
      InexactIs(f, ZeroFiveUp, neg, a, b, ideal, raised);
      InexactIs(f, Down, neg, a, b, ideal, raised);
      TruncatedPlaced(f, neg, q, k, raised);
    }
  }

  /** An exact value, or one that overflows, is the same in both modes. */
  lemma ExactReround(f: Format, neg: bool, a: nat, b: nat, ideal: int)
    requires f.Valid() && b > 0 && a % MulPow(b, Quantum(f.p, a, b)) == 0
    ensures var o := RoundExact(f, ZeroFiveUp, neg, a, b, ideal);
      && o == RoundExact(f, Down, neg, a, b, ideal) && o.num.Finite? && o.num.neg == neg
      && (Inexact in o.raised ==> o.num.coeff % 5 != 0)
  {
    TenMore(f.p - 1);
    NinesLeave(Pow(10, f.p - 1));
    hide Pow, Quantum, Climb, MulPow;
  }

  lemma OverflowFree(f: Format, mode: Mode, neg: bool, a: nat, b: nat, ideal: int)
    requires f.Valid() && b > 0 && f.kmax > Quantum(f.p, a, b) + a
    ensures Overflow !in RoundExact(f, mode, neg, a, b, ideal).raised
  {
    hide RoundExact, Pow, Quantum;
    var k := Quantum(f.p, a, b);
    if a % MulPow(b, k) == 0 {
      var v := ExactOutcome(f, mode, neg, a, b, ideal);
      PowExceeds(f.p + f.kmax);
      MulMono(1, b, v);
    } else {
      var v, _ := InexactOutcome(f, mode, neg, a, b, ideal);
      BelowPower(a, b, f.p, k);
      PowAdd(10, f.p, k);
      MulMono(Rounded(mode, neg, a, MulPow(b, k)), Pow(10, f.p), Pow(10, k));
      PowMono(10, f.p + k, f.p + f.kmax);
    }
  }

  /** An exponent range wide enough to hold every rounding of a/b. */
  lemma WideEnough(f: Format, a: nat, b: nat) returns (g: Format)
    requires f.Valid() && b > 0
    ensures g.Valid() && g == f.(emax := g.emax) && f.emax <= g.emax
    ensures forall mode, neg, ideal :: Overflow !in RoundExact(g, mode, neg, a, b, ideal).raised
  {
    hide RoundExact, Quantum;
    g := f.(emax := f.emax + Quantum(f.p, a, b) + a + 1);
    forall mode, neg, ideal ensures Overflow !in RoundExact(g, mode, neg, a, b, ideal).raised {
      OverflowFree(g, mode, neg, a, b, ideal);
    }
  }

  /** Overflow as section 7.4 defines it: it is signalled exactly when the result that an unbounded
      exponent range would have given (that of a format g wide enough for it, see WideEnough) exceeds
      the largest finite number; otherwise the two ranges give the same magnitude and flags. */
  lemma OverflowIffUnboundedExceeds(f: Format, g: Format, mode: Mode, neg: bool, a: nat, b: nat, ideal: int,
                                    o: Outcome, u: Outcome)
    requires f.Valid() && b > 0 && g == f.(emax := g.emax) && f.emax <= g.emax
    requires o == RoundExact(f, mode, neg, a, b, ideal) && u == RoundExact(g, mode, neg, a, b, ideal)
    requires Overflow !in u.raised
    ensures
      && u.num.Finite? && Holds(g, u.num)
      && (Overflow in o.raised <==> Pow(10, f.p + f.kmax) <= Magnitude(g, u.num))
      && (Overflow in o.raised ==> Inexact in o.raised && o.num == Overflowed(f, mode, neg))
      && (Overflow !in o.raised ==> o.raised == u.raised && o.num.Finite? && Magnitude(f, o.num) == Magnitude(g, u.num))
  {
    hide RoundExact, Pow;
    if a % MulPow(b, Quantum(f.p, a, b)) == 0 {
      var v := ExactOutcome(f, mode, neg, a, b, ideal);
      var w := ExactOutcome(g, mode, neg, a, b, ideal);
      MulCancel(v, w, b);
    } else {
      var v, raised := InexactOutcome(f, mode, neg, a, b, ideal);
      var w, raised' := InexactOutcome(g, mode, neg, a, b, ideal);
    }
  }

  /** Round-for-reround does what its name says: a second rounding of its result to fewer digits,
      in any mode, gives what rounding the exact value once to those digits gives. */
  lemma ReroundIsSingleRounding(mode: Mode, neg: bool, neg': bool, n: nat, d: nat, j: nat)
    requires d > 0 && j > 0
    ensures d * Pow(10, j) > 0
    ensures Rounded(mode, neg, Rounded(ZeroFiveUp, neg', n, d), Pow(10, j)) == Rounded(mode, neg, n, d * Pow(10, j))
  {
    hide Pow;
    var q, r := n / d, n % d;
    var t := Pow(10, j);
    var c := Rounded(ZeroFiveUp, neg', n, d);
    MulPos(d, t);
    if r == 0 {
      assert n == q * d;
      RoundedScale(mode, neg, q, t, d);
    } else {
      var lo := 5 * (q / 5);
      assert lo <= q < lo + 5 && lo < c < lo + 5;
      forall i: nat ensures HalvesAgree(c, t, n, d * t, i) {
        Fives(lo, c, n, d, j, i);
      }
      SameTruncation(c, t, n, d * t);
      hide *;
      SameRounding(mode, neg, c, t, n, d * t);
    }
  }

  lemma Fives(lo: nat, c: nat, n: nat, d: nat, j: nat, i: nat)
    requires d > 0 && j > 0 && lo % 5 == 0 && lo < c < lo + 5
    requires n % d != 0 && lo <= n / d < lo + 5
    ensures HalvesAgree(c, Pow(10, j), n, d * Pow(10, j), i)
  {
    var half := 5 * Pow(10, j - 1);
    TenMore(j - 1);
    hide Pow;
    MultipleOfMultiple(5, 5, Pow(10, j - 1));
    MultipleOfMultiple(half, 5, i);
    WithinFive(lo, n, d);
    AgainstDoubled(n, d, 1, lo, 5, Pow(10, j), half, i);
    AgainstDoubled(c, 1, 1, lo, 5, Pow(10, j), half, i);
    MulAssoc(d, Pow(10, j), i);
  }

  lemma WithinFive(lo: nat, n: nat, d: nat)
    requires d > 0 && n % d != 0 && lo <= n / d < lo + 5
    ensures d * lo < n < d * (lo + 5)
  {
    DivBounds(n, d);
    MulMono(lo, n / d, d);
    MulMono(n / d + 1, lo + 5, d);
  }
}
