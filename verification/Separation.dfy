/** When two exact values are told apart by some rounding mode. */
module Separation {
  import opened Arith
  import opened Rounding
  import opened RoundingTheorems
  import opened ExactSum

  /** The magnitude that rounding picks, before any overflow. */
  function Delivered(f: Format, mode: Mode, neg: bool, a: nat, b: nat): nat
    requires b > 0 && f.p > 0
  {
    var k := Quantum(f.p, a, b);
    MulMono(0, Rounded(mode, neg, a, MulPow(b, k)), Pow(10, k));
    Rounded(mode, neg, a, MulPow(b, k)) * Pow(10, k)
  }

  lemma Delivers(f: Format, mode: Mode, neg: bool, a: nat, b: nat, ideal: int) returns (raised: set<Condition>)
    requires f.Valid() && b > 0
    ensures raised <= {Inexact, Underflow}
    ensures Stores(f, mode, neg, Delivered(f, mode, neg, a, b), raised, RoundExact(f, mode, neg, a, b, ideal))
  {
    hide Stores, RoundExact, Pow, Quantum;
    var k := Quantum(f.p, a, b);
    if a % MulPow(b, k) == 0 {
      var v := ExactOutcome(f, mode, neg, a, b, ideal);
      raised := {};
      ExactDelivered(a, b, Pow(10, k), v);
    } else {
      var v;
      v, raised := InexactOutcome(f, mode, neg, a, b, ideal);
    }
  }

  lemma ExactDelivered(a: nat, b: nat, t: nat, v: nat)
    requires b > 0 && t > 0 && b * t > 0 && a % (b * t) == 0 && v * b == a
    ensures a / (b * t) * t == v
  {
    DivBounds(a, b * t);
    SwapMiddle(a / (b * t), b, t);
    MulCancel(a / (b * t) * t, v, b);
  }

  /** Different magnitudes, not both out of range, are different results. */
  lemma DeliveredApart(f: Format, mode: Mode, neg: bool, a1: nat, b1: nat, i1: int, a2: nat, b2: nat, i2: int)
    requires f.Valid() && b1 > 0 && b2 > 0 && Delivered(f, mode, neg, a1, b1) < Pow(10, f.p + f.kmax)
    requires Delivered(f, mode, neg, a1, b1) != Delivered(f, mode, neg, a2, b2)
    ensures RoundExact(f, mode, neg, a1, b1, i1) != RoundExact(f, mode, neg, a2, b2, i2)
  {
    hide RoundExact, Pow, Delivered;
    var r1 := Delivers(f, mode, neg, a1, b1, i1);
    var r2 := Delivers(f, mode, neg, a2, b2, i2);
  }

  /* ---- A representable boundary ---- */

  /** c * 10^j, with no more than p digits or a power of ten, against the quantum of a/b. */
  lemma GridAgainst(p: nat, a: nat, b: nat, c: nat, j: nat) returns (n: nat)
    requires b > 0 && p > 0 && c <= Pow(10, p)
    ensures var k := Quantum(p, a, b);
      if k <= j then c * Pow(10, j) == n * Pow(10, k)
      else c * Pow(10, j) <= n * Pow(10, k) && b * (n * Pow(10, k)) <= a
  {
    hide Pow, Quantum;
    var k := Quantum(p, a, b);
    if k <= j {
      PowSplit(10, j, k);
      MulMono(0, c, Pow(10, j - k));
      n := c * Pow(10, j - k);
      MulAssoc(c, Pow(10, j - k), Pow(10, k));
    } else {
      n := Pow(10, p - 1);
      PowAdd(10, p - 1, k);
      PowAdd(10, p, j);
      MulMono(c, Pow(10, p), Pow(10, j));
      PowMono(10, p + j, p + k - 1);
    }
  }

  lemma DownIsFloor(f: Format, neg: bool, a: nat, b: nat)
    requires b > 0 && f.p > 0
    ensures Delivered(f, Down, neg, a, b) * b <= a
    ensures forall n: nat :: b * (n * Pow(10, Quantum(f.p, a, b))) <= a ==>
      n * Pow(10, Quantum(f.p, a, b)) <= Delivered(f, Down, neg, a, b)
  {
    hide Pow, Quantum;
    var t := Pow(10, Quantum(f.p, a, b));
    var d := MulPow(b, Quantum(f.p, a, b));
    DivBounds(a, d);
    SwapMiddle(a / d, b, t);
    forall n: nat | b * (n * t) <= a ensures n * t <= a / d * t {
      Commute(b, n, t);
      DivGe(a, d, n);
      MulMono(n, a / d, t);
    }
  }

  lemma UpIsCeiling(f: Format, neg: bool, a: nat, b: nat)
    requires b > 0 && f.p > 0
    ensures a <= Delivered(f, Up, neg, a, b) * b
    ensures forall n: nat :: a <= b * (n * Pow(10, Quantum(f.p, a, b))) ==>
      Delivered(f, Up, neg, a, b) <= n * Pow(10, Quantum(f.p, a, b))
  {
    hide Pow, Quantum;
    var t := Pow(10, Quantum(f.p, a, b));
    var d := MulPow(b, Quantum(f.p, a, b));
    DivBounds(a, d);
    var q := Rounded(Up, neg, a, d);
    SwapMiddle(q, b, t);
    assert (a / d + 1) * d == a / d * d + d;
    forall n: nat | a <= b * (n * t) ensures q * t <= n * t {
      Commute(b, n, t);
      CeilingLeast(a, d, q, n);
      MulMono(q, n, t);
    }
  }

  lemma CeilingLeast(a: nat, d: nat, q: nat, n: nat)
    requires d > 0 && q * d < a + d && a <= n * d
    ensures q <= n
  {
    assert (n + 1) * d == n * d + d;
    MulCancel(q, n + 1, d);
  }

  /* ---- A midpoint ---- */

  /** a/b lies between q and q + 1 quanta of 10^j. */
  ghost predicate InUnit(f: Format, a: nat, b: nat, q: nat, j: nat) {
    && f.p > 0 && q < Pow(10, f.p) && (j == 0 || Pow(10, f.p - 1) <= q)
    && b * (q * Pow(10, j)) <= a < b * ((q + 1) * Pow(10, j))
  }

  lemma UnitQuantum(f: Format, a: nat, b: nat, q: nat, j: nat)
    requires f.Valid() && b > 0 && InUnit(f, a, b, q, j)
    ensures Quantum(f.p, a, b) == j && a / MulPow(b, j) == q && a % MulPow(b, j) == a - b * (q * Pow(10, j))
  {
    hide Pow, Quantum;
    var t, d := Pow(10, j), MulPow(b, j);
    PowAdd(10, f.p, j);
    MulMono(q + 1, Pow(10, f.p), t);
    MulMono((q + 1) * t, Pow(10, f.p + j), b);
    if j > 0 {
      PowAdd(10, f.p - 1, j);
      MulMono(Pow(10, f.p - 1), q, t);
      MulMono(Pow(10, f.p + j - 1), q * t, b);
    }
    QuantumIs(f.p, a, b, j);
    Commute(b, q, t);
    Commute(b, q + 1, t);
    assert (q + 1) * d == q * d + d;
    DivModUnique(a, d, q, a - q * d);
  }

  /** Twice a/b against the midpoint q + 1/2 is twice the remainder against the quantum. */
  lemma MidpointTest(a: nat, b: nat, q: nat, t: nat)
    ensures 2 * a - b * ((2 * q + 1) * t) == 2 * (a - b * (q * t)) - b * t
  {
    assert (2 * q + 1) * t == 2 * (q * t) + t;
    assert b * (2 * (q * t) + t) == 2 * (b * (q * t)) + b * t;
  }

  /* ---- The same for scaled numbers ---- */

  /** Comparing with m * 10^(Etiny + j), in units of 10^Etiny. */
  lemma BelowInUnits(f: Format, c: nat, e: int, m: nat, j: nat)
    ensures Below(c, e, m, f.etiny + j) <==> UnitsNum(f, c, e) < UnitsDen(f, e) * (m * Pow(10, j))
    ensures Below(m, f.etiny + j, c, e) <==> UnitsDen(f, e) * (m * Pow(10, j)) < UnitsNum(f, c, e)
  {
    hide Pow, Below, Aligned, UnitsNum, UnitsDen;
    var base := Min(e, f.etiny);
    BelowAt(c, e, m, f.etiny + j, base);
    BelowAt(m, f.etiny + j, c, e, base);
    UnitsAt(f, c, e);
    BoundaryAt(f, e, m, j);
  }

  lemma UnitsAt(f: Format, c: nat, e: int)
    ensures Aligned(c, e, Min(e, f.etiny)) == UnitsNum(f, c, e)
  {
    hide Pow;
    AlignedSelf(c, e);
  }

  lemma BoundaryAt(f: Format, e: int, m: nat, j: nat)
    ensures Aligned(m, f.etiny + j, Min(e, f.etiny)) == UnitsDen(f, e) * (m * Pow(10, j))
  {
    hide Pow;
    if e < f.etiny {
      PowAdd(10, j, f.etiny - e);
      MulAssoc(m, Pow(10, j), Pow(10, f.etiny - e));
    }
  }

  lemma TwiceInUnits(f: Format, c: nat, e: int)
    ensures UnitsNum(f, 2 * c, e) == 2 * UnitsNum(f, c, e)
  {
    hide Pow;
    if e >= f.etiny { MulAssoc(2, c, Pow(10, e - f.etiny)); }
  }

  /** At least 10^(Emax + 1). */
  ghost predicate TooBig(f: Format, c: nat, e: int) {
    !Below(c, e, 1, f.emax + 1)
  }

  lemma TooBigInUnits(f: Format, c: nat, e: int)
    requires f.Valid()
    ensures TooBig(f, c, e) <==> UnitsNum(f, c, e) >= UnitsDen(f, e) * Pow(10, f.p + f.kmax)
  {
    hide Pow, Below;
    BelowInUnits(f, c, e, 1, f.p + f.kmax);
  }

  /** Everything that is too big overflows alike. */
  lemma BeyondTop(f: Format, mode: Mode, neg: bool, a: nat, b: nat, ideal: int)
    requires f.Valid() && b > 0 && a >= b * Pow(10, f.p + f.kmax)
    ensures RoundExact(f, mode, neg, a, b, ideal) == Outcome(Overflowed(f, mode, neg), {Overflow, Inexact})
  {
    hide Pow, RoundExact, Stores, Delivered, Overflowed;
    var raised := Delivers(f, mode, neg, a, b, ideal);
    var v := Delivered(f, mode, neg, a, b);
    assert v >= Pow(10, f.p + f.kmax) by { DeliveredAtLeast(f, mode, neg, a, b, 1, f.p + f.kmax); }
    NotTiny(f, mode, neg, a, b, ideal);
    AboveTop(f, mode, neg, v, raised, RoundExact(f, mode, neg, a, b, ideal));
  }

  lemma TooBigOverflows(f: Format, mode: Mode, neg: bool, c: nat, e: int)
    requires f.Valid() && TooBig(f, c, e)
    ensures RoundScaled(f, mode, neg, c, e) == Outcome(Overflowed(f, mode, neg), {Overflow, Inexact})
  {
    hide Pow, RoundExact, Overflowed;
    TooBigInUnits(f, c, e);
    BeyondTop(f, mode, neg, UnitsNum(f, c, e), UnitsDen(f, e), e - f.etiny);
  }

  /** No mode goes below a number of p digits that is not above the value. */
  lemma DeliveredAtLeast(f: Format, mode: Mode, neg: bool, a: nat, b: nat, c: nat, j: nat)
    requires f.Valid() && b > 0 && c <= Pow(10, f.p) && b * (c * Pow(10, j)) <= a
    ensures c * Pow(10, j) <= Delivered(f, mode, neg, a, b)
  {
    hide Pow, Quantum;
    DownIsFloor(f, neg, a, b);
    var n := GridAgainst(f.p, a, b, c, j);
    var k := Quantum(f.p, a, b);
    assert b * (n * Pow(10, k)) <= a;
    MulMono(a / MulPow(b, k), Rounded(mode, neg, a, MulPow(b, k)), Pow(10, k));
  }

  /** No mode goes above a number of p digits that is not below the value. */
  lemma DeliveredAtMost(f: Format, mode: Mode, neg: bool, a: nat, b: nat, c: nat, j: nat)
    requires f.Valid() && b > 0 && c <= Pow(10, f.p) && a <= b * (c * Pow(10, j))
    ensures Delivered(f, mode, neg, a, b) <= c * Pow(10, j)
  {
    hide Pow, Quantum, Delivered, MulPow, Rounded;
    var n := GridCovers(f.p, a, b, c, j);
    UpIsCeiling(f, neg, a, b);
    NoneAboveUp(f, mode, neg, a, b);
  }

  /** A multiple of the quantum between a/b and a number of p digits above it. */
  lemma GridCovers(p: nat, a: nat, b: nat, c: nat, j: nat) returns (n: nat)
    requires b > 0 && p > 0 && c <= Pow(10, p) && a <= b * (c * Pow(10, j))
    ensures var t := Pow(10, Quantum(p, a, b)); a <= b * (n * t) && n * t <= c * Pow(10, j)
  {
    hide *;
    n := GridAgainst(p, a, b, c, j);
    if Quantum(p, a, b) > j { Squeezed(a, b, c * Pow(10, j), n * Pow(10, Quantum(p, a, b))); }
  }

  lemma Squeezed(a: nat, b: nat, x: nat, y: nat)
    requires b > 0 && a <= b * x && x <= y && b * y <= a
    ensures y == x
  {
    MulMono(x, y, b);
    MulCancel(y, x, b);
  }

  lemma NoneAboveUp(f: Format, mode: Mode, neg: bool, a: nat, b: nat)
    requires b > 0 && f.p > 0
    ensures Delivered(f, mode, neg, a, b) <= Delivered(f, Up, neg, a, b)
  {
    hide Pow, Quantum;
    var k := Quantum(f.p, a, b);
    MulMono(Rounded(mode, neg, a, MulPow(b, k)), Rounded(Up, neg, a, MulPow(b, k)), Pow(10, k));
  }

  lemma NotTiny(f: Format, mode: Mode, neg: bool, a: nat, b: nat, ideal: int)
    requires f.Valid() && b > 0 && a >= b * Pow(10, f.p + f.kmax)
    ensures Underflow !in RoundExact(f, mode, neg, a, b, ideal).raised
  {
    hide Pow, RoundExact;
    PowMono(10, f.p - 1, f.p + f.kmax);
    MulMono(Pow(10, f.p - 1), Pow(10, f.p + f.kmax), b);
    UnderflowIffTiny(f, mode, neg, a, b, ideal);
  }

  lemma AboveTop(f: Format, mode: Mode, neg: bool, v: nat, raised: set<Condition>, o: Outcome)
    requires f.Valid() && v >= Pow(10, f.p + f.kmax) && raised <= {Inexact, Underflow} && Underflow !in o.raised
    requires Stores(f, mode, neg, v, raised, o)
    ensures o == Outcome(Overflowed(f, mode, neg), {Overflow, Inexact})
  {
    hide Pow, Overflowed;
    assert Underflow !in raised;
    assert raised + {Overflow, Inexact} == {Overflow, Inexact};
  }

  /** c * 10^e lies between q and q + 1 units of 10^(Etiny + j). */
  ghost predicate InUnitScaled(f: Format, c: nat, e: int, q: nat, j: nat) {
    && f.p > 0 && q < Pow(10, f.p) && (j == 0 || Pow(10, f.p - 1) <= q)
    && !Below(c, e, q, f.etiny + j) && Below(c, e, q + 1, f.etiny + j)
  }

  lemma InUnits(f: Format, c: nat, e: int, q: nat, j: nat)
    requires InUnitScaled(f, c, e, q, j)
    ensures InUnit(f, UnitsNum(f, c, e), UnitsDen(f, e), q, j)
  {
    hide Pow, Below, UnitsNum, UnitsDen;
    BelowInUnits(f, c, e, q, j);
    BelowInUnits(f, c, e, q + 1, j);
  }
}
