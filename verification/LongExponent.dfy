/** Exactly when the code may replace an exponent that is too long by a merely large one. */
module LongExponent {
  import opened Arith
  import opened Digits
  import opened Rounding
  import opened Sticky
  import opened ExactSum
  import opened Separation
  import opened OneMode
  import opened IntegerDivision
  import opened NumericString

  /* ---- Values out of the format's range ---- */

  /** Not zero, and below half of 10^Etiny. */
  ghost predicate TooSmall(f: Format, c: nat, e: int) {
    c > 0 && Below(2 * c, e, 1, f.etiny)
  }

  /** What every number that is too small becomes. */
  function Vanished(f: Format, mode: Mode, neg: bool): Outcome
    requires f.p > 0
  {
    FitRounded(f, mode, neg, if Away(mode, neg, 0, 1, 10) then 1 else 0, 0, {Inexact, Underflow})
  }

  lemma SmallVanishes(f: Format, mode: Mode, neg: bool, c: nat, e: int)
    requires f.Valid() && TooSmall(f, c, e)
    ensures RoundScaled(f, mode, neg, c, e) == Vanished(f, mode, neg)
  {
    hide RoundExact, FitRounded, Below;
    BelowInUnits(f, 2 * c, e, 1, 0);
    TwiceInUnits(f, c, e);
    assert Pow(10, 0) == 1;
    hide Pow;
    Vanishes(f, mode, neg, UnitsNum(f, c, e), UnitsDen(f, e), e - f.etiny);
  }

  lemma Vanishes(f: Format, mode: Mode, neg: bool, a: nat, b: nat, ideal: int)
    requires f.Valid() && 0 < a && 2 * a < b
    ensures RoundExact(f, mode, neg, a, b, ideal) == Vanished(f, mode, neg)
  {
    hide Pow, FitRounded, Quantum;
    assert Pow(10, 0) == 1 by { SmallPowers(); }
    MulMono(1, Pow(10, f.p), b);
    MulMono(1, Pow(10, f.p - 1), b);
    QuantumIs(f.p, a, b, 0);
    DivModUnique(a, b, 0, a);
    assert {Inexact} + {Underflow} == {Inexact, Underflow};
  }

  function Clamped(f: Format, e: int): int { Max(f.etiny, Min(e, f.etop)) }

  lemma ZeroClamped(f: Format, mode: Mode, neg: bool, e: int)
    requires f.Valid()
    ensures RoundScaled(f, mode, neg, 0, e) == Outcome(Finite(neg, 0, Clamped(f, e)), {})
  {
    hide Pow;
    assert UnitsNum(f, 0, e) == 0;
    var b := UnitsDen(f, e);
    MulPos(b, Pow(10, f.p));
    QuantumIs(f.p, 0, b, 0);
    ClimbZero(b, e - f.etiny);
    hide MulPow, Climb;
    assert 0 / MulPow(b, Climb(0, b, 0, e - f.etiny)) == 0;
  }

  lemma ClimbZero(b: nat, ideal: int)
    requires b > 0
    ensures 0 % MulPow(b, 0) == 0 && Climb(0, b, 0, ideal) == Max(0, ideal)
  {
    hide MulPow;
    ZeroMod(MulPow(b, Climb(0, b, 0, ideal) + 1));
  }

  lemma ZeroMod(m: nat)
    requires m > 0
    ensures 0 % m == 0
  {}

  /* ---- Two exponents for one coefficient ---- */

  /** Two exponents that make no difference to a coefficient of c. */
  ghost predicate Interchangeable(f: Format, c: nat, x: int, y: int) {
    if c == 0 then Clamped(f, x) == Clamped(f, y)
    else x == y || (TooBig(f, c, x) && TooBig(f, c, y)) || (TooSmall(f, c, x) && TooSmall(f, c, y))
  }

  lemma InterchangeableAgree(f: Format, mode: Mode, neg: bool, c: nat, x: int, y: int)
    requires f.Valid() && Interchangeable(f, c, x, y)
    ensures RoundScaled(f, mode, neg, c, x) == RoundScaled(f, mode, neg, c, y)
  {
    hide RoundScaled, TooBig, TooSmall;
    if c == 0 {
      ZeroClamped(f, mode, neg, x);
      ZeroClamped(f, mode, neg, y);
    } else if x != y {
      if TooBig(f, c, x) && TooBig(f, c, y) {
        TooBigOverflows(f, mode, neg, c, x);
        TooBigOverflows(f, mode, neg, c, y);
      } else {
        SmallVanishes(f, mode, neg, c, x);
        SmallVanishes(f, mode, neg, c, y);
      }
    }
  }

  /** The side of the middle between q and q + 1 units of 10^(Etiny + j). */
  ghost function SideOf(f: Format, c: nat, e: int, q: nat, j: nat): Side {
    if Below(2 * c, e, 2 * q + 1, f.etiny + j) then Low
    else if Below(2 * q + 1, f.etiny + j, 2 * c, e) then High
    else Middle
  }

  /** At least 10^(Emax + 1), or above the largest finite number and moved away from zero. */
  ghost predicate Over(f: Format, mode: Mode, neg: bool, c: nat, e: int)
    requires f.Valid()
  {
    var q := Pow(10, f.p) - 1;
    TooBig(f, c, e)
    || (Below(q, f.etiny + f.kmax, c, e) && Moves(mode, neg, q, SideOf(f, c, e, q, f.kmax)))
  }

  /** Two exponents that make no difference to a coefficient of c in one given mode: the lower one overflows
      already; or the value is below one unit of 10^Etiny with the higher one, on a side that the mode treats
      like the lower half; or the value lies between one and two units with the higher one, and the mode takes
      both to one unit. */
  ghost predicate InterchangeableIn(f: Format, mode: Mode, neg: bool, c: nat, x: int, y: int)
    requires f.Valid()
  {
    var lo, hi := Min(x, y), Max(x, y);
    if c == 0 then Clamped(f, x) == Clamped(f, y)
    else
      || x == y
      || Over(f, mode, neg, c, lo)
      || (Below(c, hi, 1, f.etiny) && Moves(mode, neg, 0, Low) == Moves(mode, neg, 0, SideOf(f, c, hi, 0, 0)))
      || (mode == ZeroFiveUp && Below(1, f.etiny, c, hi) && Below(c, hi, 2, f.etiny))
  }

  lemma SideIs(f: Format, c: nat, e: int, q: nat, j: nat)
    requires InUnitScaled(f, c, e, q, j) && Below(q, f.etiny + j, c, e)
    ensures OnSide(f, UnitsNum(f, c, e), UnitsDen(f, e), q, j, SideOf(f, c, e, q, j))
  {
    hide Pow, Below, UnitsNum, UnitsDen;
    InUnits(f, c, e, q, j);
    BelowInUnits(f, c, e, q, j);
    BelowInUnits(f, 2 * c, e, 2 * q + 1, j);
    TwiceInUnits(f, c, e);
  }

  /** Overflow is what Over says. */
  lemma OverIff(f: Format, mode: Mode, neg: bool, c: nat, e: int)
    requires f.Valid()
    ensures Overflow in RoundScaled(f, mode, neg, c, e).raised <==> Over(f, mode, neg, c, e)
    ensures Over(f, mode, neg, c, e) ==>
      RoundScaled(f, mode, neg, c, e) == Outcome(Overflowed(f, mode, neg), {Overflow, Inexact})
  {
    hide Pow, RoundExact, TooBig, Below, Moves, Overflowed, UnitsNum, UnitsDen, SideOf;
    var q := Pow(10, f.p) - 1;
    if TooBig(f, c, e) {
      TooBigOverflows(f, mode, neg, c, e);
    } else if Below(q, f.etiny + f.kmax, c, e) {
      TopUnit(f, mode, neg, c, e, SideOf(f, c, e, q, f.kmax));
    } else {
      BelowInUnits(f, c, e, q, f.kmax);
      WithinRange(f, mode, neg, UnitsNum(f, c, e), UnitsDen(f, e), e - f.etiny);
    }
  }

  lemma TopUnit(f: Format, mode: Mode, neg: bool, c: nat, e: int, s: Side)
    requires f.Valid() && !TooBig(f, c, e) && Below(Pow(10, f.p) - 1, f.etiny + f.kmax, c, e)
    requires s == SideOf(f, c, e, Pow(10, f.p) - 1, f.kmax)
    ensures RoundScaled(f, mode, neg, c, e).raised ==
      if Moves(mode, neg, Pow(10, f.p) - 1, s) then {Overflow, Inexact} else {Inexact}
    ensures Moves(mode, neg, Pow(10, f.p) - 1, s) ==> RoundScaled(f, mode, neg, c, e).num == Overflowed(f, mode, neg)
  {
    hide Pow, RoundExact, TooBig, Below, Moves, Overflowed, UnitsNum, UnitsDen, SideOf, Quantum, MulPow, Delivered,
         OnSide, Normal, Tiny, Flags;
    var q, j := Pow(10, f.p) - 1, f.kmax;
    TopUnitIs(f, c, e);
    SideIs(f, c, e, q, j);
    var a, b := UnitsNum(f, c, e), UnitsDen(f, e);
    SideDelivers(f, mode, neg, a, b, q, j, s);
    InexactResult(f, mode, neg, a, b, e - f.etiny);
    FlagsAre(f, a, b);
    PowAdd(10, f.p, j);
    MultipleRises(q, Pow(10, j));
    assert {Inexact} + {Overflow, Inexact} == {Overflow, Inexact};
  }

  lemma TopUnitIs(f: Format, c: nat, e: int)
    requires f.Valid() && !TooBig(f, c, e) && Below(Pow(10, f.p) - 1, f.etiny + f.kmax, c, e)
    ensures InUnitScaled(f, c, e, Pow(10, f.p) - 1, f.kmax)
  {
    TenMore(f.p - 1);
    hide Pow, UnitsNum, UnitsDen, TooBig, Below;
    TooBigInUnits(f, c, e);
    PowAdd(10, f.p, f.kmax);
    BelowInUnits(f, c, e, Pow(10, f.p), f.kmax);
    BelowInUnits(f, c, e, Pow(10, f.p) - 1, f.kmax);
  }

  /** What is not above the largest finite number does not overflow. */
  lemma WithinRange(f: Format, mode: Mode, neg: bool, a: nat, b: nat, ideal: int)
    requires f.Valid() && b > 0 && a <= b * ((Pow(10, f.p) - 1) * Pow(10, f.kmax))
    ensures Overflow !in RoundExact(f, mode, neg, a, b, ideal).raised
  {
    hide Pow, RoundExact, Delivered;
    var raised := Delivers(f, mode, neg, a, b, ideal);
    DeliveredAtMost(f, mode, neg, a, b, Pow(10, f.p) - 1, f.kmax);
    PowAdd(10, f.p, f.kmax);
    MulStrict(Pow(10, f.p) - 1, Pow(10, f.p), Pow(10, f.kmax));
  }

  /** If the lower exponent overflows, the higher one is too big. */
  lemma HigherOver(f: Format, mode: Mode, neg: bool, c: nat, x: int, y: int)
    requires f.Valid() && x < y && Over(f, mode, neg, c, x)
    ensures TooBig(f, c, y)
  {
    hide Pow, Below, Moves, SideOf, UnitsNum, UnitsDen;
    var k := f.p - 1 + f.kmax;
    if Below(c, y, 1, f.emax + 1) {
      BelowLower(c, x + 1, y, 1, f.emax + 1);
      BelowShift(c, x + 1, 1, f.emax + 1);
      TenLess(f);
      BelowInUnits(f, c, x, 1, k);
      BelowInUnits(f, c, x, Pow(10, f.p) - 1, f.kmax);
      BelowInUnits(f, c, x, 1, k + 1);
      MulMono(Pow(10, k), Pow(10, k + 1), UnitsDen(f, x));
      MulMono(Pow(10, k), (Pow(10, f.p) - 1) * Pow(10, f.kmax), UnitsDen(f, x));
    }
  }

  lemma TenLess(f: Format)
    requires f.Valid()
    ensures Pow(10, f.p - 1 + f.kmax) <= (Pow(10, f.p) - 1) * Pow(10, f.kmax)
    ensures Pow(10, f.p - 1 + f.kmax) <= Pow(10, f.p + f.kmax)
  {
    TenMore(f.p - 1);
    hide Pow;
    PowAdd(10, f.p - 1, f.kmax);
    PowMono(10, f.p - 1 + f.kmax, f.p + f.kmax);
    MulMono(Pow(10, f.p - 1), Pow(10, f.p) - 1, Pow(10, f.kmax));
  }

  lemma BelowShift(c: nat, x: int, m: nat, k: int)
    ensures Below(c, x, m, k) <==> Below(c, x - 1, m, k - 1)
  {
    hide Pow;
  }

  lemma AlignedIs(m: nat, e: int, base: int)
    requires base <= e
    ensures Aligned(m, e, base) == Multiple(m, Pow(10, e - base))
  {}

  /** Comparing with m * 10^k, read off the digits of c. */
  lemma PowersBelow(c: nat, x: int, m: nat, n: nat, k: int)
    requires c < Multiple(m, Pow(10, n)) && n + x <= k
    ensures Below(c, x, m, k)
  {
    hide Pow, Aligned, Multiple;
    var b := Min(x, k);
    BelowAt(c, x, m, k, b);
    AlignedIs(c, x, b);
    AlignedIs(m, k, b);
    PowAdd(10, n, x - b);
    PowMono(10, n + (x - b), k - b);
    Scaled(c, m, Pow(10, n), Pow(10, x - b), Pow(10, k - b));
  }

  lemma Scaled(c: nat, m: nat, t: nat, u: nat, v: nat)
    requires c < Multiple(m, t) && u > 0 && t * u <= v
    ensures Multiple(c, u) < Multiple(m, v)
  {
    MulStrict(c, m * t, u);
    MulAssoc(m, t, u);
    MulMono(t * u, v, m);
  }

  lemma PowersNotBelow(c: nat, y: int, m: nat, n: nat, k: int)
    requires Multiple(m, Pow(10, n)) <= c && k <= n + y
    ensures !Below(c, y, m, k)
  {
    hide Pow, Aligned, Multiple;
    var b := Min(y, k);
    BelowAt(c, y, m, k, b);
    AlignedIs(c, y, b);
    AlignedIs(m, k, b);
    PowAdd(10, n, y - b);
    PowMono(10, k - b, n + (y - b));
    ScaledBack(c, m, Pow(10, n), Pow(10, y - b), Pow(10, k - b));
  }

  lemma ScaledBack(c: nat, m: nat, t: nat, u: nat, v: nat)
    requires Multiple(m, t) <= c && v <= t * u
    ensures Multiple(m, v) <= Multiple(c, u)
  {
    MulMono(m * t, c, u);
    MulAssoc(m, t, u);
    MulMono(v, t * u, m);
  }

  lemma BelowLower(c: nat, x: int, y: int, m: nat, k: int)
    requires x <= y
    ensures Below(c, y, m, k) ==> Below(c, x, m, k)
  {
    hide Pow, Aligned;
    var b := Min(x, k);
    BelowAt(c, y, m, k, b);
    BelowAt(c, x, m, k, b);
    AlignedOf(c, x, b);
    AlignedOf(c, y, b);
    PowMono(10, x - b, y - b);
    MulMono(Pow(10, x - b), Pow(10, y - b), c);
  }

  lemma LargerToo(f: Format, c: nat, x: int, y: int)
    requires f.Valid() && c > 0 && x < y
    ensures (TooBig(f, c, x) ==> TooBig(f, c, y)) && (TooSmall(f, c, y) ==> TooSmall(f, c, x))
  {
    hide Pow;
    BelowLower(c, x, y, 1, f.emax + 1);
    BelowLower(2 * c, x, y, 1, f.etiny);
  }

  /** Values on different sides of a gap between two numbers of p digits, the lower one in range. */
  lemma GapApart(f: Format, mode: Mode, neg: bool, c: nat, x: int, m1: nat, j1: nat, y: int, m2: nat, j2: nat)
    requires f.Valid() && m1 <= Pow(10, f.p) && m2 <= Pow(10, f.p)
    requires Multiple(m1, Pow(10, j1)) < Multiple(m2, Pow(10, j2))
    requires Below(c, x, m1, f.etiny + j1) && !Below(c, y, m2, f.etiny + j2) && !Over(f, mode, neg, c, x)
    ensures RoundScaled(f, mode, neg, c, x) != RoundScaled(f, mode, neg, c, y)
  {
    hide Pow, Below, Over, RoundExact, UnitsNum, UnitsDen, Delivered;
    OverIff(f, mode, neg, c, x);
    BelowInUnits(f, c, x, m1, j1);
    BelowInUnits(f, c, y, m2, j2);
    var a1, b1, a2, b2 := UnitsNum(f, c, x), UnitsDen(f, x), UnitsNum(f, c, y), UnitsDen(f, y);
    DeliveredAtMost(f, mode, neg, a1, b1, m1, j1);
    DeliveredAtLeast(f, mode, neg, a2, b2, m2, j2);
    var raised := Delivers(f, mode, neg, a1, b1, x - f.etiny);
    DeliveredApart(f, mode, neg, a1, b1, x - f.etiny, a2, b2, y - f.etiny);
  }

  /** From two units on the lower exponent's value, at most a tenth of the other's, is always told apart. */
  lemma FarApart(f: Format, mode: Mode, neg: bool, c: nat, x: int, y: int, n: nat)
    requires f.Valid() && c > 0 && x < y && n == NumDigits(c) - 1 && !Over(f, mode, neg, c, x)
    requires n + y > f.etiny || (n + y == f.etiny && Multiple(2, Pow(10, n)) <= c)
    ensures RoundScaled(f, mode, neg, c, x) != RoundScaled(f, mode, neg, c, y)
  {
    hide Pow, NumDigits, Below, Over, RoundExact, Multiple;
    NumDigitsBounds(c);
    var j := n + y - f.etiny;
    MultipleOne(n + 1);
    MultipleOne(n);
    TwoRoom(f, j);
    if Multiple(2, Pow(10, n)) <= c {
      PowersBelow(c, x, 1, n + 1, n + y);
      PowersNotBelow(c, y, 2, n, n + y);
      GapApart(f, mode, neg, c, x, 1, j, y, 2, j);
    } else {
      PowersBelow(c, x, 2, n, n + y - 1);
      PowersNotBelow(c, y, 1, n, n + y);
      GapApart(f, mode, neg, c, x, 2, j - 1, y, 1, j);
    }
  }

  lemma MultipleOne(n: nat)
    ensures Multiple(1, Pow(10, n)) == Pow(10, n)
  {}

  lemma TwoRoom(f: Format, j: nat)
    requires f.Valid()
    ensures 2 <= Pow(10, f.p) && Multiple(1, Pow(10, j)) < Multiple(2, Pow(10, j))
    ensures j > 0 ==> Multiple(2, Pow(10, j - 1)) < Multiple(1, Pow(10, j))
  {
    TenMore(f.p - 1);
    if j > 0 { TenMore(j - 1); }
  }

  /** Below one unit. */
  lemma BelowUnitIff(f: Format, mode: Mode, neg: bool, c: nat, x: int, y: int, n: nat)
    requires f.Valid() && c > 0 && x < y && n == NumDigits(c) - 1 && n + y < f.etiny
    ensures RoundScaled(f, mode, neg, c, x) == RoundScaled(f, mode, neg, c, y)
      <==> Moves(mode, neg, 0, Low) == Moves(mode, neg, 0, SideOf(f, c, y, 0, 0))
  {
    TenMore(n + 1);
    hide Pow, NumDigits, Below, Moves, RoundExact, UnitsNum, UnitsDen, OnSide, SideOf;
    NumDigitsBounds(c);
    PowersBelow(c, y, 1, n + 1, f.etiny);
    PowersBelow(c, x, 1, n + 1, f.etiny);
    PowersBelow(2 * c, x, 1, n + 2, f.etiny);
    LowSide(f, c, x);
    FirstUnit(f, c, x);
    FirstUnit(f, c, y);
    SameUnitIff(f, mode, neg, UnitsNum(f, c, x), UnitsDen(f, x), x - f.etiny, Low,
                UnitsNum(f, c, y), UnitsDen(f, y), y - f.etiny, SideOf(f, c, y, 0, 0), 0, 0);
  }

  lemma FirstUnit(f: Format, c: nat, e: int)
    requires f.Valid() && c > 0 && Below(c, e, 1, f.etiny)
    ensures OnSide(f, UnitsNum(f, c, e), UnitsDen(f, e), 0, 0, SideOf(f, c, e, 0, 0))
    ensures UnitsNum(f, c, e) < UnitsDen(f, e) * Pow(10, f.p + f.kmax)
  {
    hide Pow, SideOf, UnitsNum, UnitsDen;
    NotBelowZero(c, e, f.etiny);
    SideIs(f, c, e, 0, 0);
    BelowInUnits(f, c, e, 1, 0);
    SmallPowers();
    PowMono(10, 0, f.p + f.kmax);
    MulMono(1, Pow(10, f.p + f.kmax), UnitsDen(f, e));
  }

  lemma NotBelowZero(c: nat, e: int, k: int)
    ensures !Below(c, e, 0, k)
    ensures c > 0 ==> Below(0, k, c, e)
  {
    assert forall t: nat :: 0 * t == 0;
    if c > 0 { MulPos(c, Pow(10, e - Min(e, k))); }
  }

  lemma OnlyZeroFiveUp(mode: Mode, neg: bool, s: Side)
    ensures Moves(mode, neg, 0, Low) && !Moves(mode, neg, 1, s) <==> mode == ZeroFiveUp
  {}

  /** Between one unit, included, and two. */
  lemma OneUnitIff(f: Format, mode: Mode, neg: bool, c: nat, x: int, y: int, n: nat)
    requires f.Valid() && c > 0 && x < y && n == NumDigits(c) - 1 && n + y == f.etiny && c < Multiple(2, Pow(10, n))
    ensures RoundScaled(f, mode, neg, c, x) == RoundScaled(f, mode, neg, c, y)
      <==> mode == ZeroFiveUp && Below(1, f.etiny, c, y)
  {
    TenMore(n);
    hide Pow, NumDigits, Below, Moves, RoundExact, UnitsNum, UnitsDen, OnSide, SideOf, Quantum, MulPow;
    NumDigitsBounds(c);
    PowersBelow(c, x, 1, n + 1, f.etiny);
    PowersBelow(2 * c, x, 1, n + 1, f.etiny);
    PowersBelow(c, y, 2, n, f.etiny);
    PowersNotBelow(c, y, 1, n, f.etiny);
    FirstUnit(f, c, x);
    LowSide(f, c, x);
    if Below(1, f.etiny, c, y) {
      BetweenUnits(f, mode, neg, c, x, y);
    } else {
      ExactlyOne(f, mode, neg, c, x, y);
    }
  }

  lemma LowSide(f: Format, c: nat, e: int)
    requires Below(2 * c, e, 1, f.etiny)
    ensures SideOf(f, c, e, 0, 0) == Low
  {}

  lemma BetweenUnits(f: Format, mode: Mode, neg: bool, c: nat, x: int, y: int)
    requires f.Valid() && Below(1, f.etiny, c, y) && Below(c, y, 2, f.etiny) && !Below(c, y, 1, f.etiny)
    requires OnSide(f, UnitsNum(f, c, x), UnitsDen(f, x), 0, 0, Low)
    ensures RoundScaled(f, mode, neg, c, x) == RoundScaled(f, mode, neg, c, y) <==> mode == ZeroFiveUp
  {
    SmallPowers();
    PowMono(10, 1, f.p - 1);
    PowMono(10, f.p - 1, f.p);
    PowMono(10, 1, f.p + f.kmax);
    hide Pow, Below, Moves, RoundExact, UnitsNum, UnitsDen, OnSide, SideOf, Quantum, MulPow, Delivered, Tiny;
    var a1, b1, a2, b2 := UnitsNum(f, c, x), UnitsDen(f, x), UnitsNum(f, c, y), UnitsDen(f, y);
    SideIs(f, c, y, 1, 0);
    var s := SideOf(f, c, y, 1, 0);
    SideDelivers(f, mode, neg, a1, b1, 0, 0, Low);
    SideDelivers(f, mode, neg, a2, b2, 1, 0, s);
    InexactSame(f, mode, neg, a1, b1, x - f.etiny, a2, b2, y - f.etiny);
    OnlyZeroFiveUp(mode, neg, s);
  }

  lemma ExactlyOne(f: Format, mode: Mode, neg: bool, c: nat, x: int, y: int)
    requires f.Valid() && !Below(1, f.etiny, c, y) && !Below(c, y, 1, f.etiny)
    requires OnSide(f, UnitsNum(f, c, x), UnitsDen(f, x), 0, 0, Low)
    ensures RoundScaled(f, mode, neg, c, x) != RoundScaled(f, mode, neg, c, y)
  {
    SmallPowers();
    PowMono(10, 1, f.p);
    PowMono(10, 1, f.p + f.kmax);
    hide Pow, Below, RoundExact, UnitsNum, UnitsDen, OnSide, Quantum, MulPow, Delivered, Tiny, Normal, Flags,
         Overflowed;
    var a1, b1, a2, b2 := UnitsNum(f, c, x), UnitsDen(f, x), UnitsNum(f, c, y), UnitsDen(f, y);
    BelowInUnits(f, c, y, 1, 0);
    NumberIsExact(f, mode, neg, a2, b2, y - f.etiny, 1, 0);
    SideDelivers(f, mode, neg, a1, b1, 0, 0, Low);
    InexactResult(f, mode, neg, a1, b1, x - f.etiny);
    FlagsAre(f, a1, b1);
  }

  /** The place of the leading digit against one and two units. */
  lemma LeadingPlace(f: Format, c: nat, y: int, n: nat)
    requires c > 0 && n == NumDigits(c) - 1
    ensures Below(c, y, 1, f.etiny) <==> n + y < f.etiny
    ensures Below(c, y, 2, f.etiny) <==> n + y < f.etiny || (n + y == f.etiny && c < Multiple(2, Pow(10, n)))
  {
    TenMore(n);
    hide Pow, NumDigits, Below;
    NumDigitsBounds(c);
    if n + y < f.etiny {
      PowersBelow(c, y, 1, n + 1, f.etiny);
      PowersBelow(c, y, 2, n + 1, f.etiny);
    } else {
      PowersNotBelow(c, y, 1, n, f.etiny);
      if n + y > f.etiny {
        PowersNotBelow(c, y, 1, n, f.etiny + 1);
        TwoBelowTen(f, c, y);
      } else if c < Multiple(2, Pow(10, n)) {
        PowersBelow(c, y, 2, n, f.etiny);
      } else {
        PowersNotBelow(c, y, 2, n, f.etiny);
      }
    }
  }

  lemma TwoBelowTen(f: Format, c: nat, y: int)
    requires !Below(c, y, 1, f.etiny + 1)
    ensures !Below(c, y, 2, f.etiny)
  {
    SmallPowers();
    hide Pow, Below, UnitsNum, UnitsDen;
    BelowInUnits(f, c, y, 1, 1);
    BelowInUnits(f, c, y, 2, 0);
  }

  lemma OrderedInMode(f: Format, mode: Mode, neg: bool, c: nat, x: int, y: int)
    requires f.Valid() && c > 0 && x < y
    ensures RoundScaled(f, mode, neg, c, x) == RoundScaled(f, mode, neg, c, y)
      <==> InterchangeableIn(f, mode, neg, c, x, y)
  {
    hide Pow, RoundScaled, Over, Below, Moves, SideOf, NumDigits, Multiple;
    var n := NumDigits(c) - 1;
    NumDigitsBounds(c);
    OverIff(f, mode, neg, c, x);
    LeadingPlace(f, c, y, n);
    if Over(f, mode, neg, c, x) {
      HigherOver(f, mode, neg, c, x, y);
      TooBigOverflows(f, mode, neg, c, y);
    } else if n + y < f.etiny {
      BelowUnitIff(f, mode, neg, c, x, y, n);
      OneIsAbove(f, c, y);
    } else if n + y == f.etiny && c < Multiple(2, Pow(10, n)) {
      OneUnitIff(f, mode, neg, c, x, y, n);
    } else {
      FarApart(f, mode, neg, c, x, y, n);
    }
  }

  lemma OneIsAbove(f: Format, c: nat, y: int)
    requires Below(c, y, 1, f.etiny)
    ensures !Below(1, f.etiny, c, y)
  {
    hide Pow;
  }

  /** Two exponents give one coefficient the same result in one given mode exactly when they are
      interchangeable in it. */
  lemma ExponentsInMode(f: Format, mode: Mode, neg: bool, c: nat, x: int, y: int)
    requires f.Valid()
    ensures RoundScaled(f, mode, neg, c, x) == RoundScaled(f, mode, neg, c, y)
      <==> InterchangeableIn(f, mode, neg, c, x, y)
  {
    hide RoundScaled, Over, Below, Moves, SideOf;
    if c == 0 {
      ZeroClamped(f, mode, neg, x);
      ZeroClamped(f, mode, neg, y);
    } else if x < y {
      OrderedInMode(f, mode, neg, c, x, y);
    } else if y < x {
      OrderedInMode(f, mode, neg, c, y, x);
    }
  }

  /** Exponents that are not interchangeable are told apart by rounding down or to nearest. */
  lemma ToldByDownOrHalfUp(f: Format, neg: bool, c: nat, x: int, y: int)
    requires f.Valid() && !Interchangeable(f, c, x, y)
    ensures !InterchangeableIn(f, Down, neg, c, x, y) || !InterchangeableIn(f, HalfUp, neg, c, x, y)
  {
    hide Pow, Below;
    var lo, hi := Min(x, y), Max(x, y);
    if c > 0 {
      LargerToo(f, c, lo, hi);
      if Below(c, hi, 1, f.etiny) {
        BelowLower(c, lo, hi, 1, f.etiny);
        NotNearTop(f, c, lo);
        OneIsAbove(f, c, hi);
      }
    }
  }

  lemma NotNearTop(f: Format, c: nat, e: int)
    requires f.Valid() && Below(c, e, 1, f.etiny)
    ensures !Below(Pow(10, f.p) - 1, f.etiny + f.kmax, c, e)
  {
    SmallPowers();
    PowMono(10, 1, f.p);
    hide Pow, Below, UnitsNum, UnitsDen;
    BelowInUnits(f, c, e, 1, 0);
    BelowInUnits(f, c, e, Pow(10, f.p) - 1, f.kmax);
    MulPos(Pow(10, f.p) - 1, Pow(10, f.kmax));
    MulMono(1, (Pow(10, f.p) - 1) * Pow(10, f.kmax), UnitsDen(f, e));
  }

  /** They give the same result in every mode exactly when they are interchangeable. */
  lemma ExponentsAgreeIff(f: Format, neg: bool, c: nat, x: int, y: int)
    requires f.Valid()
    ensures (forall mode :: RoundScaled(f, mode, neg, c, x) == RoundScaled(f, mode, neg, c, y))
      <==> Interchangeable(f, c, x, y)
  {
    hide RoundScaled, Interchangeable, InterchangeableIn;
    if Interchangeable(f, c, x, y) {
      forall mode ensures RoundScaled(f, mode, neg, c, x) == RoundScaled(f, mode, neg, c, y) {
        InterchangeableAgree(f, mode, neg, c, x, y);
      }
    } else {
      ToldByDownOrHalfUp(f, neg, c, x, y);
      ExponentsInMode(f, Down, neg, c, x, y);
      ExponentsInMode(f, HalfUp, neg, c, x, y);
    }
  }

  /* ---- Numerals ---- */

  /** A spelling is converted to the exact value it spells, rounded once in the mode given, exactly when the
      exponent the code uses and the true one are interchangeable in it for its digits. */
  lemma AnyExponentInMode(t: TextFormat, mode: Mode, n: Numeral)
    requires t.Valid() && WellFormed(n)
    ensures Reads(t, mode, Spell(n)) == NumeralReading(t, mode, n, TrueExponent(n.suffix))
      <==> InterchangeableIn(t.f, mode, n.mark == Minus, Val(n.digits), CodeExponent(t, n.suffix) - |n.fraction|,
                             TrueExponent(n.suffix) - |n.fraction|)
  {
    hide Read, Spell, RoundScaled, CodeExponent, TrueExponent, InterchangeableIn, Val;
    SpellReads(n);
    ExponentsInMode(t.f, mode, n.mark == Minus, Val(n.digits), CodeExponent(t, n.suffix) - |n.fraction|,
                    TrueExponent(n.suffix) - |n.fraction|);
  }

  /** It is that in every mode exactly when the two exponents are interchangeable in all. */
  lemma AnyExponentIsRounded(t: TextFormat, n: Numeral)
    requires t.Valid() && WellFormed(n)
    ensures (forall mode :: Reads(t, mode, Spell(n)) == NumeralReading(t, mode, n, TrueExponent(n.suffix)))
      <==> Interchangeable(t.f, Val(n.digits), CodeExponent(t, n.suffix) - |n.fraction|,
                           TrueExponent(n.suffix) - |n.fraction|)
  {
    hide Read, Spell, RoundScaled, CodeExponent, TrueExponent, Interchangeable, Val;
    SpellReads(n);
    var c, neg := Val(n.digits), n.mark == Minus;
    var x, y := CodeExponent(t, n.suffix) - |n.fraction|, TrueExponent(n.suffix) - |n.fraction|;
    ExponentsAgreeIff(t.f, neg, c, x, y);
    forall mode ensures Reads(t, mode, Spell(n)) == NumeralReading(t, mode, n, TrueExponent(n.suffix))
      <==> RoundScaled(t.f, mode, neg, c, x) == RoundScaled(t.f, mode, neg, c, y) {
    }
  }

  /** 0.000...01E1000 with eight hundred zeros is 1E+199, but in decDouble it is read as 1E-33. */
  lemma ManyDigitsMisread(mode: Mode)
    ensures var n := Numeral(Unmarked, [0], true, Zeros(800) + [1], Exponent('E', Unmarked, [1, 0, 0, 0]));
      && WellFormed(n)
      && NumeralReading(DOUBLE_TEXT, mode, n, TrueExponent(n.suffix)) == Reading(Value(Finite(false, 1, 199)), {})
      && Reads(DOUBLE_TEXT, mode, Spell(n)) == Reading(Value(Finite(false, 1, -33)), {})
  {
    hide Read, Spell, RoundScaled, Zeros, Pow, Val, Significant;
    var n := Numeral(Unmarked, [0], true, Zeros(800) + [1], Exponent('E', Unmarked, [1, 0, 0, 0]));
    SpellReads(n);
    BothAreValid();
    assert n.digits == Zeros(801) + [1];
    ValPadded(801, [1]);
    ValOne(1);
    PowExceeds(16);
    SignificantStays([1, 0, 0, 0]);
    ThousandDigits();
    HeldExactly(DOUBLE, mode, false, 1, 199);
    HeldExactly(DOUBLE, mode, false, 1, -33);
  }

  lemma SignificantStays(s: seq<nat>)
    requires s != [] && s[0] != 0
    ensures Significant(s) == s
  {}

  lemma ThousandDigits()
    ensures Val([1, 0, 0, 0]) == 1000
  {
    hide Val;
    SmallPowers();
    assert [1, 0, 0, 0] == [1] + Zeros(3);
    ValPadded(3, [1]);
    ValOne(1);
  }
}
