/** decFloatNextPlus and decFloatNextMinus: the neighbours of a number, found by adding a tiny delta
    with a directed rounding. */
module NextNumber {
  import opened Arith
  import opened Rounding
  import opened RoundingTheorems
  import opened Context
  import opened ExactSum
  import opened FusedAdd
  import opened Addition
  import IntegerDivision

  /* ---- Order, in units of the least quantum ---- */

  /** The value of a finite number, in units of 10^Etiny. */
  function Place(f: Format, x: Number): int
    requires x.Finite?
  {
    if x.neg then -(Magnitude(f, x) as int) else Magnitude(f, x)
  }

  /** x < y numerically, for numbers that are not NaNs. */
  predicate LessThan(f: Format, x: Number, y: Number) {
    match (x, y)
    case (Finite(_, _, _), Finite(_, _, _)) => Place(f, x) < Place(f, y)
    case (Finite(_, _, _), Infinite(neg)) => !neg
    case (Infinite(neg), Finite(_, _, _)) => neg
    case (Infinite(nx), Infinite(ny)) => nx && !ny
    case _ => false
  }

  function Negated(x: Number): Number {
    match x
    case Finite(neg, c, e) => Finite(!neg, c, e)
    case Infinite(neg) => Infinite(!neg)
    case NaN(_) => x
  }

  /** DFSETNMAX */
  function Nmax(f: Format, neg: bool): Number {
    Finite(neg, Pow(10, f.p) - 1, f.etop)
  }

  /* ---- What the two operations return ---- */

  /** x + delta rounded in a direction, with the sign of an exact zero corrected. */
  function Stepped(f: Format, mode: Mode, x: Number, down: bool): Number
    requires f.p > 0 && x.Finite?
  {
    var y := SumOutcome(f, mode, x.neg, x.coeff, x.exp, down, 1, f.etiny).num;
    if y.Finite? && y.coeff == 0 then y.(neg := !y.neg) else y
  }

  function NextUp(f: Format, x: Number): Number
    requires f.p > 0
  {
    match x
    case Finite(_, _, _) => Stepped(f, Ceiling, x, false)
    case Infinite(neg) => if neg then Nmax(f, true) else x
    case NaN(_) => NaN(false)
  }

  function NextDown(f: Format, x: Number): Number
    requires f.p > 0
  {
    match x
    case Finite(_, _, _) => Stepped(f, Floor, x, true)
    case Infinite(neg) => if neg then x else Nmax(f, false)
    case NaN(_) => NaN(false)
  }

  /* ---- The sum with delta ---- */

  lemma ScaledAtTiny(f: Format, mode: Mode, neg: bool, c: nat)
    requires f.p > 0
    ensures RoundScaled(f, mode, neg, c, f.etiny) == RoundExact(f, mode, neg, c, 1, 0)
  {
    SmallPowers();
    hide RoundExact, Pow;
  }

  lemma SumWithTiny(f: Format, mode: Mode, x: Number, down: bool)
    requires f.Valid() && Holds(f, x)
    ensures var m := Magnitude(f, x);
      SumOutcome(f, mode, x.neg, x.coeff, x.exp, down, 1, f.etiny)
      == if x.neg == down then RoundExact(f, mode, down, m + 1, 1, 0)
         else if m == 0 then RoundExact(f, mode, down, 1, 1, 0)
         else if m == 1 then RoundExact(f, mode, mode == Floor, 0, 1, 0)
         else RoundExact(f, mode, x.neg, m - 1, 1, 0)
  {
    hide SumOutcome, RoundScaled, RoundExact, Pow;
    var m := Magnitude(f, x);
    SumAligned(f, mode, x.neg, x.coeff, x.exp, down, 1, f.etiny, m);
    ScaledAtTiny(f, mode, down, m + 1);
    ScaledAtTiny(f, mode, down, 1);
    ScaledAtTiny(f, mode, mode == Floor, 0);
    if m > 0 { ScaledAtTiny(f, mode, x.neg, m - 1); }
  }

  /** Rounding mirrors when both the direction and the sign do. */
  lemma MirrorRound(f: Format, neg: bool, a: nat, b: nat, ideal: int)
    requires f.p > 0 && b > 0
    ensures RoundExact(f, Floor, !neg, a, b, ideal).num == Negated(RoundExact(f, Ceiling, neg, a, b, ideal).num)
  {
    hide Pow, Quantum, Climb;
    var k := Quantum(f.p, a, b);
    var d := MulPow(b, k);
    if a % d == 0 {
      var kk := Climb(a, b, k, ideal);
      MirrorFit(f, neg, a / MulPow(b, kk), kk, {});
    } else {
      var c := Rounded(Ceiling, neg, a, d);
      assert Rounded(Floor, !neg, a, d) == c;
      var raised := {Inexact} + if a < MulPow(b, f.p - 1) then {Underflow} else {};
      MirrorFit(f, neg, c, k, raised);
      MirrorFit(f, neg, Pow(10, f.p - 1), k + 1, raised);
    }
  }

  lemma MirrorFit(f: Format, neg: bool, c: nat, k: nat, raised: set<Condition>)
    ensures Fit(f, Floor, !neg, c, k, raised).num == Negated(Fit(f, Ceiling, neg, c, k, raised).num)
  {
    hide Pow;
  }

  lemma MagnitudeOf(f: Format, x: Number)
    requires x.Finite?
    ensures Magnitude(f, x) == Magnitude(f, Negated(x)) && Place(f, Negated(x)) == -Place(f, x)
  {}

  /** Next-down is next-up of the negated number, negated. */
  lemma DownMirrorsUp(f: Format, x: Number)
    requires f.Valid() && IsNumber(f, x) && !x.NaN?
    ensures NextDown(f, x) == Negated(NextUp(f, Negated(x)))
  {
    hide SumOutcome, RoundExact, Pow, Magnitude;
    if x.Finite? {
      var y := Negated(x);
      var m := Magnitude(f, x);
      MagnitudeOf(f, x);
      SumWithTiny(f, Floor, x, true);
      SumWithTiny(f, Ceiling, y, false);
      MirrorRound(f, false, m + 1, 1, 0);
      MirrorRound(f, false, 1, 1, 0);
      MirrorRound(f, false, 0, 1, 0);
      if m > 0 { MirrorRound(f, y.neg, m - 1, 1, 0); }
    }
  }

  /* ---- Adjacency ---- */

  lemma OneRepresentable(f: Format)
    requires f.Valid()
    ensures Representable(f, 1) && Representable(f, 0)
  {
    SmallPowers();
    PowMono(10, 1, f.p);
    hide Pow;
    assert Written(f, 1, 1, 0);
    assert Written(f, 0, 0, 0);
  }

  lemma ZeroMagnitude(f: Format, x: Number)
    requires x.Finite?
    ensures Magnitude(f, x) == 0 <==> x.coeff == 0
  {
    if x.coeff > 0 { MulPos(x.coeff, Pow(10, Max(x.exp - f.etiny, 0))); }
  }

  /** Upwards from zero or above: the least representable magnitude that is greater. */
  lemma StepUpPositive(f: Format, m: nat, z: nat)
    requires f.Valid() && Representable(f, z)
    ensures var y := RoundExact(f, Ceiling, false, m + 1, 1, 0).num;
      && !y.NaN? && !y.neg
      && (y.Finite? ==> Holds(f, y) && Magnitude(f, y) > m && (z > m ==> Magnitude(f, y) <= z))
      && (y.Infinite? ==> z <= m)
  {
    hide RoundExact, Pow, Magnitude;
    AwayFromZeroIsLeast(f, Ceiling, false, m + 1, 1, 0, z);
    ResultHolds(f, Ceiling, false, m + 1, 1, 0);
  }

  /** Upwards from below the least negative number: the greatest representable magnitude that is less. */
  lemma StepUpNegative(f: Format, m: nat, z: nat)
    requires f.Valid() && Representable(f, z) && m > 1
    ensures var y := RoundExact(f, Ceiling, true, m - 1, 1, 0).num;
      && Holds(f, y) && y.neg && 0 < Magnitude(f, y) < m && (z < m ==> z <= Magnitude(f, y))
  {
    hide RoundExact, Pow, Magnitude;
    OneRepresentable(f);
    TowardZeroIsGreatest(f, Ceiling, true, m - 1, 1, 0, z);
    TowardZeroIsGreatest(f, Ceiling, true, m - 1, 1, 0, 1);
    ResultHolds(f, Ceiling, true, m - 1, 1, 0);
  }

  lemma ExactZero(f: Format, mode: Mode, neg: bool)
    requires f.Valid()
    ensures var y := RoundExact(f, mode, neg, 0, 1, 0).num; Holds(f, y) && y.coeff == 0 && y.neg == neg
  {
    hide RoundExact, Pow;
    OneRepresentable(f);
    RepresentableIsExact(f, mode, neg, 0, 1, 0, 0);
    ResultHolds(f, mode, neg, 0, 1, 0);
    ZeroMagnitude(f, RoundExact(f, mode, neg, 0, 1, 0).num);
  }

  /** nextUp: numerically above x, with no representable number in between. */
  lemma NextUpIsAdjacent(f: Format, x: Number, z: Number)
    requires f.Valid() && Holds(f, x) && IsNumber(f, z) && !z.NaN?
    ensures var y := NextUp(f, x);
      && IsNumber(f, y) && !y.NaN? && LessThan(f, x, y) && !(LessThan(f, x, z) && LessThan(f, z, y))
  {
    hide RoundExact, SumOutcome, Pow, Magnitude;
    var m := Magnitude(f, x);
    var mz := if z.Finite? then Magnitude(f, z) else 0;
    OneRepresentable(f);
    if z.Finite? { HeldIsRepresentable(f, z); }
    SumWithTiny(f, Ceiling, x, false);
    if !x.neg || m == 0 {
      var y := RoundExact(f, Ceiling, false, m + 1, 1, 0).num;
      StepUpPositive(f, m, mz);
      if y.Finite? { ZeroMagnitude(f, y); }
    } else if m == 1 {
      ExactZero(f, Ceiling, false);
      ZeroMagnitude(f, NextUp(f, x));
    } else {
      StepUpNegative(f, m, mz);
      ZeroMagnitude(f, RoundExact(f, Ceiling, true, m - 1, 1, 0).num);
    }
  }

  /** nextDown mirrors it. */
  lemma NextDownIsAdjacent(f: Format, x: Number, z: Number)
    requires f.Valid() && Holds(f, x) && IsNumber(f, z) && !z.NaN?
    ensures var y := NextDown(f, x);
      && IsNumber(f, y) && !y.NaN? && LessThan(f, y, x) && !(LessThan(f, y, z) && LessThan(f, z, x))
  {
    hide RoundExact, SumOutcome, Pow, Magnitude, NextUp, NextDown;
    DownMirrorsUp(f, x);
    NextUpIsAdjacent(f, Negated(x), Negated(z));
    MagnitudeOf(f, x);
    if z.Finite? { MagnitudeOf(f, z); }
    var y := NextUp(f, Negated(x));
    if y.Finite? { MagnitudeOf(f, y); }
  }

  lemma NmaxPlace(f: Format, neg: bool)
    requires f.Valid()
    ensures Holds(f, Nmax(f, neg)) && Magnitude(f, Nmax(f, neg)) == (Pow(10, f.p) - 1) * Pow(10, f.kmax)
  {
    hide Pow;
    MulMono(1, 1, Pow(10, f.p));
  }

  /** Down after up comes back to the same value, through the zeros and through infinity. */
  lemma DownUndoesUp(f: Format, x: Number)
    requires f.Valid() && Holds(f, x)
    ensures var w := NextDown(f, NextUp(f, x)); Holds(f, w) && Place(f, w) == Place(f, x)
  {
    hide Pow, Magnitude, NextUp, NextDown;
    var y := NextUp(f, x);
    NextUpIsAdjacent(f, x, x);
    if y.Finite? {
      NextDownIsAdjacent(f, y, x);
      var w := NextDown(f, y);
      if w.Finite? { NextUpIsAdjacent(f, x, w); }
    } else {
      NmaxPlace(f, false);
      HeldIsRepresentable(f, x);
      RepresentableBelowTop(f, Magnitude(f, x));
      NextUpIsAdjacent(f, x, Nmax(f, false));
      assert NextDown(f, y) == Nmax(f, false) by { DownFromInfinity(f); }
    }
  }

  lemma DownFromInfinity(f: Format)
    requires f.p > 0
    ensures NextDown(f, Infinite(false)) == Nmax(f, false)
  {
    hide Pow;
  }

  /** And up after down. */
  lemma UpUndoesDown(f: Format, x: Number)
    requires f.Valid() && Holds(f, x)
    ensures var w := NextUp(f, NextDown(f, x)); Holds(f, w) && Place(f, w) == Place(f, x)
  {
    hide Pow, Magnitude, NextUp, NextDown;
    var v := Negated(x);
    MagnitudeOf(f, x);
    DownUndoesUp(f, v);
    DownMirrorsUp(f, x);
    var y := NextUp(f, v);
    NextUpIsAdjacent(f, v, v);
    DownMirrorsUp(f, y);
    assert Negated(Negated(NextUp(f, Negated(y)))) == NextUp(f, Negated(y));
    var w := NextUp(f, Negated(y));
    assert w.Finite? by { assert Negated(w).Finite?; }
    MagnitudeOf(f, w);
  }

  /** An infinity has a neighbour on its inner side only: the largest finite number of its sign. */
  lemma NextOfInfinity(f: Format, z: Number)
    requires f.Valid() && IsNumber(f, z) && !z.NaN?
    ensures NextUp(f, Infinite(false)) == Infinite(false) && NextDown(f, Infinite(true)) == Infinite(true)
    ensures var y := NextUp(f, Infinite(true));
      Holds(f, y) && y.neg && !(LessThan(f, Infinite(true), z) && LessThan(f, z, y))
    ensures var y := NextDown(f, Infinite(false));
      Holds(f, y) && !y.neg && !(LessThan(f, y, z) && LessThan(f, z, Infinite(false)))
  {
    hide Pow, Magnitude;
    NmaxPlace(f, true);
    NmaxPlace(f, false);
    if z.Finite? {
      HeldIsRepresentable(f, z);
      RepresentableBelowTop(f, Magnitude(f, z));
    }
  }

  /** A zero that is reached has the sign of the side it was reached from, and the least exponent. */
  lemma ZeroReached(f: Format, x: Number)
    requires f.Valid() && Holds(f, x)
    ensures var y := NextUp(f, x); y.Finite? && y.coeff == 0 ==> y.neg && y.exp == f.etiny
    ensures var y := NextDown(f, x); y.Finite? && y.coeff == 0 ==> !y.neg && y.exp == f.etiny
  {
    hide RoundExact, SumOutcome, Pow, Magnitude, NextDown, NextUp;
    UpToZero(f, x);
    UpToZero(f, Negated(x));
    DownMirrorsUp(f, x);
  }

  lemma UpToZero(f: Format, x: Number)
    requires f.Valid() && Holds(f, x)
    ensures var y := NextUp(f, x); y.Finite? && y.coeff == 0 ==> y.neg && y.exp == f.etiny
  {
    hide RoundExact, SumOutcome, Pow, Magnitude;
    var m := Magnitude(f, x);
    SumWithTiny(f, Ceiling, x, false);
    OneRepresentable(f);
    if !x.neg || m == 0 {
      NeverZero(f, false, m + 1);
    } else if m == 1 {
      ZeroAtTiny(f);
    } else {
      NeverZero(f, true, m - 1);
    }
  }

  lemma NeverZero(f: Format, neg: bool, m: nat)
    requires f.Valid() && m > 0
    ensures var y := RoundExact(f, Ceiling, neg, m, 1, 0).num; y.Finite? ==> y.coeff > 0
  {
    hide RoundExact, Pow, Magnitude;
    var y := RoundExact(f, Ceiling, neg, m, 1, 0).num;
    OneRepresentable(f);
    if neg {
      TowardZeroIsGreatest(f, Ceiling, neg, m, 1, 0, 1);
    } else {
      AwayFromZeroIsLeast(f, Ceiling, neg, m, 1, 0, 1);
    }
    if y.Finite? { ZeroMagnitude(f, y); }
  }

  lemma ZeroAtTiny(f: Format)
    requires f.Valid()
    ensures RoundExact(f, Ceiling, false, 0, 1, 0).num == Finite(false, 0, f.etiny)
  {
    hide RoundExact, Pow;
    ScaledAtTiny(f, Ceiling, false, 0);
    TinyHeld(f, false);
    IntegerDivision.HeldExactly(f, Ceiling, false, 0, f.etiny);
  }

  /* ---- The two operations ---- */

  /** The save, the directed addition and the restore that both operations share. */
  method Step(f: Format, x: Number, ctx: DecContext, mode: Mode, down: bool) returns (df: Number)
    requires f.Valid() && f.p % 3 == 1 && IsNumber(f, x) && (x.Infinite? ==> x.neg == down)
    modifies ctx
    ensures ctx.round == old(ctx.round)
    ensures ctx.status == old(ctx.status) + NaNRaises(x, x)
    ensures x.Finite? ==> df == Stepped(f, mode, x, down)
    ensures x.Infinite? ==> df == x
    ensures x.NaN? ==> df == NaN(false)
  {
    hide SumOutcome, Pow;
    TinyHeld(f, down);
    var delta := Finite(down, 1, f.etiny);
    var saveround := ctx.round;
    ctx.round := mode;
    var savestat := ctx.status;
    df := FloatAdd(f, x, delta, ctx);
    if x.Finite? { SumRaisesNoInvalid(f, mode, x.neg, x.coeff, x.exp, down, 1, f.etiny); }
    if df.Finite? && df.coeff == 0 {
      df := df.(neg := !df.neg);
    }
    ctx.status := ctx.status * {InvalidOperation};
    ctx.status := ctx.status + savestat;
    ctx.round := saveround;
  }

  lemma TinyHeld(f: Format, neg: bool)
    requires f.Valid()
    ensures Holds(f, Finite(neg, 1, f.etiny))
  {
    SmallPowers();
    PowMono(10, 1, f.p);
    hide Pow;
  }

  lemma RoundRaisesNoInvalid(f: Format, mode: Mode, neg: bool, a: nat, b: nat, ideal: int)
    requires f.p > 0 && b > 0
    ensures InvalidOperation !in RoundExact(f, mode, neg, a, b, ideal).raised
  {
    hide Pow, Quantum, Climb, Rounded, MulPow;
  }

  lemma SumRaisesNoInvalid(f: Format, mode: Mode, n1: bool, c1: nat, e1: int, n2: bool, c2: nat, e2: int)
    requires f.p > 0
    ensures InvalidOperation !in SumOutcome(f, mode, n1, c1, e1, n2, c2, e2).raised
  {
    hide RoundExact, UnitsNum, UnitsDen, Aligned;
    var e := Min(e1, e2);
    var x, y := Aligned(c1, e1, e), Aligned(c2, e2, e);
    RoundRaisesNoInvalid(f, mode, n1, UnitsNum(f, x + y, e), UnitsDen(f, e), e - f.etiny);
    if x > y { RoundRaisesNoInvalid(f, mode, n1, UnitsNum(f, x - y, e), UnitsDen(f, e), e - f.etiny); }
    if y > x { RoundRaisesNoInvalid(f, mode, n2, UnitsNum(f, y - x, e), UnitsDen(f, e), e - f.etiny); }
    RoundRaisesNoInvalid(f, mode, mode == Floor, UnitsNum(f, 0, e), UnitsDen(f, e), e - f.etiny);
  }

  /** decFloatNextPlus. The context's mode and flags are as they were, but for a signalling NaN. */
  method NextPlus(f: Format, x: Number, ctx: DecContext) returns (df: Number)
    requires f.Valid() && f.p % 3 == 1 && IsNumber(f, x)
    modifies ctx
    ensures df == NextUp(f, x)
    ensures ctx.round == old(ctx.round) && ctx.status == old(ctx.status) + NaNRaises(x, x)
  {
    hide Stepped, Pow;
    if x.Infinite? && x.neg {
      df := Nmax(f, true);
      return;
    }
    df := Step(f, x, ctx, Ceiling, false);
  }

  /** decFloatNextMinus. */
  method NextMinus(f: Format, x: Number, ctx: DecContext) returns (df: Number)
    requires f.Valid() && f.p % 3 == 1 && IsNumber(f, x)
    modifies ctx
    ensures df == NextDown(f, x)
    ensures ctx.round == old(ctx.round) && ctx.status == old(ctx.status) + NaNRaises(x, x)
  {
    hide Stepped, Pow;
    if x.Infinite? && !x.neg {
      df := Nmax(f, false);
      return;
    }
    df := Step(f, x, ctx, Floor, true);
  }
}
