/** When two inexact values round alike in one given mode. */
module OneMode {
  import opened Arith
  import opened Rounding
  import opened Sticky
  import opened RoundingTheorems
  import opened Separation

  /* ---- What decides an inexact result ---- */

  /** Below 10^Emin. */
  ghost predicate Tiny(f: Format, a: nat, b: nat)
    requires f.p > 0
  {
    a < b * Pow(10, f.p - 1)
  }

  /** A number that cannot be written with a lower exponent. */
  ghost predicate Normal(f: Format, x: Number)
    requires x.Finite? && f.p > 0
  {
    x.exp == f.etiny || Pow(10, f.p - 1) <= x.coeff
  }

  lemma NormalUnique(f: Format, x: Number, y: Number)
    requires f.Valid() && Holds(f, x) && Holds(f, y) && Normal(f, x) && Normal(f, y)
    requires x.neg == y.neg && Magnitude(f, x) == Magnitude(f, y)
    ensures x == y
  {
    hide Pow;
    if x.exp < y.exp { LowerIsLess(f, x, y); }
    if y.exp < x.exp { LowerIsLess(f, y, x); }
    MulCancel(x.coeff, y.coeff, Pow(10, x.exp - f.etiny));
  }

  lemma LowerIsLess(f: Format, x: Number, y: Number)
    requires f.Valid() && Holds(f, x) && Holds(f, y) && Normal(f, y) && x.exp < y.exp
    ensures Magnitude(f, x) < Magnitude(f, y)
  {
    hide Pow;
    var i, j := x.exp - f.etiny, y.exp - f.etiny;
    MulStrict(x.coeff, Pow(10, f.p), Pow(10, i));
    PowAdd(10, f.p, i);
    PowMono(10, f.p + i, f.p - 1 + j);
    PowAdd(10, f.p - 1, j);
    MulMono(Pow(10, f.p - 1), y.coeff, Pow(10, j));
  }

  lemma FittedNormal(f: Format, mode: Mode, neg: bool, c: nat, k: nat, raised: set<Condition>)
    requires f.Valid() && c <= Pow(10, f.p) && (k == 0 || Pow(10, f.p - 1) <= c) && Overflow !in raised
    ensures var o := FitRounded(f, mode, neg, c, k, raised);
      Overflow !in o.raised ==> o.num.Finite? && Normal(f, o.num)
  {
    var x, i := if c == Pow(10, f.p) then Pow(10, f.p - 1) else c, if c == Pow(10, f.p) then k + 1 else k;
    PowMono(10, f.p - 1, f.p);
    if i > f.kmax {
      var t := Pow(10, i - f.kmax);
      PowMono(10, 1, i - f.kmax);
      SmallPowers();
      PowAdd(10, f.p - 1, 1);
      hide Pow;
      MulMono(Pow(10, f.p - 1), x, t);
      MulMono(10, t, Pow(10, f.p - 1));
    }
  }

  /** An inexact result as the magnitude delivered and the conditions. */
  lemma InexactResult(f: Format, mode: Mode, neg: bool, a: nat, b: nat, ideal: int)
    requires f.Valid() && b > 0 && a % MulPow(b, Quantum(f.p, a, b)) != 0
    ensures var o, v := RoundExact(f, mode, neg, a, b, ideal), Delivered(f, mode, neg, a, b);
      && Stores(f, mode, neg, v, Flags(f, a, b), o)
      && (Overflow !in o.raised ==> o.num.Finite? && Normal(f, o.num))
  {
    hide Pow, Quantum, MulPow, Rounded, RoundExact, Stores, FitRounded, Normal;
    var k := Quantum(f.p, a, b);
    var v, raised := InexactOutcome(f, mode, neg, a, b, ideal);
    InexactCase(f, mode, neg, a, b, ideal);
    BelowPower(a, b, f.p, k);
    if k > 0 { BelowPower(a, b, f.p - 1, k); }
    RoundedBetween(mode, neg, a, MulPow(b, k));
    FittedNormal(f, mode, neg, Rounded(mode, neg, a, MulPow(b, k)), k, Flags(f, a, b));
  }

  lemma TinyBelowTop(f: Format, mode: Mode, neg: bool, a: nat, b: nat)
    requires f.Valid() && b > 0 && Tiny(f, a, b)
    ensures Delivered(f, mode, neg, a, b) < Pow(10, f.p + f.kmax)
  {
    SmallPowers();
    hide Pow;
    PowMono(10, f.p - 1, f.p);
    MulMono(Pow(10, f.p - 1), Pow(10, f.p), b);
    QuantumIs(f.p, a, b, 0);
    BelowPower(a, b, f.p - 1, 0);
    RoundedBetween(mode, neg, a, MulPow(b, 0));
    PowMono(10, f.p - 1, f.p + f.kmax);
    hide Quantum, Rounded;
    assert Delivered(f, mode, neg, a, b) == Rounded(mode, neg, a, MulPow(b, 0)) * 1;
  }

  /** Two inexact values give the same result exactly when the same magnitude is delivered and both or
      neither are tiny, or both overflow. */
  lemma InexactSame(f: Format, mode: Mode, neg: bool, a1: nat, b1: nat, i1: int, a2: nat, b2: nat, i2: int)
    requires f.Valid() && b1 > 0 && b2 > 0
    requires a1 % MulPow(b1, Quantum(f.p, a1, b1)) != 0 && a2 % MulPow(b2, Quantum(f.p, a2, b2)) != 0
    ensures var v1, v2, top := Delivered(f, mode, neg, a1, b1), Delivered(f, mode, neg, a2, b2), Pow(10, f.p + f.kmax);
      RoundExact(f, mode, neg, a1, b1, i1) == RoundExact(f, mode, neg, a2, b2, i2)
      <==> (v1 >= top && v2 >= top) || (v1 == v2 && (Tiny(f, a1, b1) <==> Tiny(f, a2, b2)))
  {
    hide Pow, Quantum, MulPow, RoundExact, Delivered, Normal;
    InexactResult(f, mode, neg, a1, b1, i1);
    InexactResult(f, mode, neg, a2, b2, i2);
    if Tiny(f, a1, b1) { TinyBelowTop(f, mode, neg, a1, b1); }
    if Tiny(f, a2, b2) { TinyBelowTop(f, mode, neg, a2, b2); }
    FlagsAre(f, a1, b1);
    FlagsAre(f, a2, b2);
    hide Flags, Overflowed;
    var o1, o2 := RoundExact(f, mode, neg, a1, b1, i1), RoundExact(f, mode, neg, a2, b2, i2);
    var v1, v2 := Delivered(f, mode, neg, a1, b1), Delivered(f, mode, neg, a2, b2);
    if v1 == v2 && v1 < Pow(10, f.p + f.kmax) && (Tiny(f, a1, b1) <==> Tiny(f, a2, b2)) {
      NormalUnique(f, o1.num, o2.num);
    }
  }

  lemma FlagsAre(f: Format, a: nat, b: nat)
    requires f.p > 0 && b > 0
    ensures Flags(f, a, b) == if Tiny(f, a, b) then {Inexact, Underflow} else {Inexact}
  {
    hide Pow;
  }

  /* ---- A value within a unit ---- */

  /** Where a value lies in its unit. */
  datatype Side = Low | Middle | High

  /** Does the mode move a value above q, on that side of the middle, away from zero? */
  predicate Moves(mode: Mode, neg: bool, q: nat, s: Side) {
    Away(mode, neg, q, match s case Low => 1 case Middle => 2 case High => 3, 4)
  }

  /** a/b lies strictly between q and q + 1 quanta of 10^j, on side s. */
  ghost predicate OnSide(f: Format, a: nat, b: nat, q: nat, j: nat, s: Side) {
    && InUnit(f, a, b, q, j) && b * (q * Pow(10, j)) < a
    && (s.Low? <==> 2 * a < b * ((2 * q + 1) * Pow(10, j)))
    && (s.High? <==> 2 * a > b * ((2 * q + 1) * Pow(10, j)))
  }

  lemma SideDecides(mode: Mode, neg: bool, a: nat, d: nat, s: Side)
    requires d > 0 && a % d != 0 && (s.Low? <==> 2 * (a % d) < d) && (s.High? <==> 2 * (a % d) > d)
    ensures a / d >= 0 && Rounded(mode, neg, a, d) == a / d + if Moves(mode, neg, a / d, s) then 1 else 0
  {}

  /** The remainder against the middle. */
  lemma SideRest(f: Format, a: nat, b: nat, q: nat, j: nat, s: Side)
    requires f.Valid() && b > 0 && OnSide(f, a, b, q, j, s)
    ensures Quantum(f.p, a, b) == j && a / MulPow(b, j) == q
    ensures var r, d := a % MulPow(b, j), MulPow(b, j); 0 < r < d && (s.Low? <==> 2 * r < d) && (s.High? <==> 2 * r > d)
  {
    hide Pow, Quantum;
    UnitQuantum(f, a, b, q, j);
    MidpointTest(a, b, q, Pow(10, j));
  }

  lemma SideDelivers(f: Format, mode: Mode, neg: bool, a: nat, b: nat, q: nat, j: nat, s: Side)
    requires f.Valid() && b > 0 && OnSide(f, a, b, q, j, s)
    ensures a % MulPow(b, Quantum(f.p, a, b)) != 0
    ensures Delivered(f, mode, neg, a, b) == Multiple(if Moves(mode, neg, q, s) then q + 1 else q, Pow(10, j))
    ensures Tiny(f, a, b) <==> j == 0 && q < Pow(10, f.p - 1)
  {
    SideTiny(f, a, b, q, j, s);
    SideRest(f, a, b, q, j, s);
    hide Pow, Quantum, Moves, Tiny, Rounded, OnSide, MulPow;
    SideDecides(mode, neg, a, MulPow(b, j), s);
  }

  lemma SideTiny(f: Format, a: nat, b: nat, q: nat, j: nat, s: Side)
    requires f.Valid() && b > 0 && OnSide(f, a, b, q, j, s)
    ensures Tiny(f, a, b) <==> j == 0 && q < Pow(10, f.p - 1)
  {
    var t, n := Pow(10, j), Pow(10, f.p - 1);
    assert j == 0 ==> t == 1;
    hide Pow;
    if j == 0 {
      if q < n { MulMono(q + 1, n, b); } else { MulMono(n, q, b); }
    } else {
      MulMono(n, q, t);
      MulMono(1, t, n);
      MulMono(n, q * t, b);
    }
  }

  /** Two values in one unit give one result exactly when both or neither are moved. */
  lemma SameUnitIff(f: Format, mode: Mode, neg: bool, a1: nat, b1: nat, i1: int, s1: Side,
                    a2: nat, b2: nat, i2: int, s2: Side, q: nat, j: nat)
    requires f.Valid() && b1 > 0 && b2 > 0 && a1 < b1 * Pow(10, f.p + f.kmax)
    requires OnSide(f, a1, b1, q, j, s1) && OnSide(f, a2, b2, q, j, s2)
    ensures RoundExact(f, mode, neg, a1, b1, i1) == RoundExact(f, mode, neg, a2, b2, i2)
      <==> Moves(mode, neg, q, s1) == Moves(mode, neg, q, s2)
  {
    hide Pow, Quantum, RoundExact, Delivered, Moves, Tiny, OnSide, MulPow, Multiple;
    SideDelivers(f, mode, neg, a1, b1, q, j, s1);
    SideDelivers(f, mode, neg, a2, b2, q, j, s2);
    InexactSame(f, mode, neg, a1, b1, i1, a2, b2, i2);
    LowerEnd(f, a1, b1, q, j, s1);
    MultipleRises(q, Pow(10, j));
  }

  lemma MultipleRises(q: nat, t: nat)
    requires t > 0
    ensures Multiple(q, t) < Multiple(q + 1, t)
  {
    OneMore(q, t);
  }

  /** A unit that begins out of range holds no value in range. */
  lemma LowerEnd(f: Format, a: nat, b: nat, q: nat, j: nat, s: Side)
    requires f.Valid() && b > 0 && OnSide(f, a, b, q, j, s) && a < b * Pow(10, f.p + f.kmax)
    ensures Multiple(q, Pow(10, j)) < Pow(10, f.p + f.kmax)
  {
    hide Pow;
    Between(b, Multiple(q, Pow(10, j)), a, Pow(10, f.p + f.kmax));
  }

  lemma Between(b: nat, x: nat, a: nat, y: nat)
    requires b * x <= a < b * y
    ensures x < y
  {
    if y <= x { MulMono(y, x, b); }
  }

  /* ---- Values on either side of a number of p digits ---- */

  /** The unit that ends at q * 10^j, and the one that begins there. */
  function UnitBelow(f: Format, q: nat, j: nat): (u: (nat, nat))
    requires f.Valid() && 0 < q <= Pow(10, f.p)
  {
    if q == Pow(10, f.p - 1) && j > 0 then (Pow(10, f.p) - 1, j - 1) else (q - 1, j)
  }

  function UnitAbove(f: Format, q: nat, j: nat): (u: (nat, nat))
    requires f.Valid() && 0 < q <= Pow(10, f.p)
  {
    if q == Pow(10, f.p) then (Pow(10, f.p - 1), j + 1) else (q, j)
  }

  /** Is q * 10^j a number the two sides of which a mode does not tell apart? */
  ghost predicate Merges(f: Format, mode: Mode, neg: bool, q: nat, j: nat)
    requires f.Valid() && q > 0
  {
    Moves(mode, neg, q - 1, High)
    && (Multiple(q, Pow(10, j)) >= Pow(10, f.p + f.kmax)
        || (!Moves(mode, neg, q, Low) && !(j == 0 && q == Pow(10, f.p - 1))))
  }

  /** The unit below ends at q * 10^j. */
  lemma EndsThere(f: Format, q: nat, j: nat)
    requires f.Valid() && 0 < q <= Pow(10, f.p)
    ensures var u := UnitBelow(f, q, j);
      Multiple(u.0, Pow(10, u.1)) < Multiple(u.0 + 1, Pow(10, u.1)) == Multiple(q, Pow(10, j))
  {
    hide Pow, Multiple;
    if q == Pow(10, f.p - 1) && j > 0 { SameNumber(f, j - 1); }
    MultipleRises(UnitBelow(f, q, j).0, Pow(10, UnitBelow(f, q, j).1));
  }

  /** The unit above begins there. */
  lemma BeginsThere(f: Format, q: nat, j: nat)
    requires f.Valid() && 0 < q <= Pow(10, f.p)
    ensures var u := UnitAbove(f, q, j);
      Multiple(q, Pow(10, j)) == Multiple(u.0, Pow(10, u.1)) < Multiple(u.0 + 1, Pow(10, u.1))
  {
    hide Pow, Multiple;
    if q == Pow(10, f.p) { SameNumber(f, j); }
    MultipleRises(UnitAbove(f, q, j).0, Pow(10, UnitAbove(f, q, j).1));
  }

  /** The least number of a decade, as the end of the decade below. */
  lemma SameNumber(f: Format, j: nat)
    requires f.Valid()
    ensures Multiple(Pow(10, f.p), Pow(10, j)) == Multiple(Pow(10, f.p - 1), Pow(10, j + 1))
  {
    TenMore(f.p - 1);
    TenMore(j);
    hide *;
    TenShifted(Pow(10, f.p - 1), Pow(10, j));
  }

  lemma TenShifted(x: nat, t: nat)
    ensures Multiple(10 * x, t) == Multiple(x, 10 * t)
  {}

  /** Every mode treats the units as if they were of one size, but for tininess at 10^Emin. */
  lemma UnitsMove(f: Format, mode: Mode, neg: bool, q: nat, j: nat)
    requires f.Valid() && 0 < q <= Pow(10, f.p) && (j == 0 || Pow(10, f.p - 1) <= q)
    ensures var (lo, i), (hi, k) := UnitBelow(f, q, j), UnitAbove(f, q, j);
      && Moves(mode, neg, lo, High) == Moves(mode, neg, q - 1, High)
      && Moves(mode, neg, hi, Low) == Moves(mode, neg, q, Low)
      && ((i == 0 && lo < Pow(10, f.p - 1)) == (k == 0 && hi < Pow(10, f.p - 1))
          <==> !(j == 0 && q == Pow(10, f.p - 1)))
  {
    TenMore(f.p - 1);
    TenMore(f.p - 2);
    hide Pow;
    FiveOut(Pow(10, f.p - 2));
  }

  lemma FiveOut(x: nat)
    ensures 10 * x % 5 == 0 && 10 * (10 * x) % 5 == 0 && 10 * x % 2 == 0 && 10 * (10 * x) % 2 == 0
  {
    DivModUnique(10 * x, 5, 2 * x, 0);
    DivModUnique(100 * x, 5, 20 * x, 0);
    DivModUnique(10 * x, 2, 5 * x, 0);
    DivModUnique(100 * x, 2, 50 * x, 0);
  }

  /** Close on either side of a number of p digits. */
  lemma BoundaryIff(f: Format, mode: Mode, neg: bool, a1: nat, b1: nat, i1: int, a2: nat, b2: nat, i2: int,
                    q: nat, j: nat)
    requires f.Valid() && b1 > 0 && b2 > 0 && a1 < b1 * Pow(10, f.p + f.kmax)
    requires 0 < q <= Pow(10, f.p) && (j == 0 || Pow(10, f.p - 1) <= q)
    requires var (lo, i), (hi, k) := UnitBelow(f, q, j), UnitAbove(f, q, j);
      OnSide(f, a1, b1, lo, i, High) && OnSide(f, a2, b2, hi, k, Low)
    ensures RoundExact(f, mode, neg, a1, b1, i1) == RoundExact(f, mode, neg, a2, b2, i2) <==> Merges(f, mode, neg, q, j)
  {
    hide Pow, Quantum, RoundExact, Delivered, Moves, Tiny, OnSide, MulPow, Multiple;
    EndsThere(f, q, j);
    BeginsThere(f, q, j);
    UnitsMove(f, mode, neg, q, j);
    var (lo, i) := UnitBelow(f, q, j);
    var (hi, k) := UnitAbove(f, q, j);
    hide UnitBelow, UnitAbove;
    SideDelivers(f, mode, neg, a1, b1, lo, i, High);
    SideDelivers(f, mode, neg, a2, b2, hi, k, Low);
    InexactSame(f, mode, neg, a1, b1, i1, a2, b2, i2);
    LowerEnd(f, a1, b1, lo, i, High);
  }

  /** The lower value close to a number of p digits, the upper one at it. */
  lemma UpperAt(f: Format, mode: Mode, neg: bool, a1: nat, b1: nat, i1: int, a2: nat, b2: nat, i2: int, q: nat, j: nat)
    requires f.Valid() && b1 > 0 && b2 > 0 && a1 < b1 * Pow(10, f.p + f.kmax)
    requires 0 < q <= Pow(10, f.p) && (j == 0 || Pow(10, f.p - 1) <= q)
    requires var (lo, i) := UnitBelow(f, q, j); OnSide(f, a1, b1, lo, i, High)
    requires a2 == b2 * Multiple(q, Pow(10, j))
    ensures RoundExact(f, mode, neg, a1, b1, i1) == RoundExact(f, mode, neg, a2, b2, i2)
      <==> Moves(mode, neg, q - 1, High) && Multiple(q, Pow(10, j)) >= Pow(10, f.p + f.kmax)
  {
    hide Pow, Quantum, RoundExact, Delivered, Moves, Tiny, Overflowed, OnSide, MulPow, Multiple, Normal, Flags;
    EndsThere(f, q, j);
    UnitsMove(f, mode, neg, q, j);
    var (lo, i) := UnitBelow(f, q, j);
    hide UnitBelow, UnitAbove;
    SideDelivers(f, mode, neg, a1, b1, lo, i, High);
    InexactResult(f, mode, neg, a1, b1, i1);
    FlagsAre(f, a1, b1);
    LowerEnd(f, a1, b1, lo, i, High);
    var n := Multiple(q, Pow(10, j));
    if n >= Pow(10, f.p + f.kmax) {
      MulMono(Pow(10, f.p + f.kmax), n, b2);
      BeyondTop(f, mode, neg, a2, b2, i2);
      if Tiny(f, a1, b1) { TinyBelowTop(f, mode, neg, a1, b1); }
    } else {
      NumberIsExact(f, mode, neg, a2, b2, i2, q, j);
    }
  }

  lemma NumberIsExact(f: Format, mode: Mode, neg: bool, a: nat, b: nat, ideal: int, q: nat, j: nat)
    requires f.Valid() && b > 0 && q <= Pow(10, f.p) && (j == 0 || Pow(10, f.p - 1) <= q)
    requires a == b * Multiple(q, Pow(10, j)) && Multiple(q, Pow(10, j)) < Pow(10, f.p + f.kmax)
    ensures RoundExact(f, mode, neg, a, b, ideal).raised == {}
  {
    hide RoundExact, Representable;
    NumberIsHeld(f, q, j);
    hide Pow, Multiple;
    RepresentableIsExact(f, mode, neg, a, b, ideal, Multiple(q, Pow(10, j)));
  }

  lemma NumberIsHeld(f: Format, q: nat, j: nat)
    requires f.Valid() && q <= Pow(10, f.p) && (j == 0 || Pow(10, f.p - 1) <= q)
    requires Multiple(q, Pow(10, j)) < Pow(10, f.p + f.kmax)
    ensures Representable(f, Multiple(q, Pow(10, j)))
  {
    TenMore(f.p - 1);
    TenMore(j);
    hide Pow;
    var n := Multiple(q, Pow(10, j));
    if q == Pow(10, f.p) {
      PlaceBelow(f, q, f.p, j);
      SameNumber(f, j);
      assert Written(f, n, Pow(10, f.p - 1), j + 1);
    } else {
      if j > 0 { PlaceBelow(f, q, f.p - 1, j); }
      assert Written(f, n, q, j);
    }
  }

  lemma PlaceBelow(f: Format, q: nat, n: nat, j: nat)
    requires f.Valid() && Pow(10, n) <= q && Multiple(q, Pow(10, j)) < Pow(10, f.p + f.kmax)
    ensures n + j < f.p + f.kmax
  {
    hide Pow;
    MulMono(Pow(10, n), q, Pow(10, j));
    PowAdd(10, n, j);
    if n + j >= f.p + f.kmax { PowMono(10, f.p + f.kmax, n + j); }
  }

  /** The lower value at a number of p digits, the upper one inexact: never the same. */
  lemma LowerAt(f: Format, mode: Mode, neg: bool, a1: nat, b1: nat, i1: int, a2: nat, b2: nat, i2: int, q: nat, j: nat)
    requires f.Valid() && b1 > 0 && b2 > 0 && a1 < b1 * Pow(10, f.p + f.kmax)
    requires q <= Pow(10, f.p) && (j == 0 || Pow(10, f.p - 1) <= q)
    requires a1 == b1 * Multiple(q, Pow(10, j)) && a2 % MulPow(b2, Quantum(f.p, a2, b2)) != 0
    ensures RoundExact(f, mode, neg, a1, b1, i1) != RoundExact(f, mode, neg, a2, b2, i2)
  {
    hide Pow, Quantum, RoundExact, MulPow, Delivered, Overflowed;
    MulCancel(Multiple(q, Pow(10, j)), Pow(10, f.p + f.kmax), b1);
    NumberIsExact(f, mode, neg, a1, b1, i1, q, j);
    InexactResult(f, mode, neg, a2, b2, i2);
  }

  /* ---- Close to a number of half units ---- */

  /** a1/b1 is at most, and a2/b2 at least, t half units of 10^j, not both equal it, and both are within a tenth
      of a half unit of it. */
  ghost predicate Near(a1: nat, b1: nat, a2: nat, b2: nat, t: nat, j: nat) {
    var u := Pow(10, j);
    && t > 0
    && b1 * ((50 * t - 5) * u) < 100 * a1 <= b1 * (50 * t * u)
    && b2 * (50 * t * u) <= 100 * a2 < b2 * ((50 * t + 5) * u)
    && !(At(a1, b1, t, j) && At(a2, b2, t, j))
  }

  ghost predicate At(a: nat, b: nat, t: nat, j: nat) {
    100 * a == b * (50 * t * Pow(10, j))
  }

  /** Does the mode treat the two sides alike? An odd number of half units is a midpoint; an even number is
      a number of p digits. */
  ghost predicate Alike(f: Format, mode: Mode, neg: bool, t: nat, j: nat, atLow: bool, atHigh: bool)
    requires f.Valid() && t > 0
  {
    var q := t / 2;
    if t % 2 == 1 then
      Moves(mode, neg, q, if atLow then Middle else Low) == Moves(mode, neg, q, if atHigh then Middle else High)
    else if atLow then false
    else if atHigh then Moves(mode, neg, q - 1, High) && Multiple(q, Pow(10, j)) >= Pow(10, f.p + f.kmax)
    else Merges(f, mode, neg, q, j)
  }

  /** The half units between which values are compared have no more than p digits. */
  ghost predicate OnGrid(f: Format, t: nat, j: nat)
    requires f.Valid()
  {
    t > 0 && t <= 2 * Pow(10, f.p) && (j == 0 || 2 * Pow(10, f.p - 1) <= t)
  }

  lemma InScale(b: nat, m: int, u: nat)
    ensures b * (m * u) == m * (b * u)
  {
    Commute(b, m, u);
  }

  lemma OddSides(f: Format, a1: nat, b1: nat, a2: nat, b2: nat, q: nat, j: nat)
    requires f.Valid() && b1 > 0 && b2 > 0 && Near(a1, b1, a2, b2, 2 * q + 1, j) && OnGrid(f, 2 * q + 1, j)
    ensures OnSide(f, a1, b1, q, j, if At(a1, b1, 2 * q + 1, j) then Middle else Low)
    ensures OnSide(f, a2, b2, q, j, if At(a2, b2, 2 * q + 1, j) then Middle else High)
  {
    hide Pow;
    OddScale(b1, q, Pow(10, j));
    OddScale(b2, q, Pow(10, j));
  }

  lemma OddScale(b: nat, q: nat, u: nat)
    requires u > 0
    ensures var d, x := b * u, q * (b * u);
      && b * (q * u) == x && b * ((q + 1) * u) == x + d && b * ((2 * q + 1) * u) == 2 * x + d
      && b * ((50 * (2 * q + 1) - 5) * u) == 100 * x + 45 * d && b * (50 * (2 * q + 1) * u) == 100 * x + 50 * d
      && b * ((50 * (2 * q + 1) + 5) * u) == 100 * x + 55 * d
      && (b > 0 ==> d > 0)
  {
    if b > 0 { MulPos(b, u); }
    InScale(b, q, u);
    InScale(b, q + 1, u);
    InScale(b, 2 * q + 1, u);
    InScale(b, 50 * (2 * q + 1) - 5, u);
    InScale(b, 50 * (2 * q + 1), u);
    InScale(b, 50 * (2 * q + 1) + 5, u);
    Spread(q, b * u);
  }

  lemma Spread(q: nat, d: nat)
    ensures (q + 1) * d == q * d + d && (2 * q + 1) * d == 2 * (q * d) + d
    ensures (50 * (2 * q + 1) - 5) * d == 100 * (q * d) + 45 * d && 50 * (2 * q + 1) * d == 100 * (q * d) + 50 * d
    ensures (50 * (2 * q + 1) + 5) * d == 100 * (q * d) + 55 * d
  {}

  lemma EvenScale(b: nat, q: nat, u: nat)
    requires u > 0 && q > 0
    ensures var d, x := b * u, q * (b * u);
      && b * (q * u) == x && b * ((q - 1) * u) == x - d && b * ((q + 1) * u) == x + d
      && b * ((2 * q + 1) * u) == 2 * x + d && b * ((2 * q - 1) * u) == 2 * x - d
      && b * ((50 * (2 * q) - 5) * u) == 100 * x - 5 * d && b * (50 * (2 * q) * u) == 100 * x
      && b * ((50 * (2 * q) + 5) * u) == 100 * x + 5 * d
      && (b > 0 ==> d > 0)
  {
    if b > 0 { MulPos(b, u); }
    InScale(b, q, u);
    InScale(b, q - 1, u);
    InScale(b, q + 1, u);
    InScale(b, 2 * q + 1, u);
    InScale(b, 2 * q - 1, u);
    InScale(b, 50 * (2 * q) - 5, u);
    InScale(b, 50 * (2 * q), u);
    InScale(b, 50 * (2 * q) + 5, u);
    SpreadEven(q, b * u);
  }

  lemma SpreadEven(q: nat, d: nat)
    ensures (q - 1) * d == q * d - d && (q + 1) * d == q * d + d
    ensures (2 * q + 1) * d == 2 * (q * d) + d && (2 * q - 1) * d == 2 * (q * d) - d
    ensures (50 * (2 * q) - 5) * d == 100 * (q * d) - 5 * d && 50 * (2 * q) * d == 100 * (q * d)
    ensures (50 * (2 * q) + 5) * d == 100 * (q * d) + 5 * d
  {}

  /** The last tenth of a half unit below q * 10^j lies in the upper half of the unit that ends there. */
  lemma JustBelow(f: Format, a: nat, b: nat, q: nat, j: nat)
    requires f.Valid() && b > 0 && 0 < q && OnGrid(f, 2 * q, j)
    requires b * ((50 * (2 * q) - 5) * Pow(10, j)) < 100 * a < b * (50 * (2 * q) * Pow(10, j))
    ensures var u := UnitBelow(f, q, j); OnSide(f, a, b, u.0, u.1, High)
  {
    hide Pow, OnSide;
    EvenScale(b, q, Pow(10, j));
    if q == Pow(10, f.p - 1) && j > 0 {
      TenMore(f.p - 1);
      TenMore(j - 1);
      EvenScale(b, Pow(10, f.p), Pow(10, j - 1));
      Tenfold(b, q, Pow(10, j - 1));
      EndOfUnit(f, a, b, Pow(10, f.p), j - 1, b * Pow(10, j - 1), Pow(10, f.p) * (b * Pow(10, j - 1)));
    } else {
      EndOfUnit(f, a, b, q, j, b * Pow(10, j), q * (b * Pow(10, j)));
    }
  }

  /** Less than half a unit below its end. */
  lemma EndOfUnit(f: Format, a: nat, b: nat, q: nat, j: nat, d: nat, x: nat)
    requires f.Valid() && 0 < q <= Pow(10, f.p) && (j == 0 || Pow(10, f.p - 1) < q)
    requires b * (q * Pow(10, j)) == x && b * ((q - 1) * Pow(10, j)) == x - d
    requires b * ((2 * q - 1) * Pow(10, j)) == 2 * x - d && 2 * x - d < 2 * a < 2 * x
    ensures OnSide(f, a, b, q - 1, j, High)
  {
    hide Pow;
    assert q - 1 + 1 == q && 2 * (q - 1) + 1 == 2 * q - 1;
  }

  lemma Tenfold(b: nat, q: nat, u: nat)
    ensures b * (10 * u) == 10 * (b * u) && q * (10 * (b * u)) == 10 * q * (b * u)
  {}

  /** The first tenth of a half unit above q * 10^j lies in the lower half of the unit that begins there. */
  lemma JustAbove(f: Format, a: nat, b: nat, q: nat, j: nat)
    requires f.Valid() && b > 0 && 0 < q && OnGrid(f, 2 * q, j)
    requires b * (50 * (2 * q) * Pow(10, j)) < 100 * a < b * ((50 * (2 * q) + 5) * Pow(10, j))
    ensures var u := UnitAbove(f, q, j); OnSide(f, a, b, u.0, u.1, Low)
  {
    hide Pow, OnSide;
    EvenScale(b, q, Pow(10, j));
    if q == Pow(10, f.p) {
      TenMore(f.p - 1);
      NextDecade(f, a, b, Pow(10, f.p - 1), j, b * Pow(10, j), q * (b * Pow(10, j)));
    } else {
      StartOfUnit(f, a, b, q, j, b * Pow(10, j), q * (b * Pow(10, j)));
    }
  }

  /** Where the next decade begins the unit is ten times as wide. */
  lemma NextDecade(f: Format, a: nat, b: nat, n: nat, j: nat, d: nat, x: nat)
    requires f.Valid() && n == Pow(10, f.p - 1) && d == b * Pow(10, j) && x == 10 * n * d
    requires 100 * x < 100 * a < 100 * x + 5 * d
    ensures OnSide(f, a, b, n, j + 1, Low)
  {
    PowMono(10, f.p - 1, f.p);
    TenMore(j);
    hide Pow, OnSide;
    EvenScale(b, n, Pow(10, j + 1));
    Tenfold(b, n, Pow(10, j));
    StartOfUnit(f, a, b, n, j + 1, 10 * d, x);
  }

  /** Less than half a unit above its start. */
  lemma StartOfUnit(f: Format, a: nat, b: nat, q: nat, j: nat, d: nat, x: nat)
    requires f.Valid() && 0 < q < Pow(10, f.p) && (j == 0 || Pow(10, f.p - 1) <= q)
    requires b * (q * Pow(10, j)) == x && b * ((q + 1) * Pow(10, j)) == x + d
    requires b * ((2 * q + 1) * Pow(10, j)) == 2 * x + d && 2 * x < 2 * a < 2 * x + d
    ensures OnSide(f, a, b, q, j, Low)
  {
    hide Pow;
  }

  /** Near a number of half units, one given mode gives the same result on both sides exactly when it treats
      them alike. */
  lemma NearIff(f: Format, mode: Mode, neg: bool, a1: nat, b1: nat, i1: int, a2: nat, b2: nat, i2: int, t: nat, j: nat)
    requires f.Valid() && b1 > 0 && b2 > 0 && a1 < b1 * Pow(10, f.p + f.kmax)
    requires Near(a1, b1, a2, b2, t, j) && OnGrid(f, t, j)
    ensures RoundExact(f, mode, neg, a1, b1, i1) == RoundExact(f, mode, neg, a2, b2, i2)
      <==> Alike(f, mode, neg, t, j, At(a1, b1, t, j), At(a2, b2, t, j))
  {
    hide Pow, RoundExact, OnSide, Moves, Merges, Quantum, UnitBelow, UnitAbove, MulPow;
    var q := t / 2;
    if t % 2 == 1 {
      OddSides(f, a1, b1, a2, b2, q, j);
      SameUnitIff(f, mode, neg, a1, b1, i1, if At(a1, b1, t, j) then Middle else Low,
                  a2, b2, i2, if At(a2, b2, t, j) then Middle else High, q, j);
    } else {
      if !At(a1, b1, t, j) { JustBelow(f, a1, b1, q, j); }
      if !At(a2, b2, t, j) { JustAbove(f, a2, b2, q, j); }
      if At(a1, b1, t, j) {
        AtNumber(a1, b1, q, j);
        var u := UnitAbove(f, q, j);
        SideDelivers(f, mode, neg, a2, b2, u.0, u.1, Low);
        LowerAt(f, mode, neg, a1, b1, i1, a2, b2, i2, q, j);
      } else if At(a2, b2, t, j) {
        AtNumber(a2, b2, q, j);
        UpperAt(f, mode, neg, a1, b1, i1, a2, b2, i2, q, j);
      } else {
        BoundaryIff(f, mode, neg, a1, b1, i1, a2, b2, i2, q, j);
      }
    }
  }

  lemma AtNumber(a: nat, b: nat, q: nat, j: nat)
    requires At(a, b, 2 * q, j)
    ensures a == b * Multiple(q, Pow(10, j))
  {
    hide Pow;
    InScale(b, q, Pow(10, j));
    InScale(b, 50 * (2 * q), Pow(10, j));
    SpreadEven(q, b * Pow(10, j));
  }
}
