/** Adding something small to a long coefficient: what matters is whether the sum leaves the
    coefficient's last half unit. */
module SameHalf {
  import opened Arith
  import opened Digits
  import opened Rounding
  import opened Sticky
  import opened ExactSum
  import opened Separation
  import opened OneMode

  /** The place of half a unit: below the last of p digits, or below Etiny if that is higher. */
  function HalfPlace(f: Format, c: nat, e: int): nat {
    Max(Max(NumDigits(c) - 1 - f.p, f.etiny - 1 - e), 0)
  }

  function HalfUnit(f: Format, c: nat, e: int): (w: nat)
    ensures w > 0
  {
    5 * Pow(10, HalfPlace(f, c, e))
  }

  /** How many whole half units there are. */
  function HalfCount(f: Format, c: nat, e: int): nat {
    QuotientNat(c, HalfUnit(f, c, e));
    c / HalfUnit(f, c, e)
  }

  /** Adding c2 * 10^e2 to c1 * 10^e1 carries out of its last half unit, or subtracting it borrows from
      above although the half unit is not empty. */
  predicate Crosses(f: Format, same: bool, c1: nat, e1: int, c2: nat, e2: int)
    requires e2 <= e1
  {
    var w := HalfUnit(f, c1, e1);
    var low := Aligned(c1 % w, e1, e2);
    if same then low + c2 >= Aligned(w, e1, e2) else 0 < low <= c2
  }

  /** The lesser of the sum and its stand-in is below 10^(Emax + 1). */
  ghost predicate Reachable(f: Format, same: bool, c1: nat, e1: int, c2: nat, e2: int)
    requires e2 <= e1
  {
    if same then !TooBig(f, c1, e1) else Aligned(c1, e1, e2) > c2 && !TooBig(f, Aligned(c1, e1, e2) - c2, e2)
  }

  /** An addend that is nothing against a tenth of the half unit, and less than the coefficient itself. */
  ghost predicate Slight(f: Format, c1: nat, e1: int, c: nat, e: int) {
    && NumDigits(c1) > f.p + 2 && e <= e1 && 0 < c < Aligned(c1, e1, e)
    && c < Aligned(HalfUnit(f, c1, e1) / 10, e1, e)
  }

  /** The magnitude of the sum, in units of the addend. */
  function Sum(same: bool, c1: nat, e1: int, c: nat, e: int): nat
    requires e <= e1 && c <= Aligned(c1, e1, e)
  {
    if same then Aligned(c1, e1, e) + c else Aligned(c1, e1, e) - c
  }

  /* ---- The half unit ---- */

  /** The parts of the coefficient: t half units and a rest. */
  lemma HalfUnits(f: Format, c: nat, e: int)
    requires f.Valid() && NumDigits(c) > f.p + 2
    ensures var w, h, t := HalfUnit(f, c, e), HalfPlace(f, c, e), c / HalfUnit(f, c, e);
      && h > 1 && w == 5 * Pow(10, h) == 10 * (w / 10) && w / 10 == 5 * Pow(10, h - 1)
      && t >= 0 && t * w + c % w == c && t < 2 * Pow(10, f.p) && f.etiny <= e + h + 1
      && (e + h + 1 == f.etiny || 2 * Pow(10, f.p - 1) <= t)
      && (h < f.etiny - e || c >= Pow(10, f.p + h))
  {
    assert c > 0;
    hide Pow, NumDigits;
    var w, h := HalfUnit(f, c, e), HalfPlace(f, c, e);
    NumDigitsBounds(c);
    TenTimes(5, Pow(10, h - 1));
    PowAdd(10, 1, h - 1);
    SmallPowers();
    DivModUnique(w, 10, 5 * Pow(10, h - 1), 0);
    QuotientNat(c, w);
    DivBounds(c, w);
    PowMono(10, NumDigits(c), f.p + h + 1);
    HalfPower(f.p + 1, h);
    DivLt(c, w, 2 * Pow(10, f.p));
    if e + h + 1 != f.etiny {
      HalfPower(f.p, h);
      DivGe(c, w, 2 * Pow(10, f.p - 1));
    }
  }

  lemma HalfPower(p: nat, h: nat)
    requires p > 0
    ensures Pow(10, p + h) == 2 * Pow(10, p - 1) * (5 * Pow(10, h))
  {
    PowAdd(10, p, h);
    var t, u := Pow(10, p - 1), Pow(10, h);
    assert Pow(10, p) == 10 * t;
    hide Pow;
    HalfArith(t, u);
  }

  lemma HalfArith(t: nat, u: nat)
    ensures 10 * t * u == 2 * t * (5 * u)
  {}

  lemma AlignedMono(x: nat, y: nat, e: int, base: int)
    requires base <= e && x <= y
    ensures Aligned(x, e, base) <= Aligned(y, e, base)
    ensures x < y ==> Aligned(x, e, base) < Aligned(y, e, base)
  {
    hide Pow;
    MulMono(x, y, Pow(10, e - base));
    if x < y { MulStrict(x, y, Pow(10, e - base)); }
  }

  /* ---- Sums that stay in their cell ---- */

  /** Where the sum lies relative to a multiple lo of some unit below c1. */
  lemma SumWithin(same: bool, c1: nat, e1: int, c: nat, e: int, lo: nat, w: nat)
    requires e <= e1 && c <= Aligned(c1, e1, e) && lo <= c1
    requires var r := Aligned(c1 - lo, e1, e);
      if same then 0 < r + c < Aligned(w, e1, e) else 0 < r - c < Aligned(w, e1, e)
    ensures Within(Sum(same, c1, e1, c, e), e, lo, w, e1)
  {
    hide Pow, Aligned;
    AlignedSum(lo, c1 - lo, e1, e);
    AlignedSum(lo, w, e1, e);
    var x := Sum(same, c1, e1, c, e);
    AlignedSelf(x, e);
    BelowAt(lo, e1, x, e, e);
    BelowAt(x, e, lo + w, e1, e);
  }

  /** A sum that does not cross lies in a fine cell that does not depend on the addend. */
  lemma StaysWithin(f: Format, same: bool, c1: nat, e1: int, c: nat, e: int)
    requires f.Valid() && Slight(f, c1, e1, c, e) && !Crosses(f, same, c1, e1, c, e)
    ensures var (lo, w, h) := Cell(f, same, c1, e1);
      Within(Sum(same, c1, e1, c, e), e, lo, w, e1) && FineCell(f, f.etiny - e1, lo, w, h)
  {
    hide Pow, Aligned, HalfUnit, HalfPlace, NumDigits;
    HalfUnits(f, c1, e1);
    var w := HalfUnit(f, c1, e1);
    AlignedMono(c1 % w, w, e1, e);
    if !same && c1 % w == 0 {
      AlignedZero(e1, e);
      BorrowCell(f, c1, e1);
      SumWithin(same, c1, e1, c, e, c1 - w / 10, w / 10);
    } else {
      if !same { AlignedMono(1, c1 % w, e1, e); AlignedMono(0, 1, e1, e); }
      HalfCell(f, c1, e1);
      SumWithin(same, c1, e1, c, e, c1 - c1 % w, w);
    }
  }

  lemma AlignedZero(e: int, base: int)
    requires base <= e
    ensures Aligned(0, e, base) == 0
  {
    assert 0 * Pow(10, e - base) == 0;
  }

  /** The half unit itself or, when all that is borrowed comes from above, the tenth of one below it. */
  function Cell(f: Format, same: bool, c: nat, e: int): (r: (nat, nat, nat)) {
    var w, h := HalfUnit(f, c, e), HalfPlace(f, c, e);
    QuotientNat(c, w);
    if !same && c % w == 0 && c >= w / 10 && h > 0 then (c - w / 10, w / 10, h - 1) else (c - c % w, w, h)
  }

  lemma HalfCell(f: Format, c: nat, e: int)
    requires f.Valid() && NumDigits(c) > f.p + 2
    ensures var w := HalfUnit(f, c, e); c % w <= c && FineCell(f, f.etiny - e, c - c % w, w, HalfPlace(f, c, e))
  {
    hide Pow, HalfUnit, HalfPlace, NumDigits;
    HalfUnits(f, c, e);
    var w, h := HalfUnit(f, c, e), HalfPlace(f, c, e);
    DivModUnique(c - c % w, w, c / w, 0);
    DivModUnique(w, w, 1, 0);
    if c >= Pow(10, f.p + h) {
      HalfPower(f.p, h);
      DivGe(c, w, 2 * Pow(10, f.p - 1));
      MulMono(2 * Pow(10, f.p - 1), c / w, w);
    }
  }

  lemma BorrowCell(f: Format, c: nat, e: int)
    requires f.Valid() && NumDigits(c) > f.p + 2 && c > 0 && c % HalfUnit(f, c, e) == 0
    ensures var w := HalfUnit(f, c, e);
      w / 10 <= c && FineCell(f, f.etiny - e, c - w / 10, w / 10, HalfPlace(f, c, e) - 1) && HalfPlace(f, c, e) > 0
  {
    hide Pow, HalfUnit, HalfPlace, NumDigits;
    HalfUnits(f, c, e);
    var w, h, t := HalfUnit(f, c, e), HalfPlace(f, c, e), c / HalfUnit(f, c, e);
    var v := w / 10;
    MulMono(1, t, w);
    MulAssoc(t, 10, v);
    DivModUnique(c - v, v, 10 * t - 1, 0);
    DivModUnique(v, v, 1, 0);
    if c >= Pow(10, f.p + h) {
      PowAdd(10, 1, f.p + h - 1);
      SmallPowers();
      PowAdd(10, f.p, h - 1);
      PowMono(10, 1, f.p);
      MulMono(10, Pow(10, f.p), Pow(10, h - 1));
    }
  }

  /** Two slight addends of one sign, neither of which crosses, give the same result and flags. */
  lemma ReplaceWithinHalf(f: Format, mode: Mode, n1: bool, c1: nat, e1: int, n2: bool, c2: nat, e2: int, c3: nat,
                          e3: int)
    requires f.Valid() && Slight(f, c1, e1, c2, e2) && Slight(f, c1, e1, c3, e3)
    requires !Crosses(f, n1 == n2, c1, e1, c2, e2) && !Crosses(f, n1 == n2, c1, e1, c3, e3)
    ensures SumOutcome(f, mode, n1, c1, e1, n2, c2, e2) == SumOutcome(f, mode, n1, c1, e1, n2, c3, e3)
  {
    hide Pow, NumDigits, HalfUnit, HalfPlace, Crosses, Aligned, Within, FineCell, RoundScaled, SumOutcome, Cell;
    StaysWithin(f, n1 == n2, c1, e1, c2, e2);
    StaysWithin(f, n1 == n2, c1, e1, c3, e3);
    SumOfSlight(f, mode, n1, c1, e1, n2, c2, e2);
    SumOfSlight(f, mode, n1, c1, e1, n2, c3, e3);
    var (lo, w, h) := Cell(f, n1 == n2, c1, e1);
    SameCellScaled(f, mode, n1, Sum(n1 == n2, c1, e1, c2, e2), e2, Sum(n1 == n2, c1, e1, c3, e3), e3, lo, w, h, e1);
  }

  lemma SumOfSlight(f: Format, mode: Mode, n1: bool, c1: nat, e1: int, n2: bool, c2: nat, e2: int)
    requires f.Valid() && Slight(f, c1, e1, c2, e2)
    ensures SumOutcome(f, mode, n1, c1, e1, n2, c2, e2) == RoundScaled(f, mode, n1, Sum(n1 == n2, c1, e1, c2, e2), e2)
  {
    hide RoundScaled, SumOutcome, Aligned, HalfUnit, NumDigits;
    SumOfLarger(f, mode, n1, c1, e1, n2, c2, e2);
  }

  /* ---- Sums that leave it ---- */

  /** x * 10^e1 against a multiple of 10^k there, and against half of such a multiple. */
  lemma BoundaryPlace(c: nat, e: int, q: nat, k: nat, e1: int)
    ensures Below(c, e, q * Pow(10, k), e1) <==> Below(c, e, q, e1 + k)
    ensures Below(q * Pow(10, k), e1, c, e) <==> Below(q, e1 + k, c, e)
  {
    hide Pow, Aligned;
    var base := Min(e, e1);
    BelowAt(c, e, q, e1 + k, base);
    BelowAt(q, e1 + k, c, e, base);
    AlignedDown(q, e1 + k, e1, base);
    AlignedTo(q, e1, k);
    BelowAt(c, e, q * Pow(10, k), e1, base);
    BelowAt(q * Pow(10, k), e1, c, e, base);
    AlignedOf(q * Pow(10, k), e1, base);
  }

  lemma AlignedTo(q: nat, e: int, k: nat)
    ensures Aligned(q, e + k, e) == q * Pow(10, k)
  {}

  lemma SumAgainst(x: nat, e: int, m: nat, e1: int)
    requires e <= e1
    ensures Below(x, e, m, e1) <==> x < Aligned(m, e1, e)
    ensures Below(m, e1, x, e) <==> Aligned(m, e1, e) < x
  {
    hide Pow, Aligned;
    AlignedSelf(x, e);
  }

  /** t half units and a rest, and the half units around them, in units of the addend. */
  lemma AlignedHalves(c1: nat, e1: int, e: int, t: nat, w: nat, r: nat)
    requires e <= e1 && c1 == t * w + r && r < w
    ensures t * w >= 0 && (t + 1) * w >= 0 && (t + 2) * w >= 0
    ensures var u, v := Aligned(t * w, e1, e), Aligned(w, e1, e);
      && Aligned(c1, e1, e) == u + Aligned(r, e1, e) && Aligned((t + 1) * w, e1, e) == u + v
      && Aligned((t + 2) * w, e1, e) == u + v + v && Aligned(r, e1, e) < v
      && (t > 0 ==> (t - 1) * w >= 0 && Aligned((t - 1) * w, e1, e) == u - v)
  {
    MulMono(0, t, w);
    StepUp(t, w);
    hide Pow, Aligned;
    AlignedSum(t * w, r, e1, e);
    AlignedSum(t * w, w, e1, e);
    AlignedSum((t + 1) * w, w, e1, e);
    AlignedMono(r, w, e1, e);
    if t > 0 {
      StepUp(t - 1, w);
      MulMono(0, t - 1, w);
      AlignedSum((t - 1) * w, w, e1, e);
    }
  }

  lemma StepUp(t: int, w: int)
    ensures (t + 1) * w == t * w + w && (t + 2) * w == (t + 1) * w + w
  {}

  lemma HalfCountIs(f: Format, c: nat, e: int)
    ensures var w := HalfUnit(f, c, e);
      HalfCount(f, c, e) * w + c % w == c && 0 <= c % w < w && HalfCount(f, c, e) == c / w
  {
    hide HalfUnit;
    DivBounds(c, HalfUnit(f, c, e));
  }

  lemma SlightIs(f: Format, c1: nat, e1: int, c: nat, e: int)
    requires Slight(f, c1, e1, c, e)
    ensures NumDigits(c1) > f.p + 2 && e <= e1 && c < Aligned(c1, e1, e) && c < Aligned(HalfUnit(f, c1, e1) / 10, e1, e)
  {
    hide Aligned, HalfUnit, NumDigits;
  }

  lemma NoHalves(t: nat, w: nat, c: nat, r: nat)
    requires c == t * w + r
    ensures t == 0 ==> c == r
  {}

  /** What is not zero in one unit is not zero in another. */
  lemma RestThere(r: nat, e1: int, e2: int, e3: int)
    requires e2 <= e1 && e3 <= e1 && Aligned(r, e1, e2) > 0
    ensures Aligned(r, e1, e3) > 0
  {
    hide Pow;
    if r == 0 { AlignedZero(e1, e2); }
    MulMono(1, r, Pow(10, e1 - e3));
  }

  /* ---- The stand-in: one digit, three places down ---- */

  lemma DigitIsSlight(f: Format, c1: nat, e1: int, d: nat)
    requires f.Valid() && NumDigits(c1) > f.p + 2 && c1 > 0 && 0 < d < 10
    ensures Slight(f, c1, e1, d, e1 - 3) && !Crosses(f, true, c1, e1, d, e1 - 3)
    ensures !Crosses(f, false, c1, e1, d, e1 - 3)
  {
    hide Pow, HalfUnit, HalfPlace, NumDigits;
    HalfUnits(f, c1, e1);
    SmallPowers();
    var w := HalfUnit(f, c1, e1);
    DownThree(c1, e1);
    DownThree(w / 10, e1);
    DownThree(c1 % w, e1);
    DownThree(w, e1);
    hide Aligned;
  }

  lemma DownThree(c: nat, e: int)
    ensures Aligned(c, e, e - 3) == c * 1000
  {
    SmallPowers();
  }

  lemma DigitReachable(f: Format, c1: nat, e1: int, d: nat)
    requires c1 > 0 && d < 10 && !TooBig(f, c1, e1)
    ensures !TooBig(f, Aligned(c1, e1, e1 - 3) + d, e1 - 3)
  {
    DownThree(c1, e1);
    SmallPowers();
    hide Pow;
    MulMono(1, c1, Pow(10, Max(e1 - (f.emax + 1), 0)));
    assert e1 <= f.emax + 1;
    AlignedSelf(c1, e1);
    AlignedSelf(c1 * 1000 + d, e1 - 3);
    PowAdd(10, f.emax + 1 - e1, 3);
  }

  lemma StillTooBig(f: Format, c: nat, e: int, x: nat, e2: int)
    requires e2 <= e && TooBig(f, c, e) && x >= Aligned(c, e, e2)
    ensures TooBig(f, x, e2)
  {
    hide Pow, Aligned, Below;
    SumAgainst(x, e2, c, e);
    NotBelowSelf(f, c, e);
    if Below(x, e2, 1, f.emax + 1) { BelowOrder(x, e2, 1, f.emax + 1, c, e); }
  }

  lemma NotBelowSelf(f: Format, c: nat, e: int)
    ensures !Below(c, e, c, e)
  {}

  lemma BelowOrder(x: nat, ex: int, m: nat, e: int, c: nat, ec: int)
    requires Below(x, ex, m, e) && !Below(c, ec, m, e)
    ensures Below(x, ex, c, ec)
  {
    hide Pow, Aligned;
    var base := Min(e, Min(ex, ec));
    BelowAt(x, ex, m, e, base);
    BelowAt(c, ec, m, e, base);
    BelowAt(x, ex, c, ec, base);
  }

  /* ---- One mode at a time ---- */

  /** The number of half units that is crossed. */
  function CrossedAt(f: Format, same: bool, c1: nat, e1: int): nat {
    HalfCount(f, c1, e1) + if same then 1 else 0
  }

  /** Does the sum end exactly there? */
  predicate EndsAt(f: Format, same: bool, c1: nat, e1: int, c2: nat, e2: int)
    requires e2 <= e1
  {
    var w := HalfUnit(f, c1, e1);
    var low := Aligned(c1 % w, e1, e2);
    if same then low + c2 == Aligned(w, e1, e2) else low == c2
  }

  /** Does the mode tell a sum that crosses from one that falls short of it? */
  ghost predicate Tells(f: Format, mode: Mode, neg: bool, same: bool, c1: nat, e1: int, c2: nat, e2: int)
    requires f.Valid() && e2 <= e1
  {
    var t, j := CrossedAt(f, same, c1, e1), Max(e1 + HalfPlace(f, c1, e1) + 1 - f.etiny, 0);
    var ends := EndsAt(f, same, c1, e1, c2, e2);
    t > 0 && !Alike(f, mode, neg, t, j, !same && ends, same && ends)
  }

  /** Both sums lie within a tenth of a half unit of the boundary. */
  ghost predicate Beside(ca: nat, ea: int, cb: nat, eb: int, x: nat, v: nat, e1: int) {
    && v <= x && Below(x - v, e1, ca, ea) && !Below(x, e1, ca, ea)
    && !Below(cb, eb, x, e1) && Below(cb, eb, x + v, e1)
  }

  /** A comparison at e1 in hundredths of the place h + 1 above it. */
  lemma Hundredths(f: Format, c: nat, e: int, x: nat, m: nat, h: nat, e1: int)
    requires f.etiny <= e1 + h + 1 && 100 * x == m * Pow(10, h + 1)
    ensures var j := e1 + h + 1 - f.etiny; var a, b := UnitsNum(f, c, e), UnitsDen(f, e);
      && (Below(c, e, x, e1) <==> 100 * a < b * (m * Pow(10, j)))
      && (Below(x, e1, c, e) <==> b * (m * Pow(10, j)) < 100 * a)
  {
    hide Pow, Below, UnitsNum, UnitsDen;
    var j := e1 + h + 1 - f.etiny;
    BelowHundred(c, e, x, e1);
    BoundaryPlace(100 * c, e, m, h + 1, e1);
    BelowInUnits(f, 100 * c, e, m, j);
    HundredInUnits(f, c, e);
  }

  lemma BelowHundred(c: nat, e: int, x: nat, g: int)
    ensures Below(100 * c, e, 100 * x, g) <==> Below(c, e, x, g)
    ensures Below(100 * x, g, 100 * c, e) <==> Below(x, g, c, e)
  {
    hide Pow;
    var base := Min(e, g);
    HundredTimes(c, Pow(10, e - base));
    HundredTimes(x, Pow(10, g - base));
  }

  lemma HundredTimes(c: nat, t: nat)
    ensures 100 * c * t == 100 * (c * t)
  {}

  lemma HundredInUnits(f: Format, c: nat, e: int)
    ensures UnitsNum(f, 100 * c, e) == 100 * UnitsNum(f, c, e)
  {
    hide Pow;
    if e >= f.etiny { HundredTimes(c, Pow(10, e - f.etiny)); }
  }

  /** The boundary and its neighbours in hundredths of a unit. */
  lemma HundredHalves(t: nat, w: nat, h: nat)
    requires t > 0 && h > 1 && w == 5 * Pow(10, h)
    ensures var x, v, u := Multiple(t, w), w / 10, Pow(10, h + 1);
      v <= x && 100 * x == 50 * t * u && 100 * (x - v) == (50 * t - 5) * u && 100 * (x + v) == (50 * t + 5) * u
  {
    TenMore(h - 1);
    TenMore(h);
    hide Pow;
    var y := Pow(10, h - 1);
    DivModUnique(w, 10, 5 * y, 0);
    MulMono(1, t, w);
    HundredArith(t, y);
  }

  lemma HundredArith(t: nat, y: nat)
    ensures t * (50 * y) * 100 == 50 * t * (100 * y)
    ensures (50 * t - 5) * (100 * y) == 50 * t * (100 * y) - 500 * y
    ensures (50 * t + 5) * (100 * y) == 50 * t * (100 * y) + 500 * y
  {}

  /** Sums beside the boundary are alike in one mode exactly when the mode treats its two sides alike. */
  lemma BesideIff(f: Format, mode: Mode, neg: bool, c1: nat, e1: int, ca: nat, ea: int, cb: nat, eb: int, t: nat,
                  atLow: bool, atHigh: bool)
    requires f.Valid() && NumDigits(c1) > f.p + 2 && !TooBig(f, ca, ea) && t > 0
    requires var w, n := HalfUnit(f, c1, e1), HalfCount(f, c1, e1);
      && (t == n || t == n + 1) && Beside(ca, ea, cb, eb, Multiple(t, w), w / 10, e1)
      && (atLow <==> !Below(ca, ea, Multiple(t, w), e1)) && (atHigh <==> !Below(Multiple(t, w), e1, cb, eb))
      && !(atLow && atHigh)
    ensures RoundScaled(f, mode, neg, ca, ea) == RoundScaled(f, mode, neg, cb, eb)
      <==> Alike(f, mode, neg, t, Max(e1 + HalfPlace(f, c1, e1) + 1 - f.etiny, 0), atLow, atHigh)
  {
    hide Pow, Aligned, HalfUnit, HalfPlace, NumDigits, RoundExact, TooBig, Multiple, Below, UnitsNum, UnitsDen, Alike;
    HalfUnits(f, c1, e1);
    var w, h := HalfUnit(f, c1, e1), HalfPlace(f, c1, e1);
    var j := e1 + h + 1 - f.etiny;
    HundredHalves(t, w, h);
    var x, v := Multiple(t, w), w / 10;
    Hundredths(f, ca, ea, x, 50 * t, h, e1);
    Hundredths(f, cb, eb, x, 50 * t, h, e1);
    Hundredths(f, ca, ea, x - v, 50 * t - 5, h, e1);
    Hundredths(f, cb, eb, x + v, 50 * t + 5, h, e1);
    TooBigInUnits(f, ca, ea);
    NearIff(f, mode, neg, UnitsNum(f, ca, ea), UnitsDen(f, ea), ea - f.etiny,
            UnitsNum(f, cb, eb), UnitsDen(f, eb), eb - f.etiny, t, j);
  }

  lemma CarriedBeside(c1: nat, e1: int, c2: nat, e2: int, c3: nat, e3: int, t: nat, w: nat, r: nat)
    requires e2 <= e1 && e3 <= e1 && c1 == t * w + r && r < w && 0 < c2 < Aligned(w / 10, e1, e2) && 0 < c3
    requires Aligned(r, e1, e2) + c2 >= Aligned(w, e1, e2) && Aligned(r, e1, e3) + c3 < Aligned(w, e1, e3)
    ensures var x, y, m := Aligned(c1, e1, e2) + c2, Aligned(c1, e1, e3) + c3, Multiple(t + 1, w);
      && Beside(y, e3, x, e2, m, w / 10, e1) && Below(y, e3, m, e1)
      && (Below(m, e1, x, e2) <==> Aligned(r, e1, e2) + c2 != Aligned(w, e1, e2))
  {
    hide Pow, Aligned, Below;
    AlignedHalves(c1, e1, e2, t, w, r);
    AlignedHalves(c1, e1, e3, t, w, r);
    var m, v := Multiple(t + 1, w), w / 10;
    var x, y := Aligned(c1, e1, e2) + c2, Aligned(c1, e1, e3) + c3;
    assert m == t * w + w;
    RestAbove(r, w, v, e1, e2, c2);
    AlignedSum(m, v, e1, e2);
    AlignedSum(m, v, e1, e3);
    AlignedSum(w, v, e1, e3);
    AlignedMono(w - v, r, e1, e3);
    SumAgainst(y, e3, m, e1);
    SumAgainst(y, e3, m - v, e1);
    SumAgainst(x, e2, m, e1);
    SumAgainst(x, e2, m + v, e1);
  }

  lemma RestAbove(r: nat, w: nat, v: nat, e1: int, e2: int, c2: nat)
    requires e2 <= e1 && v <= w && c2 < Aligned(v, e1, e2) && Aligned(r, e1, e2) + c2 >= Aligned(w, e1, e2)
    ensures w - v < r
  {
    hide Pow, Aligned;
    AlignedSum(w, v, e1, e2);
    if r <= w - v { AlignedMono(r, w - v, e1, e2); }
  }

  lemma BorrowedBeside(c1: nat, e1: int, c2: nat, e2: int, c3: nat, e3: int, t: nat, w: nat, r: nat)
    requires e2 <= e1 && e3 <= e1 && c1 == t * w + r && r < w && c2 < Aligned(w / 10, e1, e2)
    requires c2 < Aligned(c1, e1, e2) && 0 < c3 <= Aligned(c1, e1, e3)
    requires 0 < Aligned(r, e1, e2) <= c2 && !(0 < Aligned(r, e1, e3) <= c3)
    ensures var x, y, m := Aligned(c1, e1, e2) - c2, Aligned(c1, e1, e3) - c3, Multiple(t, w);
      && t > 0 && Beside(x, e2, y, e3, m, w / 10, e1) && Below(m, e1, y, e3)
      && (Below(x, e2, m, e1) <==> Aligned(r, e1, e2) != c2)
  {
    hide Pow, Aligned, Below;
    AlignedHalves(c1, e1, e2, t, w, r);
    AlignedHalves(c1, e1, e3, t, w, r);
    RestThere(r, e1, e2, e3);
    NoHalves(t, w, c1, r);
    var m, v := Multiple(t, w), w / 10;
    var x, y := Aligned(c1, e1, e2) - c2, Aligned(c1, e1, e3) - c3;
    MulMono(1, t, w);
    RestBelow(r, v, e1, e2);
    AlignedSum(m, v, e1, e2);
    AlignedSum(m, v, e1, e3);
    AlignedMono(r, v, e1, e3);
    SumAgainst(x, e2, m, e1);
    SumAgainst(x, e2, m - v, e1);
    SumAgainst(y, e3, m, e1);
    SumAgainst(y, e3, m + v, e1);
  }

  lemma RestBelow(r: nat, v: nat, e1: int, e2: int)
    requires e2 <= e1 && Aligned(r, e1, e2) < Aligned(v, e1, e2)
    ensures r < v
  {
    hide Pow, Aligned;
    if v <= r { AlignedMono(v, r, e1, e2); }
  }

  /** If the lesser of two sums beside a boundary is too big, so is the greater. */
  lemma BesideTooBig(f: Format, ca: nat, ea: int, cb: nat, eb: int, x: nat, v: nat, e1: int)
    requires Beside(ca, ea, cb, eb, x, v, e1) && TooBig(f, ca, ea)
    ensures TooBig(f, cb, eb)
  {
    hide Pow, Aligned, Below;
    if Below(cb, eb, 1, f.emax + 1) {
      BelowOrder(cb, eb, 1, f.emax + 1, ca, ea);
      AcrossOrder(ca, ea, x, e1, cb, eb);
    }
  }

  lemma AcrossOrder(ca: nat, ea: int, m: nat, e: int, cb: nat, eb: int)
    requires !Below(m, e, ca, ea) && !Below(cb, eb, m, e)
    ensures !Below(cb, eb, ca, ea)
  {
    hide Pow, Aligned;
    var base := Min(e, Min(ea, eb));
    BelowAt(m, e, ca, ea, base);
    BelowAt(cb, eb, m, e, base);
    BelowAt(cb, eb, ca, ea, base);
  }

  /** A crossing addend and its stand-in when both sums are too big. */
  lemma CrossingTooBig(f: Format, mode: Mode, n1: bool, c1: nat, e1: int, n2: bool, c2: nat, e2: int, d: nat)
    requires f.Valid() && Slight(f, c1, e1, c2, e2) && c1 > 0 && 0 < d < 10
    requires Crosses(f, n1 == n2, c1, e1, c2, e2) && !Reachable(f, n1 == n2, c1, e1, c2, e2)
    ensures SumOutcome(f, mode, n1, c1, e1, n2, c2, e2) == SumOutcome(f, mode, n1, c1, e1, n2, d, e1 - 3)
  {
    hide Pow, Aligned, HalfUnit, HalfPlace, NumDigits, RoundScaled, SumOutcome, TooBig, Beside, Below, Multiple;
    var same, e3 := n1 == n2, e1 - 3;
    DigitIsSlight(f, c1, e1, d);
    SumOfSlight(f, mode, n1, c1, e1, n2, c2, e2);
    SumOfSlight(f, mode, n1, c1, e1, n2, d, e3);
    var x, y := Sum(same, c1, e1, c2, e2), Sum(same, c1, e1, d, e3);
    if same {
      StillTooBig(f, c1, e1, x, e2);
      StillTooBig(f, c1, e1, y, e3);
    } else {
      HalfCountIs(f, c1, e1);
      var w, n := HalfUnit(f, c1, e1), HalfCount(f, c1, e1);
      BorrowedBeside(c1, e1, c2, e2, d, e3, n, w, c1 % w);
      BesideTooBig(f, x, e2, y, e3, Multiple(n, w), w / 10, e1);
    }
    TooBigOverflows(f, mode, n1, x, e2);
    TooBigOverflows(f, mode, n1, y, e3);
  }

  /** A crossing addend and its stand-in give the same sum in one given mode exactly when the mode does not
      tell them apart. */
  lemma CrossingIff(f: Format, mode: Mode, n1: bool, c1: nat, e1: int, n2: bool, c2: nat, e2: int, d: nat)
    requires f.Valid() && Slight(f, c1, e1, c2, e2) && c1 > 0 && 0 < d < 10
    requires Crosses(f, n1 == n2, c1, e1, c2, e2) && Reachable(f, n1 == n2, c1, e1, c2, e2)
    ensures SumOutcome(f, mode, n1, c1, e1, n2, d, e1 - 3) == SumOutcome(f, mode, n1, c1, e1, n2, c2, e2)
      <==> !Tells(f, mode, n1, n1 == n2, c1, e1, c2, e2)
    ensures CrossedAt(f, n1 == n2, c1, e1) > 0
  {
    hide Pow, Aligned, HalfUnit, HalfPlace, NumDigits, RoundScaled, SumOutcome, TooBig, Alike, Beside, Below, Multiple;
    var same, e3 := n1 == n2, e1 - 3;
    DigitIsSlight(f, c1, e1, d);
    SumOfSlight(f, mode, n1, c1, e1, n2, c2, e2);
    SumOfSlight(f, mode, n1, c1, e1, n2, d, e3);
    HalfCountIs(f, c1, e1);
    var w, n := HalfUnit(f, c1, e1), HalfCount(f, c1, e1);
    var x, y := Sum(same, c1, e1, c2, e2), Sum(same, c1, e1, d, e3);
    var ends := EndsAt(f, same, c1, e1, c2, e2);
    if same {
      CarriedBeside(c1, e1, c2, e2, d, e3, n, w, c1 % w);
      DigitReachable(f, c1, e1, d);
      BesideIff(f, mode, n1, c1, e1, y, e3, x, e2, n + 1, false, ends);
    } else {
      BorrowedBeside(c1, e1, c2, e2, d, e3, n, w, c1 % w);
      BesideIff(f, mode, n1, c1, e1, x, e2, y, e3, n, ends, false);
    }
  }

  /** In one given mode a slight addend may be replaced by a digit three places down exactly when it does not
      cross, or the mode does not tell, or the sums are too big anyway. */
  lemma ReplaceInMode(f: Format, mode: Mode, n1: bool, c1: nat, e1: int, n2: bool, c2: nat, e2: int, d: nat)
    requires f.Valid() && Slight(f, c1, e1, c2, e2) && c1 > 0 && 0 < d < 10
    ensures var same := n1 == n2;
      SumOutcome(f, mode, n1, c1, e1, n2, d, e1 - 3) == SumOutcome(f, mode, n1, c1, e1, n2, c2, e2)
      <==> !(Crosses(f, same, c1, e1, c2, e2) && Reachable(f, same, c1, e1, c2, e2)
             && Tells(f, mode, n1, same, c1, e1, c2, e2))
  {
    hide Slight, Crosses, Reachable, SumOutcome, Tells;
    assert NumDigits(c1) > f.p + 2 && e2 <= e1 by { SlightIs(f, c1, e1, c2, e2); }
    if !Crosses(f, n1 == n2, c1, e1, c2, e2) {
      DigitIsSlight(f, c1, e1, d);
      ReplaceWithinHalf(f, mode, n1, c1, e1, n2, c2, e2, d, e1 - 3);
    } else if Reachable(f, n1 == n2, c1, e1, c2, e2) {
      CrossingIff(f, mode, n1, c1, e1, n2, c2, e2, d);
    } else {
      CrossingTooBig(f, mode, n1, c1, e1, n2, c2, e2, d);
    }
  }

  /** Some mode tells the two sides of every boundary apart. */
  lemma NotAlwaysAlike(f: Format, neg: bool, t: nat, j: nat, atLow: bool, atHigh: bool) returns (mode: Mode)
    requires f.Valid() && t > 0 && !(atLow && atHigh)
    ensures !Alike(f, mode, neg, t, j, atLow, atHigh)
  {
    hide Pow, Multiple;
    mode := if t % 2 == 0 then Down else if atLow then HalfDown else HalfUp;
  }

  /** A crossing sum is told from its stand-in by some mode. */
  lemma ToldInSomeMode(f: Format, neg: bool, same: bool, c1: nat, e1: int, c2: nat, e2: int) returns (mode: Mode)
    requires f.Valid() && Slight(f, c1, e1, c2, e2) && c1 > 0 && Crosses(f, same, c1, e1, c2, e2)
    requires Reachable(f, same, c1, e1, c2, e2)
    ensures Tells(f, mode, neg, same, c1, e1, c2, e2)
  {
    hide Alike, EndsAt, Slight, Crosses, Reachable, SumOutcome;
    assert e2 <= e1 by { SlightIs(f, c1, e1, c2, e2); }
    CrossingIff(f, Down, neg, c1, e1, neg == same, c2, e2, 1);
    var ends := EndsAt(f, same, c1, e1, c2, e2);
    mode := NotAlwaysAlike(f, neg, CrossedAt(f, same, c1, e1), Max(e1 + HalfPlace(f, c1, e1) + 1 - f.etiny, 0),
                           !same && ends, same && ends);
  }

  /** A slight addend may be replaced by a digit three places down, in every mode, exactly when it does
      not cross, or the sums are too big anyway. */
  lemma ReplaceIff(f: Format, n1: bool, c1: nat, e1: int, n2: bool, c2: nat, e2: int, d: nat)
    requires f.Valid() && Slight(f, c1, e1, c2, e2) && c1 > 0 && 0 < d < 10
    ensures (forall mode ::
        SumOutcome(f, mode, n1, c1, e1, n2, d, e1 - 3) == SumOutcome(f, mode, n1, c1, e1, n2, c2, e2))
      <==> !(Crosses(f, n1 == n2, c1, e1, c2, e2) && Reachable(f, n1 == n2, c1, e1, c2, e2))
  {
    hide Slight, Crosses, Reachable, SumOutcome, Tells;
    assert e2 <= e1 by { SlightIs(f, c1, e1, c2, e2); }
    var same := n1 == n2;
    if Crosses(f, same, c1, e1, c2, e2) && Reachable(f, same, c1, e1, c2, e2) {
      var mode := ToldInSomeMode(f, n1, same, c1, e1, c2, e2);
      ReplaceInMode(f, mode, n1, c1, e1, n2, c2, e2, d);
    } else {
      forall mode
        ensures SumOutcome(f, mode, n1, c1, e1, n2, d, e1 - 3) == SumOutcome(f, mode, n1, c1, e1, n2, c2, e2)
      {
        ReplaceInMode(f, mode, n1, c1, e1, n2, c2, e2, d);
      }
    }
  }
}
